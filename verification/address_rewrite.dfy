/**
 * The line filter of the address-rewriting proxy (problem_05): every match of
 * the pattern `(\b7[[:alnum:]]{25,34})(\s|$)` is replaced by a fixed address,
 * keeping the whitespace the second group captured.
 *
 * The pattern is modelled as an explicit left-to-right scanner over ASCII text.
 * A token starts at a '7' that sits on a word boundary; the maximal run of
 * alphanumeric characters after the '7' must be 25 to 34 long and be followed
 * by whitespace or by the end of the line. The scanner is written for any
 * replacement text `addr`; the filter uses the fixed address.
 */
module AddressRewrite {

  /** The address every qualifying token is replaced by. */
  const Replacement: string := "7YWHMfk9JZe0LM0g1ZauHuiSxhI"

  /** `[[:alnum:]]` */
  predicate IsAlnum(c: char) {
    'a' <= c <= 'z' || 'A' <= c <= 'Z' || '0' <= c <= '9'
  }

  /** A character of `\w` (restricted to ASCII). */
  predicate IsWord(c: char) {
    IsAlnum(c) || c == '_'
  }

  /** A character of `\s` (restricted to ASCII): tab, line feed, vertical tab, form feed, carriage return, space. */
  predicate IsSpace(c: char) {
    c == ' ' || '\t' <= c <= '\r'
  }

  /** Length of the longest prefix of `t` made of alphanumeric characters. */
  function AlnumRun(t: string): (n: nat)
    ensures n <= |t|
    ensures forall k | 0 <= k < n :: IsAlnum(t[k])
    ensures n < |t| ==> !IsAlnum(t[n])
  {
    if |t| == 0 || !IsAlnum(t[0]) then 0 else 1 + AlnumRun(t[1..])
  }

  /** `t` begins with a token that the pattern accepts, provided a word boundary precedes it. */
  predicate Qualifies(t: string) {
    && |t| > 0
    && t[0] == '7'
    && var n := AlnumRun(t[1..]);
       25 <= n <= 34 && (n + 1 == |t| || IsSpace(t[n + 1]))
  }

  /** The characters t[1..n+1] are all alphanumeric. */
  predicate AlnumSpan(t: string, n: nat)
    requires n + 1 <= |t|
  {
    forall k | 1 <= k <= n :: IsAlnum(t[k])
  }

  /**
   * The pattern as the regular-expression engine reads it: a '7', then SOME
   * number n of alphanumeric characters between 25 and 34 (the bounded
   * repetition may give characters back), then whitespace or the end.
   */
  predicate PatternMatchesAt(t: string) {
    && |t| > 0
    && t[0] == '7'
    && exists n: nat :: 25 <= n <= 34 && n + 1 <= |t| && AlnumSpan(t, n)
                        && (n + 1 == |t| || IsSpace(t[n + 1]))
  }

  /**
   * Rewrites `s`, replacing each token by `addr`. `boundary` tells whether a
   * word boundary precedes s[0]: s is at the start of the line or follows a
   * non-word character.
   */
  function Rewrite(s: string, boundary: bool, addr: string): string
    decreases |s|
  {
    if |s| == 0 then []
    else if boundary && Qualifies(s) then
      var e := 1 + AlnumRun(s[1..]);
      if e == |s| then addr
      else addr + [s[e]] + Rewrite(s[e + 1..], true, addr)
    else [s[0]] + Rewrite(s[1..], !IsWord(s[0]), addr)
  }

  /** `scan_and_update_line` */
  function ScanAndUpdateLine(line: string): string {
    Rewrite(line, true, Replacement)
  }

  /** A token starts at index i of s, where `boundary` describes what precedes s[0]. */
  predicate TokenAt(s: string, i: nat, boundary: bool) {
    && i < |s|
    && if i == 0 then boundary && Qualifies(s) else !IsWord(s[i - 1]) && Qualifies(s[i..])
  }

  /** Index just past the alphanumeric run of the token at i (where its whitespace, if any, is). */
  function TokenEnd(s: string, i: nat): (e: nat)
    requires i < |s|
    ensures i < e <= |s|
  {
    i + 1 + AlnumRun(s[i + 1..])
  }

  /** What the filter makes of the text from index e on, right after a replaced token. */
  function AfterToken(s: string, e: nat, addr: string): string
    requires e <= |s|
  {
    if e == |s| then [] else [s[e]] + Rewrite(s[e + 1..], true, addr)
  }

  /** `addr` is one whole token: a '7' followed only by 25 to 34 alphanumeric characters. */
  predicate IsWholeToken(addr: string) {
    Qualifies(addr) && |addr| == 1 + AlnumRun(addr[1..])
  }

  lemma RunUnique(u: string, n: nat)
    requires n <= |u|
    requires forall k | 0 <= k < n :: IsAlnum(u[k])
    requires n < |u| ==> !IsAlnum(u[n])
    ensures AlnumRun(u) == n
  {
  }

  /** The scanner accepts exactly what the pattern, with its give-back repetition, accepts. */
  lemma QualifiesIffPattern(t: string)
    ensures Qualifies(t) <==> PatternMatchesAt(t)
  {
    if Qualifies(t) {
      var n := AlnumRun(t[1..]);
      assert AlnumSpan(t, n) by {
        forall k | 1 <= k <= n ensures IsAlnum(t[k]) {
          assert t[k] == t[1..][k - 1];
        }
      }
    }
    if PatternMatchesAt(t) {
      var n: nat :| 25 <= n <= 34 && n + 1 <= |t| && AlnumSpan(t, n)
                    && (n + 1 == |t| || IsSpace(t[n + 1]));
      var u := t[1..];
      forall k | 0 <= k < n ensures IsAlnum(u[k]) {
        assert u[k] == t[k + 1];
      }
      RunUnique(u, n);
    }
  }

  /** A first character that does not start a token is copied. */
  lemma NonTokenCopied(s: string, boundary: bool, addr: string)
    requires |s| > 0 && !TokenAt(s, 0, boundary)
    ensures Rewrite(s, boundary, addr) == [s[0]] + Rewrite(s[1..], !IsWord(s[0]), addr)
  {
    assert s[0..] == s;
  }

  /** With no token anywhere, the text comes back unchanged. */
  lemma {:induction false} NoTokenUnchanged(s: string, boundary: bool, addr: string)
    requires forall i: nat | i < |s| :: !TokenAt(s, i, boundary)
    ensures Rewrite(s, boundary, addr) == s
    decreases |s|
  {
    if |s| > 0 {
      NonTokenCopied(s, boundary, addr);
      var u := s[1..];
      var b := !IsWord(s[0]);
      forall i: nat | i < |u| ensures !TokenAt(u, i, b) {
        assert !TokenAt(s, i + 1, boundary);
        assert u[i..] == s[i + 1..];
      }
      NoTokenUnchanged(u, b, addr);
      assert [s[0]] + u == s;
    }
  }

  /** A line in which no token starts is returned unchanged. */
  lemma NoTokenLineUnchanged(line: string)
    requires forall i: nat | i < |line| :: !TokenAt(line, i, true)
    ensures ScanAndUpdateLine(line) == line
  {
    NoTokenUnchanged(line, true, Replacement);
  }

  /** A token at the very start is replaced by the address. */
  lemma TokenAtStartReplaced(s: string, boundary: bool, addr: string)
    requires boundary && Qualifies(s)
    ensures Rewrite(s, boundary, addr) == addr + AfterToken(s, 1 + AlnumRun(s[1..]), addr)
  {
  }

  lemma FirstTokenAtStart(s: string, boundary: bool, addr: string)
    requires TokenAt(s, 0, boundary)
    ensures Rewrite(s, boundary, addr) == s[..0] + addr + AfterToken(s, TokenEnd(s, 0), addr)
  {
    TokenAtZero(s, boundary);
    TokenAtStartReplaced(s, boundary, addr);
    assert TokenEnd(s, 0) == 1 + AlnumRun(s[1..]);
    EmptyPrefix(s, addr, AfterToken(s, TokenEnd(s, 0), addr));
  }

  lemma TokenAtZero(s: string, boundary: bool)
    requires TokenAt(s, 0, boundary)
    ensures boundary && Qualifies(s)
  {
  }

  lemma EmptyPrefix(s: string, x: string, y: string)
    ensures s[..0] + x + y == x + y
  {
  }

  /** Tokens of s after its first character are the tokens of s[1..], one index earlier. */
  lemma ShiftedToken(s: string, boundary: bool, i: nat)
    requires 0 < i && TokenAt(s, i, boundary)
    requires forall j: nat | j < i :: !TokenAt(s, j, boundary)
    ensures TokenAt(s[1..], i - 1, !IsWord(s[0]))
    ensures var u, b := s[1..], !IsWord(s[0]);
            forall j: nat | j < i - 1 :: !TokenAt(u, j, b)
  {
    var u := s[1..];
    var b := !IsWord(s[0]);
    assert u[i - 1..] == s[i..];
    forall j: nat | j < i - 1 ensures !TokenAt(u, j, b) {
      assert !TokenAt(s, j + 1, boundary);
      assert u[j..] == s[j + 1..];
    }
  }

  lemma ShiftedTokenEnd(s: string, i: nat, addr: string)
    requires 0 < i < |s|
    ensures TokenEnd(s[1..], i - 1) + 1 == TokenEnd(s, i)
    ensures AfterToken(s[1..], TokenEnd(s, i) - 1, addr) == AfterToken(s, TokenEnd(s, i), addr)
  {
    var u := s[1..];
    var e := TokenEnd(s, i);
    assert u[i..] == s[i + 1..];
    if e < |s| {
      assert u[e..] == s[e + 1..];
    }
  }

  lemma ConsSlice(s: string, i: nat)
    requires 0 < i <= |s|
    ensures [s[0]] + s[1..][..i - 1] == s[..i]
  {
  }

  lemma ConsAssoc(c: char, x: string, y: string, z: string)
    ensures [c] + (x + y + z) == ([c] + x) + y + z
  {
  }

  /**
   * The first token is replaced by exactly `addr`: the text before it is
   * kept, the whitespace after it is kept, and scanning resumes after that
   * whitespace on a word boundary.
   */
  lemma {:induction false} FirstTokenReplaced(s: string, boundary: bool, i: nat, addr: string)
    requires TokenAt(s, i, boundary)
    requires forall j: nat | j < i :: !TokenAt(s, j, boundary)
    ensures Rewrite(s, boundary, addr) == s[..i] + addr + AfterToken(s, TokenEnd(s, i), addr)
    decreases i
  {
    if i == 0 {
      FirstTokenAtStart(s, boundary, addr);
    } else {
      var u := s[1..];
      var b := !IsWord(s[0]);
      NonTokenCopied(s, boundary, addr);
      ShiftedToken(s, boundary, i);
      FirstTokenReplaced(u, b, i - 1, addr);
      ShiftedTokenEnd(s, i, addr);
      var before, after := u[..i - 1], AfterToken(s, TokenEnd(s, i), addr);
      assert Rewrite(u, b, addr) == before + addr + after;
      ConsSlice(s, i);
      ConsAssoc(s[0], before, addr, after);
    }
  }

  /** The character a token ends on, if it does not end the line, is whitespace. */
  lemma TokenEndsOnSpace(s: string, boundary: bool, i: nat)
    requires TokenAt(s, i, boundary)
    ensures TokenEnd(s, i) < |s| ==> IsSpace(s[TokenEnd(s, i)])
  {
    assert s[i..][1..] == s[i + 1..];
  }

  /**
   * In a line, the first token is replaced by exactly the address; the text
   * before it is kept, and the whitespace character that ends it is kept.
   */
  lemma FirstTokenInLine(line: string, i: nat)
    requires TokenAt(line, i, true)
    requires forall j: nat | j < i :: !TokenAt(line, j, true)
    ensures var e := TokenEnd(line, i);
            && ScanAndUpdateLine(line) == line[..i] + Replacement + AfterToken(line, e, Replacement)
            && (e < |line| ==> IsSpace(line[e]) && AfterToken(line, e, Replacement)[0] == line[e])
  {
    FirstTokenReplaced(line, true, i, Replacement);
    TokenEndsOnSpace(line, true, i);
  }

  /** The fixed address is one whole token. */
  lemma ReplacementIsToken()
    ensures IsWholeToken(Replacement)
  {
    var t := Replacement[1..];
    forall k | 0 <= k < 26 ensures IsAlnum(t[k]) {
      assert t[k] == Replacement[k + 1];
    }
    RunUnique(t, 26);
  }

  /** Alphanumeric characters after a word character are copied one by one. */
  lemma {:induction false} AlnumPrefixCopied(u: string, n: nat, addr: string)
    requires n <= |u|
    requires forall k | 0 <= k < n :: IsAlnum(u[k])
    ensures Rewrite(u, false, addr) == u[..n] + Rewrite(u[n..], false, addr)
    decreases n
  {
    if n == 0 {
      assert u[0..] == u;
    } else {
      var v := u[1..];
      forall k | 0 <= k < n - 1 ensures IsAlnum(v[k]) {
        assert v[k] == u[k + 1];
      }
      AlnumPrefixCopied(v, n - 1, addr);
      assert v[n - 1..] == u[n..];
      assert [u[0]] + v[..n - 1] == u[..n];
    }
  }

  /** Rewriting what follows a word character keeps its leading alphanumeric run and the character ending it. */
  lemma RunPreserved(u: string, addr: string)
    ensures AlnumRun(Rewrite(u, false, addr)) == AlnumRun(u)
    ensures var n := AlnumRun(u);
            |Rewrite(u, false, addr)| == n <==> |u| == n
    ensures var n := AlnumRun(u);
            n < |u| ==> n < |Rewrite(u, false, addr)| && Rewrite(u, false, addr)[n] == u[n]
  {
    var n := AlnumRun(u);
    AlnumPrefixCopied(u, n, addr);
    var r := Rewrite(u, false, addr);
    if n == |u| {
      assert u[n..] == [];
      assert u[..n] == u;
    } else {
      var x := u[n];
      assert !IsAlnum(x);
      var w := u[n..];
      assert w[0] == x;
      assert Rewrite(w, false, addr) == [x] + Rewrite(w[1..], !IsWord(x), addr);
      assert r[n] == x;
      forall k | 0 <= k < n ensures IsAlnum(r[k]) {
        assert r[k] == u[k];
      }
      RunUnique(r, n);
    }
  }

  /** A whole-token address followed by whitespace qualifies again, with the same extent. */
  lemma AddressFollowedBySpace(addr: string, w: char, rest: string)
    requires IsWholeToken(addr) && IsSpace(w)
    ensures Qualifies(addr + [w] + rest)
    ensures AlnumRun((addr + [w] + rest)[1..]) == |addr| - 1
  {
    var out := addr + [w] + rest;
    var v := out[1..];
    var n := |addr| - 1;
    forall k | 0 <= k < n ensures IsAlnum(v[k]) {
      assert v[k] == addr[1..][k];
    }
    assert v[n] == w;
    RunUnique(v, n);
  }

  /** Rewriting with a whole-token address is idempotent. */
  lemma {:induction false} RewriteIdempotent(s: string, boundary: bool, addr: string)
    requires IsWholeToken(addr)
    ensures Rewrite(Rewrite(s, boundary, addr), boundary, addr) == Rewrite(s, boundary, addr)
    decreases |s|
  {
    if |s| == 0 {
      return;
    }
    if boundary && Qualifies(s) {
      var e := 1 + AlnumRun(s[1..]);
      if e < |s| {
        var w := s[e];
        var rest := Rewrite(s[e + 1..], true, addr);
        var out := addr + [w] + rest;
        assert Rewrite(s, boundary, addr) == out;
        AddressFollowedBySpace(addr, w, rest);
        assert out[|addr| + 1..] == rest;
        assert out[|addr|] == w;
        RewriteIdempotent(s[e + 1..], true, addr);
      }
    } else {
      var c := s[0];
      var b := !IsWord(c);
      var u := s[1..];
      var r := Rewrite(u, b, addr);
      var out := [c] + r;
      assert Rewrite(s, boundary, addr) == out;
      assert out[1..] == r;
      if boundary && c == '7' {
        RunPreserved(u, addr);
        assert !Qualifies(out);
      }
      RewriteIdempotent(u, b, addr);
    }
  }

  /** Applying the filter twice gives the same line as applying it once. */
  lemma ScanIdempotent(line: string)
    ensures ScanAndUpdateLine(ScanAndUpdateLine(line)) == ScanAndUpdateLine(line)
  {
    ReplacementIsToken();
    RewriteIdempotent(line, true, Replacement);
  }
}
