# Protohackers solutions: verified core

This project models the logic at the heart of three Protohackers servers written
in Rust, without their sockets, and proves what they promise.

- **Means to an end** (`problem_03`): each connection gets its own price store
  (`PriceDb`) that maps an i32 timestamp to an i32 price. Clients send 9-byte
  messages. `'I'` inserts a price. `'Q'` asks for the mean of the prices in an
  inclusive timestamp range. The mean is an i64 sum divided by the count with
  Rust's truncating `/`, and it is sent back as a big-endian i32.
  - `price_db.dfy` (module `PriceStore`) holds the store as a class with a map
    field. The query is the function `Average` over that map, and truncating
    division is written out.
  - The range, map and fold of `query` (problem_03/src/main.rs:27-31) are the
    functions `Sum` and `Count`. Both recurse over the integer interval
    `[lo, hi]` and carry no contract of their own. Their properties are
    lemmas: `CountPositiveIff`, `CountZeroSumZero`, `SumFitsInt64`,
    `SumAboveSmallest`, `SumBelowLargest`, `RangeSplit`, `EmptyRange` and
    `SingleTimestamp`.
  - `price_codec.dfy` (module `PriceCodec`) holds the byte codec, the message
    decoder, the meaning of a whole session (`Session`), and the read loop as a
    method (`Process`) proved against it.
- **Unusual database program** (`problem_04`): a key-value store. A request
  containing `=` stores what follows the first `=` under what precedes it.
  `version` is answered with `version=1`. Any other request looks up a key.
  - `kv_engine.dfy` (module `KeyValue`) holds `DbEngine` as a class with a map
    field. `ProcessRequest` is proved against the function `Respond`.
- **Mob in the middle** (`problem_05`): the proxy's line filter replaces every
  Boguscoin address matched by `(\b7[[:alnum:]]{25,34})(\s|$)` with a fixed
  address and keeps the whitespace that ended it.
  - `address_rewrite.dfy` (module `AddressRewrite`) writes the pattern as an
    explicit left-to-right scanner over ASCII text.
  - It proves the scanner's token test equal to the pattern's reading of
    `7[[:alnum:]]{25,34}(\s|$)` at a start position. The word boundary is part
    of `TokenAt`'s definition, and the leftmost, non-overlapping order of
    `replace_all` is part of `Rewrite`'s. It proves what is replaced and what is
    kept, and that the filter is idempotent.
  - `ScanAndUpdateLine` is `scan_and_update_line` (problem_05/src/main.rs:23-34).
    `Rewrite` is the `replace_all` scan (lines 29-31). `Qualifies` and
    `TokenAt` are the pattern of line 25. These members carry no contract of
    their own. Their properties are lemmas:
    - `QualifiesIffPattern` and `TokenEndsOnSpace` for the pattern;
    - `NoTokenUnchanged`, `FirstTokenReplaced` and `RewriteIdempotent` for `Rewrite`;
    - `NoTokenLineUnchanged`, `FirstTokenInLine` and `ScanIdempotent` for the line filter.
  - Lemmas that unfold one step of a definition serve only as proof helpers and have no row below. They are `TokenAtZero`, `TokenAtStartReplaced`, `NonTokenCopied`, `FirstTokenAtStart` and `ShiftedTokenEnd` here, and `SessionStops`, `SessionInserts` and `SessionAnswers` in `price_codec.dfy`.
- `wrappers.dfy` holds the `Option` type used for absent replies.

Regex reading used by the scanner: a `'7'` starts a match exactly when all of
these hold:
- it sits on a word boundary;
- the *maximal* run of alphanumerics after it is 25 to 34 long;
- that run is followed by whitespace or the end of the line.

If the pattern gave back characters to try a shorter run, the next character
would still be alphanumeric, and `(\s|$)` could not match it.
`AddressRewrite.QualifiesIffPattern` proves this reading equal to the
pattern's "some length from 25 to 34" wording. Matches do not overlap. After a
match the scan resumes behind the consumed whitespace, which is again a word
boundary.

## Model

| member | source | states |
|---|---|---|
| PriceStore.TruncDiv | problem_03/src/main.rs:37 | the quotient rounds toward zero: the remainder is smaller than the divisor in magnitude and has the sign of the dividend |
| PriceStore.CountPositiveIff | problem_03/src/main.rs:27-35 | the count of the range is positive exactly when some stored timestamp lies in the inclusive range |
| PriceStore.CountZeroSumZero | problem_03/src/main.rs:27-35 | a range that holds no price has sum 0 |
| PriceStore.CountAtMostWidth | problem_03/src/main.rs:27-31 | a range holds at most as many prices as it has timestamps |
| PriceStore.SumWithinInt32Multiples | problem_03/src/main.rs:30-31 | the sum of n i32 prices lies between n·i32::MIN and n·i32::MAX |
| PriceStore.SumFitsInt64 | problem_03/src/main.rs:27-31 | for any range of i32 timestamps the i64 accumulator of the fold never overflows |
| PriceStore.SumAboveSmallest | problem_03/src/main.rs:27-31 | a non-empty range holds a price whose count-fold multiple is at most the sum |
| PriceStore.SumBelowLargest | problem_03/src/main.rs:27-31 | a non-empty range holds a price whose count-fold multiple is at least the sum |
| PriceStore.TruncDivBetween | problem_03/src/main.rs:37 | if c·a ≤ s ≤ c·b then the truncated quotient s / c lies in [a, b] |
| PriceStore.Average | problem_03/src/main.rs:22-38 | 0 when min > max, 0 when no timestamp is in range; otherwise the truncated i64 sum over the count, which is no smaller than some in-range price and no larger than another |
| PriceStore.MeanBetweenExtremes | problem_03/src/main.rs:30-37 | the truncated mean of a non-empty range lies within the i32 range, between an in-range price and another, so the `as i32` cast loses nothing |
| PriceStore.RangeSplit | problem_03/src/main.rs:29-31 | sums and counts over two adjacent ranges add up to those of their union |
| PriceStore.EmptyRange | problem_03/src/main.rs:33-35 | a range with no stored timestamp has count 0 and sum 0 |
| PriceStore.SingleTimestamp | problem_03/src/main.rs:29 | both bounds are inclusive: the range [t, t] holds exactly the price at t, if any |
| PriceStore.SampleGap | problem_03/src/main.rs:84-91 | a range that avoids 100, 200 and 300 holds no price of the test data |
| PriceStore.SampleQueryOnePrice | problem_03/src/main.rs:84-90 | with prices 10, 20, 30 at 100, 200, 300 the query (150, 250) answers 20 |
| PriceStore.SampleRangeTwoPrices | problem_03/src/main.rs:91 | with the same data the range [200, 500] holds two prices summing to 50 |
| PriceStore.SampleQueryTwoPrices | problem_03/src/main.rs:91 | with the same data the query (200, 500) answers 25 |
| PriceStore.NegativeMeanTruncates | problem_03/src/main.rs:37 | the mean of -1 and -2 is -1, rounded toward zero and not down |
| PriceStore.PriceDb.constructor | problem_03/src/main.rs:12-16 | a new store holds no price |
| PriceStore.PriceDb.Insert | problem_03/src/main.rs:18-20 | the timestamp maps to the new price, replacing any earlier one; every other timestamp keeps its price |
| PriceStore.PriceDb.Query | problem_03/src/main.rs:22-25 | reads the store without changing it; answers 0 for min > max and on an empty store (tests at 95-106) |
| PriceCodec.Unsigned | problem_03/src/main.rs:48-49 | four bytes read most significant first give a value below 2^32 whose top bit is the top bit of byte 0 |
| PriceCodec.DecodeInt32 | problem_03/src/main.rs:48-49 | `i32::from_be_bytes`: negative exactly when the top bit of byte 0 is set; equal to the unsigned value or that value minus 2^32 |
| PriceCodec.Bits | problem_03/src/main.rs:56 | the two's-complement pattern of an i32 is below 2^32 and congruent to it modulo 2^32 |
| PriceCodec.EncodeInt32 | problem_03/src/main.rs:56 | `i32::to_be_bytes`: four bytes whose unsigned big-endian value is the two's-complement pattern of x |
| PriceCodec.DecodeEncodeInt32 | problem_03/src/main.rs:48-56 | decoding the encoding of any i32 gives it back |
| PriceCodec.EncodeDecodeInt32 | problem_03/src/main.rs:48-56 | encoding the decoding of any four bytes gives them back |
| PriceCodec.DecodeMessage | problem_03/src/main.rs:46-60 | a 9-byte message decodes to nothing exactly when byte 0 is neither 'I' nor 'Q', and to an insert exactly when it is 'I'. The field values, bytes 1..4 and 5..8 read as big-endian i32, are pinned by `PriceCodec.EncodeDecodeMessage` |
| PriceCodec.EncodeMessage | problem_03/src/main.rs:46-54 | the client's side of the format: every message is 9 bytes |
| PriceCodec.DecodeEncodeMessage | problem_03/src/main.rs:46-54 | every message survives encoding and decoding |
| PriceCodec.EncodeDecodeMessage | problem_03/src/main.rs:46-54 | every 9-byte message with a known type byte is the encoding of what it decodes to: the type byte, then the first field as bytes 1..4 and the second as bytes 5..8, big-endian |
| PriceCodec.Session | problem_03/src/main.rs:41-66 | the reply stream is a whole number of 4-byte answers, and at most one answer per 9 input bytes |
| PriceCodec.UnknownTypeEndsSession | problem_03/src/main.rs:58-60 | a message with another type byte ends the session: the store stays and nothing after it is answered |
| PriceCodec.QueryAnswered | problem_03/src/main.rs:52-57 | a query is answered with the big-endian mean of the current store and does not change it |
| PriceCodec.InsertSilent | problem_03/src/main.rs:47-51 | an insert writes nothing and the rest of the session sees the updated store |
| PriceCodec.Process | problem_03/src/main.rs:41-66 | reading messages into a fresh store writes exactly the answers `Session` describes for the input |
| KeyValue.SplitOnce | problem_04/src/main.rs:14 | no split exactly when there is no '='; otherwise key + "=" + value is the request and the key holds no '=' |
| KeyValue.FirstEqualsUnique | problem_04/src/main.rs:14 | the first '=' of a string is at one position only, so the split is determined |
| KeyValue.SplitJoin | problem_04/src/main.rs:14-15 | a key without '=' and any value (even one holding '=') split back into themselves |
| KeyValue.SplitAtFirstEquals | problem_04/src/main.rs:14-15 | "a=b=c" stores "b=c" under "a"; "=x" stores "x" under the empty key |
| KeyValue.Respond | problem_04/src/main.rs:13-26 | a request without '=' leaves the store alone; there is a reply exactly when the request has no '=' and is `version` or a stored key |
| KeyValue.InsertSilent | problem_04/src/main.rs:15 | an insert has no reply and changes only the entry for its key |
| KeyValue.VersionAlways | problem_04/src/main.rs:17-18 | `version` is answered `version=1` whatever the store holds, and the store is unchanged |
| KeyValue.InsertThenLookup | problem_04/src/main.rs:15-21 | after storing a value, looking up its key answers `key=value` |
| KeyValue.LastWriteWins | problem_04/src/main.rs:15 | after two inserts under one key, a lookup answers the second value |
| KeyValue.DbEngine.constructor | problem_04/src/main.rs:10-12 | a new engine has an empty store |
| KeyValue.DbEngine.ProcessRequest | problem_04/src/main.rs:13-26 | the new store and the reply are those of `Respond`; an insert is never answered and a non-insert never changes the store |
| KeyValue.BasicScenario | problem_04/src/main.rs:49-53 | storing `foo=bar` and then asking `foo` answers `foo=bar` |
| KeyValue.OverwriteScenario | problem_04/src/main.rs:55-60 | storing `foo=bar` and then `foo=baz`, asking `foo` answers `foo=baz` |
| KeyValue.SpecialScenario | problem_04/src/main.rs:62-66 | after storing `version=2`, asking `version` still answers `version=1` |
| AddressRewrite.AlnumRun | problem_05/src/main.rs:25 | the length of the longest all-alphanumeric prefix: every character before it is alphanumeric and the one at it is not |
| AddressRewrite.RunUnique | problem_05/src/main.rs:25 | any length with alphanumerics before it and a non-alphanumeric at it is the maximal run |
| AddressRewrite.QualifiesIffPattern | problem_05/src/main.rs:25 | the maximal-run test accepts a string exactly when `7[[:alnum:]]{n}(\s|$)` matches at its start for some n from 25 to 34 |
| AddressRewrite.NoTokenUnchanged | problem_05/src/main.rs:28-33 | text in which no position starts a token is returned unchanged |
| AddressRewrite.NoTokenLineUnchanged | problem_05/src/main.rs:28-33 | a line with no qualifying token is returned as it is |
| AddressRewrite.ShiftedToken | problem_05/src/main.rs:25 | after copying one non-token character, the first token is the same token, one position earlier |
| AddressRewrite.FirstTokenReplaced | problem_05/src/main.rs:29-31 | the text before the first token is kept, the token becomes exactly the address, and its whitespace and the rewritten rest follow |
| AddressRewrite.TokenEndsOnSpace | problem_05/src/main.rs:25 | a token ends at the end of the text or on a whitespace character |
| AddressRewrite.FirstTokenInLine | problem_05/src/main.rs:29-31 | in a line, everything before the first token is kept, the token becomes `7YWHMfk9JZe0LM0g1ZauHuiSxhI`, and the whitespace after it is kept |
| AddressRewrite.ReplacementIsToken | problem_05/src/main.rs:30 | the fixed address is itself one whole qualifying token |
| AddressRewrite.AlnumPrefixCopied | problem_05/src/main.rs:25 | alphanumerics after a word character are never the start of a token and are copied |
| AddressRewrite.RunPreserved | problem_05/src/main.rs:25 | rewriting after a word character keeps the leading alphanumeric run and the character that ends it |
| AddressRewrite.AddressFollowedBySpace | problem_05/src/main.rs:25-30 | an inserted address followed by its kept whitespace qualifies again, with the same extent |
| AddressRewrite.RewriteIdempotent | problem_05/src/main.rs:25-31 | rewriting with a whole-token address twice gives the same text as once |
| AddressRewrite.ScanIdempotent | problem_05/src/main.rs:23-34 | filtering a line twice gives the same line as filtering it once |

## Left out

- Sockets, the accept loops, `read_exact`, `write_all` and `shutdown` (`problem_03`, `problem_05`), and the UDP receive/send loop (`problem_04`): I/O plumbing. `PriceCodec.Process` takes the bytes a client sends as a sequence and returns the bytes written back.
- A failed `write_all` in `process` ends that session early. The model assumes every write succeeds.
- `handle_client_conn` in `problem_05`: it connects upstream and races two proxy directions, which is networking and concurrency. Only the line filter it applies is modelled.
- UTF-8 decoding of UDP datagrams in `problem_04`: requests are modelled as already-decoded strings. A datagram that is not UTF-8 gets no reply and does not reach `process_request`.
- Unicode meaning of `\b` and `\s`: the scanner treats characters outside ASCII as neither word characters nor whitespace, while the pattern's `\b` (through Unicode `\w`) and `\s` are Unicode-aware. So a non-ASCII letter (such as `é`) right before the `7` blocks the match in the source but not in the model, and U+0085 or U+00A0 after the run ends a token in the source but not in the model. `[[:alnum:]]` is ASCII-only in the pattern as well, so `IsAlnum` matches it on every input.
- `problem_00` (a byte echo loop) and `problem_01` (prime testing on `f64`, and request parsing): I/O, floating point and a JSON library (`serde_json`).
- PriceStore.Sum and PriceStore.Count: they recurse once per integer timestamp in `[lo, hi]`, up to 2^32 nested calls. They define what the query answers but are no practical way to compute it on wide ranges, where the source walks only the stored keys of its ordered map.
- PriceStore.TruncDiv: defined for positive divisors only, because the query divides only by a count that is positive.
- AddressRewrite.Rewrite: written for any replacement text. The filter applies it with the fixed address, and idempotence is proved for every replacement that is itself one whole token.
