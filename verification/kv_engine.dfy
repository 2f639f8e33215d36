/**
 * The unusual database program (problem_04): a key-value store answering
 * one-line requests. A request holding '=' stores the text after the first
 * '=' under the text before it; `version` is answered with a fixed string;
 * anything else looks up a key.
 */
module KeyValue {
  import opened Wrappers

  const VersionKey: string := "version"
  const VersionReply: string := "version=1"

  /**
   * `str::split_once('=')`: the text before the first '=' and everything
   * after it, or None when there is no '='.
   */
  function SplitOnce(s: string): (r: Option<(string, string)>)
    ensures r.None? <==> '=' !in s
    ensures r.Some? ==> s == r.value.0 + "=" + r.value.1 && '=' !in r.value.0
  {
    if |s| == 0 then None
    else if s[0] == '=' then Some(([], s[1..]))
    else
      match SplitOnce(s[1..])
      case None => None
      case Some((k, v)) =>
        assert s == [s[0]] + s[1..];
        Some(([s[0]] + k, v))
  }

  /** The first '=' of a string is found at one place only. */
  lemma {:induction false} FirstEqualsUnique(k1: string, v1: string, k2: string, v2: string)
    requires '=' !in k1 && '=' !in k2
    requires k1 + "=" + v1 == k2 + "=" + v2
    ensures k1 == k2 && v1 == v2
  {
    var s := k1 + "=" + v1;
    assert s == k2 + "=" + v2;
    assert s[|k1|] == '=' && s[|k2|] == '=';
    assert forall i :: 0 <= i < |k1| ==> s[i] == k1[i];
    assert forall i :: 0 <= i < |k2| ==> s[i] == k2[i];
    assert |k1| == |k2|;
    assert k1 == s[..|k1|] == k2;
    assert v1 == s[|k1| + 1..] == v2;
  }

  /** Splitting a request built from a key without '=' gives back that key and the whole value. */
  lemma SplitJoin(k: string, v: string)
    requires '=' !in k
    ensures SplitOnce(k + "=" + v) == Some((k, v))
  {
    var r := SplitOnce(k + "=" + v);
    assert '=' in k + "=" + v by {
      assert (k + "=" + v)[|k|] == '=';
    }
    FirstEqualsUnique(r.value.0, r.value.1, k, v);
  }

  /** The value keeps every '=' after the first, and the key may be empty. */
  lemma SplitAtFirstEquals()
    ensures SplitOnce("a=b=c") == Some(("a", "b=c"))
    ensures SplitOnce("=x") == Some(("", "x"))
  {
    SplitJoin("a", "b=c");
    SplitJoin("", "x");
  }

  /** The store after a request and the reply to it, if any. */
  function Respond(store: map<string, string>, req: string): (r: (map<string, string>, Option<string>))
    ensures '=' !in req ==> r.0 == store
    ensures r.1.Some? <==> '=' !in req && (req == VersionKey || req in store)
  {
    match SplitOnce(req)
    case Some((key, val)) => (store[key := val], None)
    case None =>
      if req == VersionKey then (store, Some(VersionReply))
      else if req in store then (store, Some(req + "=" + store[req]))
      else (store, None)
  }

  /** An insert is never answered and changes only the entry for its key. */
  lemma InsertSilent(store: map<string, string>, key: string, val: string)
    requires '=' !in key
    ensures Respond(store, key + "=" + val) == (store[key := val], None)
  {
    SplitJoin(key, val);
  }

  /** `version` is answered with `version=1` whatever the store holds, even a key `version`. */
  lemma VersionAlways(store: map<string, string>)
    ensures Respond(store, VersionKey) == (store, Some(VersionReply))
  {
  }

  /** A stored value is read back under its key, as `key=value`. */
  lemma InsertThenLookup(store: map<string, string>, key: string, val: string)
    requires '=' !in key && key != VersionKey
    ensures Respond(Respond(store, key + "=" + val).0, key).1 == Some(key + "=" + val)
  {
    InsertSilent(store, key, val);
  }

  /** A second insert under the same key replaces the first. */
  lemma LastWriteWins(store: map<string, string>, key: string, v1: string, v2: string)
    requires '=' !in key && key != VersionKey
    ensures var s1 := Respond(store, key + "=" + v1).0;
            var s2 := Respond(s1, key + "=" + v2).0;
            Respond(s2, key).1 == Some(key + "=" + v2)
  {
    InsertSilent(store, key, v1);
    InsertSilent(store[key := v1], key, v2);
    assert store[key := v1][key := v2] == store[key := v2];
    InsertThenLookup(store, key, v2);
  }

  /** `DbEngine`: the store shared by every request the server receives. */
  class DbEngine {
    var store: map<string, string>

    /** `DbEngine::new`: an empty store. */
    constructor ()
      ensures store == map[]
    {
      store := map[];
    }

    /** `DbEngine::process_request`: one request, its effect on the store and its reply. */
    method ProcessRequest(req: string) returns (reply: Option<string>)
      modifies this
      ensures (store, reply) == Respond(old(store), req)
      ensures '=' in req ==> reply.None?
      ensures '=' !in req ==> store == old(store)
    {
      match SplitOnce(req) {
        case Some((key, val)) =>
          store := store[key := val];
          reply := None;
        case None =>
          if req == VersionKey {
            reply := Some(VersionReply);
          } else if req in store {
            reply := Some(req + "=" + store[req]);
          } else {
            reply := None;
          }
      }
    }
  }

  /** The Rust test `proces_basic_request`: a plain insert followed by a lookup. */
  method BasicScenario() returns (reply: Option<string>)
    ensures reply == Some("foo=bar")
  {
    assert '=' !in "foo" && "foo" != VersionKey;
    assert "foo" + "=" + "bar" == "foo=bar";
    var db := new DbEngine();
    var _ := db.ProcessRequest("foo=bar");
    InsertThenLookup(map[], "foo", "bar");
    reply := db.ProcessRequest("foo");
  }

  /** The Rust test `proces_overwrite_request`: two inserts under one key. */
  method OverwriteScenario() returns (reply: Option<string>)
    ensures reply == Some("foo=baz")
  {
    assert '=' !in "foo" && "foo" != VersionKey;
    assert "foo" + "=" + "bar" == "foo=bar";
    assert "foo" + "=" + "baz" == "foo=baz";
    var db := new DbEngine();
    var _ := db.ProcessRequest("foo=bar");
    var _ := db.ProcessRequest("foo=baz");
    LastWriteWins(map[], "foo", "bar", "baz");
    reply := db.ProcessRequest("foo");
  }

  /** The Rust test `proces_special_request`: an insert under `version` does not change the version reply. */
  method SpecialScenario() returns (reply: Option<string>)
    ensures reply == Some(VersionReply)
  {
    var db := new DbEngine();
    var _ := db.ProcessRequest("version=2");
    reply := db.ProcessRequest(VersionKey);
  }
}
