/**
 * The wire format of the means-to-an-end service (problem_03): each client
 * message is 9 bytes, a type byte 'I' (insert) or 'Q' (query) followed by two
 * big-endian i32 values; a query is answered with the mean as one big-endian
 * i32; any other type byte ends the session.
 */
module PriceCodec {
  import opened Wrappers
  import opened PriceStore

  newtype byte = x: int | 0 <= x < 0x100

  const InsertTag: byte := 0x49  // 'I'
  const QueryTag: byte := 0x51   // 'Q'
  const MessageSize: nat := 9

  /** Four bytes, most significant first, read as an unsigned 32-bit value. */
  function Unsigned(b: seq<byte>): (u: nat)
    requires |b| == 4
    ensures u < 0x1_0000_0000
    ensures u >= 0x8000_0000 <==> b[0] >= 0x80
  {
    ((b[0] as int * 0x100 + b[1] as int) * 0x100 + b[2] as int) * 0x100 + b[3] as int
  }

  /** `i32::from_be_bytes`: the unsigned value reinterpreted in two's complement. */
  function DecodeInt32(b: seq<byte>): (x: int32)
    requires |b| == 4
    ensures x < 0 <==> b[0] >= 0x80
    ensures x as int == Unsigned(b) || x as int == Unsigned(b) - 0x1_0000_0000
  {
    var u := Unsigned(b);
    if u < 0x8000_0000 then u as int32 else (u - 0x1_0000_0000) as int32
  }

  /** The two's-complement bit pattern of `x` as an unsigned value. */
  function Bits(x: int32): (u: nat)
    ensures u < 0x1_0000_0000
    ensures u % 0x1_0000_0000 == x as int % 0x1_0000_0000
  {
    if x < 0 then x as int + 0x1_0000_0000 else x as int
  }

  /** `i32::to_be_bytes` */
  function EncodeInt32(x: int32): (b: seq<byte>)
    ensures |b| == 4
    ensures Unsigned(b) == Bits(x)
  {
    var u := Bits(x);
    var v1 := u / 0x100;
    var v2 := v1 / 0x100;
    var v3 := v2 / 0x100;
    SplitStep(u);
    SplitStep(v1);
    SplitStep(v2);
    [v3 as byte, (v2 % 0x100) as byte, (v1 % 0x100) as byte, (u % 0x100) as byte]
  }

  /** Dividing by 256 drops the last byte. */
  lemma SplitStep(u: nat)
    ensures u == u / 0x100 * 0x100 + u % 0x100
    ensures u < 0x1_0000_0000 ==> u / 0x100 < 0x100_0000
    ensures u < 0x100_0000 ==> u / 0x100 < 0x1_0000
    ensures u < 0x1_0000 ==> u / 0x100 < 0x100
  {
  }

  /** Appending a byte and dividing by 256 gives back both parts. */
  lemma JoinStep(q: nat, r: nat)
    requires r < 0x100
    ensures (q * 0x100 + r) / 0x100 == q
    ensures (q * 0x100 + r) % 0x100 == r
  {
  }

  lemma DecodeEncodeInt32(x: int32)
    ensures DecodeInt32(EncodeInt32(x)) == x
  {
  }

  lemma EncodeDecodeInt32(b: seq<byte>)
    requires |b| == 4
    ensures EncodeInt32(DecodeInt32(b)) == b
  {
    var x := DecodeInt32(b);
    assert Bits(x) == Unsigned(b);
    var v2 := b[0] as nat * 0x100 + b[1] as nat;
    var v1 := v2 * 0x100 + b[2] as nat;
    JoinStep(v1, b[3] as nat);
    JoinStep(v2, b[2] as nat);
    JoinStep(b[0] as nat, b[1] as nat);
  }

  /** A decoded client message. */
  datatype Message =
    | Insert(timestamp: int32, price: int32)
    | Query(minTime: int32, maxTime: int32)

  /**
   * Decoding one 9-byte message: bytes 1..4 and 5..8 are the two i32 fields;
   * None for a type byte other than 'I' or 'Q', which ends the session.
   */
  function DecodeMessage(payload: seq<byte>): (r: Option<Message>)
    requires |payload| == MessageSize
    ensures r.None? <==> payload[0] != InsertTag && payload[0] != QueryTag
    ensures r.Some? ==> (r.value.Insert? <==> payload[0] == InsertTag)
  {
    var first, second := DecodeInt32(payload[1..5]), DecodeInt32(payload[5..9]);
    if payload[0] == InsertTag then Some(Insert(first, second))
    else if payload[0] == QueryTag then Some(Query(first, second))
    else None
  }

  /** What a client sends for a message (the inverse of decoding; not part of the server). */
  function EncodeMessage(m: Message): (p: seq<byte>)
    ensures |p| == MessageSize
  {
    match m
    case Insert(t, price) => [InsertTag] + EncodeInt32(t) + EncodeInt32(price)
    case Query(lo, hi) => [QueryTag] + EncodeInt32(lo) + EncodeInt32(hi)
  }

  lemma DecodeEncodeMessage(m: Message)
    ensures DecodeMessage(EncodeMessage(m)) == Some(m)
  {
    var p := EncodeMessage(m);
    match m
    case Insert(t, price) =>
      assert p[1..5] == EncodeInt32(t) && p[5..9] == EncodeInt32(price);
      DecodeEncodeInt32(t);
      DecodeEncodeInt32(price);
    case Query(lo, hi) =>
      assert p[1..5] == EncodeInt32(lo) && p[5..9] == EncodeInt32(hi);
      DecodeEncodeInt32(lo);
      DecodeEncodeInt32(hi);
  }

  /** A decoded message holds the fields read from bytes 1..4 and 5..8 under the type byte that named it. */
  lemma EncodeDecodeMessage(payload: seq<byte>)
    requires |payload| == MessageSize && DecodeMessage(payload).Some?
    ensures EncodeMessage(DecodeMessage(payload).value) == payload
  {
    EncodeDecodeInt32(payload[1..5]);
    EncodeDecodeInt32(payload[5..9]);
    assert payload == [payload[0]] + payload[1..5] + payload[5..9];
  }

  /**
   * The effect of a whole session on an input byte stream: the final store
   * and the bytes written back. Messages are read 9 bytes at a time; a short
   * tail (a failed `read_exact`) or an unknown type byte ends the session.
   */
  function Session(prices: map<int32, int32>, input: seq<byte>): (r: (map<int32, int32>, seq<byte>))
    ensures |r.1| % 4 == 0
    ensures 9 * |r.1| <= 4 * |input|
    decreases |input|
  {
    if |input| < MessageSize then (prices, [])
    else
      match DecodeMessage(input[..MessageSize])
      case None => (prices, [])
      case Some(Insert(t, p)) => Session(prices[t := p], input[MessageSize..])
      case Some(Query(lo, hi)) =>
        var rest := Session(prices, input[MessageSize..]);
        (rest.0, EncodeInt32(Average(prices, lo, hi)) + rest.1)
  }

  /** A message with an unknown type byte ends the session: nothing after it is read. */
  lemma UnknownTypeEndsSession(prices: map<int32, int32>, payload: seq<byte>, rest: seq<byte>)
    requires |payload| == MessageSize
    requires payload[0] != InsertTag && payload[0] != QueryTag
    ensures Session(prices, payload + rest) == (prices, [])
  {
    assert (payload + rest)[..MessageSize] == payload;
  }

  /** A query is answered with the encoded mean and leaves the store as it was. */
  lemma QueryAnswered(prices: map<int32, int32>, lo: int32, hi: int32, rest: seq<byte>)
    ensures var s := Session(prices, EncodeMessage(Query(lo, hi)) + rest);
            && s.1[..4] == EncodeInt32(Average(prices, lo, hi))
            && s == (Session(prices, rest).0, EncodeInt32(Average(prices, lo, hi)) + Session(prices, rest).1)
  {
    var p := EncodeMessage(Query(lo, hi));
    DecodeEncodeMessage(Query(lo, hi));
    assert (p + rest)[..MessageSize] == p;
    assert (p + rest)[MessageSize..] == rest;
  }

  /** An insert is silent and the rest of the session sees the updated store. */
  lemma InsertSilent(prices: map<int32, int32>, t: int32, price: int32, rest: seq<byte>)
    ensures Session(prices, EncodeMessage(Insert(t, price)) + rest) == Session(prices[t := price], rest)
  {
    var p := EncodeMessage(Insert(t, price));
    DecodeEncodeMessage(Insert(t, price));
    assert (p + rest)[..MessageSize] == p;
    assert (p + rest)[MessageSize..] == rest;
  }

  /** The stream from offset `i` on, split after its next message. */
  lemma NextMessage(input: seq<byte>, i: nat)
    requires i + MessageSize <= |input|
    ensures input[i..][..MessageSize] == input[i..i + MessageSize]
    ensures input[i..][MessageSize..] == input[i + MessageSize..]
  {
  }

  lemma SessionStops(prices: map<int32, int32>, input: seq<byte>, i: nat)
    requires i + MessageSize <= |input|
    requires DecodeMessage(input[i..i + MessageSize]).None?
    ensures Session(prices, input[i..]) == (prices, [])
  {
    NextMessage(input, i);
  }

  lemma SessionInserts(prices: map<int32, int32>, input: seq<byte>, i: nat, t: int32, p: int32)
    requires i + MessageSize <= |input|
    requires DecodeMessage(input[i..i + MessageSize]) == Some(Insert(t, p))
    ensures Session(prices, input[i..]) == Session(prices[t := p], input[i + MessageSize..])
  {
    NextMessage(input, i);
  }

  lemma SessionAnswers(prices: map<int32, int32>, input: seq<byte>, i: nat, lo: int32, hi: int32)
    requires i + MessageSize <= |input|
    requires DecodeMessage(input[i..i + MessageSize]) == Some(Query(lo, hi))
    ensures var next := Session(prices, input[i + MessageSize..]);
            Session(prices, input[i..]) == (next.0, EncodeInt32(Average(prices, lo, hi)) + next.1)
  {
    NextMessage(input, i);
  }

  /**
   * One client connection without the socket: a fresh store, the messages
   * read 9 bytes at a time from `input`, and the bytes written back.
   */
  method Process(input: seq<byte>) returns (output: seq<byte>)
    ensures output == Session(map[], input).1
  {
    var db := new PriceDb();
    output := [];
    var i := 0;
    var stop := false;
    assert input[i..] == input;
    assert output + Session(db.prices, input[i..]).1 == Session(db.prices, input[i..]).1;
    while !stop && i + MessageSize <= |input|
      invariant 0 <= i <= |input|
      invariant stop ==> Session(db.prices, input[i..]) == (db.prices, [])
      invariant Session(map[], input).1 == output + Session(db.prices, input[i..]).1
      decreases |input| - i, if stop then 0 else 1
    {
      match DecodeMessage(input[i..i + MessageSize]) {
        case None =>
          SessionStops(db.prices, input, i);
          stop := true;
        case Some(Insert(t, p)) =>
          SessionInserts(db.prices, input, i, t, p);
          db.Insert(t, p);
          i := i + MessageSize;
        case Some(Query(lo, hi)) =>
          SessionAnswers(db.prices, input, i, lo, hi);
          var mean := db.Query(lo, hi);
          output := output + EncodeInt32(mean);
          i := i + MessageSize;
      }
    }
    assert output + Session(db.prices, input[i..]).1 == output;
  }
}
