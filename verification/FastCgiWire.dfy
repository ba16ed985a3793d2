/**
 The FastCGI wire format (internal/php/fastcgi/protocol.go): records of section 3.3 and name-value
 pairs of section 3.4 of the FastCGI Specification 1.0.
 */
module FastCgiWire {
  import opened Common

  type uint16 = x: int | 0 <= x < 0x1_0000

  const HEADER_SIZE := 8
  const MAX_CONTENT := 65535

  const BEGIN_REQUEST: byte := 1
  const END_REQUEST: byte := 3
  const PARAMS: byte := 4
  const STDIN: byte := 5
  const STDOUT: byte := 6
  const STDERR: byte := 7

  datatype Record = Record(version: byte, kind: byte, requestId: uint16, contentLength: uint16,
                           paddingLength: byte, content: bytes)
  {
    /** The declared length is the real one. */
    predicate Honest() {
      contentLength == |content|
    }

    /** What a decoder makes of this record: the padding is chosen by the encoder. */
    function Padded(): Record {
      this.(paddingLength := PaddingFor(contentLength))
    }
  }

  function U16(n: uint16): bytes {
    [n / 256, n % 256]
  }

  /** Two bytes in network order. */
  function Word(hi: int, lo: int): int {
    hi * 256 + lo
  }

  function PaddingFor(length: uint16): byte {
    (8 - length % 8) % 8
  }

  function Zeros(n: nat): bytes {
    seq(n, _ => 0)
  }

  function Header(rec: Record, padding: byte): (h: bytes)
    ensures |h| == HEADER_SIZE
  {
    [rec.version, rec.kind] + U16(rec.requestId) + U16(rec.contentLength) + [padding, 0]
  }

  function Encode(rec: Record): bytes {
    Header(rec, PaddingFor(rec.contentLength)) + rec.content + Zeros(PaddingFor(rec.contentLength))
  }

  method EncodeRecord(rec: Record) returns (buf: bytes)
    ensures buf == Encode(rec)
  {
    var pad := (8 - rec.contentLength % 8) % 8;
    buf := [rec.version];
    buf := buf + [rec.kind];
    buf := buf + U16(rec.requestId);
    buf := buf + U16(rec.contentLength);
    buf := buf + [pad];
    buf := buf + [0];
    buf := buf + rec.content;
    for i := 0 to pad
      invariant buf == Header(rec, pad) + rec.content + Zeros(i)
    {
      assert Zeros(i) + [0] == Zeros(i + 1);
      buf := buf + [0];
    }
  }

  // ---------------------------------------------------------------------------------------------
  // Reading
  // ---------------------------------------------------------------------------------------------

  /** io.ReadFull: the end of the input is unexpected only in the middle of what was asked for. */
  datatype ReadError = Eof | UnexpectedEof

  datatype ReadResult<T> = Got(value: T, rest: bytes) | Broken(error: ReadError)

  function Take(input: bytes, n: nat): ReadResult<bytes> {
    if n <= |input| then Got(input[..n], input[n..])
    else Broken(if input == [] then Eof else UnexpectedEof)
  }

  function Decode(input: bytes): (r: ReadResult<Record>)
    ensures r.Got? ==> |r.rest| + HEADER_SIZE <= |input| && r.value.Honest()
  {
    match Take(input, HEADER_SIZE)
    case Broken(e) => Broken(e)
    case Got(h, afterHeader) =>
      var length := Word(h[4], h[5]);
      match Take(afterHeader, length)
      case Broken(e) => Broken(e)
      case Got(content, afterContent) =>
        match Take(afterContent, h[6])
        case Broken(e) => Broken(e)
        case Got(_, rest) => Got(Record(h[0], h[1], Word(h[2], h[3]), length, h[6], content), rest)
  }

  /** The reading side of a connection. */
  class Reader {
    var input: bytes

    constructor (input: bytes)
      ensures this.input == input
    {
      this.input := input;
    }

    method ReadFull(n: nat) returns (r: ReadResult<bytes>)
      modifies this
      ensures r == Take(old(input), n)
      ensures input == if r.Got? then r.rest else []
    {
      r := Take(input, n);
      input := if r.Got? then r.rest else [];
    }

    method ReadRecord() returns (r: ReadResult<Record>)
      modifies this
      ensures r == Decode(old(input))
      ensures input == if r.Got? then r.rest else []
    {
      var header := ReadFull(HEADER_SIZE);
      if header.Broken? {
        return Broken(header.error);
      }
      var h := header.value;
      var contentLen, padLen := Word(h[4], h[5]), h[6];
      var content := [];
      if contentLen > 0 {
        var body := ReadFull(contentLen);
        if body.Broken? {
          return Broken(body.error);
        }
        content := body.value;
      }
      if padLen > 0 {
        var pad := ReadFull(padLen);
        if pad.Broken? {
          return Broken(pad.error);
        }
      }
      r := Got(Record(h[0], h[1], Word(h[2], h[3]), contentLen, padLen, content), input);
    }
  }

  // ---------------------------------------------------------------------------------------------
  // Records: round trips
  // ---------------------------------------------------------------------------------------------

  lemma TakeExact(a: bytes, b: bytes)
    ensures Take(a + b, |a|) == Got(a, b)
  {
    assert (a + b)[..|a|] == a && (a + b)[|a|..] == b;
  }

  /** A decoder accepts any padding, whatever its bytes are. */
  lemma AnyPadding(rec: Record, pad: bytes, tail: bytes)
    requires rec.Honest() && |pad| < 256
    ensures Decode(Header(rec, |pad|) + rec.content + pad + tail) == Got(rec.(paddingLength := |pad|), tail)
  {
    var h := Header(rec, |pad|);
    assert h + rec.content + pad + tail == h + (rec.content + (pad + tail));
    TakeExact(h, rec.content + (pad + tail));
    TakeExact(rec.content, pad + tail);
    TakeExact(pad, tail);
  }

  lemma RoundTrip(rec: Record, tail: bytes)
    requires rec.Honest()
    ensures Decode(Encode(rec) + tail) == Got(rec.Padded(), tail)
  {
    AnyPadding(rec, Zeros(PaddingFor(rec.contentLength)), tail);
  }

  /**
   A record survives the wire, leaving what follows it untouched, exactly when it declares its real
   length; a length cut to 16 bits does not.
   */
  lemma RoundTripIff(rec: Record, tail: bytes)
    ensures rec.Honest() <==> Decode(Encode(rec) + tail) == Got(rec.Padded(), tail)
  {
    if rec.Honest() {
      RoundTrip(rec, tail);
    }
  }

  lemma Aligned(rec: Record)
    requires rec.Honest()
    ensures |Encode(rec)| % 8 == 0 && |Encode(rec)| < HEADER_SIZE + |rec.content| + 8
  {
    var n := rec.contentLength;
    assert n == 8 * (n / 8) + n % 8;
  }

  /** A connection lost in the middle of a record never yields a record. */
  lemma TruncatedNeverDecodes(rec: Record, n: nat)
    requires rec.Honest() && n < |Encode(rec)|
    ensures Decode(Encode(rec)[..n]).Broken?
  {
    var whole := Encode(rec);
    var cut := whole[..n];
    if n >= HEADER_SIZE {
      assert cut[..HEADER_SIZE] == whole[..HEADER_SIZE] == Header(rec, PaddingFor(rec.contentLength));
    }
  }

  function EncodeAll(recs: seq<Record>): bytes {
    if recs == [] then [] else Encode(recs[0]) + EncodeAll(recs[1..])
  }

  /** Every record of the input, or None if it does not end at a record boundary. */
  function DecodeAll(input: bytes): Option<seq<Record>>
    decreases |input|
  {
    if input == [] then Some([])
    else
      match Decode(input)
      case Broken(_) => None
      case Got(rec, rest) =>
        match DecodeAll(rest)
        case None => None
        case Some(recs) => Some([rec] + recs)
  }

  predicate AllHonest(recs: seq<Record>) {
    forall i :: 0 <= i < |recs| ==> recs[i].Honest()
  }

  function AllPadded(recs: seq<Record>): (out: seq<Record>)
    ensures |out| == |recs| && forall i :: 0 <= i < |recs| ==> out[i] == recs[i].Padded()
  {
    seq(|recs|, i requires 0 <= i < |recs| => recs[i].Padded())
  }

  lemma {:induction false} EncodeAllAppend(a: seq<Record>, b: seq<Record>)
    ensures EncodeAll(a + b) == EncodeAll(a) + EncodeAll(b)
  {
    hide Encode;
    if a == [] {
      assert a + b == b;
    } else {
      EncodeAllAppend(a[1..], b);
      assert (a + b)[1..] == a[1..] + b;
      assert Encode(a[0]) + (EncodeAll(a[1..]) + EncodeAll(b)) == (Encode(a[0]) + EncodeAll(a[1..])) + EncodeAll(b);
    }
  }

  /** Decoding a stream of encoded records gives back exactly that list and consumes everything. */
  lemma {:induction false} RoundTripAll(recs: seq<Record>)
    requires AllHonest(recs)
    ensures DecodeAll(EncodeAll(recs)) == Some(AllPadded(recs))
  {
    hide Encode, Decode;
    if recs != [] {
      RoundTrip(recs[0], EncodeAll(recs[1..]));
      RoundTripAll(recs[1..]);
      NeverEmpty(recs[0], EncodeAll(recs[1..]));
      assert AllPadded(recs) == [recs[0].Padded()] + AllPadded(recs[1..]);
    }
  }

  lemma NeverEmpty(rec: Record, tail: bytes)
    ensures Encode(rec) + tail != []
  {
    assert |Encode(rec)| >= HEADER_SIZE;
  }

  /** A decoder never yields a record whose declared length is not its real one. */
  lemma {:induction false} DecodedHonest(input: bytes)
    ensures DecodeAll(input).Some? ==> AllHonest(DecodeAll(input).value)
    decreases |input|
  {
    hide Decode;
    if input != [] && Decode(input).Got? {
      DecodedHonest(Decode(input).rest);
    }
  }

  /** Of a record whose length was cut to 16 bits a decoder reads as much content as it declares. */
  lemma CutRecord(rec: Record, tail: bytes)
    requires |rec.content| > MAX_CONTENT && rec.contentLength == |rec.content| % 0x1_0000
    ensures var r := Decode(Encode(rec) + tail);
            r.Got? && r.value == rec.Padded().(content := rec.content[..rec.contentLength])
  {
    var n, p := rec.contentLength, PaddingFor(rec.contentLength);
    var head, skipped := rec.(content := rec.content[..n]), rec.content[n..n + p];
    var rest := rec.content[n + p..] + Zeros(p) + tail;
    assert rec.content == head.content + skipped + rec.content[n + p..];
    assert Encode(rec) + tail == Header(head, |skipped|) + head.content + skipped + rest;
    AnyPadding(head, skipped, rest);
  }

  lemma {:induction false} AlignedAll(recs: seq<Record>)
    requires AllHonest(recs)
    ensures |EncodeAll(recs)| % 8 == 0
  {
    hide Encode;
    if recs != [] {
      Aligned(recs[0]);
      AlignedAll(recs[1..]);
    }
  }

  // ---------------------------------------------------------------------------------------------
  // Name-value pairs
  // ---------------------------------------------------------------------------------------------

  /** b | 0x80 */
  function HighBit(b: byte): byte {
    if b < 128 then b + 128 else b
  }

  function EncodeLength(n: nat): bytes {
    if n < 128 then [n]
    else [HighBit(n / 0x100_0000 % 256), n / 0x1_0000 % 256, n / 0x100 % 256, n % 256]
  }

  datatype Length = Length(value: nat, used: nat) | EmptyLength | TruncatedLength

  function DecodeLength(data: bytes): Length {
    if data == [] then EmptyLength
    else if data[0] >= 128 then
      if |data| < 4 then TruncatedLength
      else Length(Word(Word(data[0] - 128, data[1]), 0) * 256 + Word(data[2], data[3]), 4)
    else Length(data[0], 1)
  }

  lemma Digits(n: nat)
    ensures n == n / 0x100_0000 * 0x100_0000 + n / 0x1_0000 % 256 * 0x1_0000 + n / 0x100 % 256 * 0x100 + n % 256
  {
    assert n / 0x1_0000 == n / 0x100 / 256 && n / 0x100_0000 == n / 0x1_0000 / 256;
  }

  /** A length survives exactly when it fits in 31 bits. */
  lemma LengthRoundTrip(n: nat, tail: bytes)
    ensures n < 0x8000_0000 <==> DecodeLength(EncodeLength(n) + tail) == Length(n, |EncodeLength(n)|)
  {
    var data := EncodeLength(n) + tail;
    if n >= 128 {
      Digits(n);
      var top := HighBit(n / 0x100_0000 % 256) - 128;
      assert 0 <= top < 128 && (n < 0x8000_0000 ==> top == n / 0x100_0000);
      assert DecodeLength(data) ==
        Length(top * 0x100_0000 + n / 0x1_0000 % 256 * 0x1_0000 + n / 0x100 % 256 * 0x100 + n % 256, 4);
    }
  }

  type Pair = (bytes, bytes)

  function EncodePair(p: Pair): bytes {
    EncodeLength(|p.0|) + EncodeLength(|p.1|) + p.0 + p.1
  }

  function EncodePairs(ps: seq<Pair>): bytes {
    if ps == [] then [] else EncodePairs(ps[..|ps| - 1]) + EncodePair(ps[|ps| - 1])
  }

  /** One pair and what follows it, as a FastCGI application reads it. */
  function DecodePair(data: bytes): (r: Option<(Pair, bytes)>)
    ensures r.Some? ==> |r.value.1| < |data|
  {
    match DecodeLength(data)
    case Length(n, used) =>
      (match DecodeLength(data[used..])
       case Length(v, used') =>
         var body := data[used + used'..];
         if n + v <= |body| then Some(((body[..n], body[n..n + v]), body[n + v..])) else None
       case _ => None)
    case _ => None
  }

  function DecodePairs(data: bytes): Option<seq<Pair>>
    decreases |data|
  {
    if data == [] then Some([])
    else
      match DecodePair(data)
      case None => None
      case Some((p, rest)) =>
        match DecodePairs(rest)
        case None => None
        case Some(ps) => Some([p] + ps)
  }

  predicate Representable(p: Pair) {
    |p.0| < 0x8000_0000 && |p.1| < 0x8000_0000
  }

  lemma PairRoundTrip(p: Pair, tail: bytes)
    requires Representable(p)
    ensures DecodePair(EncodePair(p) + tail) == Some((p, tail))
  {
    var n, v := EncodeLength(|p.0|), EncodeLength(|p.1|);
    var data := EncodePair(p) + tail;
    assert data == n + (v + (p.0 + p.1 + tail));
    LengthRoundTrip(|p.0|, v + (p.0 + p.1 + tail));
    assert data[|n|..] == v + (p.0 + p.1 + tail);
    LengthRoundTrip(|p.1|, p.0 + p.1 + tail);
    var body := data[|n| + |v|..];
    assert body == p.0 + p.1 + tail;
    assert body[..|p.0|] == p.0 && body[|p.0|..|p.0| + |p.1|] == p.1 && body[|p.0| + |p.1|..] == tail;
  }

  lemma {:induction false} EncodePairsFront(ps: seq<Pair>)
    requires ps != []
    ensures EncodePairs(ps) == EncodePair(ps[0]) + EncodePairs(ps[1..])
  {
    hide EncodePair;
    var rest, last := ps[..|ps| - 1], EncodePair(ps[|ps| - 1]);
    if rest != [] {
      EncodePairsFront(rest);
      assert rest[1..] == ps[1..][..|ps| - 2];
      assert (EncodePair(ps[0]) + EncodePairs(rest[1..])) + last == EncodePair(ps[0]) + (EncodePairs(rest[1..]) + last);
    } else {
      assert last + [] == [] + last;
    }
  }

  lemma {:induction false} PairsRoundTrip(ps: seq<Pair>)
    requires forall i :: 0 <= i < |ps| ==> Representable(ps[i])
    ensures DecodePairs(EncodePairs(ps)) == Some(ps)
    decreases |ps|
  {
    hide EncodePair, DecodePair;
    if ps != [] {
      EncodePairsFront(ps);
      PairRoundTrip(ps[0], EncodePairs(ps[1..]));
      PairsRoundTrip(ps[1..]);
      assert [ps[0]] + ps[1..] == ps;
    }
  }
}
