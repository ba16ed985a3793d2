/**
 The FastCGI messages byte by byte (sections 3.3, 3.4, 5 and 8 of the FastCGI Specification 1.0): what
 the client puts on the wire and what it makes of what it reads there, in numbers and positions only.
 */
module FastCgiLaws {
  import opened Common
  import opened FastCgiWire
  import opened FastCgiResponse
  import Out = FastCgiRequest

  // ---------------------------------------------------------------------------------------------
  // Numbers
  // ---------------------------------------------------------------------------------------------

  /** Two bytes, the higher one first. */
  function Short(a: int, b: int): int {
    0x100 * a + b
  }

  /** Four bytes, the highest one first. */
  function Long(a: int, b: int, c: int, d: int): int {
    0x100_0000 * a + 0x1_0000 * b + 0x100 * c + d
  }

  /** Four bytes in two's complement. */
  predicate Signed(b: bytes, n: int) {
    && |b| == 4 && -0x8000_0000 <= n < 0x8000_0000
    && var u := Long(b[0], b[1], b[2], b[3]);
       n == u || n == u - 0x1_0000_0000
  }

  /** One byte below 128, or four with the highest bit set. */
  predicate Size(b: bytes, n: int) {
    || (|b| == 1 && b[0] == n < 128)
    || (|b| == 4 && b[0] >= 128 && n == Long(b[0], b[1], b[2], b[3]) - 0x8000_0000)
  }

  // ---------------------------------------------------------------------------------------------
  // Records
  // ---------------------------------------------------------------------------------------------

  /** A record of version 1, padded with zeros to a multiple of eight bytes. */
  ghost predicate Packet(w: bytes, kind: byte, id: uint16, content: bytes) {
    exists pad: bytes :: PacketWith(w, kind, id, content, pad)
  }

  predicate PacketWith(w: bytes, kind: byte, id: uint16, content: bytes, pad: bytes) {
    && |w| == 8 + |content| + |pad| && |w| % 8 == 0 && |pad| < 8
    && w[0] == 1 && w[1] == kind && Short(w[2], w[3]) == id
    && Short(w[4], w[5]) == |content| && w[6] == |pad| && w[7] == 0
    && w[8..] == content + pad && forall i :: 0 <= i < |pad| ==> pad[i] == 0
  }

  lemma HeaderNumbers(rec: Record, padding: byte)
    ensures var h := Header(rec, padding);
            && h[0] == rec.version && h[1] == rec.kind && Short(h[2], h[3]) == rec.requestId
            && Short(h[4], h[5]) == rec.contentLength && h[6] == padding && h[7] == 0
  {}

  lemma EncodesPacket(rec: Record)
    requires rec.Honest() && rec.version == 1
    ensures Packet(Encode(rec), rec.kind, rec.requestId, rec.content)
  {
    Aligned(rec);
    var pad := Zeros(PaddingFor(rec.contentLength));
    HeaderNumbers(rec, |pad|);
    hide PaddingFor, Short;
    var w, h := Encode(rec), Header(rec, |pad|);
    assert w == h + (rec.content + pad);
    assert w[..8] == h && w[8..] == rec.content + pad;
    assert forall i :: 0 <= i < 8 ==> w[i] == h[i];
    hide Header, Encode;
    assert PacketWith(w, rec.kind, rec.requestId, rec.content, pad);
  }

  /** Where the numbers of its header put the end of a record. */
  function End(w: bytes): int {
    if |w| < 8 then 8 else Short(w[4], w[5]) + w[6] + 8
  }

  /** What is read from any bytes: the numbers of the header and so many bytes, or where the input broke off. */
  lemma DecodesExactly(w: bytes)
    ensures |w| >= End(w) ==>
              var n := Short(w[4], w[5]);
              Decode(w) == Got(Record(w[0], w[1], Short(w[2], w[3]), n, w[6], w[8..8 + n]), w[End(w)..])
    ensures |w| < End(w) ==>
              var clean := |w| == 0 || |w| == 8 || (|w| > 8 && |w| == 8 + Short(w[4], w[5]));
              Decode(w) == Broken(if clean then Eof else UnexpectedEof)
  {
    if |w| >= 8 {
      var n := Short(w[4], w[5]);
      if |w| >= 8 + n {
        assert w[8..][..n] == w[8..8 + n] && w[8..][n..] == w[8 + n..];
        if |w| >= End(w) {
          assert w[8 + n..][w[6]..] == w[End(w)..];
        }
      }
    }
  }

  // ---------------------------------------------------------------------------------------------
  // Lengths and pairs
  // ---------------------------------------------------------------------------------------------

  /** What a length is read as. */
  lemma LengthReads(b: bytes, n: nat, tail: bytes)
    requires Size(b, n)
    ensures DecodeLength(b + tail) == Length(n, |b|)
  {
    assert (b + tail)[..|b|] == b;
  }

  /** There is one to read unless the data is empty or shorter than its first byte says. */
  lemma LengthRefused(data: bytes)
    ensures DecodeLength(data) == EmptyLength <==> |data| == 0
    ensures DecodeLength(data) == TruncatedLength <==> |data| in {1, 2, 3} && data[0] >= 128
  {}

  lemma LengthWritten(n: nat)
    requires n < 0x8000_0000
    ensures Size(EncodeLength(n), n)
  {
    if n >= 128 { Digits(n); }
  }

  /** A pair is written as the two lengths, the name and the value, in that order. */
  lemma PairWritten(p: Pair) returns (name: bytes, value: bytes)
    requires |p.0| < 0x8000_0000 && |p.1| < 0x8000_0000
    ensures Size(name, |p.0|) && Size(value, |p.1|)
    ensures EncodePair(p) == name + value + p.0 + p.1
  {
    LengthWritten(|p.0|);
    LengthWritten(|p.1|);
    name, value := EncodeLength(|p.0|), EncodeLength(|p.1|);
  }

  // ---------------------------------------------------------------------------------------------
  // A request
  // ---------------------------------------------------------------------------------------------

  /** The bytes of these records, one behind the other. */
  ghost predicate Packets(w: bytes, id: uint16, sent: seq<(byte, bytes)>) {
    if sent == [] then w == []
    else exists k :: 0 <= k <= |w| && Packet(w[..k], sent[0].0, id, sent[0].1) && Packets(w[k..], id, sent[1..])
  }

  predicate Stands(rec: Record, id: uint16, sent: (byte, bytes)) {
    rec.Honest() && rec.version == 1 && rec.kind == sent.0 && rec.requestId == id && rec.content == sent.1
  }

  predicate AllStand(recs: seq<Record>, id: uint16, sent: seq<(byte, bytes)>) {
    |recs| == |sent| && forall i :: 0 <= i < |recs| ==> Stands(recs[i], id, sent[i])
  }

  lemma StandTogether(a: seq<Record>, b: seq<Record>, id: uint16, s: seq<(byte, bytes)>, t: seq<(byte, bytes)>)
    requires AllStand(a, id, s) && AllStand(b, id, t)
    ensures AllStand(a + b, id, s + t)
  {
    hide Stands;
  }

  lemma {:induction false} EncodesPackets(recs: seq<Record>, id: uint16, sent: seq<(byte, bytes)>)
    requires AllStand(recs, id, sent)
    ensures Packets(EncodeAll(recs), id, sent)
    decreases |recs|
  {
    hide Encode, Packet;
    if recs != [] {
      EncodesPackets(recs[1..], id, sent[1..]);
      EncodesPacket(recs[0]);
      var first := Encode(recs[0]);
      var w := EncodeAll(recs);
      assert w[..|first|] == first && w[|first|..] == EncodeAll(recs[1..]);
    }
  }

  /** The non-empty pieces of a body, each in a record of type 5. */
  function Pieces(parts: seq<bytes>): seq<(byte, bytes)> {
    seq(|parts|, i requires 0 <= i < |parts| => (5, parts[i]))
  }

  /** The role of a responder and the flag, then two records of parameters, then the body and its end. */
  function Exchange(params: bytes, parts: seq<bytes>, ended: bool): seq<(byte, bytes)> {
    [(1, [0, 1, 0, 0, 1, 0, 0, 0]), (4, params), (4, [])] + (Pieces(parts) + if ended then [(5, [])] else [])
  }

  lemma {:induction false} BodyStands(id: uint16, source: Out.Source, n: nat)
    requires n <= |source|
    ensures AllStand(Out.BodyMessages(id, source, n), id, Pieces(Out.Parts(source, n)))
  {
    if n > 0 {
      BodyStands(id, source, n - 1);
      var parts, more := Out.Parts(source, n - 1), Out.Parts(source, n);
      if source[n - 1].data != [] {
        assert Pieces(more) == Pieces(parts) + [(5, source[n - 1].data)];
        assert Stands(Out.Message(STDIN, id, source[n - 1].data), id, (5, source[n - 1].data));
      }
    }
  }

  /** A list of a map's pairs has each of its names at exactly one place, with its value. */
  lemma ListsEach(ps: seq<Pair>, params: map<bytes, bytes>, name: bytes)
    requires Out.Lists(ps, params)
    ensures name in params <==> exists i :: 0 <= i < |ps| && ps[i].0 == name
    ensures forall i :: 0 <= i < |ps| && ps[i].0 == name ==> ps[i].1 == params[name]
    ensures forall i, j :: 0 <= i < |ps| && 0 <= j < |ps| && ps[i].0 == ps[j].0 ==> i == j
  {
    var names := set i | 0 <= i < |ps| :: ps[i].0;
    NamesMany(ps, names);
    assert |params.Keys| == |params|;
    SameSize(names, params.Keys);
  }

  lemma {:induction false} NamesMany(ps: seq<Pair>, names: set<bytes>)
    requires forall i, j :: 0 <= i < j < |ps| ==> ps[i].0 != ps[j].0
    requires names == set i | 0 <= i < |ps| :: ps[i].0
    ensures |names| == |ps|
  {
    if ps != [] {
      var init, last := ps[..|ps| - 1], ps[|ps| - 1].0;
      assert names - {last} == set i | 0 <= i < |init| :: init[i].0;
      NamesMany(init, names - {last});
      assert last in names;
    }
  }

  lemma BodyWritten(id: uint16, stdin: Option<Out.Source>)
    ensures AllStand(Out.StdinMessages(id, stdin), id,
                     Pieces(Out.PartsOf(stdin)) + if Out.Complete(stdin) then [(5, [])] else [])
  {
    assert AllStand([Out.Message(STDIN, id, [])], id, [(5, [])]);
    if stdin.Some? {
      var source := stdin.value;
      var recs, sent := Out.BodyMessages(id, source, |source|), Pieces(Out.Parts(source, |source|));
      BodyStands(id, source, |source|);
      StandTogether(recs, [Out.Message(STDIN, id, [])], id, sent, [(5, [])]);
      hide AllStand;
      assert recs + [] == recs && sent + [] == sent;
    } else {
      assert Pieces([]) + [(5, [])] == [(5, [])];
    }
  }

  lemma HeadWritten(id: uint16, params: bytes)
    requires |params| < 0x1_0000
    ensures AllStand([Out.BeginMessage(id)] + Out.ParamsMessages(id, params), id,
                     [(1, [0, 1, 0, 0, 1, 0, 0, 0]), (4, params), (4, [])])
  {}

  /** What a request looks like on the wire. */
  lemma RequestWritten(id: uint16, ps: seq<Pair>, stdin: Option<Out.Source>)
    requires |EncodePairs(ps)| < 0x1_0000
    ensures Packets(EncodeAll(Out.RequestMessages(id, ps, stdin)), id,
                    Exchange(EncodePairs(ps), Out.PartsOf(stdin),
                             stdin.None? || stdin.value[|stdin.value| - 1].status == Out.End))
  {
    hide EncodePairs, EncodeAll, Packets, AllStand, Pieces;
    var params := EncodePairs(ps);
    HeadWritten(id, params);
    BodyWritten(id, stdin);
    var head := [Out.BeginMessage(id)] + Out.ParamsMessages(id, params);
    StandTogether(head, Out.StdinMessages(id, stdin), id, [(1, [0, 1, 0, 0, 1, 0, 0, 0]), (4, params), (4, [])],
                  Pieces(Out.PartsOf(stdin)) + if Out.Complete(stdin) then [(5, [])] else []);
    EncodesPackets(Out.RequestMessages(id, ps, stdin), id, Exchange(params, Out.PartsOf(stdin), Out.Complete(stdin)));
  }

  // ---------------------------------------------------------------------------------------------
  // A response
  // ---------------------------------------------------------------------------------------------

  /** What records of one type say to one request, in order. */
  function Said(frames: seq<Frame>, id: uint16, kind: byte): bytes {
    if frames == [] then []
    else (if frames[0].rec.requestId == id && frames[0].rec.kind == kind then frames[0].rec.content else [])
         + Said(frames[1..], id, kind)
  }

  /** A record that ends a response with this status; one of less than eight bytes gives none. */
  predicate Ends(rec: Record, id: uint16, end: Option<EndRequest>) {
    && rec.requestId == id && rec.kind == 3
    && if |rec.content| < 8 then end.None?
       else end.Some? && Signed(rec.content[..4], end.value.appStatus)
            && Signed(rec.content[4..8], end.value.protocolStatus)
  }

  /** Four bytes are read as the number they stand for. */
  lemma NumberReads(b: bytes, n: int)
    requires Signed(b, n)
    ensures Int32(b) == n
  {}

  lemma EndReads(rec: Record, id: uint16, end: Option<EndRequest>)
    requires Ends(rec, id, end)
    ensures EndOf(rec.content) == end
  {
    if |rec.content| >= 8 {
      NumberReads(rec.content[..4], end.value.appStatus);
      NumberReads(rec.content[4..8], end.value.protocolStatus);
    }
  }

  /** No record among these ends the response. */
  predicate Open(frames: seq<Frame>, id: uint16) {
    forall i :: 0 <= i < |frames| ==> !(frames[i].rec.requestId == id && frames[i].rec.kind == 3)
  }

  lemma {:induction false} PlainReads(frames: seq<Frame>, id: uint16, last: Frame, end: Option<EndRequest>, tail: bytes)
    requires AllFramed(frames) && Open(frames, id) && last.rec.Honest() && Ends(last.rec, id, end)
    ensures Plain(Sent(frames) + (last.Bytes() + tail), id)
         == Some(Content(Said(frames, id, 6), Said(frames, id, 7), end))
    decreases |frames|
  {
    var more := last.Bytes() + tail;
    hide Decode, Frame.Bytes, Plain;
    if frames == [] {
      assert Sent(frames) + more == more;
      ReadsFrame(last, tail);
      PlainStep(more, id);
      EndReads(last.rec, id, end);
    } else {
      DecodesFirst(frames, more);
      PlainStep(Sent(frames) + more, id);
      PlainReads(frames[1..], id, last, end, tail);
      assert [] + Said(frames[1..], id, 6) == Said(frames[1..], id, 6);
      assert [] + Said(frames[1..], id, 7) == Said(frames[1..], id, 7);
    }
  }

  predicate TooMuch(out: bytes, err: bytes) {
    |out| > 67108864 || |err| > 67108864
  }

  /** Up to the record that ends it, the buffered reader collects what its records carry. */
  lemma {:induction false} CollectReads(frames: seq<Frame>, id: uint16, rest: bytes, out: bytes, err: bytes)
    requires AllFramed(frames) && Open(frames, id) && !TooMuch(out, err)
    ensures var out', err' := out + Said(frames, id, 6), err + Said(frames, id, 7);
            Collect(Sent(frames) + rest, id, out, err) ==
              if TooMuch(out', err') then TooLarge else Collect(rest, id, out', err')
    decreases |frames|
  {
    hide Decode, Frame.Bytes;
    if frames == [] {
      assert Sent(frames) + rest == rest;
      assert out + [] == out && err + [] == err;
    } else {
      hide Sent;
      var rec, more := frames[0].rec, frames[1..];
      DecodesFirst(frames, rest);
      var o := if rec.requestId == id && rec.kind == 6 then rec.content else [];
      var e := if rec.requestId == id && rec.kind == 7 then rec.content else [];
      Associate(out, o, Said(more, id, 6));
      Associate(err, e, Said(more, id, 7));
      assert out + [] == out && err + [] == err;
      if !TooMuch(out + o, err + e) {
        CollectReads(more, id, rest, out + o, err + e);
      }
    }
  }

  /**
   A response as the application sends it: records of any request, kind and padding up to one of type
   3. The buffered reader returns what the records of types 6 and 7 carry and the two numbers of the
   last one, unless an output exceeds 64 MiB or there are no such numbers.
   */
  lemma ResponseReads(frames: seq<Frame>, id: uint16, last: Frame, end: Option<EndRequest>, tail: bytes)
    requires AllFramed(frames) && Open(frames, id) && last.rec.Honest() && Ends(last.rec, id, end)
    ensures var out, err := Said(frames, id, 6), Said(frames, id, 7);
            Collect(Sent(frames) + (last.Bytes() + tail), id, [], []) ==
              if TooMuch(out, err) then TooLarge else if end.None? then ShortEnd else Done(Reply(out, err, end.value))
  {
    hide *;
    CollectsAll(frames, id, last.Bytes() + tail);
    CollectEnds(last, id, end, tail, Said(frames, id, 6), Said(frames, id, 7));
  }

  lemma CollectsAll(frames: seq<Frame>, id: uint16, rest: bytes)
    requires AllFramed(frames) && Open(frames, id)
    ensures var out, err := Said(frames, id, 6), Said(frames, id, 7);
            Collect(Sent(frames) + rest, id, [], []) ==
              if TooMuch(out, err) then TooLarge else Collect(rest, id, out, err)
  {
    hide Collect, Sent, Said;
    CollectReads(frames, id, rest, [], []);
    var out, err := Said(frames, id, 6), Said(frames, id, 7);
    assert [] + out == out && [] + err == err;
  }

  /** The streaming reader delivers the same, whatever the sizes of the reads. */
  lemma StreamReads(frames: seq<Frame>, id: uint16, last: Frame, end: Option<EndRequest>, tail: bytes, sizes: seq<nat>)
    requires AllFramed(frames) && Open(frames, id) && last.rec.Honest() && Ends(last.rec, id, end)
    ensures var out, err := Said(frames, id, 6), Said(frames, id, 7);
            var (s, p, status) := Drain(Opened(Sent(frames) + (last.Bytes() + tail), id), sizes);
            && p <= out && (status == EndOfStream ==> p == out && s.stderr == err && s.end == end)
            && (Positive(sizes) && |sizes| > |out| ==> status == EndOfStream)
  {
    hide *;
    var input := Sent(frames) + (last.Bytes() + tail);
    PlainReads(frames, id, last, end, tail);
    OpenedRemains(input, id);
    DrainDelivers(Opened(input, id), sizes);
  }

  lemma CollectEnds(last: Frame, id: uint16, end: Option<EndRequest>, tail: bytes, out: bytes, err: bytes)
    requires last.rec.Honest() && Ends(last.rec, id, end)
    ensures Collect(last.Bytes() + tail, id, out, err)
         == if end.None? then ShortEnd else Done(Reply(out, err, end.value))
  {
    EndReads(last.rec, id, end);
    ReadsFrame(last, tail);
    hide Decode, Frame.Bytes;
  }

  /** Input that breaks off before that is an error: the end of the input, unexpected within a record. */
  lemma ResponseLost(frames: seq<Frame>, id: uint16, cut: bytes, sizes: seq<nat>)
    requires AllFramed(frames) && Open(frames, id) && |cut| < End(cut)
    ensures var input, out, err := Sent(frames) + cut, Said(frames, id, 6), Said(frames, id, 7);
            && Collect(input, id, [], []) == (if TooMuch(out, err) then TooLarge else Lost(Decode(cut).error))
            && Drain(Opened(input, id), sizes).2 != EndOfStream
  {
    CollectsAll(frames, id, cut);
    DecodesExactly(cut);
    PlainLost(frames, id, cut);
    hide Drain, Plain, Opened, Sent, Decode;
    ReadersAgree(Sent(frames) + cut, id, sizes);
  }

  lemma {:induction false} PlainLost(frames: seq<Frame>, id: uint16, cut: bytes)
    requires AllFramed(frames) && Open(frames, id) && Decode(cut).Broken?
    ensures Plain(Sent(frames) + cut, id) == None
    decreases |frames|
  {
    hide Decode, Frame.Bytes;
    if frames == [] {
      assert Sent(frames) + cut == cut;
    } else {
      DecodesFirst(frames, cut);
      hide Sent;
      PlainLost(frames[1..], id, cut);
    }
  }
}
