/**
 Sending a FastCGI request (internal/php/fastcgi/protocol.go, the Responder role): BEGIN_REQUEST,
 the PARAMS stream and the STDIN stream. The receiving side is an independent reading of sections
 3.3, 5.1, 5.2 and 5.3 of the FastCGI Specification 1.0.
 */
module FastCgiRequest {
  import opened Common
  import opened FastCgiWire

  const VERSION: byte := 1
  const RESPONDER: byte := 1
  const KEEP_CONN: byte := 1

  /** One call of Read on the request body: what it returned, and whether it was the last. */
  datatype Chunk = Chunk(data: bytes, status: Status)
  datatype Status = More | End | Failed

  /** A body reader: no chunk exceeds the buffer, and exactly the last one ends the body. */
  type Source = s: seq<Chunk> | WellFormedSource(s) witness [Chunk([], End)]

  predicate WellFormedSource(s: seq<Chunk>) {
    && s != []
    && (forall i :: 0 <= i < |s| ==> |s[i].data| <= MAX_CONTENT)
    && (forall i :: 0 <= i < |s| ==> (s[i].status == More <==> i < |s| - 1))
  }

  function Message(kind: byte, id: uint16, content: bytes): Record {
    Record(VERSION, kind, id, |content| % 0x1_0000, 0, content)
  }

  /** The flag is written at offset 4, as the code does; section 5.1 puts it at offset 2. */
  function BeginMessage(id: uint16): Record {
    Message(BEGIN_REQUEST, id, [0, RESPONDER, 0, 0, KEEP_CONN, 0, 0, 0])
  }

  function ParamsMessages(id: uint16, content: bytes): seq<Record> {
    [Message(PARAMS, id, content), Message(PARAMS, id, [])]
  }

  /** The non-empty reads among the first `n`, one record each. */
  function BodyMessages(id: uint16, source: seq<Chunk>, n: nat): seq<Record>
    requires n <= |source|
  {
    if n == 0 then []
    else if source[n - 1].data == [] then BodyMessages(id, source, n - 1)
    else BodyMessages(id, source, n - 1) + [Message(STDIN, id, source[n - 1].data)]
  }

  /** The bytes of the first `n` reads. */
  function Body(source: seq<Chunk>, n: nat): bytes
    requires n <= |source|
  {
    if n == 0 then [] else Body(source, n - 1) + source[n - 1].data
  }

  /** The body reader, if any, reaches its end without failing. */
  predicate Complete(stdin: Option<Source>) {
    stdin.None? || stdin.value[|stdin.value| - 1].status == End
  }

  function StdinMessages(id: uint16, stdin: Option<Source>): seq<Record> {
    match stdin
    case None => [Message(STDIN, id, [])]
    case Some(source) =>
      BodyMessages(id, source, |source|) +
      if source[|source| - 1].status == End then [Message(STDIN, id, [])] else []
  }

  /** `ps` lists the map, each name once, in some order. */
  predicate Lists(ps: seq<Pair>, params: map<bytes, bytes>) {
    && (forall i, j :: 0 <= i < j < |ps| ==> ps[i].0 != ps[j].0)
    && (forall i :: 0 <= i < |ps| ==> ps[i].0 in params && params[ps[i].0] == ps[i].1)
    && |ps| == |params|
  }

  // ---------------------------------------------------------------------------------------------
  // The client
  // ---------------------------------------------------------------------------------------------

  /** The writing side of a client connection; every write succeeds. */
  class Client {
    var out: bytes

    constructor ()
      ensures out == []
    {
      out := [];
    }

    method WriteRecord(rec: Record)
      modifies this
      ensures out == old(out) + Encode(rec)
    {
      var buf := EncodeRecord(rec);
      out := out + buf;
    }

    method SendBeginRequest(id: uint16)
      modifies this
      ensures out == old(out) + EncodeAll([BeginMessage(id)])
    {
      var content := new byte[8](_ => 0);
      content[0], content[1] := 0, RESPONDER;
      content[4] := KEEP_CONN;
      assert content[..] == [0, RESPONDER, 0, 0, KEEP_CONN, 0, 0, 0];
      EncodeOne(BeginMessage(id));
      WriteRecord(Record(VERSION, BEGIN_REQUEST, id, 8, 0, content[..]));
    }

    /** The order in which the map is walked is not determined. */
    method SendParams(id: uint16, params: map<bytes, bytes>) returns (ghost ps: seq<Pair>)
      modifies this
      ensures Lists(ps, params)
      ensures out == old(out) + EncodeAll(ParamsMessages(id, EncodePairs(ps)))
    {
      hide Encode, EncodeAll, EncodePair;
      var buf: bytes := [];
      var todo := params.Keys;
      ps := [];
      while todo != {}
        invariant todo <= params.Keys
        invariant Lists(ps, params - todo)
        invariant buf == EncodePairs(ps) && out == old(out)
      {
        var k :| k in todo;
        ListsOneMore(ps, params, todo, k);
        buf := buf + EncodePair((k, params[k]));
        ps := ps + [(k, params[k])];
        todo := todo - {k};
      }
      assert params - {} == params;
      hide EncodePairs, Lists;
      var first, second := Record(VERSION, PARAMS, id, |buf| % 0x1_0000, 0, buf), Record(VERSION, PARAMS, id, 0, 0, []);
      WriteRecord(first);
      WriteRecord(second);
      EncodeTwo(first, second);
      Associate(old(out), Encode(first), Encode(second));
    }

    method SendStdin(id: uint16, stdin: Option<Source>) returns (ok: bool)
      modifies this
      ensures ok == Complete(stdin)
      ensures out == old(out) + EncodeAll(StdinMessages(id, stdin))
    {
      StdinIs(id, stdin);
      hide Encode, EncodeAll, Message, BodyMessages, StdinMessages;
      var end := Message(STDIN, id, []);
      EncodeOne(end);
      if stdin.None? {
        WriteRecord(end);
        return true;
      }
      var source, n := stdin.value, 0;
      ghost var before := out;
      assert before + [] == before;
      while true
        invariant 0 <= n < |source|
        invariant out == before + EncodeAll(BodyMessages(id, source, n))
        decreases |source| - n
      {
        var read := source[n];
        ghost var written := out;
        if |read.data| > 0 {
          WriteRecord(Message(STDIN, id, read.data));
        }
        SendsRead(id, source, n, before, written, out);
        n := n + 1;
        if read.status != More {
          if read.status == End {
            break;
          }
          return false;
        }
      }
      EncodeAllSnoc(BodyMessages(id, source, n), end);
      Associate(before, EncodeAll(BodyMessages(id, source, n)), Encode(end));
      WriteRecord(end);
      ok := true;
    }

    /** The writing half of Execute; a failing body reader leaves the STDIN stream unterminated. */
    method SendRequest(id: uint16, params: map<bytes, bytes>, stdin: Option<Source>)
      returns (ok: bool, ghost ps: seq<Pair>)
      modifies this
      ensures Lists(ps, params)
      ensures ok == Complete(stdin)
      ensures out == old(out) + EncodeAll(RequestMessages(id, ps, stdin))
    {
      hide Encode, EncodeAll, BeginMessage, ParamsMessages, StdinMessages, Lists;
      SendBeginRequest(id);
      ps := SendParams(id, params);
      ok := SendStdin(id, stdin);
      EncodeAllAppend([BeginMessage(id)], ParamsMessages(id, EncodePairs(ps)));
      EncodeAllAppend([BeginMessage(id)] + ParamsMessages(id, EncodePairs(ps)), StdinMessages(id, stdin));
    }
  }

  lemma StdinIs(id: uint16, stdin: Option<Source>)
    ensures stdin.None? ==> StdinMessages(id, stdin) == [Message(STDIN, id, [])]
    ensures stdin.Some? ==>
              var source := stdin.value;
              && BodyMessages(id, source, 0) == []
              && StdinMessages(id, stdin) ==
                   if Complete(stdin) then BodyMessages(id, source, |source|) + [Message(STDIN, id, [])]
                   else BodyMessages(id, source, |source|)
  {}

  lemma SendsRead(id: uint16, source: seq<Chunk>, n: nat, before: bytes, written: bytes, now: bytes)
    requires n < |source| && written == before + EncodeAll(BodyMessages(id, source, n))
    requires now == if source[n].data == [] then written else written + Encode(Message(STDIN, id, source[n].data))
    ensures now == before + EncodeAll(BodyMessages(id, source, n + 1))
  {
    hide Encode, EncodeAll, Message;
    EncodeAllSnoc(BodyMessages(id, source, n), Message(STDIN, id, source[n].data));
  }

  function RequestMessages(id: uint16, ps: seq<Pair>, stdin: Option<Source>): seq<Record> {
    [BeginMessage(id)] + ParamsMessages(id, EncodePairs(ps)) + StdinMessages(id, stdin)
  }

  lemma ListsOneMore(ps: seq<Pair>, params: map<bytes, bytes>, todo: set<bytes>, k: bytes)
    requires todo <= params.Keys && k in todo && Lists(ps, params - todo)
    ensures Lists(ps + [(k, params[k])], params - (todo - {k}))
  {
    assert params - (todo - {k}) == (params - todo)[k := params[k]];
  }

  lemma EncodeOne(rec: Record)
    ensures EncodeAll([rec]) == Encode(rec) && EncodeAll([]) == []
  {
    hide Encode;
    assert Encode(rec) + [] == Encode(rec);
  }

  lemma EncodeAllSnoc(recs: seq<Record>, rec: Record)
    ensures EncodeAll(recs + [rec]) == EncodeAll(recs) + Encode(rec)
  {
    hide Encode;
    EncodeAllAppend(recs, [rec]);
    EncodeOne(rec);
  }

  lemma EncodeTwo(a: Record, b: Record)
    ensures EncodeAll([a, b]) == Encode(a) + Encode(b)
  {
    hide Encode;
    EncodeAllSnoc([a], b);
    EncodeOne(a);
    assert [a] + [b] == [a, b];
  }

  // ---------------------------------------------------------------------------------------------
  // The application
  // ---------------------------------------------------------------------------------------------

  datatype Request = Request(role: int, params: seq<Pair>, body: seq<bytes>)

  /** A stream of one kind: the non-empty records up to the first empty one, and what follows it. */
  function ReadStream(kind: byte, id: uint16, recs: seq<Record>): Option<(seq<bytes>, seq<Record>)> {
    if recs == [] || recs[0].kind != kind || recs[0].requestId != id then None
    else if recs[0].content == [] then Some(([], recs[1..]))
    else
      match ReadStream(kind, id, recs[1..])
      case None => None
      case Some((contents, rest)) => Some(([recs[0].content] + contents, rest))
  }

  function Concat(parts: seq<bytes>): bytes {
    if parts == [] then [] else parts[0] + Concat(parts[1..])
  }

  /** A Responder request, and nothing after it. */
  function Receive(id: uint16, recs: seq<Record>): Option<Request> {
    if recs == [] || recs[0].kind != BEGIN_REQUEST || recs[0].requestId != id || |recs[0].content| != 8 then None
    else
      match ReadStream(PARAMS, id, recs[1..])
      case None => None
      case Some((params, afterParams)) =>
        match DecodePairs(Concat(params))
        case None => None
        case Some(ps) =>
          match ReadStream(STDIN, id, afterParams)
          case None => None
          case Some((body, rest)) =>
            if rest == [] then Some(Request(Word(recs[0].content[0], recs[0].content[1]), ps, body)) else None
  }

  /** The non-empty reads among the first `n`. */
  function Parts(source: seq<Chunk>, n: nat): seq<bytes>
    requires n <= |source|
  {
    if n == 0 then []
    else if source[n - 1].data == [] then Parts(source, n - 1)
    else Parts(source, n - 1) + [source[n - 1].data]
  }

  lemma ConcatFront(parts: seq<bytes>)
    requires parts != []
    ensures Concat(parts) == parts[0] + Concat(parts[1..])
  {}

  lemma {:induction false} ConcatAppend(a: seq<bytes>, b: seq<bytes>)
    ensures Concat(a + b) == Concat(a) + Concat(b)
  {
    if a == [] {
      assert a + b == b;
    } else {
      ConcatAppend(a[1..], b);
      ConcatFront(a + b);
      ConcatFront(a);
      assert (a + b)[1..] == a[1..] + b && (a + b)[0] == a[0];
      hide Concat;
      Associate(a[0], Concat(a[1..]), Concat(b));
    }
  }

  /** No byte of the body is lost, and the parts fit their records. */
  lemma {:induction false} PartsAreBody(source: Source, n: nat)
    requires n <= |source|
    ensures Concat(Parts(source, n)) == Body(source, n)
    ensures forall i :: 0 <= i < |Parts(source, n)| ==> 0 < |Parts(source, n)[i]| <= MAX_CONTENT
  {
    if n > 0 {
      PartsAreBody(source, n - 1);
      ConcatAppend(Parts(source, n - 1), [source[n - 1].data]);
      assert Concat([source[n - 1].data]) == source[n - 1].data + [];
    }
  }

  /** Records of one kind with these contents, as they arrive. */
  function Carrying(kind: byte, id: uint16, contents: seq<bytes>): seq<Record> {
    seq(|contents|, i requires 0 <= i < |contents| => Message(kind, id, contents[i]).Padded())
  }

  lemma {:induction false} StreamArrives(kind: byte, id: uint16, contents: seq<bytes>, rest: seq<Record>)
    requires forall i :: 0 <= i < |contents| ==> contents[i] != []
    ensures ReadStream(kind, id, Carrying(kind, id, contents) + [Message(kind, id, []).Padded()] + rest)
         == Some((contents, rest))
  {
    var all := Carrying(kind, id, contents) + [Message(kind, id, []).Padded()] + rest;
    if contents == [] {
      assert all[1..] == rest;
    } else {
      StreamArrives(kind, id, contents[1..], rest);
      assert all[1..] == Carrying(kind, id, contents[1..]) + [Message(kind, id, []).Padded()] + rest;
      assert [contents[0]] + contents[1..] == contents;
    }
  }

  /** A stream without its empty record is never complete. */
  lemma {:induction false} UnendedStream(kind: byte, id: uint16, contents: seq<bytes>)
    requires forall i :: 0 <= i < |contents| ==> contents[i] != []
    ensures ReadStream(kind, id, Carrying(kind, id, contents)).None?
  {
    if contents != [] {
      UnendedStream(kind, id, contents[1..]);
      assert Carrying(kind, id, contents)[1..] == Carrying(kind, id, contents[1..]);
    }
  }

  lemma HonestMessage(kind: byte, id: uint16, content: bytes)
    requires |content| <= MAX_CONTENT
    ensures Message(kind, id, content).Honest()
  {}

  lemma {:induction false} BodyCarries(id: uint16, source: Source, n: nat)
    requires n <= |source|
    ensures AllPadded(BodyMessages(id, source, n)) == Carrying(STDIN, id, Parts(source, n))
    ensures AllHonest(BodyMessages(id, source, n))
  {
    hide Record.Padded, Message;
    if n > 0 {
      BodyCarries(id, source, n - 1);
      HonestMessage(STDIN, id, source[n - 1].data);
      assert BodyMessages(id, source, n) != BodyMessages(id, source, n - 1) ==>
          AllPadded(BodyMessages(id, source, n))
          == AllPadded(BodyMessages(id, source, n - 1)) + [Message(STDIN, id, source[n - 1].data).Padded()];
    }
  }

  function PartsOf(stdin: Option<Source>): seq<bytes> {
    match stdin
    case None => []
    case Some(source) => Parts(source, |source|)
  }

  /** The body arrives as its non-empty reads, unless its reader failed and the stream is never ended. */
  lemma StdinArrives(id: uint16, stdin: Option<Source>)
    ensures AllHonest(StdinMessages(id, stdin))
    ensures ReadStream(STDIN, id, AllPadded(StdinMessages(id, stdin)))
         == if Complete(stdin) then Some((PartsOf(stdin), [])) else None
  {
    if stdin.Some? {
      BodyCarries(id, stdin.value, |stdin.value|);
      PartsAreBody(stdin.value, |stdin.value|);
    }
    if Complete(stdin) {
      StreamArrives(STDIN, id, PartsOf(stdin), []);
      assert AllPadded(StdinMessages(id, stdin))
          == Carrying(STDIN, id, PartsOf(stdin)) + [Message(STDIN, id, []).Padded()] + [];
    } else {
      UnendedStream(STDIN, id, PartsOf(stdin));
      assert StdinMessages(id, stdin) == BodyMessages(id, stdin.value, |stdin.value|);
    }
  }

  lemma {:induction false} PairsFit(ps: seq<Pair>)
    ensures forall i :: 0 <= i < |ps| ==> |ps[i].0| + |ps[i].1| < |EncodePairs(ps)|
  {
    if ps != [] {
      PairsFit(ps[..|ps| - 1]);
    }
  }

  lemma PairsDecode(ps: seq<Pair>)
    requires |EncodePairs(ps)| <= MAX_CONTENT
    ensures DecodePairs(EncodePairs(ps)) == Some(ps)
  {
    PairsFit(ps);
    hide EncodePairs;
    PairsRoundTrip(ps);
  }

  lemma ConcatOne(content: bytes)
    ensures Concat([content]) == content
  {
    assert content + [] == content;
  }

  /** A single record of parameters, and its terminator. */
  lemma ParamsArrive(id: uint16, content: bytes, rest: seq<Record>)
    requires content != []
    ensures ReadStream(PARAMS, id, AllPadded(ParamsMessages(id, content)) + rest) == Some(([content], rest))
  {
    StreamArrives(PARAMS, id, [content], rest);
    assert AllPadded(ParamsMessages(id, content))
        == Carrying(PARAMS, id, [content]) + [Message(PARAMS, id, []).Padded()];
  }

  /** The records of a request are read back as they are exactly when the parameters fit one record. */
  lemma MessagesArrive(id: uint16, ps: seq<Pair>, stdin: Option<Source>)
    ensures var params := AllPadded(ParamsMessages(id, EncodePairs(ps)));
            DecodeAll(EncodeAll(RequestMessages(id, ps, stdin)))
              == Some([BeginMessage(id).Padded()] + (params + AllPadded(StdinMessages(id, stdin))))
            <==> |EncodePairs(ps)| <= MAX_CONTENT
  {
    hide EncodePairs, StdinMessages, EncodeAll, DecodeAll;
    if |EncodePairs(ps)| <= MAX_CONTENT {
      FittingArrive(id, ps, stdin);
    } else {
      var params := AllPadded(ParamsMessages(id, EncodePairs(ps)));
      var recs := [BeginMessage(id).Padded()] + (params + AllPadded(StdinMessages(id, stdin)));
      assert !recs[1].Honest();
      DecodedHonest(EncodeAll(RequestMessages(id, ps, stdin)));
    }
  }

  lemma FittingArrive(id: uint16, ps: seq<Pair>, stdin: Option<Source>)
    requires |EncodePairs(ps)| <= MAX_CONTENT
    ensures var params := AllPadded(ParamsMessages(id, EncodePairs(ps)));
            DecodeAll(EncodeAll(RequestMessages(id, ps, stdin)))
              == Some([BeginMessage(id).Padded()] + (params + AllPadded(StdinMessages(id, stdin))))
  {
    hide EncodePairs, StdinMessages, EncodeAll, DecodeAll, ReadStream;
    var content := EncodePairs(ps);
    StdinArrives(id, stdin);
    assert AllHonest([BeginMessage(id)] + ParamsMessages(id, content) + StdinMessages(id, stdin));
    hide BeginMessage, ParamsMessages, Record.Padded;
    RoundTripAll(RequestMessages(id, ps, stdin));
    assert AllPadded(RequestMessages(id, ps, stdin))
        == [BeginMessage(id).Padded()] + (AllPadded(ParamsMessages(id, content)) + AllPadded(StdinMessages(id, stdin)));
  }

  /** What the application makes of the bytes the client wrote. */
  function Arrived(id: uint16, ps: seq<Pair>, stdin: Option<Source>): Option<Request> {
    match DecodeAll(EncodeAll(RequestMessages(id, ps, stdin)))
    case None => None
    case Some(recs) => Receive(id, recs)
  }

  /**
   What a FastCGI application makes of the bytes the client wrote: the responder role, exactly the
   listed parameters, and exactly the non-empty reads of the body. It receives a request if and only
   if there is a parameter and the body's reader did not fail. The record of an empty parameter list
   is already the end of the PARAMS stream, so the terminator that follows stands where STDIN should
   begin; behind a failed reader the STDIN stream is never ended.
   Parameters that do not fit one record are cut: the application reads no more of them than what
   is left of their length in 16 bits, and none at all if that is nothing.
   */
  lemma RequestArrives(id: uint16, ps: seq<Pair>, stdin: Option<Source>)
    ensures var n, r := |EncodePairs(ps)|, Arrived(id, ps, stdin);
            if n <= MAX_CONTENT
            then r == if ps != [] && Complete(stdin) then Some(Request(RESPONDER, ps, PartsOf(stdin))) else None
            else
              var recs := DecodeAll(EncodeAll(RequestMessages(id, ps, stdin)));
              && (recs.Some? ==> |recs.value| >= 2 && recs.value[1].content == EncodePairs(ps)[..n % 0x1_0000])
              && (n % 0x1_0000 == 0 && r.Some? ==> r.value.params == [] != ps)
  {
    hide EncodePairs, RequestMessages, DecodeAll, EncodeAll, Receive;
    if |EncodePairs(ps)| <= MAX_CONTENT {
      FittingReceived(id, ps, stdin);
    } else {
      OversizedCut(id, ps, stdin);
      PairsAtAll(ps);
      if Arrived(id, ps, stdin).Some? {
        var recs := DecodeAll(EncodeAll(RequestMessages(id, ps, stdin))).value;
        if recs[1].content == [] { EndedParams(id, recs); }
      }
    }
  }

  lemma EndedParams(id: uint16, recs: seq<Record>)
    requires |recs| >= 2 && recs[1].kind == PARAMS && recs[1].requestId == id && recs[1].content == []
    requires Receive(id, recs).Some?
    ensures Receive(id, recs).value.params == []
  {
    assert recs[1..][0] == recs[1];
  }

  lemma OversizedCut(id: uint16, ps: seq<Pair>, stdin: Option<Source>)
    requires |EncodePairs(ps)| > MAX_CONTENT
    ensures var recs := DecodeAll(EncodeAll(RequestMessages(id, ps, stdin)));
            recs.Some? ==>
              && |recs.value| >= 2 && recs.value[1].kind == PARAMS && recs.value[1].requestId == id
              && recs.value[1].content == EncodePairs(ps)[..|EncodePairs(ps)| % 0x1_0000]
  {
    hide EncodePairs, StdinMessages, Encode, Decode, EncodeAll, DecodeAll;
    var content := EncodePairs(ps);
    var rec := Record(VERSION, PARAMS, id, |content| % 0x1_0000, 0, content);
    var more := [Message(PARAMS, id, [])] + StdinMessages(id, stdin);
    assert RequestMessages(id, ps, stdin) == [BeginMessage(id)] + ([rec] + more);
    FirstTwo(BeginMessage(id), rec, more);
    CutRecord(rec, EncodeAll(more));
    SecondDecoded(BeginMessage(id), rec, EncodeAll(more));
  }

  lemma SecondDecoded(a: Record, b: Record, tail: bytes)
    requires a.Honest() && Decode(Encode(b) + tail).Got?
    ensures var recs := DecodeAll(Encode(a) + (Encode(b) + tail));
            recs.Some? ==> |recs.value| >= 2 && recs.value[1] == Decode(Encode(b) + tail).value
  {
    RoundTrip(a, Encode(b) + tail);
    NeverEmpty(a, Encode(b) + tail);
    NeverEmpty(b, tail);
    hide Decode, Encode;
  }

  lemma FirstTwo(a: Record, b: Record, more: seq<Record>)
    ensures EncodeAll([a] + ([b] + more)) == Encode(a) + (Encode(b) + EncodeAll(more))
  {
    hide Encode;
    assert ([a] + ([b] + more))[1..] == [b] + more && ([b] + more)[1..] == more;
  }

  lemma FittingReceived(id: uint16, ps: seq<Pair>, stdin: Option<Source>)
    requires |EncodePairs(ps)| <= MAX_CONTENT
    ensures Arrived(id, ps, stdin) ==
              if ps != [] && Complete(stdin) then Some(Request(RESPONDER, ps, PartsOf(stdin))) else None
  {
    hide EncodePairs, DecodePairs, DecodeAll, EncodeAll;
    FittingArrive(id, ps, stdin);
    StdinArrives(id, stdin);
    var params, body := AllPadded(ParamsMessages(id, EncodePairs(ps))), AllPadded(StdinMessages(id, stdin));
    var recs := [BeginMessage(id).Padded()] + (params + body);
    assert recs[1..] == params + body;
    PairsAtAll(ps);
    if ps == [] {
      StreamArrives(PARAMS, id, [], [params[1]] + body);
      assert params + body == Carrying(PARAMS, id, []) + [Message(PARAMS, id, []).Padded()] + ([params[1]] + body);
    } else {
      ParamsArrive(id, EncodePairs(ps), body);
      PairsDecode(ps);
      ConcatOne(EncodePairs(ps));
    }
  }

  lemma PairsAtAll(ps: seq<Pair>)
    ensures EncodePairs([]) == [] && DecodePairs(Concat([])) == Some([])
    ensures ps != [] ==> |EncodePairs(ps)| >= 1
  {}
}
