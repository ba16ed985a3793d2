/**
 Receiving a FastCGI response (internal/php/fastcgi/protocol.go): the buffered reader, which
 collects STDOUT and STDERR until END_REQUEST, and the streaming reader, which hands STDOUT out in
 pieces of whatever size its caller asks for. Both are compared with one plain demultiplexing of the
 incoming bytes (sections 3.3, 5.3 and 5.5 of the FastCGI Specification 1.0).
 */
module FastCgiResponse {
  import opened Common
  import opened FastCgiWire

  const MAX_RESPONSE := 64 * 1024 * 1024

  datatype EndRequest = EndRequest(appStatus: int, protocolStatus: int)

  /** int32(binary.BigEndian.Uint32(b)) */
  function Int32(b: bytes): int
    requires |b| == 4
  {
    var n := Word(Word(b[0], b[1]), 0) * 256 + Word(b[2], b[3]);
    if n < 0x8000_0000 then n else n - 0x1_0000_0000
  }

  /** The body of END_REQUEST; a short one carries no status. */
  function EndOf(content: bytes): Option<EndRequest> {
    if |content| < 8 then None else Some(EndRequest(Int32(content[..4]), Int32(content[4..8])))
  }

  datatype Reply = Reply(stdout: bytes, stderr: bytes, end: EndRequest)

  datatype Outcome = Done(reply: Reply) | TooLarge | ShortEnd | Lost(error: ReadError)

  /** The buffered reader, given what it has collected so far. */
  function Collect(input: bytes, id: uint16, out: bytes, err: bytes): Outcome
    decreases |input|
  {
    match Decode(input)
    case Broken(e) => Lost(e)
    case Got(rec, rest) =>
      if rec.requestId != id then Collect(rest, id, out, err)
      else if rec.kind == STDOUT && rec.content != [] then
        if |out| + |rec.content| > MAX_RESPONSE then TooLarge else Collect(rest, id, out + rec.content, err)
      else if rec.kind == STDERR && rec.content != [] then
        if |err| + |rec.content| > MAX_RESPONSE then TooLarge else Collect(rest, id, out, err + rec.content)
      else if rec.kind == END_REQUEST then
        match EndOf(rec.content)
        case None => ShortEnd
        case Some(end) => Done(Reply(out, err, end))
      else Collect(rest, id, out, err)
  }

  method ReadResponse(reader: Reader, id: uint16) returns (outcome: Outcome)
    modifies reader
    ensures outcome == Collect(old(reader.input), id, [], [])
  {
    var stdout: bytes, stderr: bytes := [], [];
    while true
      invariant Collect(old(reader.input), id, [], []) == Collect(reader.input, id, stdout, stderr)
      decreases |reader.input|
    {
      var r := reader.ReadRecord();
      if r.Broken? {
        return Lost(r.error);
      }
      var rec := r.value;
      if rec.requestId == id {
        if rec.kind == STDOUT {
          if |rec.content| > 0 {
            if |stdout| + |rec.content| > MAX_RESPONSE {
              return TooLarge;
            }
            stdout := stdout + rec.content;
          }
        } else if rec.kind == STDERR {
          if |rec.content| > 0 {
            if |stderr| + |rec.content| > MAX_RESPONSE {
              return TooLarge;
            }
            stderr := stderr + rec.content;
          }
        } else if rec.kind == END_REQUEST {
          if |rec.content| < 8 {
            return ShortEnd;
          }
          return Done(Reply(stdout, stderr, EndRequest(Int32(rec.content[..4]), Int32(rec.content[4..8]))));
        }
      }
    }
  }

  // ---------------------------------------------------------------------------------------------
  // The streaming reader
  // ---------------------------------------------------------------------------------------------

  datatype Stream = Stream(input: bytes, id: uint16, buf: bytes, stderr: bytes,
                           done: bool, end: Option<EndRequest>, closed: bool)

  datatype Status = Fine | EndOfStream | ClosedPipe | ReadFailed(error: ReadError)

  /** Read records until there is something to hand out or the response has ended. */
  function Fill(s: Stream): (Stream, Option<ReadError>)
    decreases |s.input|
  {
    if s.buf != [] || s.done then (s, None)
    else
      match Decode(s.input)
      case Broken(e) => (s.(input := []), Some(e))
      case Got(rec, rest) => Fill(Absorb(s, rec, rest))
  }

  function Absorb(s: Stream, rec: Record, rest: bytes): Stream {
    if rec.requestId != s.id then s.(input := rest)
    else if rec.kind == STDOUT then s.(input := rest, buf := s.buf + rec.content)
    else if rec.kind == STDERR then s.(input := rest, stderr := s.stderr + rec.content)
    else if rec.kind == END_REQUEST then
      s.(input := rest, done := true, end := if EndOf(rec.content).Some? then EndOf(rec.content) else s.end)
    else s.(input := rest)
  }

  /** One Read into a buffer of `size` bytes. */
  function ReadStep(s: Stream, size: nat): (Stream, bytes, Status) {
    if s.closed then (s, [], ClosedPipe)
    else
      var (filled, failed) := Fill(s);
      if failed.Some? then (filled, [], ReadFailed(failed.value))
      else if filled.buf != [] then
        var n := if size < |filled.buf| then size else |filled.buf|;
        (filled.(buf := filled.buf[n..]), filled.buf[..n], Fine)
      else (filled, [], EndOfStream)
  }

  class ResponseStream {
    const reader: Reader
    const id: uint16
    var buf: bytes
    var stderr: bytes
    var endReq: Option<EndRequest>
    var done: bool
    var closed: bool

    ghost function View(): Stream
      reads this, reader
    {
      Stream(reader.input, id, buf, stderr, done, endReq, closed)
    }

    constructor (reader: Reader, id: uint16)
      ensures this.reader == reader
      ensures View() == Stream(reader.input, id, [], [], false, None, false)
    {
      this.reader, this.id := reader, id;
      buf, stderr, endReq, done, closed := [], [], None, false, false;
    }

    method Close()
      modifies this
      ensures View() == old(View()).(closed := true)
    {
      closed := true;
    }

    /** What Read does with one record. */
    method Accept(rec: Record)
      modifies this`buf, this`stderr, this`endReq, this`done
      ensures View() == Absorb(old(View()), rec, reader.input)
    {
      if rec.requestId == id {
        if rec.kind == STDOUT {
          if |rec.content| > 0 {
            buf := buf + rec.content;
          }
        } else if rec.kind == STDERR {
          if |rec.content| > 0 {
            stderr := stderr + rec.content;
          }
        } else if rec.kind == END_REQUEST {
          done := true;
          if |rec.content| >= 8 {
            endReq := Some(EndRequest(Int32(rec.content[..4]), Int32(rec.content[4..8])));
          }
        }
      }
    }

    method Read(size: nat) returns (p: bytes, status: Status)
      modifies this, reader
      ensures (View(), p, status) == ReadStep(old(View()), size)
    {
      if closed {
        return [], ClosedPipe;
      }
      while |buf| == 0 && !done
        invariant !closed && Fill(old(View())) == Fill(View())
        decreases |reader.input|
      {
        var r := reader.ReadRecord();
        if r.Broken? {
          return [], ReadFailed(r.error);
        }
        Accept(r.value);
      }
      if |buf| > 0 {
        var n := if size < |buf| then size else |buf|;
        p, status := buf[..n], Fine;
        buf := buf[n..];
        return;
      }
      return [], EndOfStream;
    }
  }

  // ---------------------------------------------------------------------------------------------
  // One meaning for both readers
  // ---------------------------------------------------------------------------------------------

  datatype Content = Content(stdout: bytes, stderr: bytes, end: Option<EndRequest>)

  /** What the bytes say to request `id`, up to its END_REQUEST; None if the input stops before that. */
  function Plain(input: bytes, id: uint16): Option<Content>
    decreases |input|
  {
    match Decode(input)
    case Broken(_) => None
    case Got(rec, rest) =>
      if rec.requestId == id && rec.kind == END_REQUEST then Some(Content([], [], EndOf(rec.content)))
      else
        match Plain(rest, id)
        case None => None
        case Some(c) =>
          if rec.requestId == id && rec.kind == STDOUT then Some(c.(stdout := rec.content + c.stdout))
          else if rec.requestId == id && rec.kind == STDERR then Some(c.(stderr := rec.content + c.stderr))
          else Some(c)
  }

  predicate Acceptable(c: Option<Content>, out: bytes, err: bytes) {
    && c.Some?
    && c.value.end.Some?
    && |out + c.value.stdout| <= MAX_RESPONSE
    && |err + c.value.stderr| <= MAX_RESPONSE
  }

  lemma {:induction false} CollectIsPlain(input: bytes, id: uint16, out: bytes, err: bytes)
    requires |out| <= MAX_RESPONSE && |err| <= MAX_RESPONSE
    ensures var c := Plain(input, id);
            if Acceptable(c, out, err)
            then
              Collect(input, id, out, err) == Done(Reply(out + c.value.stdout, err + c.value.stderr, c.value.end.value))
            else !Collect(input, id, out, err).Done?
    decreases |input|
  {
    hide Decode;
    match Decode(input)
    case Broken(_) =>
    case Got(rec, rest) =>
      if rec.requestId == id && rec.kind == STDOUT && rec.content != [] {
        if |out| + |rec.content| <= MAX_RESPONSE { CollectIsPlain(rest, id, out + rec.content, err); }
        if Plain(rest, id).Some? {
          Associate(out, rec.content, Plain(rest, id).value.stdout);
        }
      } else if rec.requestId == id && rec.kind == STDERR && rec.content != [] {
        if |err| + |rec.content| <= MAX_RESPONSE { CollectIsPlain(rest, id, out, err + rec.content); }
        if Plain(rest, id).Some? {
          Associate(err, rec.content, Plain(rest, id).value.stderr);
        }
      } else if rec.requestId == id && rec.kind == END_REQUEST {
        assert out + [] == out && err + [] == err;
      } else {
        CollectIsPlain(rest, id, out, err);
        assert forall c: bytes :: [] + c == c;
      }
  }

  /** What a stream still has to deliver. */
  function Remaining(s: Stream): Option<Content> {
    if s.done then Some(Content(s.buf, s.stderr, s.end))
    else
      match Plain(s.input, s.id)
      case None => None
      case Some(c) => Some(Content(s.buf + c.stdout, s.stderr + c.stderr, c.end))
  }

  /** A stream that is open and has no status before it is done. */
  predicate Live(s: Stream) {
    !s.closed && (!s.done ==> s.end == None)
  }

  lemma PlainStep(input: bytes, id: uint16)
    requires Decode(input).Got?
    ensures var rec, c := Decode(input).value, Plain(Decode(input).rest, id);
            Plain(input, id) ==
              if rec.requestId != id then c
              else if rec.kind == END_REQUEST then Some(Content([], [], EndOf(rec.content)))
              else if c.None? then None
              else if rec.kind == STDOUT then Some(c.value.(stdout := rec.content + c.value.stdout))
              else if rec.kind == STDERR then Some(c.value.(stderr := rec.content + c.value.stderr))
              else c
  {
    hide Decode;
  }

  lemma AbsorbKeepsRemaining(s: Stream)
    requires Live(s) && !s.done && Decode(s.input).Got?
    ensures var s' := Absorb(s, Decode(s.input).value, Decode(s.input).rest);
            Live(s') && Remaining(s') == Remaining(s)
  {
    var rec, rest := Decode(s.input).value, Decode(s.input).rest;
    var c := Plain(rest, s.id);
    PlainStep(s.input, s.id);
    hide Decode, Plain;
    if rec.requestId == s.id && rec.kind == END_REQUEST {
      assert s.buf + [] == s.buf && s.stderr + [] == s.stderr;
    } else if c.Some? {
      Associate(s.buf, rec.content, c.value.stdout);
      Associate(s.stderr, rec.content, c.value.stderr);
    }
  }

  lemma {:induction false} FillKeepsRemaining(s: Stream)
    requires Live(s)
    ensures var (s', failed) := Fill(s);
            && Live(s')
            && (failed.Some? ==> Remaining(s) == None)
            && (failed == None ==> Remaining(s') == Remaining(s) && (s'.buf != [] || s'.done))
    decreases |s.input|
  {
    hide Absorb;
    if s.buf == [] && !s.done && Decode(s.input).Got? {
      AbsorbKeepsRemaining(s);
      AbsorbAdvances(s);
      FillKeepsRemaining(Absorb(s, Decode(s.input).value, Decode(s.input).rest));
    }
  }

  lemma AbsorbAdvances(s: Stream)
    requires Decode(s.input).Got?
    ensures Absorb(s, Decode(s.input).value, Decode(s.input).rest).input == Decode(s.input).rest
  {}

  /** Reads of the given sizes, up to the first that does not deliver. */
  function Drain(s: Stream, sizes: seq<nat>): (Stream, bytes, Status)
    decreases |sizes|
  {
    if sizes == [] then (s, [], Fine)
    else
      var (s', p, status) := ReadStep(s, sizes[0]);
      if status != Fine then (s', p, status)
      else
        var (s'', more, last) := Drain(s', sizes[1..]);
        (s'', p + more, last)
  }

  predicate Positive(sizes: seq<nat>) {
    forall i :: 0 <= i < |sizes| ==> sizes[i] > 0
  }

  /** One read hands over a piece of what remains, not empty if there is room, or ends the stream when nothing does. */
  lemma ReadDelivers(s: Stream, size: nat)
    requires Live(s)
    ensures var (s', p, status) := ReadStep(s, size);
            && Live(s')
            && (status == Fine ==> (size > 0 ==> p != []) && (Remaining(s).Some? <==> Remaining(s').Some?))
            && (status == Fine && Remaining(s).Some? ==>
                  var later := Remaining(s').value;
                  Remaining(s).value == Content(p + later.stdout, later.stderr, later.end))
            && (status == EndOfStream ==> p == [] && Remaining(s) == Some(Content([], s'.stderr, s'.end)))
            && (Remaining(s).Some? ==> status in {Fine, EndOfStream})
  {
    FillKeepsRemaining(s);
    var (f, failed) := Fill(s);
    hide Fill, Plain, Remaining;
    if failed == None {
      if f.buf != [] {
        HandOut(f, if size < |f.buf| then size else |f.buf|);
      } else {
        NothingLeft(f);
      }
    }
  }

  lemma HandOut(f: Stream, n: nat)
    requires n <= |f.buf|
    ensures var later := Remaining(f.(buf := f.buf[n..]));
            if Remaining(f).None? then later.None?
            else
              && later.Some?
              && Remaining(f).value == Content(f.buf[..n] + later.value.stdout, later.value.stderr, later.value.end)
  {
    hide Plain;
    assert f.buf[..n] + f.buf[n..] == f.buf;
    if !f.done && Plain(f.input, f.id).Some? {
      Associate(f.buf[..n], f.buf[n..], Plain(f.input, f.id).value.stdout);
    }
  }

  lemma NothingLeft(f: Stream)
    requires f.buf == [] && f.done
    ensures Remaining(f) == Some(Content([], f.stderr, f.end))
  {}

  lemma {:induction false} DrainDelivers(s: Stream, sizes: seq<nat>)
    requires Live(s)
    ensures var (s', p, status) := Drain(s, sizes);
            && (status == EndOfStream ==> Remaining(s) == Some(Content(p, s'.stderr, s'.end)))
            && (Remaining(s).Some? ==>
                  && p <= Remaining(s).value.stdout
                  && status in {Fine, EndOfStream}
                  && (Positive(sizes) && status == Fine ==> |sizes| <= |p|))
    decreases |sizes|
  {
    hide ReadStep, Remaining;
    if sizes != [] {
      ReadDelivers(s, sizes[0]);
      var (s', p, status) := ReadStep(s, sizes[0]);
      if status == Fine {
        DrainDelivers(s', sizes[1..]);
      }
    }
  }

  function Opened(input: bytes, id: uint16): Stream {
    Stream(input, id, [], [], false, None, false)
  }

  /**
   The two readers agree. Read with any buffer sizes, a stream that reaches its end has delivered
   exactly the STDOUT of the plain demultiplexing, with its STDERR and its status; it ends only if
   the response does. With positive sizes it gets there after at most one read more than it has
   bytes. The buffered reader returns the same three things exactly when END_REQUEST is complete and
   neither output exceeds the limit.
   */
  lemma ReadersAgree(input: bytes, id: uint16, sizes: seq<nat>)
    ensures var (s, p, status) := Drain(Opened(input, id), sizes);
            && (status == EndOfStream ==>
                  && Plain(input, id) == Some(Content(p, s.stderr, s.end))
                  && (Collect(input, id, [], []).Done? <==>
                        s.end.Some? && |p| <= MAX_RESPONSE && |s.stderr| <= MAX_RESPONSE)
                  && (Collect(input, id, [], []).Done? ==>
                        Collect(input, id, [], []) == Done(Reply(p, s.stderr, s.end.value))))
            && (Plain(input, id).Some? ==>
                  && p <= Plain(input, id).value.stdout
                  && (Positive(sizes) && |sizes| > |Plain(input, id).value.stdout| ==> status == EndOfStream))
            && (Collect(input, id, [], []).Done? ==> Plain(input, id).Some?)
  {
    hide Drain, Collect, Plain, Remaining, Opened, Positive;
    OpenedRemains(input, id);
    DrainDelivers(Opened(input, id), sizes);
    CollectIsPlain(input, id, [], []);
    if Plain(input, id).Some? {
      var c := Plain(input, id).value;
      assert [] + c.stdout == c.stdout && [] + c.stderr == c.stderr;
    }
  }

  lemma OpenedRemains(input: bytes, id: uint16)
    ensures Remaining(Opened(input, id)) == Plain(input, id) && Live(Opened(input, id))
  {
    hide Plain;
    if Plain(input, id).Some? {
      var c := Plain(input, id).value;
      assert [] + c.stdout == c.stdout && [] + c.stderr == c.stderr;
    }
  }

  // ---------------------------------------------------------------------------------------------
  // Records of other requests
  // ---------------------------------------------------------------------------------------------

  type Padding = b: bytes | |b| < 256

  /** A record as an application may send it, with padding of any length and any bytes. */
  datatype Frame = Frame(rec: Record, pad: Padding) {
    function Bytes(): bytes {
      Header(rec, |pad|) + rec.content + pad
    }

    /** What a decoder makes of it. */
    function Read(): Record {
      rec.(paddingLength := |pad|)
    }
  }

  predicate AllFramed(frames: seq<Frame>) {
    forall i :: 0 <= i < |frames| ==> frames[i].rec.Honest()
  }

  function Sent(frames: seq<Frame>): bytes {
    if frames == [] then [] else frames[0].Bytes() + Sent(frames[1..])
  }

  function Own(frames: seq<Frame>, id: uint16): seq<Frame> {
    if frames == [] then []
    else if frames[0].rec.requestId == id then [frames[0]] + Own(frames[1..], id)
    else Own(frames[1..], id)
  }

  lemma ReadsFrame(frame: Frame, tail: bytes)
    requires frame.rec.Honest()
    ensures Decode(frame.Bytes() + tail) == Got(frame.Read(), tail)
  {
    AnyPadding(frame.rec, frame.pad, tail);
  }

  lemma DecodesFirst(frames: seq<Frame>, tail: bytes)
    requires AllFramed(frames) && frames != []
    ensures Decode(Sent(frames) + tail) == Got(frames[0].Read(), Sent(frames[1..]) + tail)
  {
    hide Decode, Frame.Bytes;
    assert Sent(frames) + tail == frames[0].Bytes() + (Sent(frames[1..]) + tail);
    ReadsFrame(frames[0], Sent(frames[1..]) + tail);
  }

  /** Records that carry another request id change nothing for either reader, however they are padded. */
  lemma {:induction false} ForeignRecordsIgnored(frames: seq<Frame>, id: uint16, tail: bytes, out: bytes, err: bytes)
    requires AllFramed(frames)
    ensures Collect(Sent(frames) + tail, id, out, err) == Collect(Sent(Own(frames, id)) + tail, id, out, err)
    ensures Plain(Sent(frames) + tail, id) == Plain(Sent(Own(frames, id)) + tail, id)
    decreases |frames|
  {
    hide Decode, Frame.Bytes, Sent;
    if frames != [] {
      var rec := frames[0].rec;
      DecodesFirst(frames, tail);
      OwnFirst(frames, id);
      if rec.requestId == id {
        OwnFramed(frames, id);
        DecodesFirst(Own(frames, id), tail);
        hide Own;
        ForeignRecordsIgnored(frames[1..], id, tail, out + rec.content, err);
        ForeignRecordsIgnored(frames[1..], id, tail, out, err + rec.content);
      }
      ForeignRecordsIgnored(frames[1..], id, tail, out, err);
    }
  }

  /** The records this program writes are among them. */
  lemma {:induction false} EncodedIsSent(recs: seq<Record>) returns (frames: seq<Frame>)
    ensures |frames| == |recs| && forall i :: 0 <= i < |recs| ==> frames[i].rec == recs[i]
    ensures Sent(frames) == EncodeAll(recs)
  {
    frames := [];
    if recs != [] {
      var more := EncodedIsSent(recs[1..]);
      frames := [Frame(recs[0], Zeros(PaddingFor(recs[0].contentLength)))] + more;
      assert frames[1..] == more;
    }
  }

  /** What a record leaves of a stream does not depend on the input it was read from. */
  lemma AbsorbApart(s: Stream, x: bytes, rec: Record, rest: bytes)
    ensures Absorb(s.(input := x), rec, rest) == Absorb(s, rec, []).(input := rest)
  {}

  lemma FillStep(s: Stream)
    requires s.buf == [] && !s.done && Decode(s.input).Got?
    ensures Fill(s) == Fill(Absorb(s, Decode(s.input).value, Decode(s.input).rest))
  {
    hide Decode, Absorb;
  }

  /** One input is the other without the records of other requests. */
  ghost predicate Skips(x: bytes, y: bytes, id: uint16) {
    exists frames, tail :: SkipsBy(x, y, id, frames, tail)
  }

  ghost predicate SkipsBy(x: bytes, y: bytes, id: uint16, frames: seq<Frame>, tail: bytes) {
    AllFramed(frames) && x == Sent(frames) + tail && y == Sent(Own(frames, id)) + tail
  }

  lemma SkipsNothing(x: bytes, id: uint16)
    ensures Skips(x, x, id)
  {
    assert Sent([]) + x == x;
    assert SkipsBy(x, x, id, [], x);
  }

  lemma FillForeign(s: Stream, frames: seq<Frame>, tail: bytes)
    requires AllFramed(frames) && frames != [] && s.buf == [] && !s.done && frames[0].rec.requestId != s.id
    ensures Fill(s.(input := Sent(frames) + tail)) == Fill(s.(input := Sent(frames[1..]) + tail))
  {
    var rec, rest := frames[0].Read(), Sent(frames[1..]) + tail;
    DecodesFirst(frames, tail);
    hide Decode, Fill, Sent;
    FillStep(s.(input := Sent(frames) + tail));
  }

  lemma FillOwn(s: Stream, frames: seq<Frame>, tail: bytes)
    requires AllFramed(frames) && frames != [] && s.buf == [] && !s.done
    ensures Fill(s.(input := Sent(frames) + tail))
         == Fill(Absorb(s, frames[0].Read(), []).(input := Sent(frames[1..]) + tail))
  {
    DecodesFirst(frames, tail);
    hide Decode, Fill, Sent, Absorb;
    FillStep(s.(input := Sent(frames) + tail));
    AbsorbApart(s, Sent(frames) + tail, frames[0].Read(), Sent(frames[1..]) + tail);
  }

  ghost predicate FillsAlike(s: Stream, x: bytes, y: bytes, y': bytes) {
    var (f, e) := Fill(s.(input := x));
    && Fill(s.(input := y)) == (f.(input := y'), e)
    && Skips(f.input, y', s.id) && f.id == s.id && f.closed == s.closed
  }

  lemma FillNothing(s: Stream, frames: seq<Frame>, tail: bytes)
    requires AllFramed(frames) && (s.buf != [] || s.done)
    ensures var y := Sent(Own(frames, s.id)) + tail; FillsAlike(s, Sent(frames) + tail, y, y)
  {
    var x, y := Sent(frames) + tail, Sent(Own(frames, s.id)) + tail;
    assert SkipsBy(x, y, s.id, frames, tail);
    hide Sent, Own, SkipsBy;
    assert Fill(s.(input := x)) == (s.(input := x), None) && Fill(s.(input := y)) == (s.(input := y), None);
  }

  lemma FillSame(s: Stream, x: bytes)
    ensures FillsAlike(s, x, x, Fill(s.(input := x)).0.input)
  {
    var t := s.(input := x);
    FillKeepsId(t);
    SkipsNothing(Fill(t).0.input, s.id);
    hide Fill, Skips;
  }

  lemma OwnFirst(frames: seq<Frame>, id: uint16)
    requires frames != [] && AllFramed(frames)
    ensures AllFramed(frames[1..])
    ensures frames[0].rec.requestId != id ==> Own(frames, id) == Own(frames[1..], id)
    ensures frames[0].rec.requestId == id ==>
              Own(frames, id) != [] && Own(frames, id)[0] == frames[0] && Own(frames, id)[1..] == Own(frames[1..], id)
  {}

  lemma {:induction false} OwnFramed(frames: seq<Frame>, id: uint16)
    requires AllFramed(frames)
    ensures AllFramed(Own(frames, id))
  {
    if frames != [] { OwnFramed(frames[1..], id); }
  }

  /** Filling comes to the same, and what is left of the two inputs is again such a pair. */
  lemma {:induction false} FillSkips(s: Stream, frames: seq<Frame>, tail: bytes) returns (y': bytes)
    requires AllFramed(frames)
    ensures FillsAlike(s, Sent(frames) + tail, Sent(Own(frames, s.id)) + tail, y')
    decreases |frames|
  {
    if s.buf != [] || s.done {
      FillNothing(s, frames, tail);
      y' := Sent(Own(frames, s.id)) + tail;
    } else if frames == [] {
      FillSame(s, Sent(frames) + tail);
      y' := Fill(s.(input := Sent(frames) + tail)).0.input;
    } else {
      OwnFirst(frames, s.id);
      OwnFramed(frames, s.id);
      hide Fill, Sent, Absorb, Skips, Own, AllFramed;
      if frames[0].rec.requestId != s.id {
        FillForeign(s, frames, tail);
        y' := FillSkips(s, frames[1..], tail);
      } else {
        AbsorbKeepsId(s, frames[0].Read());
        FillOwn(s, frames, tail);
        FillOwn(s, Own(frames, s.id), tail);
        y' := FillSkips(Absorb(s, frames[0].Read(), []), frames[1..], tail);
      }
    }
  }

  lemma AbsorbKeepsId(s: Stream, rec: Record)
    ensures Absorb(s, rec, []).id == s.id && Absorb(s, rec, []).closed == s.closed
  {}

  lemma {:induction false} FillKeepsId(s: Stream)
    ensures Fill(s).0.id == s.id && Fill(s).0.closed == s.closed
    decreases |s.input|
  {
    hide Absorb;
    if s.buf == [] && !s.done && Decode(s.input).Got? {
      AbsorbAdvances(s);
      AbsorbApart(s, s.input, Decode(s.input).value, Decode(s.input).rest);
      AbsorbKeepsId(s, Decode(s.input).value);
      FillKeepsId(Absorb(s, Decode(s.input).value, Decode(s.input).rest));
    }
  }

  /** Reads are not affected either, wherever the input is cut. */
  lemma {:induction false} ForeignReadsIgnored(s: Stream, frames: seq<Frame>, tail: bytes, sizes: seq<nat>)
    requires AllFramed(frames)
    ensures SameDrain(s, Sent(frames) + tail, Sent(Own(frames, s.id)) + tail, sizes)
  {
    hide Sent, Own, SameDrain;
    assert SkipsBy(Sent(frames) + tail, Sent(Own(frames, s.id)) + tail, s.id, frames, tail);
    DrainSkips(s, Sent(frames) + tail, Sent(Own(frames, s.id)) + tail, sizes);
  }

  /** Reading the two inputs delivers the same bytes and status and leaves the same stream but for the input. */
  predicate SameDrain(s: Stream, x: bytes, y: bytes, sizes: seq<nat>) {
    var (t, p, status) := Drain(s.(input := x), sizes);
    var (t', p', status') := Drain(s.(input := y), sizes);
    p == p' && status == status' && t' == t.(input := t'.input)
  }

  lemma {:induction false} DrainSkips(s: Stream, x: bytes, y: bytes, sizes: seq<nat>)
    requires Skips(x, y, s.id)
    ensures SameDrain(s, x, y, sizes)
    decreases |sizes|
  {
    hide ReadStep, Skips;
    if sizes != [] {
      var y' := ReadSkips(s, x, y, sizes[0]);
      var (t, p, status) := ReadStep(s.(input := x), sizes[0]);
      assert t.(input := t.input) == t;
      DrainSkips(t, t.input, y', sizes[1..]);
    }
  }

  lemma ReadSkips(s: Stream, x: bytes, y: bytes, size: nat) returns (y': bytes)
    requires Skips(x, y, s.id)
    ensures var (t, p, status) := ReadStep(s.(input := x), size);
            && ReadStep(s.(input := y), size) == (t.(input := y'), p, status)
            && Skips(t.input, y', s.id) && t.id == s.id
  {
    if s.closed {
      y' := y;
    } else {
      var frames, tail :| SkipsBy(x, y, s.id, frames, tail);
      y' := FillSkips(s, frames, tail);
      hide Fill, Sent, Own, Skips;
    }
  }
}
