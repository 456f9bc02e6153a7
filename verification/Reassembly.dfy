/**
 * accumulate_json() in main/dg_agent.c: text messages that arrive as fragments
 * (section 5.4 of RFC 6455), each cut into slices by the client's receive buffer.
 */
module Reassembly {
  import opened Words

  const MAX := 8192

  datatype Opcode = TextFrame | ContFrame | BinaryFrame | Control

  // One DATA event: a slice of one frame.
  datatype Event = Event(op: Opcode, data: seq<Byte>, offset: nat, frameLen: nat, fin: bool)

  // ---------------- the handler, on values ----------------

  datatype Buffer = Buffer(bytes: seq<Byte>, dropping: bool)

  const CLEAN := Buffer([], false)

  function Reset(b: Buffer, e: Event): Buffer {
    if e.op == TextFrame && e.offset == 0 then CLEAN else b
  }

  function Accumulate(b: Buffer, e: Event): Buffer {
    if b.dropping then b
    else if |b.bytes| + |e.data| > MAX then Buffer([], true)
    else Buffer(b.bytes + e.data, false)
  }

  predicate Completes(e: Event) {
    e.fin && e.offset + |e.data| >= e.frameLen
  }

  predicate Handled(e: Event) {
    (e.op == TextFrame || e.op == ContFrame) && |e.data| > 0
  }

  function Next(b: Buffer, e: Event): Buffer {
    if !Handled(e) then b
    else if Completes(e) then CLEAN
    else Accumulate(Reset(b, e), e)
  }

  // The message handed to handle_json() on this event, if any.
  function Output(b: Buffer, e: Event): seq<seq<Byte>> {
    if Handled(e) && Completes(e) && !Accumulate(Reset(b, e), e).dropping
    then [Accumulate(Reset(b, e), e).bytes] else []
  }

  function Final(b: Buffer, es: seq<Event>): Buffer
    decreases es
  {
    if |es| == 0 then b else Final(Next(b, es[0]), es[1..])
  }

  function Delivered(b: Buffer, es: seq<Event>): seq<seq<Byte>>
    decreases es
  {
    if |es| == 0 then [] else Output(b, es[0]) + Delivered(Next(b, es[0]), es[1..])
  }

  // ---------------- the code ----------------

  class Reassembler {
    const json: array<Byte>
    var len: nat
    var dropping: bool

    ghost predicate Ready()
      reads this, json
    {
      json.Length == MAX && len <= MAX && (dropping ==> len == 0)
    }

    ghost function Value(): Buffer
      requires Ready()
      reads this, json
    {
      Buffer(json[..len], dropping)
    }

    constructor ()
      ensures Ready() && Value() == CLEAN && fresh(json)
    {
      json := new Byte[MAX](_ => 0);
      len, dropping := 0, false;
    }

    /** The DATA event: the filter in on_ws_event() and then accumulate_json(). */
    method OnData(e: Event) returns (out: seq<seq<Byte>>)
      requires Ready()
      modifies this, json
      ensures Ready()
      ensures Value() == Next(old(Value()), e) && out == Output(old(Value()), e)
    {
      out := [];
      if !Handled(e) {
        return;
      }
      if e.op == TextFrame && e.offset == 0 {
        len, dropping := 0, false;
      }
      ghost var b := Reset(old(Value()), e);
      assert json[..len] == b.bytes && dropping == b.dropping;
      if !dropping {
        if len + |e.data| > MAX {
          dropping, len := true, 0;
        } else {
          forall i | 0 <= i < |e.data| {
            json[len + i] := e.data[i];
          }
          len := len + |e.data|;
          assert json[..len] == b.bytes + e.data;
        }
      }
      if Completes(e) {
        if !dropping {
          out := [json[..len]];
        }
        len, dropping := 0, false;
      }
    }
  }

  // ---------------- what a peer sends ----------------

  // A frame's slices, none empty; an empty frame has none and arrives as one event.
  type Frame = seq<seq<Byte>>

  predicate FrameOk(f: Frame) {
    forall i | 0 <= i < |f| :: |f[i]| > 0
  }

  // A text or binary message, in one frame or more, any of them empty.
  datatype Message = Message(binary: bool, frames: Frames)

  type Frames = fs: seq<Frame> | |fs| > 0 && FramesOk(fs) witness [[]]

  predicate FramesOk(fs: seq<Frame>) {
    forall i | 0 <= i < |fs| :: FrameOk(fs[i])
  }

  function Flat(f: seq<seq<Byte>>): seq<Byte> {
    if |f| == 0 then [] else f[0] + Flat(f[1..])
  }

  function Text(m: seq<Frame>): seq<Byte> {
    if |m| == 0 then [] else Flat(m[0]) + Text(m[1..])
  }

  // The slices of a frame of `total` bytes, from `offset` on.
  function Slices(op: Opcode, f: Frame, offset: nat, total: nat, fin: bool): seq<Event> {
    if |f| == 0 then []
    else [Event(op, f[0], offset, total, fin)] + Slices(op, f[1..], offset + |f[0]|, total, fin)
  }

  function FrameEvents(op: Opcode, f: Frame, fin: bool): seq<Event> {
    if |f| == 0 then [Event(op, [], 0, 0, fin)] else Slices(op, f, 0, |Flat(f)|, fin)
  }

  function MessageEvents(op: Opcode, m: seq<Frame>): seq<Event>
    decreases m
  {
    if |m| == 0 then []
    else FrameEvents(op, m[0], |m| == 1) + MessageEvents(ContFrame, m[1..])
  }

  function EventsOf(m: Message): seq<Event> {
    MessageEvents(if m.binary then BinaryFrame else TextFrame, m.frames)
  }

  function StreamEvents(ms: seq<Message>): seq<Event> {
    if |ms| == 0 then [] else EventsOf(ms[0]) + StreamEvents(ms[1..])
  }

  // ---------------- what is handed over ----------------

  // What a finished message hands over.
  function Given(all: seq<Byte>): seq<seq<Byte>> {
    if |all| <= MAX then [all] else []
  }

  // The bytes collected by the end of a message, with `so` left over before it.  Only
  // the first slice of a text message that has one starts afresh, and of a binary
  // message everything but its first frame counts.
  function Collected(so: seq<Byte>, m: Message): seq<Byte>
  {
    if m.binary then so + Text(m.frames[1..])
    else if |m.frames[0]| == 0 then so + Text(m.frames)
    else Text(m.frames)
  }

  // Its last frame is seen to end a message.
  predicate Closes(m: Message)
  {
    |m.frames[|m.frames| - 1]| > 0 && (m.binary ==> |m.frames| > 1)
  }

  function Out(so: seq<Byte>, m: Message): seq<seq<Byte>>
  {
    if Closes(m) then Given(Collected(so, m)) else []
  }

  function Left(so: seq<Byte>, m: Message): seq<Byte>
  {
    if Closes(m) then [] else Collected(so, m)
  }

  function Outs(so: seq<Byte>, ms: seq<Message>): seq<seq<Byte>>
    decreases |ms|
  {
    if |ms| == 0 then [] else Out(so, ms[0]) + Outs(Left(so, ms[0]), ms[1..])
  }

  // What the peer meant: each text message that fits and whose last fragment is not
  // empty, and nothing of the binary ones.
  function Meant(m: Message): seq<seq<Byte>>
  {
    if !m.binary && Closes(m) then Given(Text(m.frames)) else []
  }

  function Expected(ms: seq<Message>): seq<seq<Byte>>
  {
    if |ms| == 0 then [] else Meant(ms[0]) + Expected(ms[1..])
  }

  // The events of other opcodes, which may come anywhere.
  function Textual(es: seq<Event>): seq<Event> {
    if |es| == 0 then []
    else (if es[0].op == TextFrame || es[0].op == ContFrame then [es[0]] else []) + Textual(es[1..])
  }

  // ---------------- proofs ----------------

  // The buffer once the message so far is `b`.
  function Holding(b: seq<Byte>): Buffer {
    if |b| <= MAX then Buffer(b, false) else Buffer([], true)
  }

  lemma {:induction false} FinalConcat(b: Buffer, xs: seq<Event>, ys: seq<Event>)
    ensures Final(b, xs + ys) == Final(Final(b, xs), ys)
    ensures Delivered(b, xs + ys) == Delivered(b, xs) + Delivered(Final(b, xs), ys)
    decreases xs
  {
    if |xs| == 0 {
      assert xs + ys == ys;
    } else {
      assert (xs + ys)[1..] == xs[1..] + ys;
      FinalConcat(Next(b, xs[0]), xs[1..], ys);
    }
  }

  lemma FrontSlice(op: Opcode, f: Frame, offset: nat, total: nat, fin: bool)
    requires |f| > 0
    ensures var es, e := Slices(op, f, offset, total, fin), Event(op, f[0], offset, total, fin);
            && es[0] == e && es[1..] == Slices(op, f[1..], offset + |f[0]|, total, fin)
  {
  }

  lemma FrontEvent(b: Buffer, es: seq<Event>)
    requires |es| > 0
    ensures Final(b, es) == Final(Next(b, es[0]), es[1..])
    ensures Delivered(b, es) == Output(b, es[0]) + Delivered(Next(b, es[0]), es[1..])
  {
  }

  // A slice with more of its frame to come, and the last of a frame.
  lemma SliceAccumulates(so: seq<Byte>, e: Event)
    requires |e.data| > 0 && (e.op == ContFrame || (e.op == TextFrame && e.offset > 0))
    ensures !Completes(e) ==> Next(Holding(so), e) == Holding(so + e.data) && Output(Holding(so), e) == []
    ensures Completes(e) ==>
              Next(Holding(so), e) == CLEAN && Output(Holding(so), e) == Given(so + e.data)
  {
  }

  lemma FlatFrom(f: Frame, so: seq<Byte>)
    requires FrameOk(f) && |f| > 0
    ensures so + Flat(f) == (so + f[0]) + Flat(f[1..]) && |Flat(f)| == |f[0]| + |Flat(f[1..])|
    ensures |f| == 1 <==> |Flat(f[1..])| == 0
    ensures |f| == 1 ==> Flat(f) == f[0]
  {
    var rest := Flat(f[1..]);
    assert Flat(f) == f[0] + rest;
    assert |f| > 1 ==> f[1..][0] == f[1];
    assert |f| == 1 ==> rest == [] && f[0] + rest == f[0];
    assert so + (f[0] + rest) == (so + f[0]) + rest;
  }

  // The rest of a frame, after its first slice or in a continuation.
  lemma {:induction false} SlicesAccumulate(op: Opcode, f: Frame, offset: nat, total: nat, fin: bool,
                                            so: seq<Byte>, es: seq<Event>)
    requires FrameOk(f) && |f| > 0 && (op == ContFrame || (op == TextFrame && offset > 0))
    requires total == offset + |Flat(f)| && es == Slices(op, f, offset, total, fin)
    ensures Final(Holding(so), es) == (if fin then CLEAN else Holding(so + Flat(f)))
    ensures Delivered(Holding(so), es) == (if fin then Given(so + Flat(f)) else [])
    decreases f
  {
    FlatFrom(f, so);
    FrontSlice(op, f, offset, total, fin);
    FrontEvent(Holding(so), es);
    SliceAccumulates(so, es[0]);
    if |f| > 1 {
      SlicesAccumulate(op, f[1..], offset + |f[0]|, total, fin, so + f[0], es[1..]);
    }
  }

  lemma FirstSlice(b: Buffer, e: Event)
    requires |e.data| > 0 && e.op == TextFrame && e.offset == 0
    ensures !Completes(e) ==> Next(b, e) == Holding(e.data) && Output(b, e) == []
    ensures Completes(e) ==> Next(b, e) == CLEAN && Output(b, e) == Given(e.data)
  {
    assert [] + e.data == e.data;
  }

  // A text frame's first slice starts afresh, whatever was left behind.
  lemma FirstFrame(b: Buffer, f: Frame, fin: bool)
    requires FrameOk(f) && |f| > 0
    ensures var es := FrameEvents(TextFrame, f, fin);
            && Final(b, es) == (if fin then CLEAN else Holding(Flat(f)))
            && Delivered(b, es) == (if fin then Given(Flat(f)) else [])
  {
    var es := FrameEvents(TextFrame, f, fin);
    FlatFrom(f, []);
    FrontSlice(TextFrame, f, 0, |Flat(f)|, fin);
    FrontEvent(b, es);
    FirstSlice(b, es[0]);
    assert [] + Flat(f) == Flat(f);
    if |f| > 1 {
      SlicesAccumulate(TextFrame, f[1..], |f[0]|, |Flat(f)|, fin, f[0], es[1..]);
    }
  }

  // An empty frame is an event that is not handled.
  lemma EmptyFrame(b: Buffer, f: Frame, fin: bool)
    requires |f| == 0
    ensures Final(b, FrameEvents(ContFrame, f, fin)) == b && Delivered(b, FrameEvents(ContFrame, f, fin)) == []
  {
    FrontEvent(b, FrameEvents(ContFrame, f, fin));
  }

  lemma ContinuationFrame(f: Frame, fin: bool, so: seq<Byte>)
    requires FrameOk(f)
    ensures var es, all := FrameEvents(ContFrame, f, fin), so + Flat(f);
            && Final(Holding(so), es) == (if fin && |f| > 0 then CLEAN else Holding(all))
            && Delivered(Holding(so), es) == (if fin && |f| > 0 then Given(all) else [])
  {
    if |f| > 0 {
      SlicesAccumulate(ContFrame, f, 0, |Flat(f)|, fin, so, FrameEvents(ContFrame, f, fin));
    } else {
      assert so + Flat(f) == so;
      EmptyFrame(Holding(so), f, fin);
    }
  }

  lemma LastFrame(f: Frame, so: seq<Byte>)
    requires FrameOk(f)
    ensures var es, all := MessageEvents(ContFrame, [f]), so + Text([f]);
            && Delivered(Holding(so), es) == (if |f| > 0 then Given(all) else [])
            && Final(Holding(so), es) == (if |f| > 0 then CLEAN else Holding(all))
  {
    ContinuationFrame(f, true, so);
    OneFrame(ContFrame, f);
  }

  lemma OneFrame(op: Opcode, f: Frame)
    ensures MessageEvents(op, [f]) == FrameEvents(op, f, true) && Text([f]) == Flat(f)
  {
    assert [f][1..] == [];
    assert FrameEvents(op, f, true) + [] == FrameEvents(op, f, true);
    assert Flat(f) + [] == Flat(f);
  }

  // What follows events that hand nothing over.
  lemma After(b: Buffer, first: seq<Event>, rest: seq<Event>, c: Buffer)
    requires Delivered(b, first) == [] && Final(b, first) == c
    ensures Delivered(b, first + rest) == Delivered(c, rest) && Final(b, first + rest) == Final(c, rest)
  {
    FinalConcat(b, first, rest);
  }

  lemma EarlierFrame(f: Frame, so: seq<Byte>, rest: seq<Event>)
    requires FrameOk(f)
    ensures var es, b := FrameEvents(ContFrame, f, false) + rest, Holding(so + Flat(f));
            Delivered(Holding(so), es) == Delivered(b, rest) && Final(Holding(so), es) == Final(b, rest)
  {
    ContinuationFrame(f, false, so);
    After(Holding(so), FrameEvents(ContFrame, f, false), rest, Holding(so + Flat(f)));
  }

  lemma MessageFrom(op: Opcode, m: seq<Frame>, so: seq<Byte>)
    requires |m| > 1
    ensures MessageEvents(op, m) == FrameEvents(op, m[0], false) + MessageEvents(ContFrame, m[1..])
    ensures so + Text(m) == (so + Flat(m[0])) + Text(m[1..])
  {
  }

  // What the frames `m` come to after `so`.
  predicate Continues(so: seq<Byte>, es: seq<Event>, m: seq<Frame>)
    requires |m| > 0
  {
    && Delivered(Holding(so), es) == (if |m[|m| - 1]| > 0 then Given(so + Text(m)) else [])
    && Final(Holding(so), es) == (if |m[|m| - 1]| > 0 then CLEAN else Holding(so + Text(m)))
  }

  lemma {:induction false} Continuations(m: seq<Frame>, so: seq<Byte>, es: seq<Event>)
    requires |m| > 0 && FramesOk(m) && es == MessageEvents(ContFrame, m)
    ensures Continues(so, es, m)
    decreases m
  {
    if |m| == 1 {
      assert m == [m[0]];
      LastFrame(m[0], so);
    } else {
      var rest := MessageEvents(ContFrame, m[1..]);
      MessageFrom(ContFrame, m, so);
      Continuations(m[1..], so + Flat(m[0]), rest);
      Earlier(m, so, rest);
    }
  }

  lemma Earlier(m: seq<Frame>, so: seq<Byte>, rest: seq<Event>)
    requires |m| > 1 && FramesOk(m) && Continues(so + Flat(m[0]), rest, m[1..])
    requires so + Text(m) == (so + Flat(m[0])) + Text(m[1..])
    ensures Continues(so, FrameEvents(ContFrame, m[0], false) + rest, m)
  {
    EarlierFrame(m[0], so, rest);
  }

  // ---------------- whole messages ----------------

  // A message as the handler sees it from Holding(so).
  predicate Comes(so: seq<Byte>, m: Message)
  {
    && Delivered(Holding(so), EventsOf(m)) == Out(so, m)
    && Final(Holding(so), EventsOf(m)) == Holding(Left(so, m))
  }

  lemma OneFrameText(so: seq<Byte>, m: Message)
    requires !m.binary && |m.frames| == 1
    ensures Comes(so, m)
  {
    var f := m.frames[0];
    assert m.frames == [f];
    OneFrame(TextFrame, f);
    if |f| > 0 {
      FirstFrame(Holding(so), f, true);
    } else {
      assert so + Text(m.frames) == so;
      Unhandled(Holding(so), FrameEvents(TextFrame, f, true));
    }
  }

  // A text message's first frame, with more to come: it starts afresh, unless empty.
  lemma OpeningFrame(so: seq<Byte>, f: Frame)
    requires FrameOk(f)
    ensures var es := FrameEvents(TextFrame, f, false);
            && Delivered(Holding(so), es) == []
            && Final(Holding(so), es) == Holding(if |f| > 0 then Flat(f) else so)
  {
    if |f| > 0 {
      FirstFrame(Holding(so), f, false);
    } else {
      Unhandled(Holding(so), FrameEvents(TextFrame, f, false));
    }
  }

  lemma LongText(so: seq<Byte>, m: Message)
    requires !m.binary && |m.frames| > 1
    ensures Comes(so, m)
  {
    var f, fs := m.frames[0], m.frames[1..];
    var start := if |f| > 0 then Flat(f) else so;
    var rest := MessageEvents(ContFrame, fs);
    MessageFrom(TextFrame, m.frames, so);
    OpeningFrame(so, f);
    After(Holding(so), FrameEvents(TextFrame, f, false), rest, Holding(start));
    Continuations(fs, start, rest);
    StartsWith(so, m);
  }

  lemma StartsWith(so: seq<Byte>, m: Message)
    requires !m.binary && |m.frames| > 1
    ensures (if |m.frames[0]| > 0 then Flat(m.frames[0]) else so) + Text(m.frames[1..]) == Collected(so, m)
  {
    var rest := Text(m.frames[1..]);
    assert [] + rest == rest;
  }

  predicate AllUnhandled(es: seq<Event>) {
    forall i | 0 <= i < |es| :: !Handled(es[i])
  }

  lemma {:induction false} Unhandled(b: Buffer, es: seq<Event>)
    requires AllUnhandled(es)
    ensures Delivered(b, es) == [] && Final(b, es) == b
    decreases es
  {
    if |es| > 0 {
      FrontEvent(b, es);
      Unhandled(b, es[1..]);
    }
  }

  lemma {:induction false} BinarySlices(f: Frame, offset: nat, total: nat, fin: bool)
    ensures AllUnhandled(Slices(BinaryFrame, f, offset, total, fin))
    decreases f
  {
    if |f| > 0 {
      BinarySlices(f[1..], offset + |f[0]|, total, fin);
    }
  }

  lemma BinaryComes(so: seq<Byte>, m: Message)
    requires m.binary
    ensures Comes(so, m)
  {
    var f, fs, fin := m.frames[0], m.frames[1..], |m.frames| == 1;
    var first, rest := FrameEvents(BinaryFrame, f, fin), MessageEvents(ContFrame, fs);
    BinarySlices(f, 0, |Flat(f)|, fin);
    Unhandled(Holding(so), first);
    After(Holding(so), first, rest, Holding(so));
    assert EventsOf(m) == first + rest;
    BinaryRest(so, m, rest);
  }

  lemma BinaryRest(so: seq<Byte>, m: Message, rest: seq<Event>)
    requires m.binary && rest == MessageEvents(ContFrame, m.frames[1..])
    ensures Delivered(Holding(so), rest) == Out(so, m) && Final(Holding(so), rest) == Holding(Left(so, m))
  {
    if |m.frames| > 1 {
      BinaryOut(so, m);
      Continuations(m.frames[1..], so, rest);
    } else {
      assert m.frames[1..] == [];
      assert so + [] == so;
      assert Left(so, m) == so && Out(so, m) == [];
    }
  }

  lemma BinaryOut(so: seq<Byte>, m: Message)
    requires m.binary && |m.frames| > 1
    ensures var fs := m.frames[1..]; var ends := |fs[|fs| - 1]| > 0;
            && Out(so, m) == (if ends then Given(so + Text(fs)) else [])
            && Left(so, m) == (if ends then [] else so + Text(fs))
  {
  }

  /** One message of any kind, with anything at all left over before it: what is handed
      over, and what is left over after it. */
  lemma OneMessage(so: seq<Byte>, m: Message)
    ensures Delivered(Holding(so), EventsOf(m)) == Out(so, m)
    ensures Final(Holding(so), EventsOf(m)) == Holding(Left(so, m))
  {
    if m.binary {
      BinaryComes(so, m);
    } else if |m.frames| == 1 {
      OneFrameText(so, m);
    } else {
      LongText(so, m);
    }
  }

  lemma {:induction false} IgnoresOtherOpcodes(b: Buffer, es: seq<Event>)
    ensures Delivered(b, es) == Delivered(b, Textual(es))
    decreases es
  {
    if |es| > 0 {
      IgnoresOtherOpcodes(Next(b, es[0]), es[1..]);
      if es[0].op == TextFrame || es[0].op == ContFrame {
        assert Textual(es) == [es[0]] + Textual(es[1..]);
        assert Textual(es)[1..] == Textual(es[1..]);
      } else {
        assert Textual(es) == Textual(es[1..]);
      }
    }
  }

  lemma {:induction false} Stream(so: seq<Byte>, ms: seq<Message>)
    ensures Delivered(Holding(so), StreamEvents(ms)) == Outs(so, ms)
    decreases |ms|
  {
    if |ms| > 0 {
      OneMessage(so, ms[0]);
      FinalConcat(Holding(so), EventsOf(ms[0]), StreamEvents(ms[1..]));
      Stream(Left(so, ms[0]), ms[1..]);
    }
  }

  /** Every buffer the handler can be left with holds some bytes in this sense. */
  lemma EveryBufferHolds(r: Reassembler) returns (so: seq<Byte>)
    requires r.Ready()
    ensures r.Value() == Holding(so)
  {
    so := if r.dropping then seq(MAX + 1, _ => 0) else r.json[..r.len];
  }

  /** Any stream of text and binary messages, cut up in any way, empty fragments and
      all, with anything of other opcodes in between: exactly what is handed over. */
  lemma EveryStream(so: seq<Byte>, es: seq<Event>, ms: seq<Message>)
    requires Textual(es) == Textual(StreamEvents(ms))
    ensures Delivered(Holding(so), es) == Outs(so, ms)
  {
    IgnoresOtherOpcodes(Holding(so), es);
    IgnoresOtherOpcodes(Holding(so), StreamEvents(ms));
    Stream(so, ms);
  }

  // A text message with a first fragment, or a binary one with no more after its first.
  predicate Plain(m: Message)
  {
    if m.binary then forall i | 1 <= i < |m.frames| :: |m.frames[i]| == 0 else |m.frames[0]| > 0
  }

  lemma {:induction false} EmptyText(fs: seq<Frame>)
    requires forall i | 0 <= i < |fs| :: |fs[i]| == 0
    ensures Text(fs) == []
    decreases fs
  {
    if |fs| > 0 {
      EmptyText(fs[1..]);
    }
  }

  lemma {:induction false} PlainStream(so: seq<Byte>, ms: seq<Message>)
    requires forall i | 0 <= i < |ms| :: Plain(ms[i])
    ensures Outs(so, ms) == Expected(ms)
    decreases |ms|
  {
    if |ms| > 0 {
      PlainStream(Left(so, ms[0]), ms[1..]);
    }
  }

  /** Each message once.  Whatever a broken-off message left, and whatever is interleaved,
      of text messages that begin with a fragment, and binary ones that end with their
      first, the handler is given those text messages whose last fragment is not empty
      and that fit the buffer: once, in order, with their exact bytes; and no other. */
  lemma EveryMessageOnce(so: seq<Byte>, es: seq<Event>, ms: seq<Message>)
    requires forall i | 0 <= i < |ms| :: Plain(ms[i])
    requires Textual(es) == Textual(StreamEvents(ms))
    ensures Delivered(Holding(so), es) == Expected(ms)
  {
    EveryStream(so, es, ms);
    PlainStream(so, ms);
  }

  /** With every fragment non-empty, that is every message of at most 8192 bytes. */
  lemma NonEmptyFragments(m: Message)
    requires !m.binary && forall i | 0 <= i < |m.frames| :: |m.frames[i]| > 0
    ensures Plain(m) && Meant(m) == if |Text(m.frames)| <= MAX then [Text(m.frames)] else []
  {
  }

  /** A binary message met with nothing left over is handed over in part, or leaves
      something over, unless what follows its first frame is empty or too long. */
  lemma BinaryDisturbs(m: Message)
    requires m.binary
    ensures Out([], m) == [] && Left([], m) == []
        <==> if Closes(m) then |Text(m.frames[1..])| > MAX else Text(m.frames[1..]) == []
  {
    assert [] + Text(m.frames[1..]) == Text(m.frames[1..]);
  }

  /** A text message whose first fragment is empty comes as it was meant if and only if
      nothing was left over before it, or it is not handed over at all. */
  lemma EmptyOpeningSplices(so: seq<Byte>, m: Message)
    requires !m.binary && |m.frames[0]| == 0
    ensures Out(so, m) == Meant(m) <==> so == [] || !Closes(m) || |Text(m.frames)| > MAX
  {
    var all := Text(m.frames);
    if so == [] {
      assert so + all == all;
    } else {
      assert |so + all| > |all|;
    }
  }

  /** So a binary message in two fragments has its second taken for text. */
  lemma FragmentedBinaryIsMistaken(first: Frame, second: Frame)
    requires FrameOk(first) && FrameOk(second) && 0 < |second| && |Flat(second)| <= MAX
    ensures Delivered(CLEAN, EventsOf(Message(true, [first, second]))) == [Flat(second)]
  {
    var m := Message(true, [first, second]);
    assert m.frames[1..] == [second];
    OneMessage([], m);
    OneFrame(ContFrame, second);
    assert [] + Flat(second) == Flat(second);
  }
}
