/**
 * Agent audio through main/audio_io.c: audio_io_play() on the socket's task, the
 * ring buffer, and the drain loop of playback_task().
 *
 * Sample boundaries are respected by nobody upstream, so both ends carry an odd
 * byte.  Two ghost logs say what became of every byte: `Intake` since the last gap
 * in the stream, and `Queue` of every sample that ever went into the ring.
 */
module Playback {
  import opened Words

  const RING_BYTES := 384 * 1024
  const CHUNK_MONO := 1024

  // Sixteen bits, low byte first, as the codec takes them.
  datatype Sample = Sample(lo: Byte, hi: Byte)

  // ---------------- bytes and samples ----------------

  // The whole samples of a byte stream, low byte first ...
  function Samples(b: seq<Byte>): (s: seq<Sample>)
    ensures 2 * |s| <= |b| <= 2 * |s| + 1
  {
    if |b| < 2 then [] else [Sample(b[0], b[1])] + Samples(b[2..])
  }

  // ... and the byte left over, if there is one.
  function Odd(b: seq<Byte>): (o: seq<Byte>)
    ensures |o| == |b| - 2 * |Samples(b)|
  {
    if |b| < 2 then b else Odd(b[2..])
  }

  // The value the codec makes of it.
  function Pcm(s: Sample): int {
    var hi: int := s.hi;
    s.lo + 256 * (if hi >= 128 then hi - 256 else hi)
  }

  // Sample `i` is bytes 2i and 2i + 1, the low one first, in two's complement.
  lemma {:induction false} SampleAt(b: seq<Byte>, i: nat)
    requires 2 * i + 1 < |b|
    ensures i < |Samples(b)|
    ensures var lo: int, hi: int := b[2 * i], b[2 * i + 1]; var w := lo + 256 * hi;
      Pcm(Samples(b)[i]) == if w >= 0x8000 then w - 0x1_0000 else w
  {
    if i > 0 {
      SampleAt(b[2..], i - 1);
    }
  }

  function Bytes(s: seq<Sample>): (b: seq<Byte>)
    ensures |b| == 2 * |s|
  {
    if |s| == 0 then [] else [s[0].lo, s[0].hi] + Bytes(s[1..])
  }

  lemma {:induction false} BytesSplit(a: seq<Sample>, b: seq<Sample>)
    ensures Bytes(a + b) == Bytes(a) + Bytes(b)
  {
    if |a| == 0 {
      assert a + b == b;
    } else {
      assert (a + b)[1..] == a[1..] + b;
      BytesSplit(a[1..], b);
    }
  }

  lemma OneMore(x: Byte, y: Byte, b: seq<Byte>)
    ensures Samples([x, y] + b) == [Sample(x, y)] + Samples(b) && Odd([x, y] + b) == Odd(b)
  {
    assert ([x, y] + b)[2..] == b;
  }

  lemma {:induction false} BytesOfSamples(b: seq<Byte>)
    ensures Bytes(Samples(b)) + Odd(b) == b
  {
    if |b| >= 2 {
      var rest := b[2..];
      BytesOfSamples(rest);
      assert b == [b[0], b[1]] + rest;
      var s := Samples(b);
      assert s[0] == Sample(b[0], b[1]) && s[1..] == Samples(rest);
    }
  }

  // Bytes that follow whole samples are cut up as they would be on their own.
  lemma {:induction false} SamplesAfter(s: seq<Sample>, b: seq<Byte>)
    ensures Samples(Bytes(s) + b) == s + Samples(b) && Odd(Bytes(s) + b) == Odd(b)
  {
    if |s| == 0 {
      assert Bytes(s) + b == b && s + Samples(b) == Samples(b);
    } else {
      SamplesAfter(s[1..], b);
      FrontSample(s, b);
    }
  }

  lemma Associates<T>(a: seq<T>, b: seq<T>, c: seq<T>)
    ensures a + (b + c) == (a + b) + c
  {
  }

  lemma FrontSample(s: seq<Sample>, b: seq<Byte>)
    requires |s| > 0 && Samples(Bytes(s[1..]) + b) == s[1..] + Samples(b)
    ensures Samples(Bytes(s) + b) == s + Samples(b) && Odd(Bytes(s) + b) == Odd(Bytes(s[1..]) + b)
  {
    var front, rest := [s[0].lo, s[0].hi], Bytes(s[1..]);
    OneMore(s[0].lo, s[0].hi, rest + b);
    Associates(front, rest, b);
    Associates([s[0]], s[1..], Samples(b));
    assert s == [s[0]] + s[1..];
  }

  lemma Parity(n: nat, half: nat, rest: nat)
    requires n == 2 * half + rest && rest <= 1
    ensures n % 2 == rest
  {
  }

  lemma LastOf(a: seq<Byte>, o: seq<Byte>, b: seq<Byte>)
    requires a + o == b
    ensures |o| == 1 ==> |b| > 0 && o == [b[|b| - 1]]
  {
  }

  function OddByte(b: seq<Byte>): seq<Byte> {
    if |b| % 2 == 1 then [b[|b| - 1]] else []
  }

  lemma OddIsLast(b: seq<Byte>)
    ensures Odd(b) == OddByte(b)
  {
    BytesOfSamples(b);
    LastOf(Bytes(Samples(b)), Odd(b), b);
    Parity(|b|, |Samples(b)|, |Odd(b)|);
  }

  lemma SplitOff(q: seq<Sample>, f: seq<Sample>, rest: seq<Byte>)
    requires Bytes(q) == Bytes(f) + rest
    ensures q == f + Samples(rest) && Bytes(Samples(rest)) == rest
  {
    SamplesAfter(f, rest);
    SamplesAfter(q, []);
    assert Bytes(q) + [] == Bytes(q) && q + Samples([]) == q;
    BytesOfSamples(rest);
    assert Bytes(Samples(rest)) + [] == Bytes(Samples(rest));
  }

  // Reading ahead of a whole number of samples: what is left is the rest of them.
  lemma TakeFront(q: seq<Sample>, front: seq<Byte>, back: seq<Byte>)
    requires Bytes(q) == front + back
    ensures var f := Samples(front);
            f <= q && Bytes(q[|f|..]) == Odd(front) + back
  {
    var f, rest := Samples(front), Odd(front) + back;
    BytesOfSamples(front);
    assert front + back == Bytes(f) + rest;
    SplitOff(q, f, rest);
    assert q[|f|..] == Samples(rest);
  }

  lemma SentIsPrefix(whole: seq<Byte>, m: nat)
    requires m <= |Samples(whole)|
    ensures Bytes(Samples(whole)[..m]) == whole[..2 * m]
  {
    var s := Samples(whole);
    BytesOfSamples(whole);
    assert s == s[..m] + s[m..];
    BytesSplit(s[..m], s[m..]);
  }

  lemma AcceptMore(so: seq<Byte>, more: seq<Byte>)
    ensures Samples(so + more) == Samples(so) + Samples(Odd(so) + more)
    ensures Odd(so + more) == Odd(Odd(so) + more)
  {
    BytesOfSamples(so);
    assert so + more == Bytes(Samples(so)) + (Odd(so) + more);
    SamplesAfter(Samples(so), Odd(so) + more);
  }

  // ---------------- what was kept of a stream ----------------

  // The elements of `s` that `keep` says to keep.
  function Kept<T>(s: seq<T>, keep: seq<bool>): seq<T>
    requires |s| == |keep|
  {
    if |s| == 0 then []
    else Kept(s[..|s| - 1], keep[..|s| - 1]) + (if keep[|s| - 1] then [s[|s| - 1]] else [])
  }

  function All(n: nat, b: bool): (r: seq<bool>)
    ensures |r| == n
  {
    seq(n, _ => b)
  }

  lemma {:induction false} KeptAppend<T>(s: seq<T>, keep: seq<bool>, more: seq<T>, b: bool)
    requires |s| == |keep|
    ensures Kept(s + more, keep + All(|more|, b)) == Kept(s, keep) + (if b then more else [])
  {
    if |more| == 0 {
      assert s + more == s && keep + All(0, b) == keep;
    } else {
      var n := |more| - 1;
      KeptAppend(s, keep, more[..n], b);
      assert (s + more)[..|s| + n] == s + more[..n];
      assert (keep + All(|more|, b))[..|s| + n] == keep + All(n, b);
      assert more == more[..n] + [more[n]];
    }
  }

  lemma {:induction false} KeptAtMost<T>(s: seq<T>, keep: seq<bool>)
    requires |s| == |keep|
    ensures |Kept(s, keep)| <= |s| && (|Kept(s, keep)| == |s| ==> Kept(s, keep) == s)
    ensures (forall i | 0 <= i < |keep| :: keep[i]) ==> Kept(s, keep) == s
  {
    if |s| > 0 {
      KeptAtMost(s[..|s| - 1], keep[..|s| - 1]);
    }
  }

  // ---------------- the two logs ----------------

  // The bytes accepted since the last gap, which of their samples were sent to the
  // ring, and the bytes sent and dropped.
  datatype Intake = Intake(accepted: seq<Byte>, keep: seq<bool>, sent: nat, dropped: nat)

  const FRESH := Intake([], [], 0, 0)

  ghost predicate IntakeOk(log: Intake, carry: seq<Byte>) {
    && |log.keep| == |Samples(log.accepted)| && carry == Odd(log.accepted)
    && log.sent == 2 * |Kept(Samples(log.accepted), log.keep)|
    && log.sent + log.dropped + |carry| == |log.accepted|
  }

  // `m` of the `n` new samples were sent.
  function Accepted(log: Intake, more: seq<Byte>, m: nat, n: nat): Intake
    requires m <= n
  {
    Intake(log.accepted + more, log.keep + All(m, true) + All(n - m, false),
           log.sent + 2 * m, log.dropped + 2 * (n - m))
  }

  lemma TwoParts<T>(had: seq<T>, keep: seq<bool>, news: seq<T>, m: nat)
    requires |had| == |keep| && m <= |news|
    ensures Kept(had + news, keep + All(m, true) + All(|news| - m, false)) == Kept(had, keep) + news[..m]
  {
    KeptAppend(had, keep, news[..m], true);
    KeptAppend(had + news[..m], keep + All(m, true), news[m..], false);
    assert had + news == had + news[..m] + news[m..];
  }

  lemma AcceptedOk(log: Intake, carry: seq<Byte>, more: seq<Byte>, m: nat)
    requires IntakeOk(log, carry) && m <= |Samples(carry + more)|
    ensures var news := Samples(carry + more);
            var log' := Accepted(log, more, m, |news|);
            && IntakeOk(log', Odd(carry + more))
            && Kept(Samples(log'.accepted), log'.keep) == Kept(Samples(log.accepted), log.keep) + news[..m]
  {
    var had, news := Samples(log.accepted), Samples(carry + more);
    AcceptMore(log.accepted, more);
    TwoParts(had, log.keep, news, m);
  }

  // Every sample ever sent to the ring: those taken out, in order, with which of
  // them were played, and those still waiting.
  datatype Queue = Queue(taken: seq<Sample>, heard: seq<bool>, waiting: seq<Sample>)

  ghost predicate QueueOk(q: Queue, carry: seq<Byte>, ring: seq<Byte>) {
    |q.heard| == |q.taken| && |carry| <= 1 && Bytes(q.waiting) == carry + ring
  }

  ghost function Played(q: Queue): seq<Sample>
    requires |q.heard| == |q.taken|
  {
    Kept(q.taken, q.heard)
  }

  function Sent(q: Queue, more: seq<Sample>): Queue {
    q.(waiting := q.waiting + more)
  }

  function Taken(q: Queue, n: nat, play: bool): Queue
    requires n <= |q.waiting|
  {
    Queue(q.taken + q.waiting[..n], q.heard + All(n, play), q.waiting[n..])
  }

  lemma SentOk(q: Queue, carry: seq<Byte>, ring: seq<Byte>, more: seq<Sample>)
    requires QueueOk(q, carry, ring)
    ensures QueueOk(Sent(q, more), carry, ring + Bytes(more))
  {
    BytesSplit(q.waiting, more);
    Associates(carry, ring, Bytes(more));
  }

  lemma TakenPlays(q: Queue, n: nat, play: bool)
    requires |q.heard| == |q.taken| && n <= |q.waiting|
    ensures var t := Taken(q, n, play);
            && |t.heard| == |t.taken| && t.taken + t.waiting == q.taken + q.waiting
            && Played(t) == Played(q) + (if play then q.waiting[..n] else [])
  {
    KeptAppend(q.taken, q.heard, q.waiting[..n], play);
  }

  // What ever went into the ring is what was there at the last gap, and after it the
  // samples sent of the bytes accepted since.
  ghost predicate Linked(base: seq<Sample>, log: Intake, q: Queue) {
    && |log.keep| == |Samples(log.accepted)|
    && q.taken + q.waiting == base + Kept(Samples(log.accepted), log.keep)
  }

  lemma StillLinked(base: seq<Sample>, log: Intake, q: Queue, carry: seq<Byte>, more: seq<Byte>, m: nat)
    requires Linked(base, log, q) && IntakeOk(log, carry) && m <= |Samples(carry + more)|
    ensures Linked(base, Accepted(log, more, m, |Samples(carry + more)|), Sent(q, Samples(carry + more)[..m]))
  {
    AcceptedOk(log, carry, more, m);
    BothGrow(q.taken, q.waiting, base, Kept(Samples(log.accepted), log.keep), Samples(carry + more)[..m]);
  }

  lemma BothGrow<T>(a: seq<T>, b: seq<T>, c: seq<T>, d: seq<T>, more: seq<T>)
    requires a + b == c + d
    ensures a + (b + more) == c + (d + more)
  {
    assert a + (b + more) == (a + b) + more;
    assert c + (d + more) == (c + d) + more;
  }

  // ---------------- the code ----------------

  // The samples of `whole` that `space` bytes of room will take.
  function Fitting(whole: seq<Byte>, space: nat): (m: nat)
    ensures m <= |Samples(whole)|
  {
    if |Samples(whole)| < space / 2 then |Samples(whole)| else space / 2
  }

  lemma FittingIs(whole: seq<Byte>, space: nat)
    ensures var m, n := Fitting(whole, space), |Samples(whole)|;
      if 2 * n <= space then m == n else m < n && 2 * m <= space < 2 * m + 2
  {
    HalfOf(space);
  }

  lemma HalfOf(space: nat)
    ensures 2 * (space / 2) <= space < 2 * (space / 2) + 2
  {
  }

  class Player {
    var ring: seq<Byte>
    // The producer's half; the carry is s_in_carry, when it is valid.
    var inCarry: seq<Byte>
    var gap: bool
    var muted: bool
    // The drain task's half.
    var carry: seq<Byte>
    var flushPending: bool
    ghost var intake: Intake
    ghost var queue: Queue
    ghost var base: seq<Sample>   // all that went into the ring before the last gap
    ghost var codec: seq<Sample>  // all that was handed to the codec

    ghost predicate Ready()
      reads this
    {
      && |ring| <= RING_BYTES && IntakeOk(intake, inCarry) && QueueOk(queue, carry, ring)
      && Linked(base, intake, queue) && codec == Played(queue)
    }

    constructor ()
      ensures Ready() && intake == FRESH && queue == Queue([], [], []) && base == codec == []
    {
      ring, inCarry, carry := [], [], [];
      gap, muted, flushPending := false, false, false;
      intake, queue, base, codec := FRESH, Queue([], [], []), [], [];
    }

    /** audio_io_play(): `space` is what the ring had free when it was measured.  The
        new samples that fit are sent, the others dropped whole, and an odd byte is
        carried; a muted player accepts nothing, and a gap starts a fresh stream. */
    method Play(pcm: seq<Byte>, space: nat) returns (full: bool)
      requires Ready() && |ring| + space <= RING_BYTES
      modifies this`ring, this`inCarry, this`gap, this`intake, this`queue, this`base
      ensures Ready() && !gap
      ensures base == if old(gap) then old(queue).taken + old(queue).waiting else old(base)
      ensures var log := if old(gap) then FRESH else old(intake);
              var whole := (if old(gap) then [] else old(inCarry)) + pcm;
              var m := Fitting(whole, space);
              if muted then intake == log && queue == old(queue) && !full
              else
                && intake == Accepted(log, pcm, m, |Samples(whole)|)
                && queue == Sent(old(queue), Samples(whole)[..m])
                && (full <==> m < |Samples(whole)|)
      // All of them when there is room; and if not, less than a sample of it is left.
      ensures !muted ==>
        var news := |Samples((if old(gap) then [] else old(inCarry)) + pcm)|;
        var put := |queue.waiting| - |old(queue).waiting|;
        && intake.dropped == (if old(gap) then 0 else old(intake).dropped) + 2 * (news - put)
        && if 2 * news <= space then put == news && !full else 0 <= 2 * put <= space < 2 * put + 2 && full
    {
      FittingIs((if gap then [] else inCarry) + pcm, space);
      if gap {
        gap := false;
        inCarry := [];
        intake, base := FRESH, queue.taken + queue.waiting;
        assert base == base + [];
      }
      if !muted {
        full := Take(pcm, space);
      } else {
        full := false;
      }
    }

    // A chunk that is accepted.
    method Take(pcm: seq<Byte>, space: nat) returns (full: bool)
      requires Ready() && |ring| + space <= RING_BYTES
      modifies this`ring, this`inCarry, this`intake, this`queue
      ensures Ready()
      ensures var whole := old(inCarry) + pcm;
              var m := Fitting(whole, space);
              && intake == Accepted(old(intake), pcm, m, |Samples(whole)|)
              && queue == Sent(old(queue), Samples(whole)[..m])
              && (full <==> m < |Samples(whole)|)
    {
      ghost var whole := inCarry + pcm;
      ghost var m := Fitting(whole, space);
      AcceptedOk(intake, inCarry, pcm, m);
      SentOk(queue, carry, ring, Samples(whole)[..m]);
      StillLinked(base, intake, queue, inCarry, pcm, m);
      full := Stitch(pcm, space);
      intake := Accepted(intake, pcm, m, |Samples(whole)|);
      queue := Sent(queue, Samples(whole)[..m]);
    }

    // The carry stitched on, whole samples sent as far as there is room, and the
    // odd byte kept.
    method Stitch(pcm: seq<Byte>, space: nat) returns (full: bool)
      requires |inCarry| <= 1
      modifies this`ring, this`inCarry
      ensures var whole := old(inCarry) + pcm;
              var m := Fitting(whole, space);
              && inCarry == Odd(whole)
              && ring == old(ring) + Bytes(Samples(whole)[..m])
              && (full <==> m < |Samples(whole)|)
    {
      ghost var whole := inCarry + pcm;
      SentIsPrefix(whole, Fitting(whole, space));
      var head, bytes, body := CutUp(pcm);
      if |head| == 0 && body == 0 {
        return false;
      }
      full := SendAll(head, bytes, body, space / 2 * 2);
    }

    // A sample astride the two chunks, the whole ones after it, and the odd byte.
    method CutUp(pcm: seq<Byte>) returns (head: seq<Byte>, bytes: seq<Byte>, body: nat)
      requires |inCarry| <= 1
      modifies this`inCarry
      ensures |head| == 0 || |head| == 2
      ensures body % 2 == 0 && body <= |bytes| <= body + 1
      ensures var whole := old(inCarry) + pcm;
              && inCarry == Odd(whole) && |whole| == |head| + body + |inCarry|
              && (|head| + body > 0 ==> whole == head + bytes)
    {
      ghost var whole := inCarry + pcm;
      bytes, head := pcm, [];
      if |inCarry| > 0 && |pcm| > 0 {
        head := [inCarry[0], pcm[0]];
        bytes := pcm[1..];
        inCarry := [];
      }
      body := |bytes| / 2 * 2;
      if |bytes| % 2 == 1 {
        inCarry := [bytes[body]];
      }
      OddIsLast(whole);
    }

    // Head first, then the body, each only as far as there is room.
    method SendAll(head: seq<Byte>, bytes: seq<Byte>, body: nat, space: nat) returns (full: bool)
      requires |head| == 0 || |head| == 2
      requires body <= |bytes| && body % 2 == 0 && space % 2 == 0
      modifies this`ring
      ensures var n := if |head| + body < space then |head| + body else space;
              && ring == old(ring) + (head + bytes)[..n]
              && (full <==> n < |head| + body)
    {
      var room := space;
      var dropped, fits := 0, 0;
      if |head| > 0 {
        if room >= 2 {
          ring := ring + head;
          room := room - 2;
        } else {
          dropped := dropped + 2;
        }
      }
      if body > 0 {
        fits := if body < room then body else room;
        if fits > 0 {
          ring := ring + bytes[..fits];
        }
        dropped := dropped + body - fits;
      }
      full := dropped > 0;
      if |head| == 0 || space > 0 {
        assert (head + bytes)[..|head| + fits] == head + bytes[..fits];
      }
    }

    /** One pass of the drain loop: `got` bytes come out of the ring, `toning` says
        a chime or tone is due, `open` whether the codec is there to play them.  What
        is taken is the samples those bytes complete; a flush takes all there are
        and plays none. */
    method Drain(got: nat, toning: bool, open: bool) returns (out: seq<Sample>)
      requires Ready() && got <= |ring| && |carry| + got <= CHUNK_MONO
      modifies this`ring, this`carry, this`flushPending, this`queue, this`codec
      ensures Ready() && !flushPending && codec == old(codec) + out
      ensures var n := |Samples(old(carry) + old(ring)[..got])|;
              if old(flushPending) then queue == Taken(old(queue), |old(queue).waiting|, false) && out == []
              else
                && n <= |old(queue).waiting| && queue == Taken(old(queue), n, open)
                && out == if open then old(queue).waiting[..n] else []
    {
      if flushPending {
        DropAll();
        return [];
      }
      var chunk := carry + ring[..got];
      TakeChunk(got, chunk, open);
      if toning && got == 0 {
        // The carry stays where it is for the next reply.
        return [];
      }
      carry := if |chunk| < 2 then chunk else if |chunk| % 2 == 1 then [chunk[|chunk| - 1]] else [];
      return if |chunk| >= 2 && open then Samples(chunk) else [];
    }

    // A flush: the carry and everything in the ring go.
    method DropAll()
      requires Ready()
      modifies this`ring, this`carry, this`flushPending, this`queue, this`codec
      ensures Ready() && !flushPending && codec == old(codec)
      ensures queue == Taken(old(queue), |old(queue).waiting|, false)
    {
      TakeLogged(|queue.waiting|, false);
      ring, carry, flushPending := [], [], false;
    }

    // The bytes out of the ring, and the samples they complete on the books.
    method TakeChunk(got: nat, ghost chunk: seq<Byte>, open: bool)
      requires Ready() && got <= |ring| && chunk == carry + ring[..got]
      modifies this`ring, this`queue, this`codec
      ensures ring == old(ring)[got..] && IntakeOk(intake, inCarry) && Linked(base, intake, queue)
      ensures |queue.heard| == |queue.taken| && codec == Played(queue)
      ensures var n := |Samples(chunk)|;
              && n <= |old(queue).waiting| && queue == Taken(old(queue), n, open)
              && Samples(chunk) == old(queue).waiting[..n] && Odd(chunk) == OddByte(chunk)
              && codec == old(codec) + if open then Samples(chunk) else []
      ensures Bytes(queue.waiting) == Odd(chunk) + ring
    {
      assert carry + ring == chunk + ring[got..];
      TakeFront(queue.waiting, chunk, ring[got..]);
      OddIsLast(chunk);
      TakeLogged(|Samples(chunk)|, open);
      ring := ring[got..];
    }

    // On the books: `n` samples out of the ring, to the codec if `play`.
    ghost method TakeLogged(n: nat, play: bool)
      requires |queue.heard| == |queue.taken| && n <= |queue.waiting|
      requires Linked(base, intake, queue) && codec == Played(queue)
      modifies this`queue, this`codec
      ensures queue == Taken(old(queue), n, play) && |queue.heard| == |queue.taken|
      ensures Linked(base, intake, queue) && codec == Played(queue)
      ensures codec == old(codec) + if play then old(queue).waiting[..n] else []
    {
      TakenPlays(queue, n, play);
      codec := codec + if play then queue.waiting[..n] else [];
      queue := Taken(queue, n, play);
    }

    // audio_io_flush(): the producer's carry goes with the next chunk, the rest
    // when the drain task sees it.
    method Flush()
      requires Ready()
      modifies this`flushPending, this`gap
      ensures Ready() && flushPending && gap
    {
      flushPending := true;
      gap := true;
    }

    // audio_io_mute_playback()
    method Mute(on: bool)
      requires Ready()
      modifies this`muted, this`gap
      ensures Ready() && muted == on && gap == (on || old(gap))
    {
      muted := on;
      if on {
        gap := true;
      }
    }
  }

  // ---------------- room ----------------

  // What audio_io_play() was given since a gap: each chunk with the room it found.
  datatype Chunk = Chunk(bytes: seq<Byte>, space: nat)

  function AcceptAll(log: Intake, carry: seq<Byte>, chunks: seq<Chunk>): Intake
    decreases |chunks|
  {
    if |chunks| == 0 then log
    else
      var whole := carry + chunks[0].bytes;
      AcceptAll(Accepted(log, chunks[0].bytes, Fitting(whole, chunks[0].space), |Samples(whole)|),
                Odd(whole), chunks[1..])
  }

  // Every chunk found room for the samples it completed.
  predicate Roomy(carry: seq<Byte>, chunks: seq<Chunk>)
    decreases |chunks|
  {
    |chunks| > 0 ==>
      var whole := carry + chunks[0].bytes;
      2 * |Samples(whole)| <= chunks[0].space && Roomy(Odd(whole), chunks[1..])
  }

  function Delivered(chunks: seq<Chunk>): seq<Byte> {
    if |chunks| == 0 then [] else chunks[0].bytes + Delivered(chunks[1..])
  }

  lemma {:induction false} DropsOnly(log: Intake, carry: seq<Byte>, chunks: seq<Chunk>)
    ensures AcceptAll(log, carry, chunks).dropped >= log.dropped
    decreases |chunks|
  {
    if |chunks| > 0 {
      var whole := carry + chunks[0].bytes;
      DropsOnly(Accepted(log, chunks[0].bytes, Fitting(whole, chunks[0].space), |Samples(whole)|),
                Odd(whole), chunks[1..]);
    }
  }

  /** Samples are dropped if and only if some chunk found no room for all of its own. */
  lemma {:induction false} DropsExactlyWithoutRoom(log: Intake, carry: seq<Byte>, chunks: seq<Chunk>)
    ensures AcceptAll(log, carry, chunks).dropped == log.dropped <==> Roomy(carry, chunks)
    ensures AcceptAll(log, carry, chunks).accepted == log.accepted + Delivered(chunks)
    decreases |chunks|
  {
    if |chunks| > 0 {
      var whole := carry + chunks[0].bytes;
      var m, n := Fitting(whole, chunks[0].space), |Samples(whole)|;
      var next := Accepted(log, chunks[0].bytes, m, n);
      FittingIs(whole, chunks[0].space);
      DropsExactlyWithoutRoom(next, Odd(whole), chunks[1..]);
      DropsOnly(next, Odd(whole), chunks[1..]);
      Associates(log.accepted, chunks[0].bytes, Delivered(chunks[1..]));
    }
  }

  /** Alignment.  In every state a run of Play, Drain, Flush and Mute can reach: the
      samples that went into the ring since the last gap, those taken from it and those
      still waiting, are the 16-bit decode of the bytes accepted since, in order, less
      the samples dropped whole; the codec was handed those taken while it was open and
      no flush was asked for; and every accepted byte is sent, dropped or carried. */
  lemma EveryByteAccountedFor(p: Player)
    requires p.Ready()
    ensures p.queue.taken + p.queue.waiting == p.base + Kept(Samples(p.intake.accepted), p.intake.keep)
    ensures p.codec == Kept(p.queue.taken, p.queue.heard)
    ensures Bytes(Samples(p.intake.accepted)) + p.inCarry == p.intake.accepted
    ensures p.intake.sent == 2 * |Kept(Samples(p.intake.accepted), p.intake.keep)|
    ensures p.intake.sent + p.intake.dropped + |p.inCarry| == |p.intake.accepted|
    ensures Samples(p.carry + p.ring) == p.queue.waiting && Odd(p.carry + p.ring) == []
  {
    var q := p.queue;
    BytesOfSamples(p.intake.accepted);
    SamplesAfter(q.waiting, []);
    assert Bytes(q.waiting) + [] == Bytes(q.waiting) && q.waiting + Samples([]) == q.waiting;
  }

  lemma {:induction false} KeptSplit<T>(s: seq<T>, keep: seq<bool>, n: nat)
    requires |s| == |keep| && n <= |s|
    ensures Kept(s, keep) == Kept(s[..n], keep[..n]) + Kept(s[n..], keep[n..])
    decreases |s|
  {
    var last := |s| - 1;
    if n == |s| {
      assert s[..n] == s && keep[..n] == keep && Kept(s[n..], keep[n..]) == [];
    } else {
      KeptSplit(s[..last], keep[..last], n);
      assert s[..last][..n] == s[..n] && keep[..last][..n] == keep[..n];
      assert s[..last][n..] == s[n..][..last - n] && keep[..last][n..] == keep[n..][..last - n];
    }
  }

  lemma RestOf<T>(a: seq<T>, b: seq<T>, c: seq<T>, d: seq<T>)
    requires a + b == c + d && |a| >= |c|
    ensures a[|c|..] + b == d
  {
    assert (a + b)[|c|..] == a[|c|..] + b;
    assert (c + d)[|c|..] == d;
  }

  /** Once what is before the gap is out of the ring, with nothing dropped and nothing
      flushed since: what the codec has been handed since then, and will be of what
      waits, is exactly the decode of the bytes accepted, however they were cut up. */
  lemma StreamIntact(p: Player)
    requires p.Ready() && |p.queue.taken| >= |p.base| && p.intake.dropped == 0
    requires forall i | |p.base| <= i < |p.queue.heard| :: p.queue.heard[i]
    ensures var n := |p.base|; var earlier := Kept(p.queue.taken[..n], p.queue.heard[..n]);
      earlier <= p.codec && p.codec[|earlier|..] + p.queue.waiting == Samples(p.intake.accepted)
  {
    var q, n := p.queue, |p.base|;
    KeptSplit(q.taken, q.heard, n);
    KeptAtMost(Samples(p.intake.accepted), p.intake.keep);
    KeptAtMost(q.taken[n..], q.heard[n..]);
    RestOf(q.taken, q.waiting, p.base, Samples(p.intake.accepted));
  }

  /** So while every chunk of a reply finds room, and none of it is flushed or met by a
      closed codec, what the codec is handed and will be is the decode of the whole of
      it, however it was cut up. */
  lemma IntactWhileThereIsRoom(p: Player, chunks: seq<Chunk>)
    requires p.Ready() && |p.queue.taken| >= |p.base|
    requires p.intake == AcceptAll(FRESH, [], chunks) && Roomy([], chunks)
    requires forall i | |p.base| <= i < |p.queue.heard| :: p.queue.heard[i]
    ensures var n := |p.base|; var earlier := Kept(p.queue.taken[..n], p.queue.heard[..n]);
      earlier <= p.codec && p.codec[|earlier|..] + p.queue.waiting == Samples(Delivered(chunks))
  {
    DropsExactlyWithoutRoom(FRESH, [], chunks);
    assert [] + Delivered(chunks) == Delivered(chunks);
    StreamIntact(p);
  }
}
