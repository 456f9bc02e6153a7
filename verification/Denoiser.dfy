/**
 * The denoiser's FIFO in capture_task() of main/audio_io.c: 1024-sample blocks
 * through a library that takes 160-sample frames, with what is left of each block
 * carried to the next.
 *
 * ns_process() keeps a noise estimate of its own, so what it makes of a frame is a
 * function of every sample it has been given, that frame's last; nothing else is
 * assumed of it.
 */
module Denoiser {

  const FRAMES := 1024
  const CHUNK := 160
  const IN_CAP := FRAMES + CHUNK
  const OUT_CAP := 2 * FRAMES + 2 * CHUNK

  type Process = seq<int> -> seq<int>

  ghost predicate WholeFrames(p: Process) {
    forall h :: |p(h)| == CHUNK
  }

  // The library's output for the first `k` frames of `x`, `h` having gone before.
  function Ran(p: Process, h: seq<int>, x: seq<int>, k: nat): seq<int>
    requires CHUNK * k <= |x|
  {
    if k == 0 then [] else Ran(p, h, x, k - 1) + p(h + x[..CHUNK * k])
  }

  // Later input does not change what earlier frames came to.
  lemma {:induction false} RanPrefix(p: Process, h: seq<int>, x: seq<int>, y: seq<int>, k: nat)
    requires CHUNK * k <= |x| && x <= y
    ensures Ran(p, h, x, k) == Ran(p, h, y, k)
  {
    if k > 0 {
      RanPrefix(p, h, x, y, k - 1);
      assert x[..CHUNK * k] == y[..CHUNK * k];
    }
  }

  // `n` blocks hold `k` whole frames.
  predicate Holds(n: nat, k: nat) {
    CHUNK * k <= FRAMES * n < CHUNK * (k + 1)
  }

  // Samples gone out by the time `n` blocks have gone in, silence apart.
  function Gone(n: nat): nat {
    if n == 0 then 0 else FRAMES * (n - 1)
  }

  function Silence(): (s: seq<int>)
    ensures |s| == FRAMES && forall i | 0 <= i < FRAMES :: s[i] == 0
  {
    seq(FRAMES, _ => 0)
  }

  /** What `n` blocks of input should come out as, `out` being the frame-by-frame
      processing of them: one block of silence, and then that, a block behind. */
  function Expected(out: seq<int>, n: nat): seq<int>
    requires Gone(n) <= |out|
  {
    if n == 0 then [] else Silence() + out[..Gone(n)]
  }

  /** From the second block on there is always a block to emit, and the output
      buffer is large enough for any number of blocks. */
  lemma Enough(n: nat, k: nat, k': nat)
    requires Holds(n, k) && Holds(n + 1, k')
    ensures k <= k' && Gone(n) <= CHUNK * k && Gone(n + 1) <= CHUNK * k'
    ensures n > 0 ==> CHUNK * k' - Gone(n) >= FRAMES
    ensures n == 0 ==> CHUNK * k' - Gone(n) < FRAMES
    ensures CHUNK * k' - Gone(n) <= OUT_CAP
  {
  }

  lemma ExpectedGrows(so: seq<int>, out: seq<int>, n: nat)
    requires so <= out && Gone(n) <= |so| && Gone(n + 1) <= |out|
    ensures n > 0 ==> Expected(out, n + 1) == Expected(so, n) + out[Gone(n)..][..FRAMES]
    ensures n == 0 ==> Expected(out, n + 1) == Expected(so, n) + Silence()
  {
    if n > 0 {
      assert out[..Gone(n + 1)] == so[..Gone(n)] + out[Gone(n)..][..FRAMES];
    }
  }

  // The books: the input not yet in a frame, and the output not yet in a block.
  ghost predicate Books(p: Process, before: seq<int>, x: seq<int>, k: nat, out: seq<int>, fed: seq<int>) {
    CHUNK * k <= |x| && out == Ran(p, before, x, k) && |out| == CHUNK * k && fed == before + x[..CHUNK * k]
  }

  ghost predicate Waiting(out: seq<int>, gone: nat, queue: seq<int>) {
    gone <= |out| && queue == out[gone..]
  }

  lemma NextFrame(p: Process, before: seq<int>, x: seq<int>, k: nat, out: seq<int>, fed: seq<int>,
                  gone: nat, queue: seq<int>)
    requires Books(p, before, x, k, out, fed) && CHUNK * (k + 1) <= |x| && WholeFrames(p) && Waiting(out, gone, queue)
    ensures var fed' := fed + x[CHUNK * k..][..CHUNK];
            && Books(p, before, x, k + 1, out + p(fed'), fed')
            && Waiting(out + p(fed'), gone, queue + p(fed'))
  {
    assert x[..CHUNK * (k + 1)] == x[..CHUNK * k] + x[CHUNK * k..][..CHUNK];
    assert fed + x[CHUNK * k..][..CHUNK] == before + x[..CHUNK * (k + 1)];
  }

  lemma FreshBooks(p: Process, fed: seq<int>)
    ensures Books(p, fed, [], 0, [], fed) && Holds(0, 0) && Waiting([], Gone(0), []) && Expected([], 0) == []
  {
    assert fed + [] == fed;
  }

  // A block gone out of the queue, once the books hold one block more.
  lemma BlockOut(so: seq<int>, out: seq<int>, n: nat, queue: seq<int>, queue': seq<int>, block: seq<int>)
    requires so <= out && Gone(n) <= |so| && Gone(n + 1) <= |out| && Waiting(out, Gone(n), queue)
    requires |queue| >= FRAMES <==> n > 0
    requires n > 0 ==> block == queue[..FRAMES] && queue' == queue[FRAMES..]
    requires n == 0 ==> block == Silence() && queue' == queue
    ensures Expected(out, n + 1) == Expected(so, n) + block && Waiting(out, Gone(n + 1), queue')
  {
    ExpectedGrows(so, out, n);
    if n > 0 {
      assert out[Gone(n)..][FRAMES..] == out[Gone(n + 1)..];
    }
  }

  // A frame of the staged input is a frame of the stream.
  lemma SliceOf(staged: seq<int>, avail: nat, done: nat, x: seq<int>, from: nat)
    requires done + CHUNK <= avail <= |staged| && from <= |x| && staged[..avail] == x[from..]
    ensures from + done + CHUNK <= |x| && staged[done..done + CHUNK] == x[from + done..][..CHUNK]
  {
    assert staged[done..done + CHUNK] == staged[..avail][done..done + CHUNK];
    assert x[from..][done..done + CHUNK] == x[from + done..][..CHUNK];
  }

  class Fifo {
    const p: Process
    const nsIn: array<int>
    const nsOut: array<int>
    var carry: nat
    var have: nat
    var fed: seq<int>     // all the library has been given
    // At the last restart: what the library had been given.  Since then: the blocks
    // in, the frames they hold, what the library made of those, and the blocks out.
    ghost var before: seq<int>
    ghost var input: seq<int>
    ghost var blocks: nat
    ghost var frames: nat
    ghost var out: seq<int>
    ghost var emitted: seq<int>

    ghost predicate Ready()
      reads this, nsIn, nsOut
    {
      && nsIn != nsOut && nsIn.Length == IN_CAP && nsOut.Length == OUT_CAP && WholeFrames(p)
      && |input| == FRAMES * blocks && Holds(blocks, frames)
      && Books(p, before, input, frames, out, fed)
      && carry == |input| - CHUNK * frames && nsIn[..carry] == input[CHUNK * frames..]
      && have <= OUT_CAP && Waiting(out, Gone(blocks), nsOut[..have])
      && emitted == Expected(out, blocks)
    }

    constructor (p: Process)
      requires WholeFrames(p)
      ensures Ready() && blocks == 0 && this.p == p && fresh(nsIn) && fresh(nsOut)
    {
      this.p := p;
      nsIn := new int[IN_CAP](_ => 0);
      nsOut := new int[OUT_CAP](_ => 0);
      carry, have, fed := 0, 0, [];
      before, input, blocks, frames, out, emitted := [], [], 0, 0, [], [];
    }

    // Switched off and on again: the stream starts afresh, at both ends.
    method Restart()
      requires Ready()
      modifies this`carry, this`have, this`before, this`input, this`blocks, this`frames, this`out, this`emitted
      ensures Ready() && blocks == 0 && emitted == [] && before == fed
    {
      carry, have := 0, 0;
      before, input, blocks, frames, out, emitted := fed, [], 0, 0, [], [];
      FreshBooks(p, fed);
    }

    // One frame: the library's output goes behind what is there.
    method Frame(done: nat)
      requires nsIn != nsOut && nsIn.Length == IN_CAP && nsOut.Length == OUT_CAP && WholeFrames(p)
      requires done + CHUNK <= IN_CAP && have + CHUNK <= OUT_CAP
      modifies this`have, this`fed, nsOut
      ensures fed == old(fed) + old(nsIn[done..done + CHUNK])
      ensures have == old(have) + CHUNK && nsOut[..have] == old(nsOut[..have]) + p(fed)
    {
      fed := fed + nsIn[done..done + CHUNK];
      var r := p(fed);
      forall i | 0 <= i < CHUNK {
        nsOut[have + i] := r[i];
      }
      have := have + CHUNK;
    }

    // And into the books.
    method NextOf(done: nat, avail: nat, ghost x: seq<int>, ghost from: nat)
      requires nsIn != nsOut && nsIn.Length == IN_CAP && nsOut.Length == OUT_CAP && WholeFrames(p)
      requires done + CHUNK <= avail <= IN_CAP && have + CHUNK <= OUT_CAP
      requires from <= |x| && nsIn[..avail] == x[from..] && from + done == CHUNK * frames
      requires Books(p, before, x, frames, out, fed) && Waiting(out, Gone(blocks), nsOut[..have])
      modifies this`have, this`fed, this`frames, this`out, nsOut
      ensures frames == old(frames) + 1 && have <= OUT_CAP && old(out) <= out
      ensures Books(p, before, x, frames, out, fed) && Waiting(out, Gone(blocks), nsOut[..have])
    {
      NextFrame(p, before, x, frames, out, fed, Gone(blocks), nsOut[..have]);
      SliceOf(nsIn[..], avail, done, x, from);
      Frame(done);
      frames := frames + 1;
      out := out + p(fed);
    }

    // The frame loop, on the block already staged behind the carry.
    method Frames(avail: nat, ghost x: seq<int>, ghost k': nat) returns (done: nat)
      requires nsIn != nsOut && nsIn.Length == IN_CAP && nsOut.Length == OUT_CAP && WholeFrames(p)
      requires frames <= k' && CHUNK * k' <= |x| < CHUNK * (k' + 1)
      requires avail <= IN_CAP && avail == |x| - CHUNK * frames && nsIn[..avail] == x[CHUNK * frames..]
      requires Books(p, before, x, frames, out, fed)
      requires have <= OUT_CAP && Waiting(out, Gone(blocks), nsOut[..have]) && CHUNK * k' - Gone(blocks) <= OUT_CAP
      modifies this`have, this`fed, this`frames, this`out, nsOut
      ensures frames == k' && done == CHUNK * (k' - old(frames)) && done <= avail
      ensures Books(p, before, x, k', out, fed) && old(out) <= out
      ensures have <= OUT_CAP && Waiting(out, Gone(blocks), nsOut[..have])
    {
      ghost var from := CHUNK * frames;
      done := 0;
      while done + CHUNK <= avail
        invariant old(frames) <= frames <= k' && from + done == CHUNK * frames && done <= avail
        invariant Books(p, before, x, frames, out, fed) && old(out) <= out
        invariant have <= OUT_CAP && Waiting(out, Gone(blocks), nsOut[..have])
      {
        if have + CHUNK > OUT_CAP {
          break;
        }
        NextOf(done, avail, x, from);
        done := done + CHUNK;
      }
    }

    // The block goes in behind the carry.
    method Stage(mono: array<int>) returns (avail: nat)
      requires nsIn.Length == IN_CAP && carry < CHUNK && mono.Length == FRAMES && mono != nsIn
      modifies nsIn
      ensures avail == carry + FRAMES && nsIn[..avail] == old(nsIn[..carry]) + mono[..]
    {
      forall i | 0 <= i < FRAMES {
        nsIn[carry + i] := mono[i];
      }
      avail := carry + FRAMES;
    }

    method KeepRest(avail: nat, done: nat)
      requires done <= avail <= nsIn.Length
      modifies this`carry, nsIn
      ensures carry == avail - done && nsIn[..carry] == old(nsIn[..avail])[done..]
    {
      carry := avail - done;
      forall i | 0 <= i < carry {
        nsIn[i] := nsIn[done + i];
      }
    }

    // A block goes out, or silence while the first is being made up.
    method Emit(mono: array<int>)
      requires mono.Length == FRAMES && mono != nsOut && have <= nsOut.Length
      modifies this`have, nsOut, mono
      ensures have <= nsOut.Length
      ensures old(have) >= FRAMES ==>
        && have == old(have) - FRAMES && mono[..] == old(nsOut[..have])[..FRAMES]
        && nsOut[..have] == old(nsOut[..have])[FRAMES..]
      ensures old(have) < FRAMES ==>
        have == old(have) && mono[..] == Silence() && nsOut[..have] == old(nsOut[..have])
    {
      if have >= FRAMES {
        forall i | 0 <= i < FRAMES {
          mono[i] := nsOut[i];
        }
        have := have - FRAMES;
        forall i | 0 <= i < have {
          nsOut[i] := nsOut[i + FRAMES];
        }
      } else {
        forall i | 0 <= i < FRAMES {
          mono[i] := 0;
        }
      }
    }

    // The block staged, its frames run and the rest kept.
    method Absorb(mono: array<int>, ghost k': nat)
      requires Ready() && mono.Length == FRAMES && mono != nsIn && mono != nsOut && Holds(blocks + 1, k')
      modifies this`carry, this`have, this`fed, this`frames, this`out, nsIn, nsOut
      ensures var x := input + mono[..];
              && frames == k' && carry == |x| - CHUNK * k' && nsIn[..carry] == x[CHUNK * k'..]
              && Books(p, before, x, k', out, fed) && old(out) <= out
              && have <= OUT_CAP && Waiting(out, Gone(blocks), nsOut[..have])
    {
      ghost var x, k := input + mono[..], frames;
      Enough(blocks, k, k');
      RanPrefix(p, before, input, x, k);
      assert input[..CHUNK * k] == x[..CHUNK * k];
      var avail := Stage(mono);
      assert x[CHUNK * k..] == input[CHUNK * k..] + mono[..];
      var done := Frames(avail, x, k');
      KeepRest(avail, done);
      assert x[CHUNK * k..][done..] == x[CHUNK * k'..];
    }

    // The block out, and onto the books.
    method Settle(mono: array<int>, ghost so: seq<int>)
      requires mono.Length == FRAMES && mono != nsOut && nsOut.Length == OUT_CAP && have <= OUT_CAP
      requires so <= out && Gone(blocks) <= |so| && Gone(blocks + 1) <= |out|
      requires Waiting(out, Gone(blocks), nsOut[..have]) && emitted == Expected(so, blocks)
      requires have >= FRAMES <==> blocks > 0
      modifies this`have, this`blocks, this`emitted, nsOut, mono
      ensures blocks == old(blocks) + 1 && have <= OUT_CAP && Waiting(out, Gone(blocks), nsOut[..have])
      ensures emitted == Expected(out, blocks) == old(emitted) + mono[..]
    {
      ghost var queue := nsOut[..have];
      Emit(mono);
      BlockOut(so, out, blocks, queue, nsOut[..have], mono[..]);
      blocks, emitted := blocks + 1, emitted + mono[..];
    }

    /** One block through the FIFO, in place in `mono`: what has come out is always
        what was expected of what has gone in. */
    method Block(mono: array<int>)
      requires Ready() && mono.Length == FRAMES && mono != nsIn && mono != nsOut
      modifies this`carry, this`have, this`fed, nsIn, nsOut, mono,
               this`input, this`blocks, this`frames, this`out, this`emitted
      ensures Ready() && blocks == old(blocks) + 1
      ensures input == old(input) + old(mono[..]) && emitted == old(emitted) + mono[..]
    {
      ghost var n, x := blocks, input + mono[..];
      ghost var k' := FRAMES * (n + 1) / CHUNK;
      assert Holds(n + 1, k');
      Enough(n, frames, k');
      ghost var so := out;
      Absorb(mono, k');
      Settle(mono, so);
      input := x;
    }
  }
}
