/** The serial port as the protocol engine sees it: each kind of read call
    (`read_until` and `read`) returns the next result of its own script (an
    empty result once the script is used up, which is what a read timeout
    returns), and every write is appended to a log. */
module Transport {
  import opened Ascii

  /** The result of the next read call on queue `q`. */
  function NextRead(q: seq<seq<byte>>): seq<byte> {
    if q == [] then [] else q[0]
  }

  /** The queue left after one read call on `q`. */
  function AfterRead(q: seq<seq<byte>>): (r: seq<seq<byte>>)
    ensures q == [] ==> r == []
    ensures q != [] ==> q == [q[0]] + r
  {
    if q == [] then [] else q[1..]
  }

  /** The queue left after `k` read calls on `q`. */
  function Skip(q: seq<seq<byte>>, k: nat): seq<seq<byte>> {
    if k == 0 then q else Skip(AfterRead(q), k - 1)
  }

  /** `k` read calls drop the first `k` results, or all of them. */
  lemma {:induction false} SkipIsSuffix(q: seq<seq<byte>>, k: nat)
    ensures Skip(q, k) == if k <= |q| then q[k..] else []
  {
    if k > 0 {
      SkipIsSuffix(AfterRead(q), k - 1);
      if k <= |q| {
        assert AfterRead(q)[k - 1..] == q[k..];
      }
    }
  }

  /** One more read after `k` of them. */
  lemma SkipNext(q: seq<seq<byte>>, k: nat)
    ensures AfterRead(Skip(q, k)) == Skip(q, k + 1)
  {
    SkipIsSuffix(q, k);
    SkipIsSuffix(q, k + 1);
  }

  class Serial {
    /** The results of the `read_until(ETX)` calls still to come, in order. */
    var frames: seq<seq<byte>>
    /** The results of the `read(1)` calls still to come, in order. */
    var singles: seq<seq<byte>>
    /** Every byte string written so far, in order. */
    var written: seq<seq<byte>>
    var isOpen: bool
    /** How many times `close` has been called. */
    var closeCount: nat

    /** An open port whose `read_until` and `read` calls will return
        `frames` and `singles`. */
    constructor (frames: seq<seq<byte>>, singles: seq<seq<byte>>)
      ensures this.frames == frames && this.singles == singles
      ensures written == [] && isOpen && closeCount == 0
    {
      this.frames, this.singles := frames, singles;
      written, isOpen, closeCount := [], true, 0;
    }

    method Write(b: seq<byte>)
      modifies this
      ensures written == old(written) + [b]
      ensures frames == old(frames) && singles == old(singles)
      ensures isOpen == old(isOpen) && closeCount == old(closeCount)
    {
      written := written + [b];
    }

    /** `read_until(ETX)`: the next scripted frame. */
    method ReadUntil() returns (r: seq<byte>)
      modifies this
      ensures r == NextRead(old(frames)) && frames == AfterRead(old(frames))
      ensures singles == old(singles) && written == old(written)
      ensures isOpen == old(isOpen) && closeCount == old(closeCount)
    {
      r := NextRead(frames);
      frames := AfterRead(frames);
    }

    /** `read(1)`: the next scripted single read. */
    method ReadByte() returns (r: seq<byte>)
      modifies this
      ensures r == NextRead(old(singles)) && singles == AfterRead(old(singles))
      ensures frames == old(frames) && written == old(written)
      ensures isOpen == old(isOpen) && closeCount == old(closeCount)
    {
      r := NextRead(singles);
      singles := AfterRead(singles);
    }

    method Close()
      modifies this
      ensures !isOpen && closeCount == old(closeCount) + 1
      ensures frames == old(frames) && singles == old(singles) && written == old(written)
    {
      isOpen := false;
      closeCount := closeCount + 1;
    }
  }
}
