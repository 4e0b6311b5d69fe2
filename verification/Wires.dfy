/** The host's end of the transport, whose writes wait in a buffer until they are flushed. */
module Wires {
  import opened Prelude
  import opened Messages

  /** The bytes a list of frames takes. */
  function WireLength(frames: seq<Frame>, frameLen: Frame -> nat): nat {
    if frames == [] then 0
    else
      var n := |frames| - 1;
      WireLength(frames[..n], frameLen) + frameLen(frames[n])
  }

  lemma WireLengthGrows(frames: seq<Frame>, f: Frame, frameLen: Frame -> nat)
    ensures WireLength(frames + [f], frameLen) == WireLength(frames, frameLen) + frameLen(f)
  {
    assert (frames + [f])[..|frames|] == frames;
  }

  /** `budget` is the number of operations before the transport fails. */
  class Wire {
    var sent: seq<Frame>
    var flushed: nat
    var inbox: seq<Frame>
    var budget: nat

    constructor (inbox: seq<Frame>, budget: nat)
      ensures sent == [] && flushed == 0 && this.inbox == inbox
    {
      sent, flushed, this.inbox, this.budget := [], 0, inbox, budget;
    }

    method Write(f: Frame) returns (ok: bool)
      modifies this
      ensures ok <==> old(budget) > 0
      ensures sent == (if ok then old(sent) + [f] else old(sent))
      ensures inbox == old(inbox) && flushed == old(flushed) && budget == Max(old(budget) - 1, 0)
    {
      ok := budget > 0;
      if ok {
        sent := sent + [f];
        budget := budget - 1;
      }
    }

    method Flush() returns (ok: bool)
      modifies this
      ensures ok <==> old(budget) > 0
      ensures sent == old(sent) && inbox == old(inbox) && budget == Max(old(budget) - 1, 0)
      ensures flushed == if ok then |sent| else old(flushed)
    {
      ok := budget > 0;
      if ok {
        flushed := |sent|;
        budget := budget - 1;
      }
    }

    /** A read may block for the peer's answer, so nothing may wait in the buffer. */
    method Read() returns (f: Option<Frame>)
      requires flushed == |sent|
      modifies this
      ensures sent == old(sent) && flushed == old(flushed)
      ensures f.Some? <==> old(budget) > 0 && old(inbox) != []
      ensures budget == if f.Some? then old(budget) - 1 else old(budget)
      ensures f.Some? ==> old(inbox) != [] && f.value == old(inbox)[0] && inbox == old(inbox)[1..]
    {
      if budget == 0 || inbox == [] {
        return None;
      }
      f := Some(inbox[0]);
      inbox := inbox[1..];
      budget := budget - 1;
    }
  }

  /** A writer that counts the bytes that went through it. */
  class CountingWrite {
    const inner: Wire
    const frameLen: Frame -> nat
    var total: nat
    ghost const base: nat

    ghost predicate Valid()
      reads this, inner
    {
      base <= |inner.sent| && total == WireLength(inner.sent[base..], frameLen)
    }

    constructor (inner: Wire, frameLen: Frame -> nat)
      ensures Valid() && this.inner == inner && this.frameLen == frameLen && base == |inner.sent|
    {
      this.inner, this.frameLen := inner, frameLen;
      total, base := 0, |inner.sent|;
    }

    method Write(f: Frame) returns (ok: bool)
      requires Valid()
      modifies this, inner
      ensures Valid()
      ensures inner.sent == (if ok then old(inner.sent) + [f] else old(inner.sent))
      ensures inner.inbox == old(inner.inbox)
    {
      ghost var before := inner.sent[base..];
      ok := inner.Write(f);
      if ok {
        total := total + frameLen(f);
        WireLengthGrows(before, f, frameLen);
        assert inner.sent[base..] == before + [f];
      }
    }

    method Flush() returns (ok: bool)
      requires Valid()
      modifies inner
      ensures Valid()
      ensures inner.sent == old(inner.sent) && inner.inbox == old(inner.inbox)
      ensures ok ==> inner.flushed == |inner.sent|
    {
      ok := inner.Flush();
    }
  }
}
