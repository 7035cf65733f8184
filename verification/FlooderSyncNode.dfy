/**
 The node object of flooder_sync_node.cpp, with the radio reduced to the frames it signals, and its clock.
 */
module FlooderSyncNode {
  import opened CArith
  import opened SyncSpec
  import opened NodeSpec
  import opened Synchronizer
  import opened Wrappers

  class FlooderSyncNode {
    const p: Params
    const synchronizer: Synchronizer

    var measuredFrameStart: int
    var computedFrameStart: int
    var clockCorrection: int
    var receiverWindow: int
    var missPackets: nat

    ghost function Value(): Node
      reads this, synchronizer
    {
      Node(synchronizer.Value(), computedFrameStart, measuredFrameStart, clockCorrection, receiverWindow, missPackets)
    }

    ghost predicate Valid()
      reads this, synchronizer
    {
      p.Ok() && synchronizer.Consistent() && synchronizer.p == p && Agrees(p, synchronizer.scheme, Value())
    }

    constructor (synchronizer: Synchronizer)
      requires synchronizer.Consistent() && synchronizer.Value() == Fresh(synchronizer.p)
      ensures Valid() && this.synchronizer == synchronizer && Value() == Booted(p)
    {
      this.p, this.synchronizer := synchronizer.p, synchronizer;
      measuredFrameStart, computedFrameStart, clockCorrection := 0, 0, 0;
      receiverWindow := synchronizer.p.w;
      missPackets := MAX_MISS_PACKETS + 1;
      new;
      FreshCorrection(p, synchronizer.scheme);
    }

    /** Keeps the receiver on until a good frame, a late one, or none at all. */
    method Listen(frames: seq<Frame>, register: int) returns (timeout: bool)
      modifies this`measuredFrameStart
      ensures var limit := computedFrameStart + receiverWindow;
              measuredFrameStart == LastSeen(frames, limit, register)
              && FirstGood(frames, limit) == if timeout then None else Some(measuredFrameStart)
    {
      var i := 0;
      measuredFrameStart := register;
      assert frames[0..] == frames;
      while true
        invariant 0 <= i <= |frames|
        invariant var limit := computedFrameStart + receiverWindow;
                  && LastSeen(frames, limit, register) == LastSeen(frames[i..], limit, measuredFrameStart)
                  && FirstGood(frames, limit) == FirstGood(frames[i..], limit)
        decreases |frames| - i
      {
        if i == |frames| {
          return true;
        }
        assert frames[i..][1..] == frames[i + 1..];
        measuredFrameStart := frames[i].start;
        if measuredFrameStart > computedFrameStart + receiverWindow {
          return true;
        }
        if frames[i].good {
          return false;
        }
        i := i + 1;
      }
    }

    /** One round: true when the node is not in sync. */
    method Synchronize(frames: seq<Frame>, register: int) returns (lost: bool)
      requires Valid()
      modifies this, synchronizer
      ensures Valid() && Value() == Round(p, synchronizer.scheme, old(Value()), frames, register)
      ensures lost == !InSync(Value())
    {
      hide FirstGood, LastSeen, OnPacket, OnLoss, Correction, SyncSpec.Valid, ToInt, synchronizer.Consistent;
      NextAgrees(p, synchronizer.scheme, Value(), Event.Synchronize(frames, register));
      if missPackets > MAX_MISS_PACKETS {
        return true;
      }
      computedFrameStart := computedFrameStart + p.period + clockCorrection;
      var timeout := Listen(frames, register);
      var u, window;
      if timeout {
        missPackets := missPackets + 1;
        if missPackets > MAX_MISS_PACKETS {
          return true;
        }
        u, window := synchronizer.LostPacket();
        measuredFrameStart := computedFrameStart;
      } else {
        var e := ToInt(measuredFrameStart - computedFrameStart);
        u, window := synchronizer.ComputeCorrection(e);
        missPackets := 0;
      }
      clockCorrection := u;
      receiverWindow := window;
      measuredFrameStart := measuredFrameStart - p.hopDelay;
      return false;
    }

    /** Waits for a good frame, however late, and starts again from it. */
    method Resynchronize(frames: seq<Frame>)
      requires Valid() && exists i :: 0 <= i < |frames| && frames[i].good
      modifies this, synchronizer
      ensures Valid() && exists i :: 0 <= i < |frames| && frames[i].good && (forall j :: 0 <= j < i ==> !frames[j].good)
                                     && Value() == Resynced(p, frames[i].start)
    {
      synchronizer.Reset();
      var i := 0;
      while true
        invariant 0 <= i < |frames| && forall j :: 0 <= j < i ==> !frames[j].good
        invariant synchronizer.Consistent() && synchronizer.Value() == Fresh(p)
        decreases |frames| - i
      {
        measuredFrameStart := frames[i].start;
        computedFrameStart := measuredFrameStart;
        if frames[i].good {
          break;
        }
        i := i + 1;
      }
      clockCorrection := 0;
      receiverWindow := p.w;
      missPackets := 0;
      measuredFrameStart := measuredFrameStart - p.hopDelay;
      FreshCorrection(p, synchronizer.scheme);
      assert frames[i].good && Value() == Resynced(p, frames[i].start);
    }

    /** MonotonicClock::localTime of a clock on this node and its synchronizer.  It uses the correction of the
        synchronizer, which Valid() makes the one the node applies. */
    method LocalTime(slot: nat) returns (t: int)
      requires Valid()
      ensures t == NodeTime(p, synchronizer.scheme, Value(), slot)
      ensures t == NodeSpec.LocalTime(p, computedFrameStart - p.hopDelay, clockCorrection, slot)
    {
      var u := synchronizer.GetClockCorrection();
      var correction := slot * u;
      var sign := if correction >= 0 then 1 else -1;
      var dividedCorrection := Quot(correction + sign * (p.period / 2), p.period);
      t := computedFrameStart - p.hopDelay + Max(0, slot + dividedCorrection);
    }
  }
}
