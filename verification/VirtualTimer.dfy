/**
 The virtual high resolution timer as the driver has it: static variables changed by one interrupt handler, and
 registers changed by the hardware.
 */
module VirtualTimer {
  import opened CArith
  import opened TimerSpec
  import opened Wrappers

  class VHT {
    const r: Rates

    /** TIM4: the counter, with all its increments; the overflow flag; the registers of the channels. */
    var counter: nat
    var uif: bool
    var channel1: Capture
    var channel2: Compare
    var channel3: Capture
    var channel4: Output
    /** The alarm register of the RTC. */
    var alarm: nat

    var vhtOverflows: nat
    var vhtBase: int
    var vhtOffset: int
    var vhtSyncPointVht: int
    var vhtSyncPointRtc: nat
    var syncVhtRtcPeriod: nat
    var timestampEvent: int
    var vhtWakeupWait: nat
    var vhtInt: Flags

    ghost function Value(): Vht
      reads this
    {
      Vht(counter, uif, channel1, channel2, channel3, channel4, vhtOverflows, vhtBase, vhtOffset, vhtSyncPointVht,
          vhtSyncPointRtc, syncVhtRtcPeriod, timestampEvent, vhtWakeupWait, vhtInt)
    }

    ghost predicate Valid()
      reads this
    {
      r.Ok() && Timed(Value())
    }

    /** The counter register. */
    function CNT(): nat
      reads this
    {
      counter % TURN
    }

    constructor (r: Rates, period: nat)
      requires r.Ok()
      ensures Valid() && Value() == Started(period) && this.r == r
    {
      this.r := r;
      counter, uif := 0, false;
      channel1, channel2, channel3 := Capture(false, false, 0, 0), Compare(false, false, 0, 0),
        Capture(false, false, 0, 0);
      channel4, alarm := Output(false, false, 0, 0, false, false, None), 0;
      vhtOverflows, vhtBase, vhtOffset, vhtSyncPointVht, vhtSyncPointRtc := 0, 0, 0, 0, 0;
      syncVhtRtcPeriod, timestampEvent, vhtWakeupWait := period, 0, 0;
      vhtInt := Flags(false, false, false, false, false);
      new;
      StartedOk(period);
    }

    /** The interrupt handler. */
    method Handler()
      requires Valid()
      modifies this
      ensures Valid() && Value() == Handle(r, old(Value())) && counter == old(counter)
    {
      HandleTimed(r, Value());
      hide Timed, SyncPart, WaitPart, EventPart, TriggerPart, OverflowPart;
      SyncChannel();
      WaitChannel();
      EventChannel();
      TriggerChannel();
      Overflow();
    }

    /** Input capture channel 1: a new synchronization point, and the alarm for the next one. */
    method SyncChannel()
      requires r.Ok()
      modifies this`channel1, this`channel2, this`channel4, this`vhtSyncPointVht, this`vhtBase, this`vhtWakeupWait,
               this`vhtSyncPointRtc, this`vhtInt, this`alarm
      ensures Value() == SyncPart(r, old(Value()))
      ensures alarm == if old(channel1.pending && channel1.enabled) then vhtSyncPointRtc % 0x1_0000_0000 else old(alarm)
    {
      hide ToVht, Moving, Unsigned, Reconstruct;
      if channel1.pending && channel1.enabled {
        ghost var v := Value();
        var oldBase, oldSyncPoint := vhtBase, vhtSyncPointVht;
        NewSyncPoint();
        MovingElsewhere(v, channel1, vhtSyncPointVht, vhtBase, vhtInt, Moved(v, vhtBase, vhtSyncPointVht));
        if channel2.enabled || channel4.enabled {
          MoveDeadline(oldBase, oldSyncPoint);
        }
        vhtSyncPointRtc := vhtSyncPointRtc + syncVhtRtcPeriod;
        alarm := vhtSyncPointRtc % 0x1_0000_0000;
      }
    }

    method NewSyncPoint()
      requires r.Ok()
      modifies this`channel1, this`vhtSyncPointVht, this`vhtBase, this`vhtInt
      ensures var v := old(Value());
              Value() == v.(rtcCapture := v.rtcCapture.(pending := false),
                            syncPoint := Reconstruct(v, v.rtcCapture.ccr), base := ToVht(r, v.syncRtc),
                            flags := if v.flags.flag then v.flags.(sync := true, flag := false) else v.flags)
    {
      hide ToVht;
      if vhtInt.flag {
        vhtInt := vhtInt.(sync := true, flag := false);
      }
      channel1 := channel1.(pending := false);
      vhtSyncPointVht := vhtOverflows + channel1.ccr;
      if uif && channel1.ccr <= CNT() {
        vhtSyncPointVht := vhtSyncPointVht + TURN;
      }
      vhtBase := Convert(vhtSyncPointRtc);
    }

    /** From ticks of the slow clock to ticks of the fast one, rounded to the nearest. */
    method Convert(rtc: nat) returns (conversion: int)
      requires r.Ok()
      ensures conversion == ToVht(r, rtc)
    {
      conversion := rtc;
      conversion := conversion * r.vht;
      conversion := conversion + r.rtc / 2;
      conversion := conversion / r.rtc;
    }

    /** The part of the synchronization that moves a pending deadline. */
    method MoveDeadline(oldBase: int, oldSyncPoint: int)
      requires channel2.enabled || channel4.enabled
      modifies this`vhtWakeupWait, this`channel2, this`channel4
      ensures Value()
              == Moving(old(Value()), Unsigned(old(vhtWakeupWait) + oldBase - oldSyncPoint - vhtBase + vhtSyncPointVht))
    {
      var oldWakeup := vhtWakeupWait;
      vhtWakeupWait := Unsigned(vhtWakeupWait + oldBase - oldSyncPoint - vhtBase + vhtSyncPointVht);
      var time := vhtOverflows + (if uif then TURN else 0) + CNT();
      var diff := Signed(vhtWakeupWait - time);
      var oldDiff := Signed(oldWakeup - time);
      if oldDiff > 100 && diff > 100 {
        if channel4.enabled {
          channel4 := channel4.(ccr := vhtWakeupWait % TURN);
          if diff > 0 && diff <= 0xFFFF {
            channel4 := channel4.(onMatch := true);
          }
        }
        channel2 := channel2.(ccr := vhtWakeupWait % TURN);
      } else {
        vhtWakeupWait := oldWakeup;
      }
    }

    /** Output compare channel 2: the end of a wait. */
    method WaitChannel()
      modifies this`channel2, this`vhtInt
      ensures Value() == WaitPart(old(Value()))
    {
      if channel2.pending && channel2.enabled {
        channel2 := channel2.(pending := false);
        var ovf := uif && channel2.ccr <= CNT();
        if vhtWakeupWait - vhtWakeupWait % TURN <= vhtOverflows + (if ovf then TURN else 0) {
          vhtInt := vhtInt.(wait := true);
        }
      }
    }

    /** Input capture channel 3: the time stamp of an event. */
    method EventChannel()
      modifies this`channel3, this`vhtInt, this`timestampEvent
      ensures Value() == EventPart(old(Value()))
    {
      if channel3.pending && channel3.enabled {
        channel3 := channel3.(pending := false);
        vhtInt := vhtInt.(event := true);
        timestampEvent := vhtOverflows + channel3.ccr;
        if uif && channel3.ccr <= CNT() {
          timestampEvent := timestampEvent + TURN;
        }
        timestampEvent := Unsigned(timestampEvent - vhtSyncPointVht + vhtBase + vhtOffset);
      }
    }

    /** Output compare channel 4: the pin has risen, or is set to rise at the next match if that is the deadline. */
    method TriggerChannel()
      modifies this`channel4, this`vhtInt
      ensures Value() == TriggerPart(old(Value()))
    {
      if channel4.pending && channel4.enabled {
        channel4 := channel4.(pending := false);
        var ovf := uif && channel4.ccr <= CNT();
        var remainingSlot := Signed(vhtWakeupWait - (vhtOverflows + if ovf then TURN else 0)) / TURN;
        if remainingSlot <= 0 {
          vhtInt := vhtInt.(trigger := true);
          channel4 := channel4.(enabled := false, onMatch := false, pin := false);
        } else if remainingSlot == 1 {
          channel4 := channel4.(onMatch := true);
        }
      }
    }

    method Overflow()
      modifies this`uif, this`vhtOverflows
      ensures Value() == OverflowPart(old(Value()))
    {
      if uif {
        uif := false;
        vhtOverflows := vhtOverflows + TURN;
      }
    }

    /** The value of the timer, read in one piece. */
    method GetValue() returns (t: nat)
      requires Valid()
      ensures t == TimerSpec.GetValue(Value()) && t == Virtual(Value(), counter)
    {
      ReadsTime(Value());
      t := Unsigned(vhtOverflows + (if uif then TURN else 0) + CNT() - vhtSyncPointVht + vhtBase + vhtOffset);
    }

    method SetValue(value: nat)
      requires Valid() && value < U64
      modifies this`vhtOffset
      ensures Valid() && Value() == TimerSpec.SetValue(old(Value()), value) && TimerSpec.GetValue(Value()) == value
    {
      ValueSet(Value(), value);
      NextTimed(r, Value(), Step.Set(value));
      var t := GetValue();
      vhtOffset := Signed(vhtOffset + value - t);
    }

    /** syncWithRtc up to the loop in which the thread waits; `now` is the time of the RTC. */
    method SyncWithRtc(now: nat)
      requires Valid()
      modifies this`channel1, this`vhtSyncPointRtc, this`alarm, this`vhtInt
      ensures Valid() && Value() == StartSync(old(Value()), now) && alarm == vhtSyncPointRtc
    {
      NextTimed(r, Value(), Step.Sync(now));
      channel1 := channel1.(pending := false, enabled := true);
      vhtSyncPointRtc := now + 2;
      alarm := vhtSyncPointRtc;
      vhtInt := vhtInt.(sync := false, flag := true);
    }

    /** Its last statements. */
    method EndSyncWithRtc(autoSync: bool)
      requires Valid()
      modifies this`channel1, this`vhtInt
      ensures Valid() && Value() == EndSync(old(Value()), autoSync)
    {
      NextTimed(r, Value(), Step.Synced(autoSync));
      if !autoSync {
        channel1 := channel1.(enabled := false);
      }
      vhtInt := vhtInt.(sync := false);
    }

    /** absoluteWait up to the loop in which the thread waits; `waits` says whether it does. */
    method AbsoluteWait(value: nat) returns (waits: bool)
      requires Valid() && !channel4.enabled && !vhtInt.trigger
      modifies this`vhtWakeupWait, this`channel2, this`vhtInt
      ensures Valid() && Value() == Arm(old(Value()), value, false)
      ensures waits == Waits(old(Value()), value)
    {
      hide Timed, Unsigned;
      ArmTimed(Value(), value, false);
      vhtWakeupWait := Unsigned(value - vhtBase + vhtSyncPointVht - vhtOffset);
      channel2 := channel2.(pending := false, ccr := vhtWakeupWait % TURN, enabled := true);
      waits := vhtWakeupWait > vhtOverflows + (if uif then TURN else 0) + CNT();
      if !waits {
        channel2 := channel2.(enabled := false);
      }
      vhtInt := vhtInt.(wait := false);
    }

    /** The last statements of absoluteWait, after the thread was woken up. */
    method EndWait()
      requires Valid()
      modifies this`channel2, this`vhtInt
      ensures Valid() && Value() == Disarm(old(Value()), false)
    {
      NextTimed(r, Value(), Step.Done(false));
      channel2 := channel2.(enabled := false);
      vhtInt := vhtInt.(wait := false);
    }

    /** absoluteWaitTimeoutOrEvent up to the loop in which the thread waits. */
    method AbsoluteWaitTimeoutOrEvent(value: nat) returns (waits: bool)
      requires Valid() && !channel4.enabled && !vhtInt.trigger
      modifies this`vhtWakeupWait, this`channel2, this`channel3, this`vhtInt
      ensures Valid() && Value() == Arm(old(Value()), value, true)
      ensures waits == (value == 0 || Waits(old(Value()), value))
    {
      hide Timed, Unsigned;
      ArmTimed(Value(), value, true);
      channel3 := channel3.(pending := false, enabled := true);
      if value != 0 {
        vhtWakeupWait := Unsigned(value - vhtBase + vhtSyncPointVht - vhtOffset);
        channel2 := channel2.(pending := false, ccr := vhtWakeupWait % TURN, enabled := true);
        waits := vhtWakeupWait > vhtOverflows + (if uif then TURN else 0) + CNT();
        if !waits {
          channel2, channel3 := channel2.(enabled := false), channel3.(enabled := false);
        }
        vhtInt := vhtInt.(wait := false, event := false);
      } else {
        vhtInt := vhtInt.(event := false);
        waits := true;
      }
    }

    /** Its last statements, after the thread was woken up, and what it returns.  Nobody else waits when it waits for an
        event alone. */
    method EndWaitTimeoutOrEvent(value: nat) returns (timeout: bool)
      requires Valid() && (value == 0 ==> !channel2.enabled && !vhtInt.wait)
      modifies this`channel2, this`channel3, this`vhtInt
      ensures Valid() && Value() == Disarm(old(Value()), true)
      ensures timeout == TimedOut(old(Value()), value)
    {
      NextTimed(r, Value(), Step.Done(true));
      channel3 := channel3.(enabled := false);
      if value == 0 {
        vhtInt := vhtInt.(event := false);
        return false;
      }
      channel2 := channel2.(enabled := false);
      if vhtInt.wait && vhtInt.event {
        timeout := !(timestampEvent <= value);
      } else {
        timeout := vhtInt.wait;
      }
      vhtInt := vhtInt.(wait := false, event := false);
    }

    /** absoluteWaitTrigger up to the loop in which the thread waits; `waits` says whether it does. */
    method AbsoluteWaitTrigger(value: nat) returns (waits: bool)
      requires Valid() && !channel4.enabled && !channel2.enabled && !vhtInt.wait
      modifies this`vhtWakeupWait, this`channel4, this`vhtInt
      ensures Valid() && Value() == Fire(old(Value()), value)
      ensures waits == !vhtInt.trigger
    {
      hide Timed, Signed, Unsigned;
      TimedIdle(Value());
      FireTimed(Value(), value);
      vhtWakeupWait := Unsigned(value - DELAY - vhtBase + vhtSyncPointVht - vhtOffset);
      channel4 := channel4.(pending := false, ccr := vhtWakeupWait % TURN, enabled := true, rose := None);
      vhtInt := vhtInt.(trigger := false);
      var diff := Signed(vhtWakeupWait - (vhtOverflows + (if uif then TURN else 0) + CNT()));
      if diff > 0 && diff <= 0xFFFF {
        channel4 := channel4.(onMatch := true);
      } else if diff <= 0 {
        channel4 := channel4.(enabled := false, onMatch := false);
        vhtInt := vhtInt.(trigger := true);
      }
      waits := !vhtInt.trigger;
    }

    /** The last statements of absoluteWaitTrigger, after the thread was woken up. */
    method EndWaitTrigger()
      requires Valid() && !channel4.enabled
      modifies this`channel4, this`vhtInt
      ensures Valid() && Value() == EndFire(old(Value()))
    {
      NextTimed(r, Value(), Step.Triggered);
      channel4 := channel4.(enabled := false);
      vhtInt := vhtInt.(trigger := false);
    }
  }
}
