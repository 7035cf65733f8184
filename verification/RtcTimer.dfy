/**
 The low frequency clock: a hardware counter that wraps, extended in software every time it is read.  The counter
 has 32 bits on one board and 24 on the other.
 */
module RtcTimer {
  import opened CArith

  datatype Extension = Extension(wraps: nat, last: nat)

  predicate Ok(wrap: nat, s: Extension) {
    wrap > 0 && s.last < wrap
  }

  function Read(s: Extension, counter: nat): Extension {
    Extension(if counter < s.last then s.wraps + 1 else s.wraps, counter)
  }

  /** The 64 bit time the software keeps. */
  function Time(wrap: nat, s: Extension): nat {
    s.wraps * wrap + s.last
  }

  class Rtc {
    const wrap: nat
    var rtcOverflows: nat
    var rtcLast: nat
    /** The register. */
    var counter: nat

    ghost function Value(): Extension
      reads this`rtcOverflows, this`rtcLast
    {
      Extension(rtcOverflows, rtcLast)
    }

    ghost predicate Valid()
      reads this
    {
      Ok(wrap, Value()) && counter < wrap
    }

    constructor (wrap: nat)
      requires wrap > 0
      ensures Valid() && Value() == Extension(0, 0) && counter == 0 && this.wrap == wrap
    {
      this.wrap := wrap;
      rtcOverflows, rtcLast, counter := 0, 0, 0;
    }

    /** getRTC64bit, and readRtc on the other board. */
    method Get64bit(rtcCounter: nat) returns (result: nat)
      requires Valid() && rtcCounter < wrap
      modifies this`rtcOverflows, this`rtcLast
      ensures Valid() && Value() == Read(old(Value()), rtcCounter) && result == Time(wrap, Value())
    {
      if rtcCounter < rtcLast {
        rtcOverflows := rtcOverflows + 1;
      }
      rtcLast := rtcCounter;
      result := rtcOverflows;
      result := result * wrap;
      result := result + rtcCounter;
    }

    /** setValue; the value last read is forgotten only on the board with 24 bits. */
    method SetValue(value: nat, forget: bool)
      requires Valid()
      modifies this
      ensures Valid() && Value() == Set(wrap, old(Value()), value, forget) && counter == value % wrap
    {
      rtcOverflows := value / wrap;
      counter := value % wrap;
      if forget {
        rtcLast := 0;
      }
    }
  }

  function Set(wrap: nat, s: Extension, value: nat, forget: bool): Extension
    requires wrap > 0
  {
    Extension(value / wrap, if forget then 0 else s.last)
  }

  // ---------------------------------------------------------------- when the extension is right

  lemma Split(t: nat, wrap: nat)
    requires wrap > 0
    ensures t == (t / wrap) * wrap + t % wrap && 0 <= t % wrap < wrap
  {
  }

  /** Reading `gap` ticks after a time that was right up to `behind` wraps misses every full wrap in the gap. */
  lemma ReadMisses(wrap: nat, s: Extension, behind: nat, gap: nat)
    requires Ok(wrap, s)
    ensures var t := Time(wrap, s) + behind * wrap + gap;
            && 0 <= t % wrap < wrap
            && Ok(wrap, Read(s, t % wrap))
            && Time(wrap, Read(s, t % wrap)) + (behind + gap / wrap) * wrap == t
  {
    var t := Time(wrap, s) + behind * wrap + gap;
    Split(gap, wrap);
    var g, c := gap / wrap, gap % wrap;
    var carry := if s.last + c < wrap then 0 else 1;
    var turn := s.wraps + behind + g + carry;
    assert t == turn * wrap + (s.last + c - carry * wrap) by {
      assert t == s.wraps * wrap + s.last + behind * wrap + g * wrap + c;
      assert turn * wrap == s.wraps * wrap + behind * wrap + g * wrap + carry * wrap;
    }
    Remainder(t, wrap, turn, s.last + c - carry * wrap);
    assert (behind + g) * wrap == behind * wrap + g * wrap;
    assert (s.wraps + 1) * wrap == s.wraps * wrap + wrap;
  }

  lemma Remainder(t: nat, wrap: nat, turn: nat, rest: nat)
    requires wrap > 0 && t == turn * wrap + rest && rest < wrap
    ensures t % wrap == rest
  {
    assert wrap * turn == turn * wrap;
    QuotientIs(t, wrap, turn);
    Split(t, wrap);
  }

  /** The software after the clock was read at all these times, in order. */
  function Reads(wrap: nat, s: Extension, times: seq<nat>): Extension
    requires wrap > 0
  {
    if times == [] then s else Read(Reads(wrap, s, times[..|times| - 1]), times[|times| - 1] % wrap)
  }

  /** Full wraps that no read fell into. */
  function Missed(wrap: nat, since: nat, times: seq<nat>): nat
    requires wrap > 0 && Ordered(since, times)
  {
    if times == [] then 0
    else
      Missed(wrap, since, times[..|times| - 1]) + (times[|times| - 1] - Latest(since, times[..|times| - 1])) / wrap
  }

  function Latest(since: nat, times: seq<nat>): nat {
    if times == [] then since else times[|times| - 1]
  }

  predicate Ordered(since: nat, times: seq<nat>) {
    times == [] || (Ordered(since, times[..|times| - 1]) && Latest(since, times[..|times| - 1]) <= times[|times| - 1])
  }

  /** Every reading is behind the true time by exactly the full wraps missed so far. */
  lemma {:induction false} ReadsBehind(wrap: nat, s: Extension, times: seq<nat>)
    requires Ok(wrap, s) && Ordered(Time(wrap, s), times)
    ensures var r := Reads(wrap, s, times);
            Ok(wrap, r) && Time(wrap, r) + Missed(wrap, Time(wrap, s), times) * wrap == Latest(Time(wrap, s), times)
  {
    if times != [] {
      var front, t, since := times[..|times| - 1], times[|times| - 1], Time(wrap, s);
      ReadsBehind(wrap, s, front);
      var r, behind := Reads(wrap, s, front), Missed(wrap, since, front);
      ReadMisses(wrap, r, behind, t - Latest(since, front));
    }
  }

  /** Every reading, on the way too, is the true time. */
  predicate AllExact(wrap: nat, s: Extension, times: seq<nat>)
    requires wrap > 0
  {
    times == [] || (AllExact(wrap, s, times[..|times| - 1]) && Time(wrap, Reads(wrap, s, times)) == times[|times| - 1])
  }

  /** No two reads, nor the start and the first one, are a wrap apart. */
  predicate NoneApart(wrap: nat, since: nat, times: seq<nat>) {
    times == []
      || (NoneApart(wrap, since, times[..|times| - 1])
          && times[|times| - 1] - Latest(since, times[..|times| - 1]) < wrap)
  }

  /** The extension is right at every read exactly when reads are always less than a wrap apart. */
  lemma {:induction false} ReadsExactIff(wrap: nat, s: Extension, times: seq<nat>)
    requires Ok(wrap, s) && Ordered(Time(wrap, s), times)
    ensures AllExact(wrap, s, times) <==> NoneApart(wrap, Time(wrap, s), times)
    ensures AllExact(wrap, s, times) ==> Time(wrap, Reads(wrap, s, times)) == Latest(Time(wrap, s), times)
  {
    if times != [] {
      ReadsExactIff(wrap, s, times[..|times| - 1]);
      if AllExact(wrap, s, times[..|times| - 1]) {
        ExactStep(wrap, s, times);
      }
    }
  }

  lemma ExactStep(wrap: nat, s: Extension, times: seq<nat>)
    requires Ok(wrap, s) && Ordered(Time(wrap, s), times) && times != []
    requires Time(wrap, Reads(wrap, s, times[..|times| - 1])) == Latest(Time(wrap, s), times[..|times| - 1])
    ensures Time(wrap, Reads(wrap, s, times)) == times[|times| - 1]
            <==> times[|times| - 1] - Latest(Time(wrap, s), times[..|times| - 1]) < wrap
  {
    var front, t := times[..|times| - 1], times[|times| - 1];
    var gap := t - Latest(Time(wrap, s), front);
    ReadsBehind(wrap, s, front);
    ReadMisses(wrap, Reads(wrap, s, front), 0, gap);
    if gap < wrap {
      QuotientIs(gap, wrap, 0);
    } else {
      Split(gap, wrap);
      Multiple(wrap, gap / wrap);
    }
  }

  /** The first reading `later` ticks after the clock was set is right exactly when the value last read does not make
      the software miss, or invent, a wrap. */
  lemma SetExactIff(wrap: nat, s: Extension, value: nat, forget: bool, later: nat)
    requires Ok(wrap, s) && later < wrap
    ensures var last := if forget then 0 else s.last;
            var low := value % wrap + later;
            Time(wrap, Read(Set(wrap, s, value, forget), (value + later) % wrap)) == value + later
            <==> if low < wrap then low >= last else low - wrap < last
  {
    var high, low := value / wrap, value % wrap + later;
    var set0 := Set(wrap, s, value, forget);
    Split(value, wrap);
    assert (high + 1) * wrap == high * wrap + wrap;
    if low < wrap {
      Remainder(value + later, wrap, high, low);
    } else {
      Remainder(value + later, wrap, high + 1, low - wrap);
    }
  }

  /** With a value last read above the one set, the clock jumps a wrap ahead. */
  lemma SetExample()
    ensures var s := Extension(0, 100);
            Time(0x1_0000_0000, Read(Set(0x1_0000_0000, s, 10, false), 10)) == 0x1_0000_000A
  {
  }
}
