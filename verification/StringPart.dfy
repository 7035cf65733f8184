/**
 Substrings of a path that borrow a character of it: the end of a part is marked by a NUL written into the string,
 and the character it replaced is put back when the part goes.
 */
module StringPart {
  import opened CArith
  import opened Wrappers

  const NUL := '\0'

  /** Where a C string ends. */
  function StrLen(s: seq<char>): (n: nat)
    ensures n <= |s| && (n < |s| ==> s[n] == NUL)
    ensures forall i :: 0 <= i < n ==> s[i] != NUL
  {
    if s == [] || s[0] == NUL then 0 else
      var n := StrLen(s[1..]);
      assert forall i :: 1 <= i < n + 1 ==> s[i] == s[1..][i - 1];
      n + 1
  }

  /** The C string that starts at `from`. */
  function CStr(buf: seq<char>, from: nat): seq<char>
    requires from <= |buf|
  {
    buf[from..from + StrLen(buf[from..])]
  }

  /** A part: where it starts and ends in the string, and the character its end replaced. */
  datatype Part = Part(index: nat, offset: nat, saved: char)

  /** The string as it is now, and the parts that live, oldest first. */
  datatype State = State(buf: seq<char>, live: seq<Part>)

  // ---------------------------------------------------------------- making and clearing parts

  /** A part that ends at i, which is in the string. */
  function End(s: State, i: nat, off: nat): State
    requires i < |s.buf|
  {
    State(s.buf[i := NUL], s.live + [Part(i, Min(off, i), s.buf[i])])
  }

  /** The part of the whole string up to idx. */
  function New(s: State, idx: Option<nat>, off: nat): State
    requires StrLen(s.buf) < |s.buf|
  {
    var len := StrLen(s.buf);
    if idx.None? || idx.value >= len then State(s.buf, s.live + [Part(len, Min(off, len), NUL)])
    else End(s, idx.value, off)
  }

  /** The part of the live part p up to idx, relative to where p starts. */
  function Sub(s: State, p: Part, idx: Option<nat>, off: nat): State
    requires p.offset <= p.index < |s.buf|
  {
    if idx.Some? && idx.value < p.index - p.offset then End(s, p.offset + idx.value, p.offset + off)
    else State(s.buf, s.live + [Part(p.index, Min(p.offset + off, p.index), NUL)])
  }

  /** The youngest part goes. */
  function Cleared(s: State): State
    requires s.live != [] && s.live[|s.live| - 1].index < |s.buf|
  {
    var p := s.live[|s.live| - 1];
    State(s.buf[p.index := p.saved], s.live[..|s.live| - 1])
  }

  // ---------------------------------------------------------------- what always holds

  /** A string without NUL characters, and its terminator. */
  predicate IsString(buf: seq<char>) {
    buf != [] && StrLen(buf) == |buf| - 1
  }

  /** Clearing all live parts, youngest first, gives back `original`. */
  predicate Restores(s: State, original: seq<char>)
    decreases |s.live|
  {
    if s.live == [] then s.buf == original
    else
      var p := s.live[|s.live| - 1];
      p.offset <= p.index < |s.buf| && s.buf[p.index] == NUL && Restores(Cleared(s), original)
  }

  predicate EndsAt(live: seq<Part>, i: nat) {
    exists k :: 0 <= k < |live| && live[k].index == i
  }

  /** The string is the original one, with NUL where live parts end. */
  lemma {:induction false} BufferIs(s: State, original: seq<char>)
    requires IsString(original) && Restores(s, original)
    ensures |s.buf| == |original|
    ensures forall i: nat :: i < |original| ==> s.buf[i] == if EndsAt(s.live, i) then NUL else original[i]
    ensures forall k :: 0 <= k < |s.live| ==> s.live[k].offset <= s.live[k].index < |original|
    decreases |s.live|
  {
    if s.live != [] {
      var n := |s.live| - 1;
      var c := Cleared(s);
      BufferIs(c, original);
      forall i: nat | i < |original| ensures s.buf[i] == if EndsAt(s.live, i) then NUL else original[i] {
        EndsAtLast(s.live, i);
      }
      assert forall k :: 0 <= k < n ==> c.live[k] == s.live[k];
    }
  }

  lemma EndsAtLast(live: seq<Part>, i: nat)
    requires live != []
    ensures EndsAt(live, i) <==> live[|live| - 1].index == i || EndsAt(live[..|live| - 1], i)
  {
    var n := |live| - 1;
    if k :| 0 <= k < |live| && live[k].index == i {
      assert k < n ==> live[..n][k].index == i;
    }
    if k :| 0 <= k < n && live[..n][k].index == i {
      assert live[k].index == i;
    }
  }

  lemma EndRestores(s: State, i: nat, off: nat, original: seq<char>)
    requires Restores(s, original) && i < |s.buf|
    ensures Restores(End(s, i, off), original) && Cleared(End(s, i, off)) == s
  {
    var e := End(s, i, off);
    assert e.live[..|e.live| - 1] == s.live;
    assert e.buf[i := s.buf[i]] == s.buf;
  }

  /** A part that ends where the string, or another part, already ends. */
  lemma SharedRestores(s: State, p: Part, original: seq<char>)
    requires Restores(s, original) && p.offset <= p.index < |s.buf| && s.buf[p.index] == NUL == p.saved
    ensures Restores(State(s.buf, s.live + [p]), original) && Cleared(State(s.buf, s.live + [p])) == s
  {
    var e := State(s.buf, s.live + [p]);
    assert e.live[..|e.live| - 1] == s.live;
    assert e.buf[p.index := NUL] == s.buf;
  }

  datatype Step = Make(idx: Option<nat>, off: nat) | MakeOf(k: nat, idx: Option<nat>, off: nat) | Drop

  /** Parts can be made of the string or of any live part, and the youngest can be cleared. */
  predicate Enabled(s: State, step: Step) {
    match step
    case Make(_, _) => StrLen(s.buf) < |s.buf|
    case MakeOf(k, _, _) => k < |s.live| && s.live[k].offset <= s.live[k].index < |s.buf|
    case Drop => s.live != [] && s.live[|s.live| - 1].index < |s.buf|
  }

  function Next(s: State, step: Step): State
    requires Enabled(s, step)
  {
    match step
    case Make(idx, off) => New(s, idx, off)
    case MakeOf(k, idx, off) => Sub(s, s.live[k], idx, off)
    case Drop => Cleared(s)
  }

  lemma NextRestores(s: State, step: Step, original: seq<char>)
    requires IsString(original) && Restores(s, original) && Enabled(s, step)
    ensures Restores(Next(s, step), original)
  {
    match step
    case Make(idx, off) => NewRestores(s, idx, off, original);
    case MakeOf(k, idx, off) => SubRestores(s, k, idx, off, original);
    case Drop =>
  }

  lemma NewRestores(s: State, idx: Option<nat>, off: nat, original: seq<char>)
    requires Restores(s, original) && StrLen(s.buf) < |s.buf|
    ensures Restores(New(s, idx, off), original)
  {
    hide Restores;
    var len := StrLen(s.buf);
    if idx.None? || idx.value >= len {
      SharedRestores(s, Part(len, Min(off, len), NUL), original);
    } else {
      EndRestores(s, idx.value, off, original);
    }
  }

  lemma SubRestores(s: State, k: nat, idx: Option<nat>, off: nat, original: seq<char>)
    requires IsString(original) && Restores(s, original)
    requires k < |s.live| && s.live[k].offset <= s.live[k].index < |s.buf|
    ensures Restores(Sub(s, s.live[k], idx, off), original)
  {
    hide Restores;
    BufferIs(s, original);
    var p := s.live[k];
    if idx.Some? && idx.value < p.index - p.offset {
      EndRestores(s, p.offset + idx.value, p.offset + off, original);
    } else {
      assert EndsAt(s.live, p.index);
      SharedRestores(s, Part(p.index, Min(p.offset + off, p.index), NUL), original);
    }
  }

  function Run(s: State, steps: seq<Step>): Option<State> {
    if steps == [] then Some(s)
    else
      match Run(s, steps[..|steps| - 1])
      case None => None
      case Some(r) => if Enabled(r, steps[|steps| - 1]) then Some(Next(r, steps[|steps| - 1])) else None
  }

  /** Whatever parts are made of a string and of each other, once all are gone, youngest first, the string is what it
      was, to the character; and no step is ever impossible because of what earlier ones wrote. */
  lemma {:induction false} StringRestored(original: seq<char>, steps: seq<Step>)
    requires IsString(original) && Run(State(original, []), steps).Some?
    ensures var s := Run(State(original, []), steps).value;
            && Restores(s, original) && (s.live == [] ==> s.buf == original)
            && StrLen(s.buf) < |s.buf| == |original|
            && forall k :: 0 <= k < |s.live| ==> s.live[k].offset <= s.live[k].index < |s.buf|
  {
    if steps != [] {
      StringRestored(original, steps[..|steps| - 1]);
      NextRestores(Run(State(original, []), steps[..|steps| - 1]).value, steps[|steps| - 1], original);
    }
    var s := Run(State(original, []), steps).value;
    BufferIs(s, original);
    assert s.buf[|original| - 1] == NUL;
  }

  // ---------------------------------------------------------------- what a part reads as

  /** No live part ends inside p. */
  predicate Undivided(s: State, p: Part) {
    forall k :: 0 <= k < |s.live| ==> !(p.offset <= s.live[k].index < p.index)
  }

  lemma StrLenIs(s: seq<char>, n: nat)
    requires n < |s| && s[n] == NUL && forall i :: 0 <= i < n ==> s[i] != NUL
    ensures StrLen(s) == n
  {
  }

  /** c_str of a live part is the substring asked for, of length index - offset, if and only if no live part ends
      inside it. */
  lemma TextIff(s: State, k: nat, original: seq<char>)
    requires IsString(original) && Restores(s, original) && k < |s.live| && |s.buf| == |original|
    requires s.live[k].offset <= s.live[k].index < |original|
    ensures CStr(s.buf, s.live[k].offset) == original[s.live[k].offset..s.live[k].index] <==> Undivided(s, s.live[k])
  {
    var p := s.live[k];
    if Undivided(s, p) {
      WholeText(s, k, original);
    } else {
      var j :| 0 <= j < |s.live| && p.offset <= s.live[j].index < p.index;
      BufferIs(s, original);
      assert EndsAt(s.live, s.live[j].index);
      CutText(s.buf, p.offset, s.live[j].index);
    }
  }

  lemma WholeText(s: State, k: nat, original: seq<char>)
    requires IsString(original) && Restores(s, original) && k < |s.live| && |s.buf| == |original|
    requires s.live[k].offset <= s.live[k].index < |original| && Undivided(s, s.live[k])
    ensures CStr(s.buf, s.live[k].offset) == original[s.live[k].offset..s.live[k].index]
  {
    hide Restores, Undivided, IsString, StrLen, EndsAt;
    UntouchedInside(s, k, original);
    var p := s.live[k];
    StrLenIs(s.buf[p.offset..], p.index - p.offset);
    assert s.buf[p.offset..p.index] == original[p.offset..p.index];
  }

  lemma UntouchedInside(s: State, k: nat, original: seq<char>)
    requires IsString(original) && Restores(s, original) && k < |s.live| && |s.buf| == |original|
    requires s.live[k].offset <= s.live[k].index < |original| && Undivided(s, s.live[k])
    ensures s.buf[s.live[k].index] == NUL
    ensures forall i: nat :: s.live[k].offset <= i < s.live[k].index ==> s.buf[i] == original[i] != NUL
  {
    hide Restores;
    BufferIs(s, original);
    var p := s.live[k];
    assert EndsAt(s.live, p.index);
    forall i: nat | p.offset <= i < p.index ensures s.buf[i] == original[i] {
      assert !EndsAt(s.live, i);
    }
  }

  lemma CutText(buf: seq<char>, from: nat, i: nat)
    requires from <= i < |buf| && buf[i] == NUL
    ensures |CStr(buf, from)| <= i - from
  {
    assert buf[from..][i - from] == NUL;
  }

  /** A part made of the string, or of a part that nothing ends inside, has nothing ending inside it. */
  lemma MadeUndivided(s: State, step: Step, original: seq<char>)
    requires IsString(original) && Restores(s, original) && Enabled(s, step) && step != Drop
    requires step.MakeOf? ==> Undivided(s, s.live[step.k])
    ensures var n := Next(s, step); n.live != [] && Undivided(n, n.live[|n.live| - 1])
  {
    hide Restores;
    BufferIs(s, original);
    match step
    case Make(idx, off) => NewUndivided(s, idx, off, original);
    case MakeOf(k, idx, off) =>
  }

  lemma NewUndivided(s: State, idx: Option<nat>, off: nat, original: seq<char>)
    requires IsString(original) && |s.buf| == |original| && StrLen(s.buf) < |s.buf|
    requires forall i: nat :: i < |original| ==> s.buf[i] == if EndsAt(s.live, i) then NUL else original[i]
    requires forall k :: 0 <= k < |s.live| ==> s.live[k].index < |original|
    ensures var n := New(s, idx, off); n.live != [] && Undivided(n, n.live[|n.live| - 1])
  {
    var n := New(s, idx, off);
    var p := n.live[|n.live| - 1];
    forall k | 0 <= k < |n.live| ensures !(p.offset <= n.live[k].index < p.index) {
      if k < |s.live| {
        assert n.live[k] == s.live[k];
        assert EndsAt(s.live, s.live[k].index);
      }
    }
  }

  /** The string a step makes a part of, as it reads. */
  function Source(s: State, step: Step): seq<char>
    requires Enabled(s, step) && step != Drop
  {
    CStr(s.buf, if step.Make? then 0 else s.live[step.k].offset)
  }

  /** A part reads as the substring asked for: of the text of what it is made of, from off up to idx, where an idx
      behind the end of that text stands for its end, and an off behind idx for idx. */
  lemma MadeReads(s: State, step: Step, original: seq<char>)
    requires IsString(original) && Restores(s, original) && Enabled(s, step) && step != Drop
    requires step.MakeOf? ==> Undivided(s, s.live[step.k])
    ensures var n, text := Next(s, step), Source(s, step);
            var end := if step.idx.Some? then Min(step.idx.value, |text|) else |text|;
            && n.live != [] && n.live[|n.live| - 1].offset <= |n.buf|
            && CStr(n.buf, n.live[|n.live| - 1].offset) == text[Min(step.off, end)..end]
  {
    hide CStr, StrLen, Undivided, Restores, IsString, EndsAt, Next;
    var n, text := Next(s, step), Source(s, step);
    var base := if step.Make? then 0 else s.live[step.k].offset;
    NextRestores(s, step, original);
    BufferIs(n, original);
    MadeUndivided(s, step, original);
    TextIff(n, |n.live| - 1, original);
    SourceIs(s, step, original);
    MadeOf(s, step, base, |text|);
    var end := if step.idx.Some? then Min(step.idx.value, |text|) else |text|;
    SliceOfSlice(original, base, |text|, Min(step.off, end), end);
  }

  lemma SliceOfSlice(s: seq<char>, base: nat, n: nat, i: nat, j: nat)
    requires base + n <= |s| && i <= j <= n
    ensures s[base..base + n][i..j] == s[base + i..base + j]
  {
    var a, b := s[base..base + n][i..j], s[base + i..base + j];
    assert forall k :: 0 <= k < j - i ==> a[k] == b[k];
  }

  lemma SourceIs(s: State, step: Step, original: seq<char>)
    requires IsString(original) && Restores(s, original) && Enabled(s, step) && step != Drop
    requires step.MakeOf? ==> Undivided(s, s.live[step.k])
    ensures var base, text := if step.Make? then 0 else s.live[step.k].offset, Source(s, step);
            && base + |text| <= |original| == |s.buf| && text == original[base..base + |text|]
            && |text| == if step.Make? then StrLen(s.buf) else s.live[step.k].index - base
  {
    hide StrLen, Undivided, Restores, IsString, EndsAt;
    BufferIs(s, original);
    if step.Make? {
      WholeRead(s, original);
    } else {
      TextIff(s, step.k, original);
    }
  }

  /** Where a part starts and ends. */
  lemma MadeOf(s: State, step: Step, base: nat, length: nat)
    requires Enabled(s, step) && step != Drop && base == if step.Make? then 0 else s.live[step.k].offset
    requires length == if step.Make? then StrLen(s.buf) else s.live[step.k].index - base
    ensures var n, end := Next(s, step), if step.idx.Some? then Min(step.idx.value, length) else length;
            && n.live != [] && n.live[|n.live| - 1].offset == base + Min(step.off, end)
            && n.live[|n.live| - 1].index == base + end
  {
    hide StrLen;
  }

  /** Up to where the first part ends the string is the original one. */
  lemma WholeRead(s: State, original: seq<char>)
    requires IsString(original) && Restores(s, original) && StrLen(s.buf) < |s.buf| == |original|
    ensures CStr(s.buf, 0) == original[..StrLen(s.buf)]
  {
    BufferIs(s, original);
    hide Restores;
    var n := StrLen(s.buf);
    assert s.buf[0..] == s.buf;
    forall i: nat | i < n ensures s.buf[i] == original[i] {
      assert s.buf[i] != NUL;
    }
    assert s.buf[..n] == original[..n];
  }

  /** A part of an older part can cut it short: with a part of all of "/ab" live, and "/" taken from it, it reads
      "/". */
  lemma DividedExample(start: State)
    requires start == State(['/', 'a', 'b', NUL], [])
    ensures IsString(start.buf)
    ensures var one := New(start, None, 0);
            one.live == [Part(3, 0, NUL)]
            && var two := Sub(one, one.live[0], Some(1), 0); two.live[0] == one.live[0] && CStr(two.buf, 0) == ['/']
  {
    StrLenIs(start.buf, 3);
    var one := New(start, None, 0);
    var two := Sub(one, one.live[0], Some(1), 0);
    assert two.buf == ['/', NUL, 'b', NUL];
    StrLenIs(two.buf, 1);
    assert two.buf[0..] == two.buf && two.buf[0..1] == ['/'];
  }

  // ---------------------------------------------------------------- the code

  method Strlen(s: array<char>) returns (len: nat)
    requires StrLen(s[..]) < s.Length
    ensures len == StrLen(s[..])
  {
    len := 0;
    while s[len] != NUL
      invariant len <= StrLen(s[..]) && forall i :: 0 <= i < len ==> s[i] != NUL
      decreases s.Length - len
    {
      len := len + 1;
    }
    StrLenIs(s[..], len);
  }

  class StringPart {
    const cstr: array<char>
    var index: nat
    var offset: nat
    var saved: char

    ghost function Value(): Part
      reads this
    {
      Part(index, offset, saved)
    }

    /** A part of a whole string; no idx is string::npos. */
    constructor OfString(s: array<char>, idx: Option<nat>, off: nat, ghost live: seq<Part>)
      requires StrLen(s[..]) < s.Length
      modifies s
      ensures cstr == s
      ensures State(s[..], live + [Value()]) == New(State(old(s[..]), live), idx, off)
    {
      var len := Strlen(s);
      cstr := s;
      var i, c := len, NUL;
      if idx.Some? && idx.value < len {
        i := idx.value;
        c := s[i];
      }
      index, saved := i, c;
      offset := Min(off, i);
      new;
      if idx.Some? && idx.value < len {
        s[i] := NUL;
      }
    }

    /** A part of a part; it shares the string. */
    constructor OfPart(rhs: StringPart, idx: Option<nat>, off: nat, ghost live: seq<Part>)
      requires rhs.offset <= rhs.index < rhs.cstr.Length
      modifies rhs.cstr
      ensures cstr == rhs.cstr
      ensures State(cstr[..], live + [Value()]) == Sub(State(old(rhs.cstr[..]), live), old(rhs.Value()), idx, off)
    {
      cstr := rhs.cstr;
      var i, c := rhs.index, NUL;
      if idx.Some? && idx.value < rhs.index - rhs.offset {
        i := rhs.offset + idx.value;
        c := rhs.cstr[i];
      }
      index, saved := i, c;
      offset := Min(rhs.offset + off, i);
      new;
      if i < rhs.index {
        cstr[i] := NUL;
      }
    }

    method Length() returns (n: nat)
      requires offset <= index
      ensures n == index - offset
    {
      n := index - offset;
    }

    /** The character borrowed is put back, and the part becomes an empty string. */
    method Clear(ghost live: seq<Part>)
      requires index < cstr.Length
      modifies this, cstr
      ensures State(cstr[..], live) == Cleared(State(old(cstr[..]), live + [old(Value())]))
      ensures index == offset == 0 && saved == NUL
    {
      cstr[index] := saved;
      index, offset, saved := 0, 0, NUL;
      assert (live + [old(Value())])[..|live|] == live;
    }
  }
}
