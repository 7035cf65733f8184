/**
 Where symbolic links lead: what a path that meets one resolves to, said of its components and of those of the link's
 target.
 */
module PathLinks {
  import opened PathSpec
  import opened Wrappers

  // ---------------------------------------------------------------- up to the first link

  /** What follows the first i components. */
  function After(s: string, i: nat): string
    decreases i
  {
    if i == 0 then s else After(Tail(s), i - 1)
  }

  lemma WalkStep(w: World, s: State, followLast: bool)
    requires "/" in w.mounts && s.links < MAX_LINK_TO_FOLLOW && s.rest != ""
    ensures var p := Step(w, s, followLast);
            Walk(w, s, followLast) == if p.Done? then p.outcome else Walk(w, p.next, followLast)
  {
    hide Step;
  }

  /** Where reading the components before the first link leads. */
  ghost predicate Reaches(w: World, s: State, followLast: bool, i: nat)
    requires "/" in w.mounts && s.links < MAX_LINK_TO_FOLLOW && i <= |Components(s.rest)|
  {
    var cs, rest := Components(s.rest), After(s.rest, i);
    var front := Normalize(s.stack, cs[..i]);
    && front.Some? && rest != "" && Components(rest) == cs[i..] && cs[i..] != [] && Slashed(rest) == Slashed(s.rest)
    && Linked(w, front.value, cs[i..], Slashed(rest), followLast, 0)
    && Walk(w, s, followLast) == Walk(w, State(front.value, rest, s.links), followLast)
  }

  /** Reading leads to the first link that is followed. */
  lemma {:induction false} ReadTo(w: World, s: State, followLast: bool, i: nat)
    requires "/" in w.mounts && s.links < MAX_LINK_TO_FOLLOW
    requires MeetsAt(w, s.stack, Components(s.rest), Slashed(s.rest), followLast, i)
    ensures i < |Components(s.rest)| && Reaches(w, s, followLast, i)
    decreases i
  {
    hide IsFile, IsLink, IsComponent, Step, Slashed, Blocked, Linked, MeetsAt, FirstSlash, Walk, Components, Reaches;
    var cs := Components(s.rest);
    MeetsNotEmpty(w, s.stack, cs, Slashed(s.rest), followLast, i);
    NotEmpty(s.rest);
    ComponentsStep(s.rest);
    MeetsAtCons(w, s.stack, cs, Slashed(s.rest), followLast, i);
    if i == 0 {
      ReachesNow(w, s, followLast);
    } else {
      LinkedFirst(w, s.stack, cs, Slashed(s.rest), followLast);
      BlockedFirst(w, s.stack, cs, Slashed(s.rest));
      ReadStep(w, s, followLast);
      NotEmpty(Tail(s.rest));
      var next := State(Push(s.stack, cs[0]).value, Tail(s.rest), s.links);
      ReadTo(w, next, followLast, i - 1);
      WalkStep(w, s, followLast);
      ReachesLater(w, s, next, followLast, i);
    }
  }

  lemma NotEmpty(s: string)
    ensures Components(s) != [] <==> s != ""
  {
  }

  lemma ReachesNow(w: World, s: State, followLast: bool)
    requires "/" in w.mounts && s.links < MAX_LINK_TO_FOLLOW && s.rest != "" && Components(s.rest) != []
    requires Linked(w, s.stack, Components(s.rest), Slashed(s.rest), followLast, 0)
    ensures Reaches(w, s, followLast, 0)
  {
    hide Linked, Walk, Slashed, Components;
    var cs := Components(s.rest);
    assert cs[..0] == [] && cs[0..] == cs;
  }

  lemma ReachesLater(w: World, s: State, next: State, followLast: bool, i: nat)
    requires "/" in w.mounts && s.links < MAX_LINK_TO_FOLLOW && 0 < i < |Components(s.rest)|
    requires Components(next.rest) == Components(s.rest)[1..] && next.rest == Tail(s.rest) && next.links == s.links
    requires Push(s.stack, Components(s.rest)[0]) == Some(next.stack) && Slashed(next.rest) == Slashed(s.rest)
    requires Reaches(w, next, followLast, i - 1) && Walk(w, s, followLast) == Walk(w, next, followLast)
    ensures Reaches(w, s, followLast, i)
  {
    hide Linked, Walk, Slashed, Components, Push;
    var cs := Components(s.rest);
    NormalizePush(s.stack, cs[..i]);
    assert cs[..i][1..] == cs[1..][..i - 1] && cs[i..] == cs[1..][i - 1..];
  }

  lemma MeetsNotEmpty(w: World, stack: seq<string>, cs: seq<string>, slashed: bool, followLast: bool, i: nat)
    requires "/" in w.mounts && MeetsAt(w, stack, cs, slashed, followLast, i)
    ensures i < |cs| && (i > 0 ==> |cs| > 1)
  {
  }

  // ---------------------------------------------------------------- the link

  /** What readlink says of the name c in the directory `front`. */
  function Target(w: World, front: seq<string>, c: string): Option<string>
    requires "/" in w.mounts
  {
    var d := MountDepth(w.mounts, front);
    w.readlink(FsAt(w, front, d), Relative(front + [c], d))
  }

  /** readlink is asked where lstat was. */
  lemma TargetAskedAt(w: World, front: seq<string>, c: string, d: nat, fs: Fs, relative: string)
    requires "/" in w.mounts && d <= |front| && forall i :: d < i <= |front| ==> Join(front[..i]) !in w.mounts
    requires if d == 0 then fs == w.mounts["/"] else Join(front[..d]) in w.mounts && fs == w.mounts[Join(front[..d])]
    requires Join(front + [c]) == Join(front[..d]) + "/" + relative
    ensures Target(w, front, c) == w.readlink(fs, relative)
  {
    hide Join, MountDepth, Relative;
    var stack := front + [c];
    assert stack[..|stack| - 1] == front && forall i :: 0 <= i <= |front| ==> front[..i] == stack[..i];
    LookedUpAt(w, stack, d, fs, relative);
  }

  /** The length of the path in which a link to t in the directory `front` was replaced; `left` is how much of the path
      follows the link. */
  function SplicedLength(front: seq<string>, t: string, left: int): int {
    (if t != "" && t[0] == '/' then 0 else |Prefix(front)|) + |t| + left
  }

  /** A link that is followed, and what is done with its target. */
  lemma StepFollows(w: World, s: State, followLast: bool)
    requires "/" in w.mounts && s.links < MAX_LINK_TO_FOLLOW && s.rest != ""
    requires Linked(w, s.stack, Components(s.rest), Slashed(s.rest), followLast, 0)
    ensures Step(w, s, followLast) == Follow(w, s, Target(w, s.stack, s.rest[..FirstSlash(s.rest)]))
  {
    hide Components, Linked, MountDepth, Relative, Join, Slashed, Follow, FirstSlash;
    var c := s.rest[..FirstSlash(s.rest)];
    ComponentsStep(s.rest);
    LinkedFirst(w, s.stack, Components(s.rest), Slashed(s.rest), followLast);
    assert (s.stack + [c])[..|s.stack + [c]| - 1] == s.stack;
    assert (s.stack + [c])[..MountDepth(w.mounts, s.stack)] == s.stack[..MountDepth(w.mounts, s.stack)];
  }

  lemma SplicedIs(t: string, rest: string)
    requires rest != ""
    ensures |Spliced(t, rest)| == |t| + |rest| - FirstSlash(rest)
  {
  }

  lemma Followed(w: World, s: State, followLast: bool)
    requires "/" in w.mounts && s.links < MAX_LINK_TO_FOLLOW && s.rest != ""
    requires Linked(w, s.stack, Components(s.rest), Slashed(s.rest), followLast, 0)
    ensures var c := s.rest[..FirstSlash(s.rest)];
            var target := Target(w, s.stack, c);
            Walk(w, s, followLast) ==
            if s.links + 1 >= MAX_LINK_TO_FOLLOW then Err(ELOOP)
            else if target == None then Walk(w, State(s.stack + [c], Tail(s.rest), s.links + 1), followLast)
            else if target.value == "" then Err(ENOENT)
            else if SplicedLength(s.stack, target.value, |s.rest| - |c|) > w.pathMax then Err(ENAMETOOLONG)
            else if target.value[0] == '/' then
              Walk(w, State([], Spliced(target.value, s.rest)[1..], s.links + 1), followLast)
            else Walk(w, State(s.stack, Spliced(target.value, s.rest), s.links + 1), followLast)
  {
    hide Components, Linked, Target, Step, Walk, FirstSlash, Spliced, Slashed, Prefix;
    StepFollows(w, s, followLast);
    WalkStep(w, s, followLast);
    var target := Target(w, s.stack, s.rest[..FirstSlash(s.rest)]);
    if target.Some? {
      SplicedIs(target.value, s.rest);
    }
  }

  // ---------------------------------------------------------------- empty components change nothing

  lemma LeadingEmpty(w: World, stack: seq<string>, b: seq<string>, slashed: bool, followLast: bool)
    requires "/" in w.mounts
    ensures Normalize(stack, [""] + b) == Normalize(stack, b)
    ensures AnyBlocked(w, stack, [""] + b, slashed) <==> AnyBlocked(w, stack, b, slashed)
    ensures Meets(w, stack, [""] + b, slashed, followLast) <==> Meets(w, stack, b, slashed, followLast)
  {
    hide AnyBlocked, Meets, Blocked, Linked, IsFile, IsLink;
    var cs := [""] + b;
    assert cs[1..] == b;
    NormalizePush(stack, cs);
    BlockedCons(w, stack, cs, slashed);
    BlockedFirst(w, stack, cs, slashed);
    MeetsCons(w, stack, cs, slashed, followLast);
    LinkedFirst(w, stack, cs, slashed, followLast);
  }

  lemma {:induction false} InnerEmpty(w: World, stack: seq<string>, a: seq<string>, b: seq<string>, slashed: bool,
                                      followLast: bool)
    requires "/" in w.mounts && (b != [] || slashed)
    ensures Normalize(stack, a + [""] + b) == Normalize(stack, a + b)
    ensures AnyBlocked(w, stack, a + [""] + b, slashed) <==> AnyBlocked(w, stack, a + b, slashed)
    ensures Meets(w, stack, a + [""] + b, slashed, followLast) <==> Meets(w, stack, a + b, slashed, followLast)
    decreases |a|
  {
    hide AnyBlocked, Meets, Blocked, Linked, IsFile, IsLink, IsComponent, Normalize;
    if a == [] {
      LeadingEmpty(w, stack, b, slashed, followLast);
      assert a + [""] + b == [""] + b && a + b == b;
    } else {
      var cs, ds := a + [""] + b, a + b;
      assert cs[1..] == a[1..] + [""] + b && ds[1..] == a[1..] + b;
      NormalizePush(stack, cs);
      NormalizePush(stack, ds);
      BlockedCons(w, stack, cs, slashed);
      BlockedFirst(w, stack, cs, slashed);
      BlockedCons(w, stack, ds, slashed);
      BlockedFirst(w, stack, ds, slashed);
      MeetsCons(w, stack, cs, slashed, followLast);
      LinkedFirst(w, stack, cs, slashed, followLast);
      MeetsCons(w, stack, ds, slashed, followLast);
      LinkedFirst(w, stack, ds, slashed, followLast);
      if Push(stack, a[0]).Some? {
        InnerEmpty(w, Push(stack, a[0]).value, a[1..], b, slashed, followLast);
      }
    }
  }

  /** The components of a target with the rest of the path behind it. */
  lemma {:induction false} TargetComponents(t: string, u: string)
    requires t != ""
    ensures Components(t + "/" + u) ==
            if Slashed(t) then Components(t) + [""] + Components(u) else Components(t) + Components(u)
    decreases |t|
  {
    hide FirstSlash, Slashed, Components, Tail, IsLast;
    var s, c, rest := t + "/" + u, t[..FirstSlash(t)], Tail(t);
    Behind(t, u);
    ComponentsStep(s);
    ComponentsStep(t);
    SlashedTail(t);
    if IsLast(t) {
      NotEmpty("");
    } else if rest == "" {
      NotEmpty("");
      assert "" + "/" + u == "/" + u;
      SlashComponents(u);
      Regrouped(c, [], [""], Components(u));
    } else {
      TargetComponents(rest, u);
      Regrouped(c, Components(rest), [""], Components(u));
    }
  }

  lemma Regrouped(c: string, a: seq<string>, m: seq<string>, b: seq<string>)
    ensures [c] + (a + b) == [c] + a + b && [c] + (a + m + b) == [c] + a + m + b
    ensures [c] + (m + b) == [c] + m + b
  {
  }

  lemma Behind(t: string, u: string)
    requires t != ""
    ensures var s := t + "/" + u;
            && FirstSlash(s) == FirstSlash(t) && s[..FirstSlash(s)] == t[..FirstSlash(t)]
            && Tail(s) == if IsLast(t) then u else Tail(t) + "/" + u
  {
    FirstSlashOf(t, "/" + u);
    var s := t + "/" + u;
    assert s == t + ("/" + u);
    hide FirstSlash;
  }

  lemma SlashComponents(u: string)
    ensures Components("/" + u) == [""] + Components(u)
  {
    var s := "/" + u;
    ComponentsStep(s);
    assert FirstSlash(s) == 0 && Tail(s) == u && s[..0] == "";
  }

  lemma {:induction false} FirstSlashOf(t: string, u: string)
    requires u != "" && u[0] == '/'
    ensures FirstSlash(t + u) == FirstSlash(t)
    decreases |t|
  {
    if t == "" {
      assert t + u == u;
    } else {
      FirstSlashOf(t[1..], u);
      assert (t + u)[1..] == t[1..] + u;
    }
  }

  // ---------------------------------------------------------------- paths with a link

  /** What is left of a path when a link was followed: a second link ends it with ELOOP, and without one it is
      normalized. */
  ghost predicate Resolves(w: World, r: Outcome, stack: seq<string>, cs: seq<string>, slashed: bool, followLast: bool)
    requires "/" in w.mounts
  {
    if Meets(w, stack, cs, slashed, followLast) then r == Err(ELOOP) else Normalized(w, r, stack, cs, slashed)
  }

  lemma LastWalk(w: World, s: State, followLast: bool)
    requires "/" in w.mounts && s.links + 1 == MAX_LINK_TO_FOLLOW
    ensures Resolves(w, Walk(w, s, followLast), s.stack, Components(s.rest), Slashed(s.rest), followLast)
  {
    hide Walk, Components, Normalized, MeetsAt, Slashed, Linked, FirstSlash, Target;
    var cs := Components(s.rest);
    if Meets(w, s.stack, cs, Slashed(s.rest), followLast) {
      var i: nat :| MeetsAt(w, s.stack, cs, Slashed(s.rest), followLast, i);
      ReadTo(w, s, followLast, i);
      Followed(w, State(Normalize(s.stack, cs[..i]).value, After(s.rest, i), s.links), followLast);
    } else {
      ReadWalk(w, s, followLast);
    }
  }

  /** Whether the path in which a link to t was replaced has a slash at its end. */
  predicate StillSlashed(path: string, cs: seq<string>, i: nat, t: string) {
    if i + 1 < |cs| || Slashed(path) then Slashed(path) else Slashed(t)
  }

  lemma ResolvesEmpty(w: World, r: Outcome, stack: seq<string>, slashed: bool, slashed2: bool, followLast: bool)
    requires "/" in w.mounts && Resolves(w, r, stack, [], slashed, followLast)
    ensures Resolves(w, r, stack, [], slashed2, followLast)
  {
    NothingMet(w, stack, slashed, followLast);
    NothingMet(w, stack, slashed2, followLast);
    NothingBlocked(w, stack, slashed);
    NothingBlocked(w, stack, slashed2);
    hide Meets, AnyBlocked;
  }

  lemma ResolvesLeading(w: World, r: Outcome, stack: seq<string>, b: seq<string>, slashed: bool, followLast: bool)
    requires "/" in w.mounts
    ensures Resolves(w, r, stack, [""] + b, slashed, followLast) <==> Resolves(w, r, stack, b, slashed, followLast)
  {
    hide Meets, AnyBlocked, Normalize;
    LeadingEmpty(w, stack, b, slashed, followLast);
  }

  lemma ResolvesInner(w: World, r: Outcome, stack: seq<string>, a: seq<string>, b: seq<string>, slashed: bool,
                      followLast: bool)
    requires "/" in w.mounts && (b != [] || slashed)
    ensures Resolves(w, r, stack, a + [""] + b, slashed, followLast)
            <==> Resolves(w, r, stack, a + b, slashed, followLast)
  {
    hide Meets, AnyBlocked, Normalize;
    InnerEmpty(w, stack, a, b, slashed, followLast);
  }

  /** An absolute path is read from behind its first slash. */
  lemma ResolvesAbsolute(w: World, r: Outcome, text: string, followLast: bool)
    requires "/" in w.mounts && text != "" && text[0] == '/'
    requires Resolves(w, r, [], Components(text[1..]), Slashed(text[1..]), followLast)
    ensures Resolves(w, r, [], Components(text), Slashed(text), followLast)
  {
    hide Resolves, Components;
    assert text == "/" + text[1..];
    SlashComponents(text[1..]);
    if text[1..] == "" {
      NotEmpty("");
      ResolvesEmpty(w, r, [], Slashed(text[1..]), Slashed(text), followLast);
    }
    ResolvesLeading(w, r, [], Components(text[1..]), Slashed(text), followLast);
  }

  /** The text spliced has the components of the target, then those behind the link. */
  lemma ResolvesSpliced(w: World, r: Outcome, stack: seq<string>, t: string, rest: string, followLast: bool)
    requires "/" in w.mounts && t != "" && rest != ""
    requires Resolves(w, r, stack, Components(Spliced(t, rest)), Slashed(Spliced(t, rest)), followLast)
    ensures Resolves(w, r, stack, Components(t) + Components(Tail(rest)),
                     if IsLast(rest) then Slashed(t) else Slashed(rest), followLast)
  {
    hide Resolves, Components, FirstSlash;
    ComponentsStep(rest);
    SlashedTail(rest);
    NotEmpty(Tail(rest));
    if IsLast(rest) {
      assert Components(t) + [] == Components(t);
    } else {
      TargetComponents(t, Tail(rest));
      if Slashed(t) {
        ResolvesInner(w, r, stack, Components(t), Components(Tail(rest)), Slashed(rest), followLast);
      }
    }
  }

  /** The first link of a path: a relative target is read from the directory the link is in, an absolute one from the
      root, and then what follows the link.  A link that cannot be read is taken for a directory. */
  lemma LinkWalk(w: World, path: string, followLast: bool, i: nat)
    requires "/" in w.mounts && MeetsAt(w, [], Components(path), Slashed(path), followLast, i)
    ensures var cs, r := Components(path), Walk(w, State([], path, 0), followLast);
            i < |cs| && Normalize([], cs[..i]).Some? &&
            var front := Normalize([], cs[..i]).value;
            var target := Target(w, front, cs[i]);
            if target == None then Resolves(w, r, front + [cs[i]], cs[i + 1..], Slashed(path), followLast)
            else if target.value == "" then r == Err(ENOENT)
            else if SplicedLength(front, target.value, |After(path, i)| - |cs[i]|) > w.pathMax
              then r == Err(ENAMETOOLONG)
            else Resolves(w, r, if target.value[0] == '/' then [] else front, Components(target.value) + cs[i + 1..],
                          StillSlashed(path, cs, i, target.value), followLast)
  {
    hide Walk, Components, MeetsAt, Slashed, Linked, FirstSlash, Target, Resolves, SplicedLength, Spliced, Normalize;
    var s, cs := State([], path, 0), Components(path);
    ReadTo(w, s, followLast, i);
    var front, rest := Normalize([], cs[..i]).value, After(path, i);
    assert cs[i..][0] == cs[i] && cs[i..][1..] == cs[i + 1..];
    ComponentsStep(rest);
    SlashedTail(rest);
    NotEmpty(Tail(rest));
    Followed(w, State(front, rest, 0), followLast);
    var r, target := Walk(w, s, followLast), Target(w, front, cs[i]);
    if target == None {
      LastWalk(w, State(front + [cs[i]], Tail(rest), 1), followLast);
      if Tail(rest) == "" {
        ResolvesEmpty(w, r, front + [cs[i]], Slashed(Tail(rest)), Slashed(path), followLast);
      }
    } else if target.value != "" && SplicedLength(front, target.value, |rest| - |cs[i]|) <= w.pathMax {
      var t := target.value;
      SplicedStart(t, rest);
      if t[0] == '/' {
        LastWalk(w, State([], Spliced(t, rest)[1..], 1), followLast);
        ResolvesAbsolute(w, r, Spliced(t, rest), followLast);
        ResolvesSpliced(w, r, [], t, rest, followLast);
      } else {
        LastWalk(w, State(front, Spliced(t, rest), 1), followLast);
        ResolvesSpliced(w, r, front, t, rest, followLast);
      }
    }
  }

  lemma SplicedStart(t: string, rest: string)
    requires t != ""
    ensures Spliced(t, rest) != "" && Spliced(t, rest)[0] == t[0]
  {
  }
}
