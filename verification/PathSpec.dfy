/**
 What resolving a path means: the path is read one component at a time, a stack of components is
 kept, and mount points and symbolic links are looked up by the path of the stack.
 */
module PathSpec {
  import opened Wrappers

  datatype Error = ENOENT | ENOTDIR | ELOOP | ENAMETOOLONG

  /** What lstat says of a path of a filesystem; NoEntry when it fails. */
  datatype Kind = NoEntry | Directory | Link | Other

  type Fs = nat

  /** The mounted filesystems by mount point, and what each of them answers. */
  datatype World = World(
    mounts: map<string, Fs>,
    symlinks: Fs -> bool,
    lstat: (Fs, string) -> Kind,
    readlink: (Fs, string) -> Option<string>,
    pathMax: nat)

  /** At most this many links minus one are followed. */
  const MAX_LINK_TO_FOLLOW: nat := 2

  /** A resolved path: its components, how many of them lead to the filesystem it is on, and, where the
      path was ended by "..", the components before that. */
  datatype Outcome = Ok(stack: seq<string>, depth: nat, left: Option<seq<string>>) | Err(error: Error)

  // ---------------------------------------------------------------- paths and components

  predicate IsComponent(c: string) {
    c != "" && c != "." && c != ".." && '/' !in c
  }

  ghost predicate Clean(stack: seq<string>) {
    forall i :: 0 <= i < |stack| ==> IsComponent(stack[i])
  }

  /** "/a/b" for ["a", "b"], and "" for the root. */
  function Join(stack: seq<string>): (r: string)
    ensures |stack| <= |r|
    ensures r == "" <==> stack == []
  {
    if stack == [] then "" else Join(stack[..|stack| - 1]) + "/" + stack[|stack| - 1]
  }

  /** The canonical path with a slash at its end. */
  function Prefix(stack: seq<string>): string {
    Join(stack) + "/"
  }

  /** Position of the first slash, or the length. */
  function FirstSlash(s: string): (i: nat)
    ensures i <= |s| && '/' !in s[..i] && (i < |s| ==> s[i] == '/')
  {
    if s == "" || s[0] == '/' then 0 else
      var i := FirstSlash(s[1..]);
      assert s[..i + 1] == [s[0]] + s[1..][..i];
      i + 1
  }

  /** What follows the first component and its slash. */
  function Tail(s: string): (t: string)
    ensures s != "" ==> |t| < |s|
  {
    var i := FirstSlash(s);
    if i < |s| then s[i + 1..] else ""
  }

  predicate IsLast(s: string) {
    FirstSlash(s) == |s|
  }

  // ---------------------------------------------------------------- mounts

  /** How many components of the stack lead to the deepest mount point on it; 0 for the root. */
  function MountDepth(mounts: map<string, Fs>, stack: seq<string>): (d: nat)
    ensures d <= |stack|
    ensures d > 0 ==> Join(stack[..d]) in mounts
    ensures forall i :: d < i <= |stack| ==> Join(stack[..i]) !in mounts
  {
    if stack == [] then 0
    else if Join(stack) in mounts then assert stack[..|stack|] == stack; |stack|
    else
      var front := stack[..|stack| - 1];
      var d := MountDepth(mounts, front);
      assert forall i :: 0 <= i < |stack| ==> stack[..i] == front[..i];
      assert stack[..|stack|] == stack;
      d
  }

  /** The filesystem mounted at the first d components. */
  function FsAt(w: World, stack: seq<string>, d: nat): Fs
    requires "/" in w.mounts && d <= |stack| && (d > 0 ==> Join(stack[..d]) in w.mounts)
  {
    if d == 0 then w.mounts["/"] else w.mounts[Join(stack[..d])]
  }

  /** The path of the stack relative to the filesystem at its first d components. */
  function Relative(stack: seq<string>, d: nat): string
    requires d < |stack|
  {
    JoinLength(stack, d);
    Join(stack)[|Join(stack[..d])| + 1..]
  }

  lemma {:induction false} JoinLength(stack: seq<string>, d: nat)
    requires d <= |stack|
    ensures |Join(stack[..d])| <= |Join(stack)| && Join(stack)[..|Join(stack[..d])|] == Join(stack[..d])
    ensures d < |stack| ==> |Join(stack[..d])| < |Join(stack)| && Join(stack)[|Join(stack[..d])|] == '/'
  {
    if d < |stack| {
      var front := stack[..|stack| - 1];
      JoinLength(front, d);
      assert front[..d] == stack[..d];
    } else {
      assert stack[..d] == stack;
    }
  }

  // ---------------------------------------------------------------- resolution

  /** What a path continues with where a symbolic link was followed. */
  function Spliced(target: string, rest: string): string {
    if IsLast(rest) then target else target + "/" + Tail(rest)
  }

  /** Where a resolution stands: `stack` has been read, `rest` has not, `links` links were followed. */
  datatype State = State(stack: seq<string>, rest: string, links: nat)

  datatype Progress = Go(next: State) | Done(outcome: Outcome)

  /** One component is read.  A component that is the last one ends the path: if it is "..", the filesystem
      is looked up without the landing path itself. */
  function Step(w: World, s: State, followLast: bool): (r: Progress)
    requires "/" in w.mounts && s.links < MAX_LINK_TO_FOLLOW && s.rest != ""
    ensures r.Go? ==> s.links <= r.next.links < MAX_LINK_TO_FOLLOW
    ensures r.Go? ==> r.next.links > s.links || |r.next.rest| < |s.rest|
  {
    var c := s.rest[..FirstSlash(s.rest)];
    if c == "" || c == "." then Go(s.(rest := Tail(s.rest)))
    else if c == ".." then
      if s.stack == [] then Done(Err(ENOENT))
      else if IsLast(s.rest) then Done(Ok(s.stack[..|s.stack| - 1], DepthAfterUp(w.mounts, s.stack), Some(s.stack)))
      else Go(State(s.stack[..|s.stack| - 1], Tail(s.rest), s.links))
    else
      var pushed := s.stack + [c];
      var past := State(pushed, Tail(s.rest), s.links);
      var d := MountDepth(w.mounts, s.stack);
      assert pushed[..d] == s.stack[..d];
      var fs := FsAt(w, pushed, d);
      if Join(pushed) in w.mounts || !w.symlinks(fs) || (IsLast(s.rest) && !followLast) then Go(past)
      else
        var kind := w.lstat(fs, Relative(pushed, d));
        if kind == Link then Follow(w, s, w.readlink(fs, Relative(pushed, d)))
        else if kind == Other && !IsLast(s.rest) then Done(Err(ENOTDIR))
        else Go(past)
  }

  /** The first component of s.rest is a symbolic link, and readlink gave `target`. */
  function Follow(w: World, s: State, target: Option<string>): (r: Progress)
    requires s.links < MAX_LINK_TO_FOLLOW && s.rest != ""
    ensures r.Go? ==> s.links < r.next.links < MAX_LINK_TO_FOLLOW
  {
    if s.links + 1 >= MAX_LINK_TO_FOLLOW then Done(Err(ELOOP))
    else if target.None? then Go(State(s.stack + [s.rest[..FirstSlash(s.rest)]], Tail(s.rest), s.links + 1))
    else if target.value == "" then Done(Err(ENOENT))
    else
      var path := Spliced(target.value, s.rest);
      if target.value[0] == '/' then
        if |path| > w.pathMax then Done(Err(ENAMETOOLONG)) else Go(State([], path[1..], s.links + 1))
      else
        if |Prefix(s.stack)| + |path| > w.pathMax then Done(Err(ENAMETOOLONG))
        else Go(State(s.stack, path, s.links + 1))
  }

  /** The whole resolution.  It ends because every step reads a component or follows one more link. */
  function Walk(w: World, s: State, followLast: bool): Outcome
    requires "/" in w.mounts && s.links < MAX_LINK_TO_FOLLOW
    decreases MAX_LINK_TO_FOLLOW - s.links, |s.rest|
  {
    if s.rest == "" then Ok(s.stack, MountDepth(w.mounts, s.stack), None)
    else
      match Step(w, s, followLast)
      case Done(r) => r
      case Go(next) => Walk(w, next, followLast)
  }

  /** The mount depth the code reports when the last component is "..": where the filesystem left is the
      one mounted at the stack itself, the search starts one component below the landing path. */
  function DepthAfterUp(mounts: map<string, Fs>, stack: seq<string>): (d: nat)
    requires stack != []
    ensures d <= |stack| - 1
  {
    var d := MountDepth(mounts, stack);
    if d < |stack| then d
    else MountDepth(mounts, stack[..if |stack| >= 2 then |stack| - 2 else 0])
  }

  /** Offset of the relative path in the resolved path. */
  function Offset(stack: seq<string>, d: nat): nat
    requires d <= |stack|
  {
    if d == |stack| then |Join(stack)| else |Join(stack[..d])| + 1
  }

  /** What follows the offset is the path relative to the filesystem: nothing for its mount point, and otherwise what
      comes behind the mount point and a slash. */
  lemma OffsetIs(stack: seq<string>, d: nat, relative: string)
    requires d <= |stack| && Join(stack) == Join(stack[..d]) + (if d < |stack| then "/" else "") + relative
    ensures Offset(stack, d) <= |Join(stack)| && Join(stack)[Offset(stack, d)..] == relative
  {
    assert stack[..|stack|] == stack;
  }

  // ---------------------------------------------------------------- what a result looks like

  /** Whatever the filesystems answer, a resolved path has no empty, "." or ".." component and no slash inside one. */
  lemma {:induction false} WalkClean(w: World, s: State, followLast: bool)
    requires "/" in w.mounts && s.links < MAX_LINK_TO_FOLLOW && Clean(s.stack)
    ensures var r := Walk(w, s, followLast); r.Ok? ==> Clean(r.stack) && r.depth <= |r.stack|
    decreases MAX_LINK_TO_FOLLOW - s.links, |s.rest|
  {
    if s.rest != "" {
      StepClean(w, s, followLast);
      var r := Step(w, s, followLast);
      if r.Go? {
        WalkClean(w, r.next, followLast);
      }
    }
  }

  lemma StepClean(w: World, s: State, followLast: bool)
    requires "/" in w.mounts && s.links < MAX_LINK_TO_FOLLOW && Clean(s.stack) && s.rest != ""
    ensures match Step(w, s, followLast)
            case Go(n) => Clean(n.stack)
            case Done(Ok(stack, d, _)) => Clean(stack) && d <= |stack|
            case Done(Err(_)) => true
  {
    hide MountDepth, FsAt, Relative, Join;
  }

  /** The filesystem reported is the deepest one mounted on the resolved path, unless the path was ended by
      ".." at a mount point that lies directly in another one. */
  lemma {:induction false} WalkDepthIff(w: World, s: State, followLast: bool)
    requires "/" in w.mounts && s.links < MAX_LINK_TO_FOLLOW
    ensures var r := Walk(w, s, followLast);
            r.Ok? ==> (r.depth == MountDepth(w.mounts, r.stack) <==> !LeftNestedMount(w.mounts, r))
    decreases MAX_LINK_TO_FOLLOW - s.links, |s.rest|
  {
    if s.rest != "" {
      var r := Step(w, s, followLast);
      if r.Go? {
        WalkDepthIff(w, r.next, followLast);
      } else if r.outcome.Ok? {
        DepthAfterUpIff(w.mounts, s.stack);
      }
    }
  }

  predicate LeftNestedMount(mounts: map<string, Fs>, r: Outcome)
    requires r.Ok?
  {
    r.left.Some? && r.stack != [] && Join(r.left.value) in mounts && Join(r.stack) in mounts
  }

  lemma DepthAfterUpIff(mounts: map<string, Fs>, stack: seq<string>)
    requires stack != []
    ensures DepthAfterUp(mounts, stack) == MountDepth(mounts, stack[..|stack| - 1]) <==>
              !(|stack| >= 2 && Join(stack) in mounts && Join(stack[..|stack| - 1]) in mounts)
  {
    var front := stack[..|stack| - 1];
    if |stack| >= 2 {
      assert front[..|front| - 1] == stack[..|stack| - 2];
    }
  }

  // ---------------------------------------------------------------- paths without links

  /** The pieces between slashes. */
  function Components(s: string): (cs: seq<string>)
    ensures s != "" ==> cs != []
    decreases |s|
  {
    if s == "" then [] else [s[..FirstSlash(s)]] + Components(Tail(s))
  }

  /** "" and "." are dropped, ".." takes the component before it away and fails when there is none. */
  function Normalize(stack: seq<string>, cs: seq<string>): Option<seq<string>>
    decreases |cs|
  {
    if cs == [] then Some(stack)
    else if cs[0] == "" || cs[0] == "." then Normalize(stack, cs[1..])
    else if cs[0] == ".." then
      if stack == [] then None else Normalize(stack[..|stack| - 1], cs[1..])
    else Normalize(stack + [cs[0]], cs[1..])
  }

  /** No filesystem has a symbolic link. */
  ghost predicate NoLinks(w: World) {
    forall fs: Fs, p: string :: w.symlinks(fs) ==> w.lstat(fs, p) != Link
  }

  /** What the code sees at a path is neither a directory nor a mount point.  It only looks where links are
      supported. */
  predicate IsFile(w: World, stack: seq<string>)
    requires "/" in w.mounts && stack != []
  {
    var front := stack[..|stack| - 1];
    var d := MountDepth(w.mounts, front);
    Join(stack) !in w.mounts && w.symlinks(FsAt(w, front, d)) && w.lstat(FsAt(w, front, d), Relative(stack, d)) == Other
  }

  /** A path is a symbolic link, no mount point, on a filesystem that supports links. */
  predicate IsLink(w: World, stack: seq<string>)
    requires "/" in w.mounts && stack != []
  {
    var front := stack[..|stack| - 1];
    var d := MountDepth(w.mounts, front);
    Join(stack) !in w.mounts && w.symlinks(FsAt(w, front, d)) && w.lstat(FsAt(w, front, d), Relative(stack, d)) == Link
  }

  /** The filesystem asked about a path is the one mounted deepest on the way to it, or the root one, and it is asked
      about what comes behind its mount point and a slash. */
  lemma AskedAt(w: World, stack: seq<string>, d: nat, fs: Fs, relative: string)
    requires "/" in w.mounts && d < |stack| && forall i :: d < i < |stack| ==> Join(stack[..i]) !in w.mounts
    requires if d == 0 then fs == w.mounts["/"] else Join(stack[..d]) in w.mounts && fs == w.mounts[Join(stack[..d])]
    requires Join(stack) == Join(stack[..d]) + "/" + relative
    ensures IsFile(w, stack) <==> Join(stack) !in w.mounts && w.symlinks(fs) && w.lstat(fs, relative) == Other
    ensures IsLink(w, stack) <==> Join(stack) !in w.mounts && w.symlinks(fs) && w.lstat(fs, relative) == Link
  {
    LookedUpAt(w, stack, d, fs, relative);
  }

  lemma LookedUpAt(w: World, stack: seq<string>, d: nat, fs: Fs, relative: string)
    requires "/" in w.mounts && d < |stack| && forall i :: d < i < |stack| ==> Join(stack[..i]) !in w.mounts
    requires if d == 0 then fs == w.mounts["/"] else Join(stack[..d]) in w.mounts && fs == w.mounts[Join(stack[..d])]
    requires Join(stack) == Join(stack[..d]) + "/" + relative
    ensures var front := stack[..|stack| - 1];
            MountDepth(w.mounts, front) == d && FsAt(w, front, d) == fs && Relative(stack, d) == relative
  {
    hide Join, MountDepth, Relative;
    var front := stack[..|stack| - 1];
    assert forall i :: 0 <= i <= |front| ==> front[..i] == stack[..i];
    MountDepthIs(w.mounts, front, d);
    RelativeIs(stack, d, relative);
  }

  lemma MountDepthIs(mounts: map<string, Fs>, stack: seq<string>, d: nat)
    requires d <= |stack| && (d > 0 ==> Join(stack[..d]) in mounts)
    requires forall i :: d < i <= |stack| ==> Join(stack[..i]) !in mounts
    ensures MountDepth(mounts, stack) == d
  {
    hide Join;
    var e := MountDepth(mounts, stack);
    hide MountDepth;
    assert e > 0 ==> Join(stack[..e]) in mounts;
  }

  lemma RelativeIs(stack: seq<string>, d: nat, relative: string)
    requires d < |stack| && Join(stack) == Join(stack[..d]) + "/" + relative
    ensures Relative(stack, d) == relative
  {
    hide Join;
    var a := Join(stack[..d]);
    assert (a + "/" + relative)[|a| + 1..] == relative;
  }

  /** The path has a slash at its end. */
  predicate Slashed(s: string) {
    s != "" && s[|s| - 1] == '/'
  }

  lemma SlashedTail(s: string)
    requires s != ""
    ensures Slashed(s) <==> if Tail(s) == "" then !IsLast(s) else Slashed(Tail(s))
  {
  }

  /** Component i is a name with a slash after it, and leads to a file. */
  predicate Blocked(w: World, stack: seq<string>, cs: seq<string>, slashed: bool, i: nat)
    requires "/" in w.mounts && i < |cs|
  {
    && IsComponent(cs[i]) && (i + 1 < |cs| || slashed)
    && var r := Normalize(stack, cs[..i + 1]); r.Some? && r.value != [] && IsFile(w, r.value)
  }

  predicate AnyBlocked(w: World, stack: seq<string>, cs: seq<string>, slashed: bool)
    requires "/" in w.mounts
  {
    exists i: nat :: i < |cs| && Blocked(w, stack, cs, slashed, i)
  }

  /** What one component does to the stack. */
  function Push(stack: seq<string>, c: string): Option<seq<string>> {
    if c == "" || c == "." then Some(stack)
    else if c == ".." then (if stack == [] then None else Some(stack[..|stack| - 1]))
    else Some(stack + [c])
  }

  lemma NormalizePush(stack: seq<string>, cs: seq<string>)
    requires cs != []
    ensures Normalize(stack, cs) ==
            if Push(stack, cs[0]).None? then None else Normalize(Push(stack, cs[0]).value, cs[1..])
  {
  }

  /** The later components block exactly if they do from where the first one leads. */
  lemma BlockedCons(w: World, stack: seq<string>, cs: seq<string>, slashed: bool)
    requires "/" in w.mounts && cs != []
    ensures AnyBlocked(w, stack, cs, slashed) <==>
              Blocked(w, stack, cs, slashed, 0)
              || (Push(stack, cs[0]).Some? && AnyBlocked(w, Push(stack, cs[0]).value, cs[1..], slashed))
  {
    hide IsFile, IsComponent, Normalize;
    var next := Push(stack, cs[0]);
    forall i: nat | 0 < i < |cs|
      ensures Blocked(w, stack, cs, slashed, i) <==> next.Some? && Blocked(w, next.value, cs[1..], slashed, i - 1)
    {
      NormalizePush(stack, cs[..i + 1]);
      assert cs[..i + 1][1..] == cs[1..][..i];
    }
    if i: nat :| i < |cs[1..]| && next.Some? && Blocked(w, next.value, cs[1..], slashed, i) {
      assert Blocked(w, stack, cs, slashed, i + 1);
    }
  }

  /** The first component alone. */
  lemma BlockedFirst(w: World, stack: seq<string>, cs: seq<string>, slashed: bool)
    requires "/" in w.mounts && cs != []
    ensures Blocked(w, stack, cs, slashed, 0) <==>
              IsComponent(cs[0]) && (|cs| > 1 || slashed) && IsFile(w, stack + [cs[0]])
  {
    hide IsFile;
    assert cs[..1] == [cs[0]];
    NormalizePush(stack, [cs[0]]);
    assert [cs[0]][1..] == [];
  }

  /** Component i is a link that is followed: one that is not the end of the path, unless that is followed too. */
  predicate Linked(w: World, stack: seq<string>, cs: seq<string>, slashed: bool, followLast: bool, i: nat)
    requires "/" in w.mounts && i < |cs|
  {
    && IsComponent(cs[i]) && (i + 1 < |cs| || slashed || followLast)
    && var r := Normalize(stack, cs[..i + 1]); r.Some? && r.value != [] && IsLink(w, r.value)
  }

  /** It is the first one, and no file with a slash after it comes before it. */
  predicate MeetsAt(w: World, stack: seq<string>, cs: seq<string>, slashed: bool, followLast: bool, i: nat)
    requires "/" in w.mounts
  {
    && i < |cs| && Linked(w, stack, cs, slashed, followLast, i)
    && forall j: nat :: j < i ==> !Linked(w, stack, cs, slashed, followLast, j) && !Blocked(w, stack, cs, slashed, j)
  }

  ghost predicate Meets(w: World, stack: seq<string>, cs: seq<string>, slashed: bool, followLast: bool)
    requires "/" in w.mounts
  {
    exists i: nat :: MeetsAt(w, stack, cs, slashed, followLast, i)
  }

  lemma LinkedFirst(w: World, stack: seq<string>, cs: seq<string>, slashed: bool, followLast: bool)
    requires "/" in w.mounts && cs != []
    ensures Linked(w, stack, cs, slashed, followLast, 0) <==>
              IsComponent(cs[0]) && (|cs| > 1 || slashed || followLast) && IsLink(w, stack + [cs[0]])
  {
    hide IsLink;
    assert cs[..1] == [cs[0]];
    NormalizePush(stack, [cs[0]]);
    assert [cs[0]][1..] == [];
  }

  /** Component i > 0 is seen from where the first one leads. */
  lemma LaterFrom(w: World, stack: seq<string>, cs: seq<string>, slashed: bool, followLast: bool, i: nat)
    requires "/" in w.mounts && 0 < i < |cs|
    ensures var next := Push(stack, cs[0]);
            && (Linked(w, stack, cs, slashed, followLast, i) <==>
                  next.Some? && Linked(w, next.value, cs[1..], slashed, followLast, i - 1))
            && (Blocked(w, stack, cs, slashed, i) <==> next.Some? && Blocked(w, next.value, cs[1..], slashed, i - 1))
  {
    hide IsFile, IsLink, IsComponent, Normalize;
    NormalizePush(stack, cs[..i + 1]);
    assert cs[..i + 1][1..] == cs[1..][..i];
  }

  lemma MeetsAtCons(w: World, stack: seq<string>, cs: seq<string>, slashed: bool, followLast: bool, i: nat)
    requires "/" in w.mounts && cs != []
    ensures MeetsAt(w, stack, cs, slashed, followLast, i) <==>
            if i == 0 then Linked(w, stack, cs, slashed, followLast, 0)
            else
              && Push(stack, cs[0]).Some? && !Blocked(w, stack, cs, slashed, 0)
              && !Linked(w, stack, cs, slashed, followLast, 0)
              && MeetsAt(w, Push(stack, cs[0]).value, cs[1..], slashed, followLast, i - 1)
  {
    hide Linked, Blocked, Push;
    forall j: nat | 0 < j < |cs|
      ensures var next := Push(stack, cs[0]);
              && (Linked(w, stack, cs, slashed, followLast, j) <==>
                    next.Some? && Linked(w, next.value, cs[1..], slashed, followLast, j - 1))
              && (Blocked(w, stack, cs, slashed, j) <==> next.Some? && Blocked(w, next.value, cs[1..], slashed, j - 1))
    {
      LaterFrom(w, stack, cs, slashed, followLast, j);
    }
    var next := Push(stack, cs[0]);
    if i > 0 && next.Some? && MeetsAt(w, next.value, cs[1..], slashed, followLast, i - 1)
       && !Blocked(w, stack, cs, slashed, 0) && !Linked(w, stack, cs, slashed, followLast, 0) {
      forall j: nat | j < i ensures !Linked(w, stack, cs, slashed, followLast, j)
        && !Blocked(w, stack, cs, slashed, j) {
        if j > 0 {
          var k: nat := j - 1;
          assert !Linked(w, next.value, cs[1..], slashed, followLast, k)
                 && !Blocked(w, next.value, cs[1..], slashed, k);
        }
      }
    }
    if i > 0 && MeetsAt(w, stack, cs, slashed, followLast, i) {
      forall j: nat | j < i - 1
        ensures !Linked(w, next.value, cs[1..], slashed, followLast, j) && !Blocked(w, next.value, cs[1..], slashed, j)
      {
        var k: nat := j + 1;
        assert !Linked(w, stack, cs, slashed, followLast, k) && !Blocked(w, stack, cs, slashed, k);
      }
    }
  }

  lemma MeetsCons(w: World, stack: seq<string>, cs: seq<string>, slashed: bool, followLast: bool)
    requires "/" in w.mounts && cs != []
    ensures Meets(w, stack, cs, slashed, followLast) <==>
              || Linked(w, stack, cs, slashed, followLast, 0)
              || (Push(stack, cs[0]).Some? && !Blocked(w, stack, cs, slashed, 0)
                  && Meets(w, Push(stack, cs[0]).value, cs[1..], slashed, followLast))
  {
    hide Linked, Blocked, Push, MeetsAt;
    MeetsAtCons(w, stack, cs, slashed, followLast, 0);
    if i: nat :| MeetsAt(w, stack, cs, slashed, followLast, i) {
      MeetsAtCons(w, stack, cs, slashed, followLast, i);
    }
    if Push(stack, cs[0]).Some? && Meets(w, Push(stack, cs[0]).value, cs[1..], slashed, followLast) {
      var i: nat :| MeetsAt(w, Push(stack, cs[0]).value, cs[1..], slashed, followLast, i);
      MeetsAtCons(w, stack, cs, slashed, followLast, i + 1);
    }
  }

  lemma NothingMet(w: World, stack: seq<string>, slashed: bool, followLast: bool)
    requires "/" in w.mounts
    ensures !Meets(w, stack, [], slashed, followLast)
  {
  }

  /** One step that follows no link: a file with a slash after it ends the path, and so does ".." with nothing to take
      away; any other component is pushed or taken away. */
  lemma ReadStep(w: World, s: State, followLast: bool)
    requires "/" in w.mounts && s.links < MAX_LINK_TO_FOLLOW && s.rest != ""
    requires var c := s.rest[..FirstSlash(s.rest)];
             !(IsComponent(c) && (!IsLast(s.rest) || followLast) && IsLink(w, s.stack + [c]))
    ensures var c := s.rest[..FirstSlash(s.rest)];
            Step(w, s, followLast) ==
            if IsComponent(c) && !IsLast(s.rest) && IsFile(w, s.stack + [c]) then Done(Err(ENOTDIR))
            else if Push(s.stack, c).None? then Done(Err(ENOENT))
            else if c == ".." && IsLast(s.rest) then
              Done(Ok(s.stack[..|s.stack| - 1], DepthAfterUp(w.mounts, s.stack), Some(s.stack)))
            else Go(State(Push(s.stack, c).value, Tail(s.rest), s.links))
  {
    hide MountDepth, Relative, Join, DepthAfterUp, FirstSlash, Follow;
    var c := s.rest[..FirstSlash(s.rest)];
    assert (s.stack + [c])[..|s.stack + [c]| - 1] == s.stack;
    assert (s.stack + [c])[..MountDepth(w.mounts, s.stack)] == s.stack[..MountDepth(w.mounts, s.stack)];
  }

  /** Without links that is every step. */
  lemma PlainStep(w: World, s: State, followLast: bool)
    requires "/" in w.mounts && s.links < MAX_LINK_TO_FOLLOW && NoLinks(w) && s.rest != ""
    ensures var c := s.rest[..FirstSlash(s.rest)];
            Step(w, s, followLast) ==
            if IsComponent(c) && !IsLast(s.rest) && IsFile(w, s.stack + [c]) then Done(Err(ENOTDIR))
            else if Push(s.stack, c).None? then Done(Err(ENOENT))
            else if c == ".." && IsLast(s.rest) then
              Done(Ok(s.stack[..|s.stack| - 1], DepthAfterUp(w.mounts, s.stack), Some(s.stack)))
            else Go(State(Push(s.stack, c).value, Tail(s.rest), s.links))
  {
    hide Step, MountDepth, Relative, Join, DepthAfterUp, FirstSlash, IsFile, IsComponent;
    ReadStep(w, s, followLast);
  }

  lemma ComponentsStep(s: string)
    requires s != ""
    ensures Components(s) == [s[..FirstSlash(s)]] + Components(Tail(s))
    ensures Components(s)[0] == s[..FirstSlash(s)] && Components(s)[1..] == Components(Tail(s))
    ensures |Components(s)| > 1 || Slashed(s) <==> !IsLast(s)
    ensures Tail(s) != "" ==> Slashed(s) == Slashed(Tail(s))
    ensures IsLast(s) ==> Tail(s) == ""
  {
    hide FirstSlash;
    SlashedTail(s);
  }

  /** What a path that meets no link resolves to: its components normalized.  It fails with ENOTDIR exactly when some
      name with a slash after it leads to a file, and otherwise with ENOENT exactly when normalization fails. */
  ghost predicate Normalized(w: World, r: Outcome, stack: seq<string>, cs: seq<string>, slashed: bool)
    requires "/" in w.mounts
  {
    match r
    case Ok(to, _, _) => Normalize(stack, cs) == Some(to) && !AnyBlocked(w, stack, cs, slashed)
    case Err(e) =>
      if AnyBlocked(w, stack, cs, slashed) then e == ENOTDIR
      else e == ENOENT && Normalize(stack, cs) == None
  }

  lemma {:induction false} ReadWalk(w: World, s: State, followLast: bool)
    requires "/" in w.mounts && s.links < MAX_LINK_TO_FOLLOW
    requires !Meets(w, s.stack, Components(s.rest), Slashed(s.rest), followLast)
    ensures Normalized(w, Walk(w, s, followLast), s.stack, Components(s.rest), Slashed(s.rest))
    decreases |s.rest|
  {
    hide IsFile, IsLink, IsComponent, Step, Slashed, AnyBlocked, Blocked, Linked, Meets, DepthAfterUp, FirstSlash,
      MountDepth;
    if s.rest == "" {
      NothingBlocked(w, s.stack, Slashed(s.rest));
    } else {
      var cs := Components(s.rest);
      ComponentsStep(s.rest);
      LinkedFirst(w, s.stack, cs, Slashed(s.rest), followLast);
      MeetsCons(w, s.stack, cs, Slashed(s.rest), followLast);
      ReadStep(w, s, followLast);
      NormalizePush(s.stack, cs);
      BlockedCons(w, s.stack, cs, Slashed(s.rest));
      BlockedFirst(w, s.stack, cs, Slashed(s.rest));
      var r := Step(w, s, followLast);
      if r.Go? {
        if Tail(s.rest) == "" {
          NothingMet(w, r.next.stack, Slashed(r.next.rest), followLast);
        }
        ReadWalk(w, r.next, followLast);
      }
      if Tail(s.rest) == "" && Push(s.stack, cs[0]).Some? {
        NothingBlocked(w, Push(s.stack, cs[0]).value, Slashed(s.rest));
        NothingBlocked(w, Push(s.stack, cs[0]).value, Slashed(Tail(s.rest)));
      }
    }
  }

  lemma NoLinksNoneMet(w: World, stack: seq<string>, cs: seq<string>, slashed: bool, followLast: bool)
    requires "/" in w.mounts && NoLinks(w)
    ensures !Meets(w, stack, cs, slashed, followLast)
  {
    hide Normalize, IsComponent, Blocked, MountDepth, Relative;
  }

  /** Without links that is so for every path. */
  lemma PlainWalk(w: World, s: State, followLast: bool)
    requires "/" in w.mounts && s.links < MAX_LINK_TO_FOLLOW && NoLinks(w)
    ensures var cs := Components(s.rest);
            match Walk(w, s, followLast)
            case Ok(stack, _, _) => Normalize(s.stack, cs) == Some(stack)
              && !AnyBlocked(w, s.stack, cs, Slashed(s.rest))
            case Err(e) => if AnyBlocked(w, s.stack, cs, Slashed(s.rest)) then e == ENOTDIR
                           else e == ENOENT && Normalize(s.stack, cs) == None
  {
    hide Walk, Normalize, Components, AnyBlocked, Slashed, Meets, NoLinks;
    NoLinksNoneMet(w, s.stack, Components(s.rest), Slashed(s.rest), followLast);
    ReadWalk(w, s, followLast);
  }

  lemma NothingBlocked(w: World, stack: seq<string>, slashed: bool)
    requires "/" in w.mounts
    ensures !AnyBlocked(w, stack, [], slashed)
  {
  }

  /** How much deeper the components lead: names count one, ".." counts minus one. */
  function Balance(cs: seq<string>): int {
    if cs == [] then 0 else
      var c := cs[|cs| - 1];
      Balance(cs[..|cs| - 1]) + if c == "" || c == "." then 0 else if c == ".." then -1 else 1
  }

  lemma {:induction false} BalanceCons(cs: seq<string>)
    requires cs != []
    ensures Balance(cs) == Balance(cs[..1]) + Balance(cs[1..])
  {
    if |cs| > 1 {
      BalanceCons(cs[..|cs| - 1]);
      assert cs[..|cs| - 1][..1] == cs[..1];
      assert cs[..|cs| - 1][1..] == cs[1..][..|cs| - 2];
    }
  }

  /** Normalization fails exactly when some ".." comes with nothing left to take away. */
  lemma {:induction false} NormalizeFailsIff(stack: seq<string>, cs: seq<string>)
    ensures Normalize(stack, cs) == None <==> exists i :: 0 <= i <= |cs| && |stack| + Balance(cs[..i]) < 0
    ensures Normalize(stack, cs) != None ==> |Normalize(stack, cs).value| == |stack| + Balance(cs)
    decreases |cs|
  {
    if cs != [] {
      var stack1 := if cs[0] == "" || cs[0] == "." then stack
                    else if cs[0] == ".." then (if stack == [] then [] else stack[..|stack| - 1])
                    else stack + [cs[0]];
      NormalizeFailsIff(stack1, cs[1..]);
      BalanceCons(cs);
      assert cs[..1][..0] == [];
      forall i | 1 <= i <= |cs| ensures Balance(cs[..i]) == Balance(cs[..1]) + Balance(cs[1..][..i - 1]) {
        BalanceCons(cs[..i]);
        assert cs[..i][1..] == cs[1..][..i - 1] && cs[..i][..1] == cs[..1];
      }
      if cs[0] == ".." && stack == [] {
        assert |stack| + Balance(cs[..1]) < 0;
      } else {
        if i :| 0 <= i <= |cs[1..]| && |stack1| + Balance(cs[1..][..i]) < 0 {
          assert |stack| + Balance(cs[..i + 1]) < 0;
        }
        if i :| 0 <= i <= |cs| && |stack| + Balance(cs[..i]) < 0 {
          assert |stack1| + Balance(cs[1..][..i - 1]) < 0;
        }
      }
    }
  }

  // ---------------------------------------------------------------- resolved paths resolve to themselves

  lemma {:induction false} JoinCons(c: string, stack: seq<string>)
    ensures Join([c] + stack) == "/" + c + Join(stack)
  {
    if stack == [] {
      assert [c][..0] == [];
    } else {
      JoinCons(c, stack[..|stack| - 1]);
      assert ([c] + stack)[..|stack|] == [c] + stack[..|stack| - 1];
    }
  }

  lemma {:induction false} FirstSlashAppend(c: string, s: string)
    requires '/' !in c && (s == "" || s[0] == '/')
    ensures FirstSlash(c + s) == |c|
    decreases |c|
  {
    if c == "" {
      assert c + s == s;
    } else {
      FirstSlashAppend(c[1..], s);
      assert (c + s)[1..] == c[1..] + s;
    }
  }

  /** Splitting the canonical path of a clean stack gives the stack back. */
  lemma {:induction false} SplitJoin(stack: seq<string>)
    requires Clean(stack) && stack != []
    ensures Components(Join(stack)[1..]) == stack
    decreases |stack|
  {
    var c, s := stack[0], stack[1..];
    assert stack == [c] + s;
    JoinCons(c, s);
    var t := c + Join(s);
    assert Join(stack)[1..] == t;
    if s != [] {
      JoinCons(s[0], s[1..]);
      assert s == [s[0]] + s[1..];
      SplitJoin(s);
    }
    FirstSlashAppend(c, Join(s));
    assert t[..|c|] == c && Tail(t) == if s == [] then "" else Join(s)[1..];
  }

  lemma {:induction false} NormalizeClean(stack: seq<string>, cs: seq<string>)
    requires Clean(cs)
    ensures Normalize(stack, cs) == Some(stack + cs)
    decreases |cs|
  {
    if cs == [] {
      assert stack + cs == stack;
    } else {
      NormalizeClean(stack + [cs[0]], cs[1..]);
      assert stack + [cs[0]] + cs[1..] == stack + cs;
    }
  }

  /** No component of the stack but the last one is a file. */
  ghost predicate Traversed(w: World, stack: seq<string>)
    requires "/" in w.mounts
  {
    forall k :: 0 < k < |stack| ==> !IsFile(w, stack[..k])
  }

  lemma CleanBlockedIff(w: World, stack: seq<string>)
    requires "/" in w.mounts && Clean(stack)
    ensures AnyBlocked(w, [], stack, false) <==> !Traversed(w, stack)
  {
    hide IsFile, IsComponent;
    forall i: nat | i < |stack|
      ensures Blocked(w, [], stack, false, i) <==> i + 1 < |stack| && IsFile(w, stack[..i + 1])
    {
      NormalizeClean([], stack[..i + 1]);
      assert [] + stack[..i + 1] == stack[..i + 1];
      assert IsComponent(stack[i]);
    }
    if k :| 0 < k < |stack| && IsFile(w, stack[..k]) {
      assert Blocked(w, [], stack, false, k - 1);
    }
  }

  /** The last component of a canonical path has no slash after it. */
  lemma {:induction false} JoinNotSlashed(stack: seq<string>)
    requires Clean(stack) && stack != []
    ensures Join(stack)[1..] != "" && !Slashed(Join(stack)[1..])
  {
    var c := stack[|stack| - 1];
    assert IsComponent(c);
    assert Join(stack)[|Join(stack)| - 1] == c[|c| - 1];
  }

  /** Without links a canonical path resolves to itself, on the deepest filesystem mounted on it, unless one of its
      components but the last is a file; then it fails with ENOTDIR. */
  lemma ResolveCanonical(w: World, stack: seq<string>, followLast: bool)
    requires "/" in w.mounts && NoLinks(w) && Clean(stack) && stack != []
    ensures Walk(w, State([], Join(stack)[1..], 0), followLast) ==
            if Traversed(w, stack) then Ok(stack, MountDepth(w.mounts, stack), None) else Err(ENOTDIR)
  {
    hide Walk, Normalize, Components, Join, MountDepth, Clean, AnyBlocked, Traversed, NoLinks, Slashed;
    var s := State([], Join(stack)[1..], 0);
    assert [] + stack == stack;
    PlainWalk(w, s, followLast);
    SplitJoin(stack);
    JoinNotSlashed(stack);
    CleanBlockedIff(w, stack);
    NormalizeClean([], stack);
    WalkDepthIff(w, s, followLast);
    NoUpNoLeft(w, s, followLast);
  }

  /** Without links whatever a path resolves to resolves to itself, on the deepest filesystem mounted on it. */
  lemma ResolveAgain(w: World, path: string, followLast: bool, followLast2: bool)
    requires "/" in w.mounts && NoLinks(w)
    ensures var r := Walk(w, State([], path, 0), followLast);
            r.Ok? && r.stack != [] ==>
              Walk(w, State([], Join(r.stack)[1..], 0), followLast2) == Ok(r.stack, MountDepth(w.mounts, r.stack), None)
  {
    hide Walk, Join, MountDepth, Traversed, NoLinks, IsComponent;
    WalkClean(w, State([], path, 0), followLast);
    NothingTraversed(w);
    WalkTraverses(w, State([], path, 0), followLast);
    var r := Walk(w, State([], path, 0), followLast);
    if r.Ok? && r.stack != [] {
      ResolveCanonical(w, r.stack, followLast2);
    }
  }

  lemma NothingTraversed(w: World)
    requires "/" in w.mounts
    ensures Traversed(w, [])
  {
  }

  lemma PushTraversed(w: World, stack: seq<string>, c: string)
    requires "/" in w.mounts && Traversed(w, stack) && (stack != [] ==> !IsFile(w, stack))
    ensures Traversed(w, stack + [c])
  {
    hide IsFile;
    forall k | 0 < k < |stack + [c]| ensures !IsFile(w, (stack + [c])[..k]) {
      assert (stack + [c])[..k] == stack[..k];
      assert stack[..|stack|] == stack;
    }
  }

  lemma FrontTraversed(w: World, stack: seq<string>)
    requires "/" in w.mounts && Traversed(w, stack) && stack != []
    ensures var front := stack[..|stack| - 1]; Traversed(w, front) && (front != [] ==> !IsFile(w, front))
  {
    hide IsFile;
    var front := stack[..|stack| - 1];
    assert forall k :: 0 <= k < |stack| ==> front[..k] == stack[..k];
    assert front != [] ==> stack[..|front|] == front;
  }

  /** What has been read of a path has no file in it but, at the end, the last component. */
  lemma {:induction false} WalkTraverses(w: World, s: State, followLast: bool)
    requires "/" in w.mounts && s.links < MAX_LINK_TO_FOLLOW && NoLinks(w)
    requires Traversed(w, s.stack) && (s.rest != "" && s.stack != [] ==> !IsFile(w, s.stack))
    ensures var r := Walk(w, s, followLast); r.Ok? ==> Traversed(w, r.stack)
    decreases |s.rest|
  {
    hide IsFile, IsComponent, Step, Traversed, FirstSlash, MountDepth, DepthAfterUp, NoLinks;
    if s.rest != "" {
      ComponentsStep(s.rest);
      PlainStep(w, s, followLast);
      var c := s.rest[..FirstSlash(s.rest)];
      PushTraversed(w, s.stack, c);
      if s.stack != [] {
        FrontTraversed(w, s.stack);
      }
      NameIff(s.rest);
      var r := Step(w, s, followLast);
      if r.Go? {
        WalkTraverses(w, r.next, followLast);
      }
    }
  }

  lemma NameIff(s: string)
    ensures var c := s[..FirstSlash(s)]; IsComponent(c) <==> c != "" && c != "." && c != ".."
  {
  }

  lemma {:induction false} NoUpNoLeft(w: World, s: State, followLast: bool)
    requires "/" in w.mounts && s.links < MAX_LINK_TO_FOLLOW && NoLinks(w) && Clean(Components(s.rest))
    ensures var r := Walk(w, s, followLast); r.Ok? ==> r.left == None
    decreases |s.rest|
  {
    hide IsFile, Step, FirstSlash, MountDepth, DepthAfterUp, NoLinks;
    if s.rest != "" {
      ComponentsStep(s.rest);
      PlainStep(w, s, followLast);
      var cs := Components(s.rest);
      assert IsComponent(cs[0]);
      assert forall i :: 0 <= i < |cs[1..]| ==> cs[1..][i] == cs[i + 1];
      var r := Step(w, s, followLast);
      if r.Go? {
        NoUpNoLeft(w, r.next, followLast);
      }
    }
  }

  // ---------------------------------------------------------------- which filesystem, without links

  /** The last component is "..", with no slash after it. */
  predicate EndsUp(s: string) {
    |s| >= 2 && s[|s| - 2..] == ".." && (|s| == 2 || s[|s| - 3] == '/')
  }

  lemma EndsUpTail(s: string)
    requires s != ""
    ensures EndsUp(s) <==> if IsLast(s) then s == ".." else EndsUp(Tail(s))
  {
  }

  function AllButLast(cs: seq<string>): seq<string>
    requires cs != []
  {
    cs[..|cs| - 1]
  }

  lemma NormalizeStep(w: World, s: State, followLast: bool)
    requires "/" in w.mounts && s.links < MAX_LINK_TO_FOLLOW && NoLinks(w) && Tail(s.rest) != ""
    ensures match Step(w, s, followLast)
            case Go(n) => n.rest == Tail(s.rest)
                          && Normalize(s.stack, AllButLast(Components(s.rest)))
                             == Normalize(n.stack, AllButLast(Components(n.rest)))
            case Done(r) => r.Err?
  {
    hide MountDepth, FsAt, Relative, Join, DepthAfterUp;
    var cs, ds := Components(s.rest), Components(Tail(s.rest));
    assert cs == [cs[0]] + ds;
    assert AllButLast(cs) == [cs[0]] + AllButLast(ds);
    assert AllButLast(cs)[1..] == AllButLast(ds);
  }

  lemma LastStep(w: World, s: State, followLast: bool)
    requires "/" in w.mounts && s.links < MAX_LINK_TO_FOLLOW && NoLinks(w) && s.rest != "" && Tail(s.rest) == ""
    ensures AllButLast(Components(s.rest)) == []
    ensures match Step(w, s, followLast)
            case Go(n) => n.rest == "" && !EndsUp(s.rest)
            case Done(Ok(_, _, left)) => EndsUp(s.rest) && left == Some(s.stack)
            case Done(Err(_)) => true
  {
    hide Step, MountDepth, DepthAfterUp, FirstSlash, EndsUp, IsFile, IsComponent;
    PlainStep(w, s, followLast);
    EndsUpTail(s.rest);
    NotEndsUp();
    ComponentsStep(s.rest);
    assert IsLast(s.rest) ==> s.rest[..FirstSlash(s.rest)] == s.rest;
  }

  /** Without links, whether the path was ended by "..", and where that was. */
  lemma {:induction false} PlainLeft(w: World, s: State, followLast: bool)
    requires "/" in w.mounts && s.links < MAX_LINK_TO_FOLLOW && NoLinks(w) && Walk(w, s, followLast).Ok?
    ensures Walk(w, s, followLast).left ==
            if EndsUp(s.rest) then Normalize(s.stack, AllButLast(Components(s.rest))) else None
    ensures EndsUp(s.rest) ==> Walk(w, s, followLast).left.Some?
    decreases |s.rest|
  {
    hide Step, EndsUp, Components;
    if s.rest != "" {
      EndsUpTail(s.rest);
      var r := Step(w, s, followLast);
      if Tail(s.rest) != "" {
        NormalizeStep(w, s, followLast);
        PlainLeft(w, r.next, followLast);
        assert !IsLast(s.rest);
      } else {
        LastStep(w, s, followLast);
      }
    } else {
      assert !EndsUp(s.rest) by { NotEndsUp(); }
    }
  }

  lemma NotEndsUp()
    ensures !EndsUp("")
  {
  }

  /** Without links, the filesystem reported for a path is the deepest one mounted on the result unless the
      path ends in ".." and both the directory left and the directory reached are mount points. */
  lemma PlainDepthIff(w: World, path: string, followLast: bool)
    requires "/" in w.mounts && NoLinks(w) && Walk(w, State([], path, 0), followLast).Ok?
    ensures var r := Walk(w, State([], path, 0), followLast);
            var to := Normalize([], Components(path));
            to == Some(r.stack) && (r.depth == MountDepth(w.mounts, to.value) <==> !LeavesNestedMount(w.mounts, path))
  {
    WalkDepthIff(w, State([], path, 0), followLast);
    PlainLeft(w, State([], path, 0), followLast);
    PlainWalk(w, State([], path, 0), followLast);
  }

  /** The path ends in "..", and leads from a mount point to another one. */
  predicate LeavesNestedMount(mounts: map<string, Fs>, path: string) {
    EndsUp(path) &&
    var cs := Components(path);
    var from, to := Normalize([], AllButLast(cs)), Normalize([], cs);
    from.Some? && to.Some? && to.value != [] && Join(from.value) in mounts && Join(to.value) in mounts
  }

  /** "/a/b/.." with filesystems at "/a" and "/a/b" reaches "/a" but is reported to be on the root filesystem. */
  lemma NestedMountExample(w: World, followLast: bool)
    requires w.mounts == map["/" := 0, "/a" := 1, "/a/b" := 2] && NoLinks(w)
    ensures Walk(w, State([], "a/b/..", 0), followLast) == Ok(["a"], 0, Some(["a", "b"]))
    ensures MountDepth(w.mounts, ["a"]) == 1
  {
    hide Components, Normalize, Clean, EndsUp, Balance;
    JoinExample();
    StepExample(w, followLast);
    var s2 := State(["a", "b"], "..", 0);
    assert FirstSlash("..") == 2 && ".."[..2] == "..";
    assert DepthAfterUp(w.mounts, ["a", "b"]) == 0 by { assert ["a", "b"][..0] == []; }
    assert ["a", "b"][..1] == ["a"];
    assert Step(w, s2, followLast) == Done(Ok(["a"], 0, Some(["a", "b"])));
  }

  lemma JoinExample()
    ensures Join(["a"]) == "/a" && Join(["a", "b"]) == "/a/b"
  {
  }

  lemma StepExample(w: World, followLast: bool)
    requires w.mounts == map["/" := 0, "/a" := 1, "/a/b" := 2] && NoLinks(w)
    ensures Step(w, State([], "a/b/..", 0), followLast) == Go(State(["a"], "b/..", 0))
    ensures Step(w, State(["a"], "b/..", 0), followLast) == Go(State(["a", "b"], "..", 0))
  {
    hide Components, Normalize, Clean, EndsUp, Balance, MountDepth, FsAt, Relative, DepthAfterUp;
    JoinExample();
    assert FirstSlash("b/..") == 1 && "b/.."[..1] == "b" && Tail("b/..") == "..";
    assert FirstSlash("a/b/..") == 1 && "a/b/.."[..1] == "a" && Tail("a/b/..") == "b/..";
    assert [] + ["a"] == ["a"] && ["a"] + ["b"] == ["a", "b"];
  }
}
