/**
 The in-place path resolution of the filesystem layer: the string being resolved is erased, spliced and
 swapped as it is read.  It is proved to compute what module PathSpec says.
 */
module PathResolver {
  import opened PathSpec
  import opened Wrappers

  datatype ResolvedPath = Found(fs: Fs, off: nat) | Failed(error: Error)

  /** std::string::find_last_of('/', n - 1); -1 for npos. */
  function LastSlash(s: string, n: nat): (i: int)
    ensures -1 <= i < |s| && i < n
    ensures i >= 0 ==> s[i] == '/'
    ensures forall j :: i < j < n && j < |s| ==> s[j] != '/'
    decreases n
  {
    if n == 0 then -1
    else if n <= |s| && s[n - 1] == '/' then n - 1
    else LastSlash(s, n - 1)
  }

  /** The path of the stack without its last component ends where its last slash is. */
  lemma LastSlashOfJoin(path: string, stack: seq<string>, n: nat)
    requires Clean(stack) && stack != [] && Join(stack) <= path
    requires n == |Join(stack)| || (n > |Join(stack)| && path == Join(stack))
    ensures LastSlash(path, n) == |Join(stack[..|stack| - 1])|
  {
    var front, c := stack[..|stack| - 1], stack[|stack| - 1];
    assert IsComponent(c);
    assert path[|Join(front)|] == '/';
    assert forall j :: |Join(front)| < j < |Join(stack)| ==> path[j] == c[j - |Join(front)| - 1];
  }

  lemma JoinPrefix(stack: seq<string>, d: nat)
    requires d <= |stack|
    ensures Join(stack[..d]) <= Join(stack)
  {
    JoinLength(stack, d);
  }

  lemma MountStep(mounts: map<string, Fs>, stack: seq<string>, i: nat)
    requires i <= |stack|
    ensures MountDepth(mounts, stack[..i]) ==
            if i == 0 then 0 else if Join(stack[..i]) in mounts then i else MountDepth(mounts, stack[..i - 1])
  {
    if i > 0 {
      assert stack[..i][..i - 1] == stack[..i - 1];
    }
  }

  /** From the end of the first i components the last slash leads to the end of the first i - 1. */
  lemma SlashBelow(path: string, stack: seq<string>, i: nat)
    requires Clean(stack) && i <= |stack| && Join(stack) <= path
    ensures |Join(stack[..i])| == 0 <==> i == 0
    ensures |Join(stack[..i])| <= |path| && path[..|Join(stack[..i])|] == Join(stack[..i])
    ensures i > 0 ==> LastSlash(path, |Join(stack[..i])|) == |Join(stack[..i - 1])|
  {
    JoinPrefix(stack, i);
    if i > 0 {
      assert stack[..i][..i - 1] == stack[..i - 1];
      LastSlashOfJoin(path, stack[..i], |Join(stack[..i])|);
    }
  }

  class PathResolution {
    const world: World
    var root: Fs
    var fs: Fs             // current filesystem
    var syms: bool         // whether it supports symbolic links
    var index: nat         // path[index] is the first unhandled character
    var indexIntoFs: nat   // where the path relative to the current filesystem starts
    var depthIntoFs: int   // how many components that path has, plus one
    var linksFollowed: nat

    constructor (world: World)
      ensures this.world == world
    {
      this.world := world;
      root, fs, syms, index, indexIntoFs, depthIntoFs, linksFollowed := 0, 0, false, 0, 0, 0, 0;
    }

    ghost predicate Rooted()
      reads this
    {
      "/" in world.mounts && root == world.mounts["/"]
    }

    /** The fields about the current filesystem are those of the first d components of the stack. */
    ghost predicate OnFs(stack: seq<string>, d: nat)
      reads this
      requires Rooted()
    {
      && d <= |stack| && (d > 0 ==> Join(stack[..d]) in world.mounts)
      && fs == FsAt(world, stack, d) && syms == world.symlinks(fs)
      && indexIntoFs == |Join(stack[..d])| + 1
    }

    /** The path and the fields represent the resolution state s. */
    ghost predicate At(path: string, s: State)
      reads this
    {
      && Rooted() && Clean(s.stack) && s.links < MAX_LINK_TO_FOLLOW && linksFollowed == s.links
      && path == Prefix(s.stack) + s.rest && index == |Prefix(s.stack)|
      && OnFs(s.stack, MountDepth(world.mounts, s.stack))
      && depthIntoFs == |s.stack| - MountDepth(world.mounts, s.stack) + 1
    }

    /** Nothing is left to read; the path is that of the stack, with or without a slash at the end. */
    ghost predicate AtEnd(path: string, stack: seq<string>, d: nat)
      reads this
    {
      && Rooted() && Clean(stack) && index >= |path|
      && d <= |stack| && (d > 0 ==> Join(stack[..d]) in world.mounts) && fs == FsAt(world, stack, d)
      && if path == Prefix(stack) then indexIntoFs == |Join(stack[..d])| + 1
         else path == Join(stack) && stack != [] && indexIntoFs == Offset(stack, d)
    }

    /** What a step of the loop leaves behind, p being what PathSpec.Step says of it. */
    ghost predicate After(path: string, p: Progress)
      reads this
    {
      match p
      case Go(n) => At(path, n) || (n.rest == "" && Rooted() && AtEnd(path, n.stack, MountDepth(world.mounts, n.stack)))
      case Done(Ok(stack, d, _)) => AtEnd(path, stack, d)
      case Done(Err(_)) => true
    }

    /** Looks for the filesystem of the first `top` components of the stack, from the last slash before index. */
    method RecursiveFindFs(path: string, ghost stack: seq<string>, ghost top: nat)
      requires Rooted() && Clean(stack) && top <= |stack| && Join(stack) <= path
      requires LastSlash(path, index) == |Join(stack[..top])|
      modifies this`fs, this`syms, this`indexIntoFs, this`depthIntoFs
      ensures Rooted() && OnFs(stack, MountDepth(world.mounts, stack[..top]))
      ensures depthIntoFs == top - MountDepth(world.mounts, stack[..top]) + 1
    {
      hide Join, LastSlash, MountDepth;
      depthIntoFs := 1;
      var backIndex: nat := index;
      ghost var i := top;
      while true
        invariant Rooted() && 0 <= i <= top && depthIntoFs == top - i + 1
        invariant LastSlash(path, backIndex) == |Join(stack[..i])|
        invariant MountDepth(world.mounts, stack[..top]) == MountDepth(world.mounts, stack[..i])
        decreases i
      {
        MountStep(world.mounts, stack, i);
        SlashBelow(path, stack, i);
        var slash := LastSlash(path, backIndex);
        if slash < 0 {
          assert false;  // should not happen, and does not
        }
        backIndex := slash;
        if backIndex == 0 {
          fs := root;
          indexIntoFs := 1;
          break;
        }
        if path[..backIndex] in world.mounts {
          fs := world.mounts[path[..backIndex]];
          indexIntoFs := backIndex + 1;
          break;
        }
        depthIntoFs := depthIntoFs + 1;
        i := i - 1;
      }
      syms := world.symlinks(fs);
    }

    /** Handles a ".." whose slash, or the end of the path, is at `slash`. */
    method UpPathComponent(path0: string, slash: nat, ghost s: State, ghost followLast: bool)
      returns (path: string, error: Option<Error>)
      requires At(path0, s) && s.rest != "" && slash == index + 2
      requires FirstSlash(s.rest) == 2 && s.rest[..2] == ".."
      modifies this`fs, this`syms, this`index, this`indexIntoFs, this`depthIntoFs
      ensures var p := Step(world, s, followLast);
              if p.Done? && p.outcome.Err? then error == Some(p.outcome.error) else error == None && After(path, p)
    {
      hide Step, Join, MountDepth, LastSlash, FirstSlash, Tail, FsAt, DepthAfterUp, After, AtEnd, IsLast;
      StepUp(world, s, followLast);
      if index <= 1 {
        return path0, Some(ENOENT);
      }
      path := EraseUp(path0, slash, s);
      depthIntoFs := depthIntoFs - 1;
      if depthIntoFs > 0 {
        UpStays(path, s, followLast);
        return path, None;
      }
      UpSlash(path, s, index);
      RecursiveFindFs(path, s.stack[..|s.stack| - 1], UpTop(s));
      UpEscapes(path, s, followLast);
      error := None;
    }

    /** Erases "name/.." from the path. */
    method EraseUp(path0: string, slash: nat, ghost s: State) returns (path: string)
      requires Clean(s.stack) && s.stack != [] && path0 == Prefix(s.stack) + s.rest && index == |Prefix(s.stack)|
      requires FirstSlash(s.rest) == 2 && slash == index + 2
      modifies this`index, this`indexIntoFs
      ensures path == UpPath(s) && index == |Prefix(s.stack[..|s.stack| - 1])|
      ensures indexIntoFs == if old(indexIntoFs) > |path| then |path| else old(indexIntoFs)
    {
      hide Join, LastSlash, FirstSlash, Tail, UpPath;
      path := path0;
      UpText(path, s);
      LastSlashOfJoin(path, s.stack, index - 1);
      var removeStart := LastSlash(path, index - 1);
      if removeStart < 0 {
        assert false;  // should not happen, and does not
      }
      path := path[..removeStart] + path[slash..];
      index := removeStart + 1;
      if path == "" {
        path := "/";
      }
      if indexIntoFs > |path| {
        indexIntoFs := |path|;
      }
    }

    /** ".." within the current filesystem. */
    lemma UpStays(path: string, s: State, followLast: bool)
      requires Rooted() && Clean(s.stack) && s.stack != [] && s.links < MAX_LINK_TO_FOLLOW && linksFollowed == s.links
      requires FirstSlash(s.rest) == 2 && s.rest[..2] == ".." && path == UpPath(s)
      requires index == |Prefix(s.stack[..|s.stack| - 1])|
      requires var d := MountDepth(world.mounts, s.stack);
               && d < |s.stack| && fs == FsAt(world, s.stack, d) && syms == world.symlinks(fs)
               && indexIntoFs == (if |Join(s.stack[..d])| + 1 > |path| then |path| else |Join(s.stack[..d])| + 1)
               && depthIntoFs == |s.stack| - d
      ensures After(path, Step(world, s, followLast))
    {
      hide Step, FirstSlash, Join, LastSlash, MountDepth, Tail;
      StepUp(world, s, followLast);
      UpMounts(world.mounts, s.stack);
      var front, d := s.stack[..|s.stack| - 1], MountDepth(world.mounts, s.stack);
      JoinLength(front, d);
    }

    /** ".." out of the current filesystem. */
    lemma UpEscapes(path: string, s: State, followLast: bool)
      requires Rooted() && Clean(s.stack) && s.stack != [] && s.links < MAX_LINK_TO_FOLLOW && linksFollowed == s.links
      requires FirstSlash(s.rest) == 2 && s.rest[..2] == ".." && path == UpPath(s)
      requires index == |Prefix(s.stack[..|s.stack| - 1])|
      requires MountDepth(world.mounts, s.stack) == |s.stack|
      requires var front := s.stack[..|s.stack| - 1];
               OnFs(front, MountDepth(world.mounts, front[..UpTop(s)]))
               && depthIntoFs == UpTop(s) - MountDepth(world.mounts, front[..UpTop(s)]) + 1
      ensures After(path, Step(world, s, followLast))
    {
      hide Step, FirstSlash, Join, LastSlash, MountDepth, Tail;
      StepUp(world, s, followLast);
      UpMounts(world.mounts, s.stack);
      var front := s.stack[..|s.stack| - 1];
      JoinLength(front, MountDepth(world.mounts, front[..UpTop(s)]));
    }

    // ------------------------------------------------------------ names and links

    /** index is past the name at the start of s.rest and the slash after it; the filesystem is the one the
        stack is on. */
    ghost predicate PastName(path: string, s: State, d: nat)
      reads this
    {
      && Rooted() && Clean(s.stack) && IsComponent(s.rest[..FirstSlash(s.rest)])
      && path == Prefix(s.stack) + s.rest && index == |Prefix(s.stack)| + FirstSlash(s.rest) + 1
      && OnFs(s.stack, d) && d == MountDepth(world.mounts, s.stack)
    }

    /** A name that is no mount point was pushed. */
    lemma NamePushed(path: string, s: State, d: nat)
      requires PastName(path, s, d) && linksFollowed < MAX_LINK_TO_FOLLOW && depthIntoFs == |s.stack| - d + 2
      requires Join(s.stack + [s.rest[..FirstSlash(s.rest)]]) !in world.mounts
      ensures After(path, Go(State(s.stack + [s.rest[..FirstSlash(s.rest)]], Tail(s.rest), linksFollowed)))
    {
      hide Join, FirstSlash, Tail;
      PushText(s.stack, s.rest);
      PushMounts(world.mounts, s.stack, s.rest[..FirstSlash(s.rest)]);
      JoinLength(s.stack + [s.rest[..FirstSlash(s.rest)]], d);
    }

    /** A mount point was pushed. */
    lemma MountPushed(path: string, s: State)
      requires Rooted() && Clean(s.stack) && IsComponent(s.rest[..FirstSlash(s.rest)]) && s.links < MAX_LINK_TO_FOLLOW
      requires path == Prefix(s.stack) + s.rest && index == |Prefix(s.stack)| + FirstSlash(s.rest) + 1
      requires var pushed := Join(s.stack + [s.rest[..FirstSlash(s.rest)]]);
               pushed in world.mounts && fs == world.mounts[pushed] && syms == world.symlinks(fs)
      requires indexIntoFs == (if index > |path| then index - 1 else index) && depthIntoFs == 1
               && linksFollowed == s.links
      ensures After(path, Go(State(s.stack + [s.rest[..FirstSlash(s.rest)]], Tail(s.rest), s.links)))
    {
      hide Join, FirstSlash, Tail;
      var pushed := s.stack + [s.rest[..FirstSlash(s.rest)]];
      PushText(s.stack, s.rest);
      PushMounts(world.mounts, s.stack, s.rest[..FirstSlash(s.rest)]);
      assert pushed[..|pushed|] == pushed;
    }

    /** Follows the symbolic link that the name before index is. */
    method FollowSymlink(path0: string, ghost s: State, ghost d: nat) returns (path: string, error: Option<Error>)
      requires PastName(path0, s, d) && linksFollowed == s.links < MAX_LINK_TO_FOLLOW
               && depthIntoFs == |s.stack| - d + 2
      requires Join(s.stack + [s.rest[..FirstSlash(s.rest)]]) !in world.mounts
      modifies this`fs, this`syms, this`index, this`indexIntoFs, this`depthIntoFs, this`linksFollowed
      ensures var p := Follow(world, s, world.readlink(old(fs), Relative(s.stack + [s.rest[..FirstSlash(s.rest)]], d)));
              if p.Done? && p.outcome.Err? then error == Some(p.outcome.error) else error == None && After(path, p)
    {
      hide Join, FirstSlash, Tail, IsLast, LastSlash, MountDepth, Relative, FsAt;
      path := path0;
      linksFollowed := linksFollowed + 1;
      if linksFollowed >= MAX_LINK_TO_FOLLOW {
        return path, Some(ELOOP);
      }
      RelativeText(path, s, d);
      var target := world.readlink(fs, path[indexIntoFs..index - 1]);
      if target.None? {
        NamePushed(path, s, d);
        return path, None;
      }
      if target.value == "" {
        return path, Some(ENOENT);
      }
      if target.value[0] == '/' {
        path, error := SpliceAbsolute(path, target.value, s);
      } else {
        path, error := SpliceRelative(path, target.value, s, d);
      }
    }

    /** The name before index is a link to the absolute path `target`. */
    method SpliceAbsolute(path0: string, target: string, ghost s: State) returns (path: string, error: Option<Error>)
      requires Rooted() && linksFollowed < MAX_LINK_TO_FOLLOW && s.rest != "" && target != "" && target[0] == '/'
      requires path0 == Prefix(s.stack) + s.rest && index == |Prefix(s.stack)| + FirstSlash(s.rest) + 1
      modifies this`fs, this`syms, this`index, this`indexIntoFs, this`depthIntoFs
      ensures if |Spliced(target, s.rest)| > world.pathMax then error == Some(ENAMETOOLONG)
              else error == None && At(path, State([], Spliced(target, s.rest)[1..], linksFollowed))
    {
      hide Join, FirstSlash, Tail, IsLast, LastSlash, MountDepth, FsAt;
      path := path0;
      SpliceText(path, s, target);
      var newPathLen := |target| + |path| - index + 1;
      if newPathLen > world.pathMax {
        return path, Some(ENAMETOOLONG);
      }
      path := target + if index <= |path| then path[index - 1..] else "";
      fs := root;
      syms := world.symlinks(root);
      index := 1;
      indexIntoFs := 1;
      depthIntoFs := 1;
      AtRoot(path, linksFollowed);
      error := None;
    }

    /** The name before index is a link to `target`, relative to the directory it is in. */
    method SpliceRelative(path0: string, target: string, ghost s: State, ghost d: nat)
      returns (path: string, error: Option<Error>)
      requires PastName(path0, s, d) && linksFollowed < MAX_LINK_TO_FOLLOW && depthIntoFs == |s.stack| - d + 2
      modifies this`index, this`depthIntoFs
      ensures if |Prefix(s.stack)| + |Spliced(target, s.rest)| > world.pathMax then error == Some(ENAMETOOLONG)
              else error == None && At(path, State(s.stack, Spliced(target, s.rest), linksFollowed))
    {
      hide Join, FirstSlash, Tail, IsLast, LastSlash, MountDepth, FsAt;
      path := path0;
      SpliceText(path, s, target);
      var removeStart := LastSlash(path, index - 1);
      var newPathLen := |path| - (index - removeStart - 2) + |target|;
      if newPathLen > world.pathMax {
        return path, Some(ENAMETOOLONG);
      }
      path := path[..removeStart + 1] + target + if index <= |path| then path[index - 1..] else "";
      index := removeStart + 1;
      depthIntoFs := depthIntoFs - 1;
      error := None;
    }

    lemma AtRoot(path: string, links: nat)
      requires Rooted() && fs == root && syms == world.symlinks(root) && index == 1 && indexIntoFs == 1
               && depthIntoFs == 1
      requires links == linksFollowed < MAX_LINK_TO_FOLLOW && path != "" && path[0] == '/'
      ensures At(path, State([], path[1..], links))
    {
    }

    /** Handles a name; index is past it and the slash after it, and `follow` says whether to follow a link. */
    method NormalPathComponent(path0: string, follow: bool, ghost s: State, ghost followLast: bool)
      returns (path: string, error: Option<Error>)
      requires PastName(path0, s, MountDepth(world.mounts, s.stack)) && linksFollowed == s.links < MAX_LINK_TO_FOLLOW
      requires depthIntoFs == |s.stack| - MountDepth(world.mounts, s.stack) + 1
      requires follow == (!IsLast(s.rest) || followLast)
      modifies this`fs, this`syms, this`index, this`indexIntoFs, this`depthIntoFs, this`linksFollowed
      ensures var p := Step(world, s, followLast);
              if p.Done? && p.outcome.Err? then error == Some(p.outcome.error) else error == None && After(path, p)
    {
      hide Join, FirstSlash, Tail, IsLast, LastSlash, MountDepth, Relative, FsAt, Step, Follow, After;
      ghost var d := MountDepth(world.mounts, s.stack);
      StepName(world, s, followLast);
      NameText(path0, s);
      path := path0;
      if path[..index - 1] in world.mounts {
        fs := world.mounts[path[..index - 1]];
        syms := world.symlinks(fs);
        indexIntoFs := if index > |path| then index - 1 else index;
        depthIntoFs := 1;
        MountPushed(path, s);
        return path, None;
      }
      depthIntoFs := depthIntoFs + 1;
      if syms && follow {
        RelativeText(path, s, d);
        var kind := world.lstat(fs, path[indexIntoFs..index - 1]);
        if kind == NoEntry {
          // The negative result is lost, and resolution goes on.
          NamePushed(path, s, d);
          return path, None;
        }
        if kind == Link {
          path, error := FollowSymlink(path, s, d);
          return;
        } else if index <= |path| && kind != Directory {
          return path, Some(ENOTDIR);
        }
      }
      NamePushed(path, s, d);
      error := None;
    }

    /** The body of the loop up to the check for the end: one component is handled. */
    method OneComponent(path0: string, followLast: bool, ghost s: State) returns (path: string, error: Option<Error>)
      requires At(path0, s)
      modifies this`fs, this`syms, this`index, this`indexIntoFs, this`depthIntoFs, this`linksFollowed
      ensures var p := StepOrStay(world, s, followLast);
              if p.Done? && p.outcome.Err? then error == Some(p.outcome.error) else error == None && After(path, p)
    {
      hide Join, Tail, IsLast, LastSlash, MountDepth, Relative, FsAt, Step, FirstSlash;
      path := path0;
      error := None;
      assert path[index..] == s.rest;
      RestText(path, s);
      StepSkip(world, s, followLast);
      var slash := index + FirstSlash(path[index..]);
      if slash == index {
        path := Erased(path, index, 1);
      } else if slash - index == 1 && path[index] == '.' {
        path := Erased(path, index, 2);
      } else if slash - index == 2 && path[index] == '.' && path[index + 1] == '.' {
        path, error := UpPathComponent(path, slash, s, followLast);
      } else {
        index := slash + 1;
        var follow := if index > |path| then followLast else true;
        path, error := NormalPathComponent(path, follow, s, followLast);
      }
    }

    /** Removes the slash at the end of a path that has been read. */
    method Finish(path0: string, ghost p: Progress) returns (path: string, r: ResolvedPath)
      requires index >= |path0| && After(path0, p) && (p.Done? ==> p.outcome.Ok?)
      modifies this`indexIntoFs
      ensures var (stack, d) := Landing(world, p);
              && Rooted() && path == Join(stack) && d <= |stack| && (d > 0 ==> Join(stack[..d]) in world.mounts)
              && r == Found(FsAt(world, stack, d), Offset(stack, d))
    {
      hide Tail, IsLast, LastSlash, FsAt, Step, FirstSlash;
      ghost var (stack, d) := Landing(world, p);
      assert AtEnd(path0, stack, d);
      NoSlashAtEnd(stack);
      path := path0;
      var last := |path| - 1;
      if path[last] == '/' {
        path := path[..last];
        JoinLength(stack, d);
        if indexIntoFs > |path| {
          indexIntoFs := |path|;
        }
        assert stack[..|stack|] == stack;
      }
      r := Found(fs, indexIntoFs);
    }

    /** PathResolution::resolvePath; the path must start with a slash. */
    method ResolvePath(path0: string, followLast: bool) returns (path: string, r: ResolvedPath)
      requires path0 != "" && path0[0] == '/'
      modifies this
      ensures if "/" !in world.mounts then r == Failed(ENOENT) else
                match Walk(world, State([], path0[1..], 0), followLast)
                case Ok(stack, d, _) =>
                  path == Join(stack) && d <= |stack| && (d > 0 ==> Join(stack[..d]) in world.mounts)
                  && r == Found(FsAt(world, stack, d), Offset(stack, d))
                case Err(e) => r == Failed(e)
    {
      hide Join, FirstSlash, Tail, IsLast, LastSlash, MountDepth, Relative, FsAt, Step, Walk, Offset;
      path := path0;
      if "/" !in world.mounts {
        return path, Failed(ENOENT);
      }
      root := world.mounts["/"];
      fs := root;
      syms := world.symlinks(fs);
      index := 1;
      indexIntoFs := 1;
      depthIntoFs := 1;
      linksFollowed := 0;
      ghost var s := State([], path0[1..], 0);
      AtRoot(path, 0);
      while true
        invariant At(path, s) && Walk(world, s, followLast) == Walk(world, State([], path0[1..], 0), followLast)
        decreases MAX_LINK_TO_FOLLOW - s.links, |s.rest|
      {
        ghost var p := StepOrStay(world, s, followLast);
        WalkStep(world, s, followLast);
        var error;
        path, error := OneComponent(path, followLast, s);
        if error.Some? {
          return path, Failed(error.value);
        }
        if index >= |path| {
          path, r := Finish(path, p);
          return;
        }
        s := p.next;
      }
    }
  }

  /** How many components of the landing path the search for the filesystem looks at. */
  ghost function UpTop(s: State): nat
    requires s.stack != []
  {
    if IsLast(s.rest) && |s.stack| > 1 then |s.stack| - 2 else |s.stack| - 1
  }

  /** The path after ".." was erased. */
  ghost function UpPath(s: State): string
    requires s.stack != []
  {
    var front := s.stack[..|s.stack| - 1];
    if IsLast(s.rest) && front != [] then Join(front) else Prefix(front) + Tail(s.rest)
  }

  lemma StepUp(w: World, s: State, followLast: bool)
    requires "/" in w.mounts && s.links < MAX_LINK_TO_FOLLOW && FirstSlash(s.rest) == 2 && s.rest[..2] == ".."
    ensures Step(w, s, followLast) ==
            if s.stack == [] then Done(Err(ENOENT))
            else if IsLast(s.rest) then
              Done(Ok(s.stack[..|s.stack| - 1], DepthAfterUp(w.mounts, s.stack), Some(s.stack)))
            else Go(State(s.stack[..|s.stack| - 1], Tail(s.rest), s.links))
    ensures IsLast(s.rest) ==> Tail(s.rest) == ""
    ensures |Prefix(s.stack)| <= 1 <==> s.stack == []
  {
  }

  /** How the deepest mount point changes when a component is taken away. */
  lemma UpMounts(mounts: map<string, Fs>, stack: seq<string>)
    requires stack != []
    ensures var front, d := stack[..|stack| - 1], MountDepth(mounts, stack);
            && |Join(front)| + 1 < |Join(stack)| + 1
            && (d < |stack|
                ==> MountDepth(mounts, front) == d && front[..d] == stack[..d] && DepthAfterUp(mounts, stack) == d)
            && (d == |stack|
                ==> DepthAfterUp(mounts, stack) == MountDepth(mounts, front[..if |front| > 0 then |front| - 1 else 0]))
    ensures var front := stack[..|stack| - 1]; front[..|front|] == front
  {
    hide FirstSlash, Tail, IsComponent, Clean, Join, MountDepth, DepthAfterUp;
    JoinLength(stack, |stack| - 1);
    FrontMounts(mounts, stack);
  }

  lemma FrontMounts(mounts: map<string, Fs>, stack: seq<string>)
    requires stack != []
    ensures var front, d := stack[..|stack| - 1], MountDepth(mounts, stack);
            && (d < |stack|
                ==> MountDepth(mounts, front) == d && front[..d] == stack[..d] && DepthAfterUp(mounts, stack) == d)
            && (d == |stack|
                ==> DepthAfterUp(mounts, stack) == MountDepth(mounts, front[..if |front| > 0 then |front| - 1 else 0]))
  {
    hide FirstSlash, Tail, IsComponent, Clean, Join;
    var front := stack[..|stack| - 1];
    assert front[..if |front| > 0 then |front| - 1 else 0] == stack[..if |stack| >= 2 then |stack| - 2 else 0];
    assert stack[..|stack|] == stack;
  }

  /** What erasing "name/.." leaves. */
  lemma UpText(path: string, s: State)
    requires s.stack != [] && path == Prefix(s.stack) + s.rest && FirstSlash(s.rest) == 2
    ensures var front := s.stack[..|s.stack| - 1];
            |Join(front)| <= |path| && path[..|Join(front)|] == Join(front)
            && (var p := path[..|Join(front)|] + path[|Prefix(s.stack)| + 2..]; UpPath(s) == if p == "" then "/" else p)
  {
  }

  /** After ".." was erased, the search for the filesystem starts at the path left, or one component below
      it when nothing follows. */
  lemma UpSlash(path: string, s: State, index: nat)
    requires s.stack != [] && Clean(s.stack) && path == UpPath(s) && index == |Prefix(s.stack[..|s.stack| - 1])|
    ensures var front := s.stack[..|s.stack| - 1];
            Join(front) <= path && LastSlash(path, index) == |Join(front[..UpTop(s)])|
  {
    var front := s.stack[..|s.stack| - 1];
    if IsLast(s.rest) && front != [] {
      LastSlashOfJoin(path, front, index);
    } else {
      assert front[..|front|] == front;
      assert path[|Join(front)|] == '/';
    }
  }

  lemma PushText(stack: seq<string>, rest: string)
    requires rest != "" && IsComponent(rest[..FirstSlash(rest)])
    ensures var pushed := stack + [rest[..FirstSlash(rest)]];
            && |Join(pushed)| == |Prefix(stack)| + FirstSlash(rest)
            && Prefix(stack) + rest == if IsLast(rest) then Join(pushed) else Prefix(pushed) + Tail(rest)
    ensures IsLast(rest) ==> Tail(rest) == ""
  {
    hide FirstSlash, MountDepth, Clean, IsComponent, Join;
    var c := rest[..FirstSlash(rest)];
    JoinPush(stack, c);
    if IsLast(rest) {
      assert rest == c;
    } else {
      assert rest == c + "/" + Tail(rest);
      assert Prefix(stack) + rest == Prefix(stack) + c + "/" + Tail(rest);
    }
  }

  lemma JoinPush(stack: seq<string>, c: string)
    ensures Join(stack + [c]) == Prefix(stack) + c
  {
  }

  lemma PushMounts(mounts: map<string, Fs>, stack: seq<string>, c: string)
    ensures var d := MountDepth(mounts, stack);
            && MountDepth(mounts, stack + [c]) == (if Join(stack + [c]) in mounts then |stack| + 1 else d)
            && (stack + [c])[..d] == stack[..d]
  {
  }

  /** The part of the path that names the link within its filesystem. */
  lemma RelativeText(path: string, s: State, d: nat)
    requires s.rest != "" && IsComponent(s.rest[..FirstSlash(s.rest)]) && path == Prefix(s.stack) + s.rest
    requires d <= |s.stack|
    ensures var pushed := s.stack + [s.rest[..FirstSlash(s.rest)]];
            var end := |Prefix(s.stack)| + FirstSlash(s.rest);
            && |Join(s.stack[..d])| + 1 <= end <= |path|
            && path[|Join(s.stack[..d])| + 1..end] == Relative(pushed, d)
  {
    hide FirstSlash, Tail;
    var pushed := s.stack + [s.rest[..FirstSlash(s.rest)]];
    PushText(s.stack, s.rest);
    JoinLength(pushed, d);
    assert pushed[..d] == s.stack[..d];
    var end := |Prefix(s.stack)| + FirstSlash(s.rest);
    assert path[..end] == Join(pushed);
    assert path[|Join(s.stack[..d])| + 1..end] == path[..end][|Join(s.stack[..d])| + 1..];
  }

  /** The slash before a name is the end of the path of the stack. */
  lemma SlashBeforeName(path: string, s: State)
    requires path == Prefix(s.stack) + s.rest
    ensures LastSlash(path, |Prefix(s.stack)| + FirstSlash(s.rest)) == |Prefix(s.stack)| - 1
  {
    hide Join, FirstSlash;
    var i := FirstSlash(s.rest);
    assert path[|Prefix(s.stack)| - 1] == '/';
    forall j | |Prefix(s.stack)| <= j < |Prefix(s.stack)| + i ensures path[j] != '/' {
      assert path[j] == s.rest[..i][j - |Prefix(s.stack)|];
      assert s.rest[..i][j - |Prefix(s.stack)|] in s.rest[..i];
    }
  }

  /** What the splicing of a link target amounts to. */
  lemma SpliceText(path: string, s: State, target: string)
    requires s.rest != "" && path == Prefix(s.stack) + s.rest
    ensures var index := |Prefix(s.stack)| + FirstSlash(s.rest) + 1;
            && LastSlash(path, index - 1) == |Prefix(s.stack)| - 1
            && path[..|Prefix(s.stack)|] == Prefix(s.stack)
            && target + (if index <= |path| then path[index - 1..] else "") == Spliced(target, s.rest)
            && Spliced(target, s.rest)[..|target|] == target
  {
    hide Tail, Join, FirstSlash, LastSlash;
    SlashBeforeName(path, s);
    if !IsLast(s.rest) {
      TailText(s.rest);
      assert path[|Prefix(s.stack)| + FirstSlash(s.rest)..] == s.rest[FirstSlash(s.rest)..];
    }
  }

  lemma TailText(rest: string)
    requires !IsLast(rest)
    ensures rest[FirstSlash(rest)..] == "/" + Tail(rest)
  {
  }

  // ---------------------------------------------------------------- the loop

  /** std::string::erase, which stops at the end of the string. */
  function Erased(s: string, i: nat, n: nat): string
    requires i <= |s|
  {
    s[..i] + if i + n <= |s| then s[i + n..] else ""
  }

  ghost function StepOrStay(w: World, s: State, followLast: bool): Progress
    requires "/" in w.mounts && s.links < MAX_LINK_TO_FOLLOW
  {
    if s.rest == "" then Go(s) else Step(w, s, followLast)
  }

  /** Where resolution ends if nothing is left to read. */
  ghost function Landing(w: World, p: Progress): (seq<string>, nat)
    requires p.Done? ==> p.outcome.Ok?
  {
    match p
    case Go(n) => (n.stack, MountDepth(w.mounts, n.stack))
    case Done(Ok(stack, d, _)) => (stack, d)
  }

  lemma WalkStep(w: World, s: State, followLast: bool)
    requires "/" in w.mounts && s.links < MAX_LINK_TO_FOLLOW
    ensures var p := StepOrStay(w, s, followLast);
            Walk(w, s, followLast) ==
            if p.Done? then p.outcome
            else if p.next.rest == "" then Ok(p.next.stack, MountDepth(w.mounts, p.next.stack), None)
            else Walk(w, p.next, followLast)
  {
  }

  /** What the tests on the characters at index say about the component there. */
  lemma RestText(path: string, s: State)
    requires path == Prefix(s.stack) + s.rest
    ensures var c, index := s.rest[..FirstSlash(s.rest)], |Prefix(s.stack)|;
            && (FirstSlash(s.rest) == 0 <==> c == "")
            && (FirstSlash(s.rest) == 1 && path[index] == '.' <==> c == ".")
            && (FirstSlash(s.rest) == 2 && path[index] == '.' && path[index + 1] == '.' <==> c == "..")
            && (c == "" ==> Erased(path, index, 1) == Prefix(s.stack) + Tail(s.rest))
            && (c == "." ==> Erased(path, index, 2) == Prefix(s.stack) + Tail(s.rest))
            && (IsLast(s.rest) <==> index + FirstSlash(s.rest) + 1 > |path|)
  {
  }

  /** An empty component and "." are skipped. */
  lemma StepSkip(w: World, s: State, followLast: bool)
    requires "/" in w.mounts && s.links < MAX_LINK_TO_FOLLOW
    ensures var c := s.rest[..FirstSlash(s.rest)];
            c == "" || c == "." ==> StepOrStay(w, s, followLast) == Go(s.(rest := Tail(s.rest)))
  {
  }

  lemma StepName(w: World, s: State, followLast: bool)
    requires "/" in w.mounts && s.links < MAX_LINK_TO_FOLLOW && IsComponent(s.rest[..FirstSlash(s.rest)])
    ensures var pushed, d := s.stack + [s.rest[..FirstSlash(s.rest)]], MountDepth(w.mounts, s.stack);
            var fs, past := FsAt(w, s.stack, d), Go(State(pushed, Tail(s.rest), s.links));
            Step(w, s, followLast) ==
            if Join(pushed) in w.mounts || !w.symlinks(fs) || (IsLast(s.rest) && !followLast) then past
            else
              match w.lstat(fs, Relative(pushed, d))
              case Link => Follow(w, s, w.readlink(fs, Relative(pushed, d)))
              case Other => if IsLast(s.rest) then past else Done(Err(ENOTDIR))
              case _ => past
  {
    PushMounts(w.mounts, s.stack, s.rest[..FirstSlash(s.rest)]);
  }

  lemma NameText(path: string, s: State)
    requires s.rest != "" && IsComponent(s.rest[..FirstSlash(s.rest)]) && path == Prefix(s.stack) + s.rest
    ensures path[..|Prefix(s.stack)| + FirstSlash(s.rest)] == Join(s.stack + [s.rest[..FirstSlash(s.rest)]])
    ensures IsLast(s.rest) <==> |Prefix(s.stack)| + FirstSlash(s.rest) + 1 > |path|
  {
  }

  lemma NoSlashAtEnd(stack: seq<string>)
    requires Clean(stack)
    ensures stack != [] ==> Join(stack)[|Join(stack)| - 1] != '/'
  {
  }
}
