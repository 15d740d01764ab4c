/**
  lib/path.js for POSIX: `normalize`, `join` and `resolve`, and the backward scan they share.

  The specification is a forward walk from directory to directory.
 */
module Paths {
  import opened Strings

  /** A directory: `above` levels up from where the walk began, then down through `names`. */
  datatype Place = Place(above: nat, names: seq<string>)

  const HERE := Place(0, [])

  /** One step of the walk.  There is nothing above the root. */
  function Step(p: Place, part: string, rooted: bool): Place {
    if part == "." then p
    else if part != ".." then p.(names := p.names + [part])
    else if p.names != [] then p.(names := p.names[..|p.names| - 1])
    else if rooted then p
    else p.(above := p.above + 1)
  }

  function Walk(p: Place, parts: seq<string>, rooted: bool): Place
    decreases |parts|
  {
    if parts == [] then p else Walk(Step(p, parts[0], rooted), parts[1..], rooted)
  }

  lemma {:induction false} WalkConcat(p: Place, a: seq<string>, b: seq<string>, rooted: bool)
    ensures Walk(p, a + b, rooted) == Walk(Walk(p, a, rooted), b, rooted)
    decreases |a|
  {
    if a == [] {
      assert a + b == b;
    } else {
      assert (a + b)[1..] == a[1..] + b;
      WalkConcat(Step(p, a[0], rooted), a[1..], b, rooted);
    }
  }

  function Ups(n: nat): (u: seq<string>)
    ensures |u| == n && forall k :: 0 <= k < n ==> u[k] == ".."
  {
    seq(n, k => "..")
  }

  /** The shortest way to a place. */
  function Way(p: Place): seq<string> {
    Ups(p.above) + p.names
  }

  // The backward scan.

  /** What a stretch of path does: leave `up` directories, then enter those of `down`. */
  datatype Summary = Summary(up: nat, down: seq<string>)

  function Before(part: string, s: Summary): Summary {
    if part == "." then s
    else if part == ".." then s.(up := s.up + 1)
    else if s.up > 0 then s.(up := s.up - 1)
    else s.(down := [part] + s.down)
  }

  function Summarize(parts: seq<string>): Summary {
    if parts == [] then Summary(0, []) else Before(parts[0], Summarize(parts[1..]))
  }

  function Follow(p: Place, s: Summary, rooted: bool): Place {
    if s.up <= |p.names| then p.(names := p.names[..|p.names| - s.up] + s.down)
    else Place(if rooted then p.above else p.above + s.up - |p.names|, s.down)
  }

  /** The scan from the end agrees with the walk from the beginning, wherever that begins. */
  lemma {:induction false} SummaryIsWalk(p: Place, parts: seq<string>, rooted: bool)
    ensures Walk(p, parts, rooted) == Follow(p, Summarize(parts), rooted)
    decreases |parts|
  {
    if parts != [] {
      SummaryIsWalk(Step(p, parts[0], rooted), parts[1..], rooted);
    }
  }

  lemma SummarizeFrom(parts: seq<string>, i: nat)
    requires i < |parts|
    ensures Summarize(parts[i..]) == Before(parts[i], Summarize(parts[i + 1..]))
  {
    assert parts[i..][1..] == parts[i + 1..];
  }

  /** `parts.splice(i, 1)` while the parts up to `i` are untouched. */
  lemma Splice(input: seq<string>, i: nat, down: seq<string>)
    requires i < |input|
    ensures var parts := input[..i + 1] + down;
            && parts[i] == input[i]
            && parts[..i] + parts[i + 1..] == input[..i] + down
            && parts == input[..i] + ([input[i]] + down)
  {
  }

  method NormalizeArray(input: seq<string>, allowAboveRoot: bool) returns (parts: seq<string>)
    ensures parts == Way(Walk(HERE, input, !allowAboveRoot))
  {
    parts := input;
    SummaryIsWalk(HERE, input, !allowAboveRoot);
    assert Summarize([]) == Summary(0, []);
    hide Summarize, Walk;
    var up := 0;
    var i := |parts|;
    ghost var down: seq<string> := [];
    while i >= 0
      invariant -1 <= i <= |input| && up >= 0
      invariant i == |input| ==> parts == input && up == 0 && down == []
      invariant i < |input| ==> parts == input[..i + 1] + down
      invariant i < |input| ==> Summarize(input[i + 1..]) == Summary(up, down)
    {
      if i < |input| {  // the first time, `parts[i]` is undefined and `up` is 0
        SummarizeFrom(input, i);
        Splice(input, i, down);
        var last := parts[i];
        if last == "." {
          parts := parts[..i] + parts[i + 1..];
        } else if last == ".." {
          parts := parts[..i] + parts[i + 1..];
          up := up + 1;
        } else if up != 0 {
          parts := parts[..i] + parts[i + 1..];
          up := up - 1;
        } else {
          down := [last] + down;
        }
      }
      i := i - 1;
    }
    assert input[0..] == input && input[..0] + down == down;
    if allowAboveRoot {
      parts := RestoreUps(parts, up);
    } else {
      assert Ups(0) + down == down;
    }
  }

  /** The last loop of `normalizeArray`. */
  method RestoreUps(down: seq<string>, count: nat) returns (parts: seq<string>)
    ensures parts == Ups(count) + down
  {
    parts := down;
    var up := count;
    while up != 0
      invariant 0 <= up <= count
      invariant parts == Ups(count - up) + down
      decreases up
    {
      up := up - 1;
      parts := [".."] + parts;
    }
  }

  lemma {:induction false} WalkHasNoDots(p: Place, parts: seq<string>, rooted: bool)
    requires "." !in p.names && ".." !in p.names && (rooted ==> p.above == 0)
    ensures var q := Walk(p, parts, rooted);
            "." !in q.names && ".." !in q.names && (rooted ==> q.above == 0)
    decreases |parts|
  {
    if parts != [] {
      WalkHasNoDots(Step(p, parts[0], rooted), parts[1..], rooted);
    }
  }

  /** The result of `NormalizeArray` has no '.', and '..' only in front, where it is allowed. */
  lemma ArrayShape(parts: seq<string>, allowAboveRoot: bool)
    ensures var p := Walk(HERE, parts, !allowAboveRoot);
            && "." !in Way(p)
            && (forall k :: 0 <= k < |Way(p)| ==> (Way(p)[k] == ".." <==> k < p.above))
            && (!allowAboveRoot ==> p.above == 0)
  {
    WalkHasNoDots(HERE, parts, !allowAboveRoot);
  }

  // Paths as text.

  predicate Rooted(path: string) {
    path != "" && path[0] == '/'
  }

  predicate Trailing(path: string) {
    path != "" && path[|path| - 1] == '/'
  }

  function NonEmpty(parts: seq<string>): seq<string> {
    if parts == [] then [] else (if parts[0] == "" then [] else [parts[0]]) + NonEmpty(parts[1..])
  }

  function Parts(path: string): seq<string> {
    NonEmpty(Split(path, '/'))
  }

  /** The text of a directory: what `resolve` returns, and `normalize` but for the trailing slash. */
  function Text(rooted: bool, way: seq<string>, trailing: bool): string {
    if way == [] then
      if rooted then "/" else if trailing then "./" else "."
    else
      (if rooted then "/" else "") + Join(way, '/') + if trailing then "/" else ""
  }

  predicate Name(part: string) {
    part != "" && '/' !in part
  }

  predicate Segment(part: string) {
    Name(part) && part != "." && part != ".."
  }

  predicate Names(parts: seq<string>) {
    forall p :: p in parts ==> Name(p)
  }

  predicate Clean(p: Place) {
    forall n :: n in p.names ==> Segment(n)
  }

  lemma {:induction false} NonEmptyConcat(a: seq<string>, b: seq<string>)
    ensures NonEmpty(a + b) == NonEmpty(a) + NonEmpty(b)
  {
    if a == [] {
      assert a + b == b;
    } else {
      assert (a + b)[1..] == a[1..] + b;
      NonEmptyConcat(a[1..], b);
    }
  }

  lemma {:induction false} NonEmptyOf(parts: seq<string>)
    requires forall p :: p in parts ==> '/' !in p
    ensures Names(NonEmpty(parts))
    ensures Names(parts) ==> NonEmpty(parts) == parts
  {
    if parts != [] {
      NonEmptyOf(parts[1..]);
      assert parts == [parts[0]] + parts[1..];
      if Names(parts) {
        assert Name(parts[0]);
      }
    }
  }

  lemma PartsAreNames(path: string)
    ensures Names(Parts(path))
  {
    SplitParts(path, '/');
    NonEmptyOf(Split(path, '/'));
  }

  lemma PartsConcat(a: string, b: string)
    ensures Parts(a + "/" + b) == Parts(a) + Parts(b)
  {
    SplitAt(a, '/', b);
    NonEmptyConcat(Split(a, '/'), Split(b, '/'));
  }

  lemma PartsOfSlash(s: string)
    ensures Parts("/" + s) == Parts(s) == Parts(s + "/")
    ensures Parts("") == []
  {
    assert Parts("") == [];
    PartsConcat("", s);
    PartsConcat(s, "");
    assert "" + "/" + s == "/" + s && s + "/" + "" == s + "/";
  }

  lemma PartsOfJoin(way: seq<string>)
    requires Names(way)
    ensures Parts(Join(way, '/')) == way
  {
    if way == [] {
      PartsOfSlash("");
    } else {
      SplitJoin(way, '/');
      NonEmptyOf(way);
    }
  }

  lemma {:induction false} JoinEnds(way: seq<string>)
    requires Names(way) && way != []
    ensures var t := Join(way, '/'); t != "" && t[0] != '/' && t[|t| - 1] != '/'
  {
    assert Name(way[0]);
    if |way| > 1 {
      JoinEnds(way[1..]);
    }
  }

  /** A text tells which directory it is of. */
  lemma TextTells(rooted: bool, way: seq<string>, trailing: bool)
    requires Names(way)
    ensures var t := Text(rooted, way, trailing);
            && t != ""
            && Rooted(t) == rooted
            && Trailing(t) == (trailing || (rooted && way == []))
            && Parts(t) == if way == [] && !rooted then ["."] else way
  {
    hide Parts, Names;
    if way == [] {
      PartsOfSlash("");
      PartsOfSlash(".");
      assert "/" == "/" + "" && "./" == "." + "/";
      NamesOfDot();
      PartsOfJoin(["."]);
    } else {
      JoinEnds(way);
      PartsOfJoin(way);
      PartsOfSlash(Join(way, '/'));
      PartsOfSlash("/" + Join(way, '/'));
      var front := (if rooted then "/" else "") + Join(way, '/');
      assert !rooted ==> front == Join(way, '/');
      assert front + "" == front;
    }
  }

  lemma NamesOfDot()
    ensures Names(["."])
  {
  }

  // Where walks lead.

  lemma {:induction false} WalkIsClean(p: Place, parts: seq<string>, rooted: bool)
    requires Names(parts) && Clean(p) && (rooted ==> p.above == 0)
    ensures Clean(Walk(p, parts, rooted))
    ensures rooted ==> Walk(p, parts, rooted).above == 0
    decreases |parts|
  {
    if parts != [] {
      assert Name(parts[0]);
      WalkIsClean(Step(p, parts[0], rooted), parts[1..], rooted);
    }
  }

  lemma WayIsNames(p: Place)
    requires Clean(p)
    ensures Names(Way(p))
  {
    forall n | n in Way(p)
      ensures Name(n)
    {
      assert n == ".." || n in p.names;
    }
  }

  /** Where the parts of a path lead. */
  function Target(path: string): Place {
    Walk(HERE, Parts(path), Rooted(path))
  }

  lemma TargetIsClean(path: string)
    ensures Clean(Target(path)) && Names(Way(Target(path)))
    ensures Rooted(path) ==> Target(path).above == 0
  {
    PartsAreNames(path);
    WalkIsClean(HERE, Parts(path), Rooted(path));
    WayIsNames(Target(path));
  }

  lemma {:induction false} WalkUp(p: Place, n: nat)
    requires p.names == []
    ensures Walk(p, Ups(n), false) == p.(above := p.above + n)
    decreases n
  {
    if n > 0 {
      assert Ups(n)[1..] == Ups(n - 1);
      WalkUp(p.(above := p.above + 1), n - 1);
    }
  }

  lemma {:induction false} WalkDown(p: Place, names: seq<string>, rooted: bool)
    requires forall n :: n in names ==> Segment(n)
    ensures Walk(p, names, rooted) == p.(names := p.names + names)
    decreases |names|
  {
    if names != [] {
      assert Segment(names[0]);
      WalkDown(p.(names := p.names + [names[0]]), names[1..], rooted);
      assert p.names + [names[0]] + names[1..] == p.names + names;
    } else {
      assert p.names + names == p.names;
    }
  }

  /** The way to a place leads there. */
  lemma WalkTheWay(p: Place, rooted: bool)
    requires Clean(p) && (rooted ==> p.above == 0)
    ensures Walk(HERE, Way(p), rooted) == p
  {
    if !rooted {
      WalkUp(HERE, p.above);
    }
    WalkDown(Place(p.above, []), p.names, rooted);
    WalkConcat(HERE, Ups(p.above), p.names, rooted);
  }

  // `normalize`, `join` and `resolve`.

  function Normalized(path: string): string {
    Text(Rooted(path), Way(Target(path)), Trailing(path))
  }

  method Normalize(input: string) returns (path: string)
    ensures path == Normalized(input)
  {
    hide Walk, Split, Join, Way;
    var isAbsolute := input != "" && input[0] == '/';
    var trailingSlash := input != "" && input[|input| - 1] == '/';
    var parts := NormalizeArray(NonEmpty(Split(input, '/')), !isAbsolute);
    path := Join(parts, '/');
    TextEmpty(input);
    if path == "" && !isAbsolute {
      path := ".";
    }
    if path != "" && trailingSlash {
      path := path + "/";
    }
    path := (if isAbsolute then "/" else "") + path;
  }

  lemma TextEmpty(input: string)
    ensures Join(Way(Target(input)), '/') == "" <==> Way(Target(input)) == []
  {
    hide Target, Way;
    TargetIsClean(input);
    if Way(Target(input)) != [] {
      JoinEnds(Way(Target(input)));
    }
  }

  /** A normalized path leads to the same place, which is as clean as can be. */
  lemma NormalizedTells(path: string)
    ensures var n := Normalized(path);
            && n != ""
            && Rooted(n) == Rooted(path)
            && Target(n) == Target(path)
            && Trailing(n) == (Trailing(path) || (Rooted(path) && Way(Target(path)) == []))
  {
    hide Parts, Way, Rooted, Trailing;
    TargetIsClean(path);
    TextTells(Rooted(path), Way(Target(path)), Trailing(path));
    WalkTheWay(Target(path), Rooted(path));
  }

  lemma NormalizedTwice(path: string)
    ensures Normalized(Normalized(path)) == Normalized(path)
  {
    hide Target, Rooted, Trailing;
    NormalizedTells(path);
  }

  function Joined(paths: seq<string>): string {
    Normalized(Join(NonEmpty(paths), '/'))
  }

  method JoinPaths(paths: seq<string>) returns (path: string)
    ensures path == Joined(paths)
  {
    path := Normalize(Join(NonEmpty(paths), '/'));
  }

  /** Only the place an earlier path leads to matters to what comes after it. */
  lemma NormalizedFirst(a: string, b: string)
    requires a != "" && b != ""
    ensures Normalized(Normalized(a) + "/" + b) == Normalized(a + "/" + b)
  {
    hide Parts, Walk, Normalized;
    var n := Normalized(a);
    NormalizedTells(a);
    PartsConcat(a, b);
    PartsConcat(n, b);
    WalkConcat(HERE, Parts(a), Parts(b), Rooted(a));
    WalkConcat(HERE, Parts(n), Parts(b), Rooted(a));
    SameText(a + "/" + b, n + "/" + b);
  }

  lemma SameText(p: string, q: string)
    requires Rooted(p) == Rooted(q) && Trailing(p) == Trailing(q) && Target(p) == Target(q)
    ensures Normalized(p) == Normalized(q)
  {
  }

  predicate AllNonEmpty(parts: seq<string>) {
    forall p :: p in parts ==> p != ""
  }

  lemma {:induction false} NonEmptyIs(parts: seq<string>)
    ensures AllNonEmpty(NonEmpty(parts))
  {
    if parts != [] {
      NonEmptyIs(parts[1..]);
    }
  }

  lemma {:induction false} JoinOfNonEmpty(parts: seq<string>)
    requires AllNonEmpty(parts) && parts != []
    ensures Join(parts, '/') != "" && Rooted(Join(parts, '/')) == Rooted(parts[0])
  {
    assert parts[0] in parts;
  }

  /** Paths can be joined in stages, unless the first stage is empty and the second begins at the
      root; then they never can. */
  lemma JoinInStages(xs: seq<string>, ys: seq<string>)
    ensures Joined([Joined(xs)] + ys) == Joined(xs + ys)
            <==> !(NonEmpty(xs) == [] && NonEmpty(ys) != [] && Rooted(NonEmpty(ys)[0]))
  {
    hide Normalized, Rooted;
    var a, b := NonEmpty(xs), NonEmpty(ys);
    var n := Joined(xs);
    NormalizedTells(Join(a, '/'));
    NonEmptyConcat(xs, ys);
    NonEmptyConcat([n], ys);
    assert NonEmpty([n]) == [n];
    NonEmptyIs(xs);
    NonEmptyIs(ys);
    if b == [] {
      assert a + b == a && [n] + b == [n];
      NormalizedTwice(Join(a, '/'));
    } else {
      JoinOfNonEmpty(b);
      JoinConcat([n], b, '/');
      if a != [] {
        JoinOfNonEmpty(a);
        JoinConcat(a, b, '/');
        NormalizedFirst(Join(a, '/'), Join(b, '/'));
      } else {
        assert a + b == b;
        NothingFirst(Join(b, '/'));
      }
    }
  }

  lemma JoinExample()
    ensures Joined([Joined([""]), "/a"]) != Joined(["", "/a"])
  {
    hide Joined;
    JoinInStages([""], ["/a"]);
    assert [""] + ["/a"] == ["", "/a"];
    assert [Joined([""])] + ["/a"] == [Joined([""]), "/a"];
    assert NonEmpty(["/a"]) == ["/a"] && NonEmpty([""]) == [];
  }

  lemma NothingFirst(b: string)
    requires b != ""
    ensures Normalized("") == "."
    ensures Normalized("." + "/" + b) == Normalized(b) <==> !Rooted(b)
  {
    PartsOfSlash("");
    var t := "." + "/" + b;
    if Rooted(b) {
      NormalizedTells(b);
      NormalizedTells(t);
    } else {
      NamesOfDot();
      PartsOfJoin(["."]);
      PartsConcat(".", b);
      WalkConcat(HERE, ["."], Parts(b), false);
      assert Walk(HERE, ["."], false) == HERE;
      SameText(t, b);
    }
  }

  /** Where a process is. */
  datatype Directory = Directory(rooted: bool, place: Place)

  const NOWHERE := Directory(false, HERE)

  function Cd(d: Directory, path: string): Directory {
    if path == "" then d
    else if Rooted(path) then Directory(true, Target(path))
    else d.(place := Walk(d.place, Parts(path), d.rooted))
  }

  function CdAll(d: Directory, paths: seq<string>): Directory
    decreases |paths|
  {
    if paths == [] then d else CdAll(Cd(d, paths[0]), paths[1..])
  }

  function Named(d: Directory): string {
    Text(d.rooted, Way(d.place), false)
  }

  /** Go to `cwd`, then to each path from there. */
  function Resolved(cwd: string, paths: seq<string>): string {
    Named(CdAll(NOWHERE, [cwd] + paths))
  }

  /** Where the paths already read lead, from `d`. */
  function Reached(d: Directory, resolvedPath: string, resolvedAbsolute: bool): Directory {
    if resolvedAbsolute then Directory(true, Walk(HERE, Parts(resolvedPath), true))
    else d.(place := Walk(d.place, Parts(resolvedPath), d.rooted))
  }

  /** One round of `resolve`'s loop. */
  lemma ReachedFirst(d: Directory, path: string, resolvedPath: string)
    requires path != ""
    ensures Reached(Cd(d, path), resolvedPath, false) == Reached(d, path + "/" + resolvedPath, Rooted(path))
  {
    hide Parts, Walk;
    PartsConcat(path, resolvedPath);
    WalkConcat(HERE, Parts(path), Parts(resolvedPath), true);
    WalkConcat(d.place, Parts(path), Parts(resolvedPath), d.rooted);
  }

  lemma Round(path: string, rest: seq<string>, resolvedPath: string)
    requires forall d :: CdAll(d, rest) == Reached(d, resolvedPath, false)
    ensures var further := if path == "" then resolvedPath else path + "/" + resolvedPath;
            forall d :: CdAll(d, [path] + rest) == Reached(d, further, Rooted(path))
  {
    hide Reached, Rooted;
    var further := if path == "" then resolvedPath else path + "/" + resolvedPath;
    forall d
      ensures CdAll(d, [path] + rest) == Reached(d, further, Rooted(path))
    {
      assert ([path] + rest)[1..] == rest;
      if path == "" {
        EmptyPath(d, resolvedPath);
      } else {
        ReachedFirst(d, path, resolvedPath);
      }
    }
  }

  lemma EmptyPath(d: Directory, resolvedPath: string)
    ensures Cd(d, "") == d && !Rooted("")
  {
  }

  lemma {:induction false} CdAllConcat(d: Directory, a: seq<string>, b: seq<string>)
    ensures CdAll(d, a + b) == CdAll(CdAll(d, a), b)
    decreases |a|
  {
    if a == [] {
      assert a + b == b;
    } else {
      assert (a + b)[1..] == a[1..] + b;
      CdAllConcat(Cd(d, a[0]), a[1..], b);
    }
  }

  lemma NothingRead()
    ensures forall d :: CdAll(d, []) == Reached(d, "", false)
  {
    PartsOfSlash("");
  }

  /** What `resolve` makes of the path it has put together. */
  lemma Finished(cwd: string, paths: seq<string>, at: nat, resolvedPath: string, resolvedAbsolute: bool)
    requires at <= |paths| + 1 && (!resolvedAbsolute ==> at == 0)
    requires forall d :: CdAll(d, ([cwd] + paths)[at..]) == Reached(d, resolvedPath, resolvedAbsolute)
    ensures var way := Way(Walk(HERE, Parts(resolvedPath), resolvedAbsolute));
            && Resolved(cwd, paths) == Text(resolvedAbsolute, way, false)
            && (Join(way, '/') == "" <==> way == [])
  {
    hide Cd, CdAll, Walk, Parts;
    var all := [cwd] + paths;
    CdAllConcat(NOWHERE, all[..at], all[at..]);
    assert all == all[..at] + all[at..];
    var d := CdAll(NOWHERE, all[..at]);
    assert at == 0 ==> d == NOWHERE by { NothingAll(all); }
    PartsAreNames(resolvedPath);
    WalkIsClean(HERE, Parts(resolvedPath), resolvedAbsolute);
    WayIsNames(Walk(HERE, Parts(resolvedPath), resolvedAbsolute));
    var way := Way(Walk(HERE, Parts(resolvedPath), resolvedAbsolute));
    if way != [] {
      JoinEnds(way);
    }
  }

  lemma NothingAll(all: seq<string>)
    ensures CdAll(NOWHERE, all[..0]) == NOWHERE
  {
  }

  method Resolve(cwd: string, paths: seq<string>) returns (resolved: string)
    ensures resolved == Resolved(cwd, paths)
  {
    hide Cd, CdAll, Reached, Walk, Way, Split, Join, Resolved;
    var resolvedPath := "";
    var resolvedAbsolute := false;
    ghost var all := [cwd] + paths;
    ghost var at := |all|;
    var i := |paths|;
    NothingRead();
    assert all[at..] == [];
    while i >= -1 && !resolvedAbsolute
      invariant -2 <= i <= |paths|
      invariant at == if i == |paths| then |all| else i + 2
      invariant forall d :: CdAll(d, all[at..]) == Reached(d, resolvedPath, resolvedAbsolute)
    {
      if i < |paths| {  // `arguments[arguments.length]` is undefined, and skipped
        var path := if i >= 0 then paths[i] else cwd;
        Round(path, all[at..], resolvedPath);
        at := at - 1;
        assert all[at..] == [path] + all[at + 1..];
        if path != "" {
          resolvedPath := path + "/" + resolvedPath;
          resolvedAbsolute := path[0] == '/';
        }
      }
      i := i - 1;
    }
    Finished(cwd, paths, at, resolvedPath, resolvedAbsolute);
    var parts := NormalizeArray(NonEmpty(Split(resolvedPath, '/')), !resolvedAbsolute);
    resolved := (if resolvedAbsolute then "/" else "") + Join(parts, '/');
    if resolved == "" {
      resolved := ".";
    }
  }

  // What `resolve` promises.

  lemma {:induction false} CdAllIsClean(d: Directory, paths: seq<string>)
    requires Clean(d.place) && (d.rooted ==> d.place.above == 0)
    ensures var e := CdAll(d, paths); Clean(e.place) && (e.rooted ==> e.place.above == 0) && (d.rooted ==> e.rooted)
    decreases |paths|
  {
    hide Walk, Clean;
    if paths != [] {
      TargetIsClean(paths[0]);
      PartsAreNames(paths[0]);
      WalkIsClean(d.place, Parts(paths[0]), d.rooted);
      CdAllIsClean(Cd(d, paths[0]), paths[1..]);
    }
  }

  /** From an absolute directory, the result is absolute and names each directory on the way. */
  lemma ResolvedIsAbsolute(cwd: string, paths: seq<string>)
    requires Rooted(cwd)
    ensures var d := CdAll(Directory(true, Target(cwd)), paths);
            && d.rooted && d.place.above == 0 && Clean(d.place)
            && Resolved(cwd, paths) == "/" + Join(d.place.names, '/')
            && Parts(Resolved(cwd, paths)) == d.place.names
            && Target(Resolved(cwd, paths)) == d.place
  {
    hide Parts, Walk, Split, Clean;
    var d := CdAll(Directory(true, Target(cwd)), paths);
    TargetIsClean(cwd);
    CdAllIsClean(Directory(true, Target(cwd)), paths);
    assert CdAll(NOWHERE, [cwd] + paths) == d by { assert ([cwd] + paths)[1..] == paths; }
    WayIsNames(d.place);
    assert Way(d.place) == d.place.names;
    TextTells(true, Way(d.place), false);
    WalkTheWay(d.place, true);
  }

  /** Resolving in stages comes to the same. */
  lemma ResolveInStages(cwd: string, xs: seq<string>, ys: seq<string>)
    requires Rooted(cwd)
    ensures Resolved(cwd, [Resolved(cwd, xs)] + ys) == Resolved(cwd, xs + ys)
  {
    hide Parts, Walk, Resolved, Target, Join;
    var here := Directory(true, Target(cwd));
    var r := Resolved(cwd, xs);
    ResolvedIsAbsolute(cwd, xs);
    ResolvedIsAbsolute(cwd, [r] + ys);
    ResolvedIsAbsolute(cwd, xs + ys);
    CdAllConcat(here, xs, ys);
    CdAllConcat(here, [r], ys);
    assert CdAll(here, [r]) == Cd(here, r) by { assert [r][1..] == []; }
  }
}
