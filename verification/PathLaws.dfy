/**
  What `normalize`, `join` and `resolve` do to the text of a path.  The equations for `normalize` take
  every path to one that it leaves as it is.
 */
module PathLaws {
  import opened Strings
  import opened Paths

  /** A name and ".." behind it lead nowhere, nor does ".", nor an empty part; and there is nothing
      above the root. */
  lemma StepsUndone(p: Place, name: string, rooted: bool)
    requires Segment(name)
    ensures Walk(p, [name, ".."], rooted) == p && Walk(p, ["."], rooted) == p
    ensures rooted && p.names == [] ==> Walk(p, [".."], rooted) == p
  {
    assert [name, ".."][1..] == [".."] && [".."][1..] == [] && ["."][1..] == [];
    assert p.names + [name] != [] && (p.names + [name])[..|p.names|] == p.names;
  }

  lemma PartsOfThree(a: string, parts: seq<string>, middle: string, b: string)
    requires Parts(middle) == parts
    ensures Parts(a + "/" + middle + "/" + b) == Parts(a) + (parts + Parts(b))
  {
    hide Parts;
    PartsConcat(a + "/" + middle, b);
    PartsConcat(a, middle);
  }

  lemma Beginning(a: string, b: string, c: string)
    ensures Rooted(a + "/" + b) == Rooted(a + "/" + c)
  {
    if a == "" {
      assert (a + "/" + b)[0] == '/' && (a + "/" + c)[0] == '/';
    }
  }

  lemma Ending(a: string, b: string)
    ensures Trailing(a + "/" + b) == (b == "" || Trailing(b))
  {
  }

  /** If the middle leads nowhere from where the beginning leads, it makes no difference. */
  lemma Dropped(a: string, middle: string, parts: seq<string>, b: string)
    requires Parts(middle) == parts
    requires var rooted := Rooted(a + "/"); var p := Walk(HERE, Parts(a), rooted); Walk(p, parts, rooted) == p
    ensures Normalized(a + "/" + middle + "/" + b) == Normalized(a + "/" + b)
  {
    hide Parts, Walk, Rooted, Trailing, Normalized;
    var s, t := a + "/" + middle + "/" + b, a + "/" + b;
    PartsOfThree(a, parts, middle, b);
    PartsConcat(a, b);
    assert s == a + "/" + (middle + "/" + b) && a + "/" == a + "/" + "";
    Beginning(a, middle + "/" + b, "");
    Beginning(a, b, "");
    Ending(a + "/" + middle, b);
    Ending(a, b);
    var rooted := Rooted(s);
    WalkConcat(HERE, Parts(a), parts + Parts(b), rooted);
    WalkConcat(HERE, Parts(a), Parts(b), rooted);
    WalkConcat(Walk(HERE, Parts(a), rooted), parts, Parts(b), rooted);
    SameText(s, t);
  }

  lemma PartsOfNames(names: seq<string>)
    requires Names(names) && names != []
    ensures Parts(Join(names, '/')) == names
  {
    hide Parts, Join;
    PartsOfJoin(names);
  }

  lemma NameAndUp(name: string)
    requires Segment(name)
    ensures Parts(name + "/..") == [name, ".."] && Parts(".") == ["."] && Parts("..") == [".."] && Parts("") == []
  {
    hide Parts;
    assert [name, ".."][1..] == [".."] && "/" + ".." == "/..";
    assert Join([".."], '/') == ".." && Join(["."], '/') == ".";
    assert name + "/" + ".." == name + "/..";
    assert Join([name, ".."], '/') == name + "/..";
    PartsOfNames([name, ".."]);
    PartsOfNames(["."]);
    PartsOfNames([".."]);
    PartsOfSlash("");
  }

  /** "a/name/../b" is "a/b". */
  lemma NameAndUpDropped(a: string, name: string, b: string)
    requires Segment(name)
    ensures Normalized(a + "/" + (name + "/..") + "/" + b) == Normalized(a + "/" + b)
  {
    hide Parts, Normalized;
    NameAndUp(name);
    StepsUndone(Walk(HERE, Parts(a), Rooted(a + "/")), name, Rooted(a + "/"));
    hide Walk;
    Dropped(a, name + "/..", [name, ".."], b);
  }

  /** "a/./b" and "a//b" are "a/b". */
  lemma DotDropped(a: string, b: string)
    ensures Normalized(a + "/" + "." + "/" + b) == Normalized(a + "/" + b)
    ensures Normalized(a + "/" + "" + "/" + b) == Normalized(a + "/" + b)
  {
    hide Parts, Normalized;
    var p, rooted := Walk(HERE, Parts(a), Rooted(a + "/")), Rooted(a + "/");
    NameAndUp("x");
    StepsUndone(p, "x", rooted);
    assert Walk(p, [], rooted) == p;
    hide Walk;
    Dropped(a, ".", ["."], b);
    Dropped(a, "", [], b);
  }

  /** "/../b" is "/b". */
  lemma AboveRootDropped(b: string)
    ensures Normalized("" + "/" + ".." + "/" + b) == Normalized("" + "/" + b)
  {
    hide Parts, Normalized;
    NameAndUp("x");
    assert Rooted("" + "/") && Walk(HERE, [], true) == HERE;
    StepsUndone(HERE, "x", true);
    hide Walk;
    Dropped("", "..", [".."], b);
  }

  /** A path that is as clean as can be is left as it is: ".." in front only, then names. */
  lemma CleanStays(p: Place, rooted: bool, trailing: bool)
    requires Clean(p) && (rooted ==> p.above == 0)
    ensures Normalized(Text(rooted, Way(p), trailing)) == Text(rooted, Way(p), trailing)
  {
    hide Parts, Rooted, Trailing;
    WayIsNames(p);
    TextTells(rooted, Way(p), trailing);
    WalkTheWay(p, rooted);
    var t := Text(rooted, Way(p), trailing);
    if Way(p) == [] && !rooted {
      assert p == HERE;
      DotIsHere();
    }
    assert Target(t) == p;
    hide Target, Text, Way;
    TextOfRoot(rooted, trailing);
  }

  lemma DotIsHere()
    ensures Walk(HERE, ["."], false) == HERE
  {
    assert ["."][1..] == [];
  }

  lemma TextOfRoot(rooted: bool, trailing: bool)
    ensures rooted ==> Text(rooted, [], true) == Text(rooted, [], trailing)
  {
  }

  // `join`.

  /** Empty arguments are left out, a path is joined to the next by a slash, and nothing at all is
      ".". */
  lemma JoinedTwo(a: string, b: string, xs: seq<string>, ys: seq<string>)
    ensures Joined(xs + [""] + ys) == Joined(xs + ys) && Joined([]) == "."
    ensures a != "" && b != "" ==> Joined([a] + ([b] + ys)) == Joined([a + "/" + b] + ys)
  {
    NonEmptyConcat(xs + [""], ys);
    NonEmptyConcat(xs, [""]);
    NonEmptyConcat(xs, ys);
    assert NonEmpty([""]) == [] && NonEmpty(xs) + [] == NonEmpty(xs);
    NothingJoined();
    if a != "" && b != "" {
      NonEmptyConcat([a], [b] + ys);
      NonEmptyConcat([b], ys);
      NonEmptyConcat([a + "/" + b], ys);
      assert NonEmpty([a]) == [a] && NonEmpty([b]) == [b] && NonEmpty([a + "/" + b]) == [a + "/" + b];
      var rest := NonEmpty(ys);
      hide Normalized, NonEmpty;
      JoinTwo(a, b, rest);
    }
  }

  lemma NothingJoined()
    ensures Joined([]) == "."
  {
    hide Parts;
    PartsOfSlash("");
    assert Target("") == HERE;
  }

  lemma JoinTwo(a: string, b: string, rest: seq<string>)
    ensures Join([a] + ([b] + rest), '/') == Join([a + "/" + b] + rest, '/')
  {
    assert ([a] + ([b] + rest))[1..] == [b] + rest && ([b] + rest)[1..] == rest;
    assert ([a + "/" + b] + rest)[1..] == rest;
    if rest != [] {
      assert a + "/" + (b + "/" + Join(rest, '/')) == a + "/" + b + "/" + Join(rest, '/');
    }
  }

  // `resolve`.

  lemma CdFirst(d: Directory, path: string, ys: seq<string>)
    ensures CdAll(d, [path] + ys) == CdAll(Cd(d, path), ys) && CdAll(d, [path]) == Cd(d, path)
  {
    assert ([path] + ys)[1..] == ys && [path][1..] == [];
    assert CdAll(Cd(d, path), []) == Cd(d, path);
  }

  /** A path is read from the directory, unless it begins at the root; an empty one is skipped.  The
      result is normalized and has no slash at its end. */
  lemma ResolvedOne(cwd: string, path: string)
    requires Rooted(cwd)
    ensures Resolved(cwd, [path]) ==
            if path == "" then Normalized(cwd + "/" + ".")
            else if Rooted(path) then Normalized(path + "/" + ".")
            else Normalized(cwd + "/" + path + "/" + ".")
  {
    hide Parts, Walk, Text;
    CdFirst(NOWHERE, cwd, [path]);
    CdFirst(Cd(NOWHERE, cwd), path, []);
    hide CdAll;
    WithDot(cwd);
    if path != "" {
      WithDot(path);
      WithDot(cwd + "/" + path);
      PartsConcat(cwd, path);
      WalkConcat(HERE, Parts(cwd), Parts(path), true);
    }
    hide Normalized;
  }

  /** A path from the root makes no use of what stands before it. */
  lemma ResolvedAnew(cwd: string, path: string, ys: seq<string>)
    requires Rooted(cwd)
    ensures Rooted(path) ==> Resolved(cwd, [path] + ys) == Resolved(path, ys)
    ensures path == "" ==> Resolved(cwd, [path] + ys) == Resolved(cwd, ys)
    ensures Resolved(cwd, []) == Normalized(cwd + "/" + ".")
  {
    hide Parts, Walk, Text;
    CdFirst(NOWHERE, cwd, [path] + ys);
    CdFirst(Cd(NOWHERE, cwd), path, ys);
    CdFirst(NOWHERE, cwd, ys);
    CdFirst(NOWHERE, path, ys);
    CdFirst(NOWHERE, cwd, []);
    assert CdAll(Cd(NOWHERE, cwd), []) == Cd(NOWHERE, cwd);
    hide CdAll;
    WithDot(cwd);
    hide Normalized;
  }

  /** "/." behind a path changes nothing but that there is no slash at the end. */
  lemma WithDot(path: string)
    requires path != ""
    ensures Normalized(path + "/" + ".") == Text(Rooted(path), Way(Target(path)), false)
  {
    hide Parts, Walk;
    NameAndUp("x");
    PartsConcat(path, ".");
    WalkConcat(HERE, Parts(path), ["."], Rooted(path));
    StepsUndone(Target(path), "x", Rooted(path));
    Ending(path, ".");
  }
}
