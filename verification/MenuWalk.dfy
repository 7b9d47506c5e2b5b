/** Walks along menus from the home directory, on a file system whose contents depend on where a path leads. */
module MenuWalk {
  import opened Text
  import opened PathSecurity
  import opened Menu
  import opened ItemTypes
  import opened Gopher

  /** The file system by places: what a directory lists, and which places are directories. */
  datatype Tree = Tree(entries: Place -> seq<string>, isDirectory: Place -> bool)

  /** A name that a directory can list, and that fits on a menu line. */
  ghost predicate IsName(name: string) {
    IsField(name) && '/' !in name && !IsTrivial(name) && name != ".."
  }

  /** The site serves the tree: what it finds at a path is what is at the place that the path leads to. */
  ghost predicate Serves(site: Site, tree: Tree) {
    forall path :: site.home <= path ==>
      && Listed(site.dirs(path)) == tree.entries(ResolvePath(path))
      && (TypeOf(Mime(site.run, path)) == '1' <==> tree.isDirectory(ResolvePath(path)))
  }

  function Below(p: Place, names: seq<string>): Place { p.(names := p.names + names) }

  /** The names that the choices pick, from the directory at `p` downwards. */
  function Chosen(tree: Tree, p: Place, choices: seq<nat>): Option<seq<string>>
    decreases |choices|
  {
    if choices == [] then Some([])
    else if !tree.isDirectory(p) || choices[0] >= |tree.entries(p)| then None
    else
      var name := tree.entries(p)[choices[0]];
      var rest := Chosen(tree, Below(p, [name]), choices[1..]);
      if rest.None? then None else Some([name] + rest.value)
  }

  /** The directories on the way list only proper names. */
  ghost predicate CleanWay(tree: Tree, p: Place, choices: seq<nat>)
    decreases |choices|
  {
    choices != [] && tree.isDirectory(p) ==>
      (forall k :: 0 <= k < |tree.entries(p)| ==> IsName(tree.entries(p)[k])) &&
      (choices[0] < |tree.entries(p)| ==> CleanWay(tree, Below(p, [tree.entries(p)[choices[0]]]), choices[1..]))
  }

  /** The selector that the menus advertise for these names, one below the other. */
  function SelectorOf(selector: string, before: char, names: seq<string>): string
    decreases |names|
  {
    if names == [] then selector else SelectorOf(SubSelector(selector, before, names[0]), before, names[1..])
  }

  /** Every directory on the way is short enough and passes the filter. */
  predicate Passes(site: Site, selector: string, names: seq<string>)
    decreases |names|
  {
    names == [] ||
    (|site.home + selector| <= 4094 && !Refused(site.home + selector) &&
     Passes(site, SubSelector(selector, site.before, names[0]), names[1..]))
  }

  lemma SlashComponents(path: string)
    requires EndsInSlash(path)
    ensures Components(path) == Components(path[..|path| - 1]) + [""]
  {
    var front, nothing: string := path[..|path| - 1], [];
    BeforeSlash(path, front, nothing);
    ComponentsJoin(front, nothing);
    OneComponent(nothing);
  }

  lemma BeforeSlash(path: string, front: string, nothing: string)
    requires EndsInSlash(path) && front == path[..|path| - 1] && nothing == []
    ensures front + "/" + nothing == path
  {
  }

  lemma SubPathJoins(path: string, name: string)
    requires path != ""
    ensures SubPath(path, name) == (if EndsInSlash(path) then path[..|path| - 1] else path) + "/" + name
  {
    if EndsInSlash(path) { assert path == path[..|path| - 1] + "/"; }
  }

  lemma ChildComponents(path: string, name: string)
    requires path != "" && IsName(name)
    ensures Components(SubPath(path, name)) ==
            (if EndsInSlash(path) then Components(path[..|path| - 1]) else Components(path)) + [name]
  {
    OneComponent(name);
    SubPathJoins(path, name);
    ComponentsJoin(if EndsInSlash(path) then path[..|path| - 1] else path, name);
  }

  lemma ResolveOne(absolute: bool, p: Place, comps: seq<string>, c: string)
    ensures Resolve(absolute, p, comps + [c]) == Enter(absolute, Resolve(absolute, p, comps), c)
  {
    ResolveAppend(absolute, p, comps, [c]);
    assert [c][1..] == [];
  }

  lemma ChildPlace(path: string, name: string)
    requires path != "" && IsName(name)
    ensures ResolvePath(SubPath(path, name)) == Below(ResolvePath(path), [name])
    ensures Last(Components(SubPath(path, name))) == name
  {
    ChildComponents(path, name);
    var start := Place(0, []);
    var comps := if EndsInSlash(path) then Components(path[..|path| - 1]) else Components(path);
    ResolveOne(IsAbsolute(path), start, comps, name);
    if EndsInSlash(path) {
      SlashComponents(path);
      ResolveOne(IsAbsolute(path), start, comps, "");
    }
  }

  /** What the path of an advertised selector leads to, and when the filter refuses it. */
  lemma AdvertisedPlace(site: Site, selector: string, name: string)
    requires ValidSite(site) && IsName(name)
    ensures var path, next := site.home + selector, site.home + SubSelector(selector, site.before, name);
            && ResolvePath(next) == Below(ResolvePath(path), [name])
            && Last(Components(next)) == name
            && (!Refused(path) ==>
                  (Refused(next) <==> EndsInDotDot(Last(Components(path))) || Contains(name, "..\\")))
  {
    var path := site.home + selector;
    AdvertisedPathIff(site.home, selector, site.before, name);
    ChildPlace(path, name);
    if selector != "" || site.before == '/' {
      if !Refused(path) { ChildRefusedIff(path, name); }
    } else {
      assert path == site.home && SubSelector(selector, site.before, name) == "/" + name;
      assert site.home + ("/" + name) == site.home + "/" + name;
      EmptySelectorStillResolves(site.home, name);
      JoinedRefusedIff(site.home, name);
      RefusedIff(site.home);
    }
  }

  /** From any selector, a client that follows menu lines ends up with the selector for the names that the same
      choices pick in the tree, if every directory on the way passes; otherwise it gets stuck. */
  lemma {:induction false} WalkFollowsTree(site: Site, tree: Tree, selector: string, choices: seq<nat>)
    requires ValidSite(site) && Serves(site, tree) && IsField(selector)
    requires CleanWay(tree, ResolvePath(site.home + selector), choices)
    ensures var names := Chosen(tree, ResolvePath(site.home + selector), choices);
            Follow(site, selector, choices) ==
            if names.Some? && Passes(site, selector, names.value) then
              Some(SelectorOf(selector, site.before, names.value))
            else None
    decreases |choices|
  {
    if choices != [] {
      var path := site.home + selector;
      var p := ResolvePath(path);
      assert Listed(site.dirs(path)) == tree.entries(p);
      FollowStep(site, selector, choices);
      if tree.isDirectory(p) && choices[0] < |tree.entries(p)| {
        var name := tree.entries(p)[choices[0]];
        assert IsName(name);
        var next := SubSelector(selector, site.before, name);
        AdvertisedPlace(site, selector, name);
        SubSelectorIsField(selector, site.before, name);
        WalkFollowsTree(site, tree, next, choices[1..]);
        var rest := Chosen(tree, Below(p, [name]), choices[1..]);
        if rest.Some? { NamesCons(site, selector, name, rest.value); }
      }
    }
  }

  lemma NamesCons(site: Site, selector: string, name: string, rest: seq<string>)
    ensures var next := SubSelector(selector, site.before, name);
            && SelectorOf(selector, site.before, [name] + rest) == SelectorOf(next, site.before, rest)
            && (Passes(site, selector, [name] + rest) <==>
                  |site.home + selector| <= 4094 && !Refused(site.home + selector) && Passes(site, next, rest))
  {
    assert ([name] + rest)[1..] == rest;
  }

  // Which walks get through

  ghost predicate AllNames(names: seq<string>) {
    forall k :: 0 <= k < |names| ==> IsName(names[k])
  }

  lemma {:induction false} ChosenAreNames(tree: Tree, p: Place, choices: seq<nat>)
    requires CleanWay(tree, p, choices) && Chosen(tree, p, choices).Some?
    ensures AllNames(Chosen(tree, p, choices).value)
    decreases |choices|
  {
    if choices != [] {
      ChosenAreNames(tree, Below(p, [tree.entries(p)[choices[0]]]), choices[1..]);
    }
  }

  /** Of the names on the way to the last one, none has two dots before a backslash, and none but the last of them
      ends in two dots. */
  ghost predicate DirectoriesPass(names: seq<string>) {
    forall k :: 0 <= k < |names| - 1 ==>
      !Contains(names[k], "..\\") && (k < |names| - 2 ==> !EndsInDotDot(names[k]))
  }

  /** The path of the last directory on the way is short enough. */
  predicate LastDirectoryFits(site: Site, selector: string, names: seq<string>) {
    names == [] || |site.home| + |SelectorOf(selector, site.before, names[..|names| - 1])| <= 4094
  }

  lemma {:induction false} SelectorsGrow(selector: string, before: char, names: seq<string>)
    ensures |selector| <= |SelectorOf(selector, before, names)|
    decreases |names|
  {
    if names != [] { SelectorsGrow(SubSelector(selector, before, names[0]), before, names[1..]); }
  }

  lemma FitsStep(site: Site, selector: string, names: seq<string>)
    requires names != []
    ensures LastDirectoryFits(site, selector, names) <==>
            |site.home + selector| <= 4094 &&
            LastDirectoryFits(site, SubSelector(selector, site.before, names[0]), names[1..])
  {
    var next := SubSelector(selector, site.before, names[0]);
    if |names| == 1 {
      assert names[..0] == [] && names[1..] == [];
    } else {
      var on := names[..|names| - 1];
      assert on[1..] == names[1..][..|names[1..]| - 1];
      SelectorsGrow(selector, site.before, on);
    }
  }

  lemma DirectoriesPassStep(names: seq<string>)
    requires |names| > 1
    ensures DirectoriesPass(names) <==>
            !Contains(names[0], "..\\") && (|names| > 2 ==> !EndsInDotDot(names[0])) && DirectoriesPass(names[1..])
  {
    var rest := names[1..];
    assert forall k :: 1 <= k < |names| ==> names[k] == rest[k - 1];
  }

  /** Passing, in terms of the names: nothing that the path filter refuses is left but odd names. */
  lemma {:induction false} PassesIff(site: Site, selector: string, names: seq<string>)
    requires ValidSite(site) && AllNames(names) && !Refused(site.home + selector)
    ensures Passes(site, selector, names) <==>
            LastDirectoryFits(site, selector, names) && DirectoriesPass(names) &&
            (|names| > 1 ==> !EndsInDotDot(Last(Components(site.home + selector))))
    decreases |names|
  {
    if names != [] {
      var next, rest := SubSelector(selector, site.before, names[0]), names[1..];
      assert AllNames(rest);
      FitsStep(site, selector, names);
      AdvertisedPlace(site, selector, names[0]);
      if rest != [] {
        DirectoriesPassStep(names);
        if !Refused(site.home + next) { PassesIff(site, next, rest); }
      }
    }
  }

  // Where walks from the home directory lead

  lemma {:induction false} SelectorPlace(site: Site, selector: string, names: seq<string>)
    requires ValidSite(site) && AllNames(names)
    ensures ResolvePath(site.home + SelectorOf(selector, site.before, names)) ==
            Below(ResolvePath(site.home + selector), names)
    decreases |names|
  {
    var p := ResolvePath(site.home + selector);
    if names == [] {
      assert p.names + [] == p.names;
    } else {
      AdvertisedPlace(site, selector, names[0]);
      assert AllNames(names[1..]);
      SelectorPlace(site, SubSelector(selector, site.before, names[0]), names[1..]);
      assert p.names + [names[0]] + names[1..] == p.names + names;
    }
  }

  ghost predicate NoParents(comps: seq<string>) {
    forall k :: 0 <= k < |comps| ==> comps[k] != ".."
  }

  lemma NoParentsStep(selector: string, before: char, name: string)
    requires NoParents(Components(selector)) && IsName(name)
    ensures NoParents(Components(SubSelector(selector, before, name)))
  {
    OneComponent(name);
    if selector == "" {
      ComponentsJoin("", name);
      assert "" + "/" + name == selector + "/" + name && "" + name == name;
    } else {
      ChildComponents(selector, name);
      if EndsInSlash(selector) {
        SlashComponents(selector);
        var front := Components(selector[..|selector| - 1]);
        assert forall k :: 0 <= k < |front| ==> front[k] == Components(selector)[k];
      }
    }
  }

  lemma {:induction false} NoParentsAdvertised(selector: string, before: char, names: seq<string>)
    requires NoParents(Components(selector)) && AllNames(names)
    ensures NoParents(Components(SelectorOf(selector, before, names)))
    decreases |names|
  {
    if names != [] {
      NoParentsStep(selector, before, names[0]);
      assert AllNames(names[1..]);
      NoParentsAdvertised(SubSelector(selector, before, names[0]), before, names[1..]);
    }
  }

  lemma NoParentsConfined(absolute: bool, home: Place, comps: seq<string>)
    requires NoParents(comps)
    ensures Confined(absolute, home, comps)
  {
    forall n | 0 <= n <= |comps| ensures Inside(home, Resolve(absolute, home, comps[..n])) {
      WithoutDotDotOnlyDescends(absolute, home, comps[..n]);
    }
  }

  /** A client starts with the empty selector, whatever byte lies before it, and follows menu lines. It gets through
      if and only if the choices name entries of the tree, the last directory's path fits, and no directory on the way
      has a name of the kind that the filter refuses. Then its selector leads exactly to the chosen names below the
      home directory, and resolving it never leaves the home directory. */
  lemma WalkFromHome(site: Site, tree: Tree, choices: seq<nat>)
    requires ValidSite(site) && Serves(site, tree) && !Refused(site.home)
    requires CleanWay(tree, ResolvePath(site.home), choices)
    ensures var names := Chosen(tree, ResolvePath(site.home), choices);
            if names.Some? && LastDirectoryFits(site, "", names.value) && DirectoriesPass(names.value) then
              var selector := SelectorOf("", site.before, names.value);
              && Follow(site, "", choices) == Some(selector)
              && ResolvePath(site.home + selector) == Below(ResolvePath(site.home), names.value)
              && Confined(IsAbsolute(site.home), ResolvePath(site.home), Components(selector))
            else
              Follow(site, "", choices) == None
  {
    assert site.home + "" == site.home;
    WalkFollowsTree(site, tree, "", choices);
    var names := Chosen(tree, ResolvePath(site.home), choices);
    if names.Some? {
      ChosenAreNames(tree, ResolvePath(site.home), choices);
      HomeEndsPlainly(site.home);
      PassesIff(site, "", names.value);
      SelectorPlace(site, "", names.value);
      NoParentsAdvertised("", site.before, names.value);
      NoParentsConfined(IsAbsolute(site.home), ResolvePath(site.home),
                        Components(SelectorOf("", site.before, names.value)));
    }
  }

  lemma HomeEndsPlainly(home: string)
    requires EndsInSlash(home)
    ensures Last(Components(home)) == ""
  {
    SlashComponents(home);
  }
}
