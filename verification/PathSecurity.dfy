/** The filter against leaving the served directory, and what resolving an accepted path can reach. */
module PathSecurity {
  import opened Text

  const PATH_MAX := 4096

  /** `check_security_path`: true means that the request is refused. */
  predicate Refused(path: string) {
    Contains(path, "../") || Contains(path, "..\\")
  }

  // How a path is resolved: component by component, symbolic links aside

  function Components(s: string): (r: seq<string>)
    ensures r != []
  {
    if s == "" then [""] else Push(s[0], Components(s[1..]))
  }

  /** One more character in front: a slash starts a new component. */
  function Push(c: char, rest: seq<string>): (r: seq<string>)
    requires rest != []
    ensures r != []
  {
    if c == '/' then [""] + rest else [[c] + rest[0]] + rest[1..]
  }

  /** A directory: `names` below the root, or below the start of a relative path after `above` steps up from it. */
  datatype Place = Place(above: nat, names: seq<string>)

  predicate IsTrivial(c: string) { c == "" || c == "." }

  function Enter(absolute: bool, p: Place, c: string): Place {
    if IsTrivial(c) then p
    else if c != ".." then p.(names := p.names + [c])
    else if p.names != [] then p.(names := p.names[..|p.names| - 1])
    else if absolute then p
    else p.(above := p.above + 1)
  }

  function Resolve(absolute: bool, p: Place, comps: seq<string>): Place
    decreases |comps|
  {
    if comps == [] then p else Resolve(absolute, Enter(absolute, p, comps[0]), comps[1..])
  }

  predicate IsAbsolute(path: string) { path != "" && path[0] == '/' }

  function ResolvePath(path: string): Place {
    Resolve(IsAbsolute(path), Place(0, []), Components(path))
  }

  // Components and substrings

  lemma {:induction false} ComponentsJoin(a: string, b: string)
    ensures Components(a + "/" + b) == Components(a) + Components(b)
  {
    var s := a + "/" + b;
    if a == "" {
      assert s[1..] == b;
    } else {
      assert s[1..] == a[1..] + "/" + b;
      ComponentsJoin(a[1..], b);
    }
  }

  predicate EndsInDotDot(c: string) {
    |c| >= 2 && c[|c| - 2] == '.' && c[|c| - 1] == '.'
  }

  function Last(comps: seq<string>): string
    requires comps != []
  {
    comps[|comps| - 1]
  }

  lemma DotComponents()
    ensures Components(".") == ["."] && Components("..") == [".."]
  {
    assert "."[1..] == "" && ".."[1..] == ".";
    assert Components("") == [""] && [""][1..] == [];
    assert ['.'] + "" == "." && [['.'] + ""] + [] == ["."];
    assert Components(".") == ["."] && ["."][1..] == [];
    assert ['.'] + "." == ".." && [['.'] + "."] + [] == [".."];
  }

  lemma {:induction false} LastAfterDotDot(a: string)
    ensures EndsInDotDot(Last(Components(a + "..")))
  {
    var s := a + "..";
    if a == "" {
      assert s == "..";
      DotComponents();
    } else {
      assert s[1..] == a[1..] + "..";
      LastAfterDotDot(a[1..]);
      LastOfPush(s[0], Components(s[1..]));
    }
  }

  lemma LastOfPush(c: char, rest: seq<string>)
    requires rest != [] && EndsInDotDot(Last(rest))
    ensures EndsInDotDot(Last(Push(c, rest)))
  {
    var r, n := Push(c, rest), |rest|;
    if c == '/' {
      assert r[n] == rest[n - 1];
    } else if n > 1 {
      assert r[n - 1] == rest[1..][n - 2] == rest[n - 1];
    }
  }

  lemma {:induction false} FirstComponent(s: string)
    requires |Components(s)| > 1
    ensures var c := Components(s)[0]; |c| < |s| && s[..|c|] == c && s[|c|] == '/'
  {
    if s[0] != '/' {
      FirstComponent(s[1..]);
    }
  }

  /** Some component other than the last ends in two dots. */
  ghost predicate DotDotInside(comps: seq<string>) {
    exists k :: 0 <= k < |comps| - 1 && EndsInDotDot(comps[k])
  }

  lemma {:induction false} InsideOccurs(s: string, k: nat) returns (i: nat)
    requires k < |Components(s)| - 1 && EndsInDotDot(Components(s)[k])
    ensures OccursAt(s, "../", i)
  {
    var rest := Components(s[1..]);
    if s[0] == '/' {
      i := InsideOccurs(s[1..], k - 1);
      i := i + 1;
    } else if k > 0 {
      i := InsideOccurs(s[1..], k);
      i := i + 1;
    } else if EndsInDotDot(rest[0]) {
      i := InsideOccurs(s[1..], 0);
      i := i + 1;
    } else {
      FirstComponent(s);
      assert Components(s)[0] == "..";
      i := 0;
    }
  }

  /** The substring test for `../` is a test on components. */
  lemma DotDotSlashIff(s: string)
    ensures Contains(s, "../") <==> DotDotInside(Components(s))
  {
    if Contains(s, "../") {
      var i :| 0 <= i <= |s| && OccursAt(s, "../", i);
      var a, b := s[..i] + "..", s[i + 3..];
      assert s == s[..i] + s[i..i + 3] + b;
      assert "../" == ".." + "/";
      assert s == a + "/" + b;
      ComponentsJoin(a, b);
      LastAfterDotDot(s[..i]);
      assert EndsInDotDot(Components(s)[|Components(a)| - 1]);
    }
    if DotDotInside(Components(s)) {
      var k :| 0 <= k < |Components(s)| - 1 && EndsInDotDot(Components(s)[k]);
      var i := InsideOccurs(s, k);
    }
  }

  // Confinement

  ghost predicate Inside(home: Place, p: Place) {
    p.above == home.above && home.names <= p.names
  }

  /** Resolving `comps` from `home` never leaves `home`, not even on the way. */
  ghost predicate Confined(absolute: bool, home: Place, comps: seq<string>) {
    forall n :: 0 <= n <= |comps| ==> Inside(home, Resolve(absolute, home, comps[..n]))
  }

  lemma {:induction false} ResolveAppend(absolute: bool, p: Place, a: seq<string>, b: seq<string>)
    ensures Resolve(absolute, p, a + b) == Resolve(absolute, Resolve(absolute, p, a), b)
    decreases |a|
  {
    if a == [] {
      assert a + b == b;
    } else {
      assert (a + b)[1..] == a[1..] + b;
      ResolveAppend(absolute, Enter(absolute, p, a[0]), a[1..], b);
    }
  }

  predicate EndsInSlash(s: string) { s != "" && s[|s| - 1] == '/' }

  /** Resolving home directory and selector together is resolving the selector from the home directory. */
  lemma SelectorResolvesFromHome(home: string, selector: string)
    requires EndsInSlash(home)
    ensures Components(home + selector) == Components(home[..|home| - 1]) + Components(selector)
    ensures ResolvePath(home + selector) == Resolve(IsAbsolute(home), ResolvePath(home), Components(selector))
  {
    var h := home[..|home| - 1];
    assert home + selector == h + "/" + selector;
    ComponentsJoin(h, selector);
    assert home == h + "/" + "";
    ComponentsJoin(h, "");
    var start := Place(0, []);
    ResolveAppend(IsAbsolute(home), start, Components(h), Components(selector));
    ResolveAppend(IsAbsolute(home), start, Components(h), [""]);
    assert Resolve(IsAbsolute(home), Resolve(IsAbsolute(home), start, Components(h)), [""]) ==
           Resolve(IsAbsolute(home), start, Components(h));
  }

  ghost predicate AllTrivial(comps: seq<string>) {
    forall k :: 0 <= k < |comps| ==> IsTrivial(comps[k])
  }

  lemma {:induction false} WithoutDotDotOnlyDescends(absolute: bool, p: Place, comps: seq<string>)
    requires forall k :: 0 <= k < |comps| ==> comps[k] != ".."
    ensures var q := Resolve(absolute, p, comps);
            Inside(p, q) && (|q.names| == |p.names| <==> AllTrivial(comps))
    decreases |comps|
  {
    if comps != [] {
      WithoutDotDotOnlyDescends(absolute, Enter(absolute, p, comps[0]), comps[1..]);
      assert AllTrivial(comps) <==> IsTrivial(comps[0]) && AllTrivial(comps[1..]) by {
        assert forall k :: 0 <= k < |comps[1..]| ==> comps[1..][k] == comps[k + 1];
        assert forall k :: 1 <= k < |comps| ==> comps[k] == comps[1..][k - 1];
      }
    }
  }

  /** The selector is `..` after nothing but empty and `.` components, and the home directory has a parent. */
  ghost predicate NamesTheParent(absolute: bool, home: Place, comps: seq<string>)
    requires comps != []
  {
    && Last(comps) == ".." && AllTrivial(comps[..|comps| - 1])
    && !(absolute && home.names == [])
  }

  lemma ConfinedUnlessParent(absolute: bool, home: Place, comps: seq<string>)
    requires comps != [] && forall k :: 0 <= k < |comps| - 1 ==> comps[k] != ".."
    ensures Confined(absolute, home, comps) <==> !NamesTheParent(absolute, home, comps)
  {
    var n := |comps| - 1;
    var before := comps[..n];
    forall m | 0 <= m <= n ensures Inside(home, Resolve(absolute, home, comps[..m])) {
      WithoutDotDotOnlyDescends(absolute, home, comps[..m]);
    }
    WithoutDotDotOnlyDescends(absolute, home, before);
    var p := Resolve(absolute, home, before);
    var q := Enter(absolute, p, comps[n]);
    assert comps == before + [comps[n]];
    ResolveAppend(absolute, home, before, [comps[n]]);
    assert Resolve(absolute, p, [comps[n]]) == q;
    assert comps[..n + 1] == comps;
    if |p.names| == |home.names| { assert p.names == home.names; }
    assert Inside(home, q) <==> !NamesTheParent(absolute, home, comps);
    if Inside(home, q) {
      assert Confined(absolute, home, comps);
    } else {
      assert !Inside(home, Resolve(absolute, home, comps[..n + 1]));
    }
  }

  /** A request that passes the filter stays inside the home directory at every step of its resolution, with one
      exception: a selector that ends in a bare `..` component and names nothing before it. */
  lemma AcceptedIsConfinedIff(home: string, selector: string)
    requires EndsInSlash(home) && !Refused(home + selector)
    ensures Confined(IsAbsolute(home), ResolvePath(home), Components(selector)) <==>
            !NamesTheParent(IsAbsolute(home), ResolvePath(home), Components(selector))
  {
    SelectorResolvesFromHome(home, selector);
    DotDotSlashIff(home + selector);
    var all, comps := Components(home + selector), Components(selector);
    var shift := |all| - |comps|;
    forall k | 0 <= k < |comps| - 1 ensures comps[k] != ".." {
      assert comps[k] == all[shift + k];
      assert !EndsInDotDot(all[shift + k]);
    }
    ConfinedUnlessParent(IsAbsolute(home), ResolvePath(home), comps);
  }

  /** The exception is real: the filter lets the selector `..` through whenever it lets the empty selector through. */
  lemma ParentPassesTheFilter(home: string)
    requires EndsInSlash(home) && !Refused(home)
    ensures !Refused(home + "..")
    ensures !(IsAbsolute(home) && ResolvePath(home).names == []) ==>
              !Confined(IsAbsolute(home), ResolvePath(home), Components(".."))
  {
    var path := home + "..";
    forall i: nat, w | (w == "../" || w == "..\\") && OccursAt(path, w, i) ensures OccursAt(home, w, i) {
      assert path[i + 2] == w[2];
      assert i + 3 <= |home|;
      assert path[i..i + 3] == home[i..i + 3];
    }
    assert !Refused(path);
    DotComponents();
    AcceptedIsConfinedIff(home, "..");
  }

  /** The filter is coarser than it has to be: it refuses exactly the paths with a component that merely ends in two
      dots, unless that component is the last, and the paths with two dots before a backslash. */
  lemma RefusedIff(path: string)
    ensures Refused(path) <==> DotDotInside(Components(path)) || Contains(path, "..\\")
  {
    DotDotSlashIff(path);
  }
}
