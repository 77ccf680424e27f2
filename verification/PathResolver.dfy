/** The workspace path sandbox (fs/path.rs) over an abstract, unchanging `canonicalize`. */
module PathResolver {
  import opened Seqs

  /** A component below the root directory of an absolute path. */
  datatype Component = Up | Name(name: string)

  /** An absolute path; the empty sequence is `/`. */
  type Path = seq<Component>

  predicate IsName(c: Component) {
    c.Name? && c.name != "" && c.name != "." && c.name != ".." && '/' !in c.name
  }

  ghost predicate AllNames(p: Path) {
    forall i :: 0 <= i < |p| ==> IsName(p[i])
  }

  // ----- the file system -----

  /** `canonicalize` on an unchanging file system: `/` exists, results are free of
      links and of `..`, nothing exists below what does not exist, and a name is
      looked up in the directory the path in front of it leads to. */
  ghost predicate IsFileSystem(f: Path -> Option<Path>) {
    && f([]) == Some([])
    && (forall p: Path :: f(p).Some? ==> AllNames(f(p).value) && f(f(p).value) == Some(f(p).value))
    && (forall p: Path, c: Component :: f(p).None? ==> f(p + [c]).None?)
    && (forall p: Path, c: Component :: f(p).Some? && IsName(c) ==> f(p + [c]) == f(f(p).value + [c]))
  }

  /** The file system in which every path without `..` exists, with one link: `/l`
      leads to `/a`. */
  ghost function OneLink(p: Path): Option<Path> {
    if !AllNames(p) then None
    else if p != [] && p[0] == Name("l") then Some([Name("a")] + p[1..])
    else Some(p)
  }

  lemma OneLinkIsFileSystem()
    ensures IsFileSystem(OneLink)
  {
    assert IsName(Name("a"));
    forall p: Path | OneLink(p).Some?
      ensures AllNames(OneLink(p).value) && OneLink(OneLink(p).value) == OneLink(p)
    {
    }
    forall p: Path, c: Component | OneLink(p).None?
      ensures OneLink(p + [c]).None?
    {
      var i :| 0 <= i < |p| && !IsName(p[i]);
      assert (p + [c])[i] == p[i];
    }
    forall p: Path, c: Component | OneLink(p).Some? && IsName(c)
      ensures OneLink(p + [c]) == OneLink(OneLink(p).value + [c])
    {
      BelowOneLink(p, c);
    }
  }

  lemma BelowOneLink(p: Path, c: Component)
    requires AllNames(p) && IsName(c)
    ensures OneLink(p + [c]) == OneLink(OneLink(p).value + [c])
  {
    var q := OneLink(p).value;
    assert AllNames(p + [c]) && AllNames(q + [c]) by {
      assert IsName(Name("a"));
    }
    if p != [] {
      AppendTail(p, [c]);
      AppendTail(q, [c]);
      Assoc([Name("a")], p[1..], [c]);
    } else {
      assert p + [c] == [c] == q + [c];
    }
  }

  // ----- requests -----

  /** The text up to the first slash, and what follows it. */
  function Segment(s: string): (r: (string, Option<string>))
    ensures r.1.Some? ==> |r.1.value| < |s|
    ensures '/' !in r.0
    ensures s == r.0 + if r.1.Some? then "/" + r.1.value else ""
  {
    if s == [] then ([], None)
    else if s[0] == '/' then ([], Some(s[1..]))
    else
      var (first, rest) := Segment(s[1..]);
      ([s[0]] + first, rest)
  }

  function Single(segment: string): (p: Path)
  {
    if segment == "" || segment == "." then []
    else if segment == ".." then [Up]
    else [Name(segment)]
  }

  /** `Path::components` without root, and without `.`, which is skipped anyway. */
  function Components(s: string): Path
    decreases |s|
  {
    var (first, rest) := Segment(s);
    Single(first) + if rest.Some? then Components(rest.value) else []
  }

  function Join(root: Path, requested: string): Path {
    if requested != [] && requested[0] == '/' then Components(requested) else root + Components(requested)
  }

  // ----- the lexical pass -----

  /** Components pushed onto a path; `..` pops, unless the path is `/`. */
  function Pushed(stack: Path, comps: Path): Path
    decreases |comps|
  {
    if comps == [] then stack
    else if comps[0].Up? && stack != [] then Pushed(stack[..|stack| - 1], comps[1..])
    else Pushed(stack + [comps[0]], comps[1..])
  }

  function Lexical(comps: Path): Path {
    Pushed([], comps)
  }

  /** `lexical_normalize` */
  method LexicalNormalize(comps: Path) returns (normalized: Path)
    ensures normalized == Lexical(comps)
  {
    normalized := [];
    assert comps[0..] == comps;
    for i := 0 to |comps|
      invariant Pushed(normalized, comps[i..]) == Lexical(comps)
    {
      assert comps[i..][1..] == comps[i + 1..];
      if comps[i].Up? {
        if normalized != [] {
          normalized := normalized[..|normalized| - 1];
        } else {
          normalized := normalized + [Up];
        }
      } else {
        normalized := normalized + [comps[i]];
      }
    }
  }

  lemma {:induction false} PushedInParts(stack: Path, a: Path, b: Path)
    ensures Pushed(stack, a + b) == Pushed(Pushed(stack, a), b)
    decreases |a|
  {
    if a == [] {
      assert a + b == b;
    } else {
      AppendTail(a, b);
      if a[0].Up? && stack != [] {
        PushedInParts(stack[..|stack| - 1], a[1..], b);
      } else {
        PushedInParts(stack + [a[0]], a[1..], b);
      }
    }
  }

  lemma {:induction false} PushedNames(stack: Path, names: Path)
    requires forall i :: 0 <= i < |names| ==> names[i].Name?
    ensures Pushed(stack, names) == stack + names
    decreases |names|
  {
    if names != [] {
      PushedNames(stack + [names[0]], names[1..]);
      assert stack + [names[0]] + names[1..] == stack + names;
    }
  }

  /** Only a path's first component can be a `..` that was not resolved. */
  ghost predicate UpOnlyFirst(p: Path) {
    forall i :: 1 <= i < |p| ==> p[i].Name?
  }

  lemma {:induction false} PushedUpOnlyFirst(stack: Path, comps: Path)
    requires UpOnlyFirst(stack)
    ensures UpOnlyFirst(Pushed(stack, comps))
    decreases |comps|
  {
    if comps != [] {
      if comps[0].Up? && stack != [] {
        PushedUpOnlyFirst(stack[..|stack| - 1], comps[1..]);
      } else {
        PushedUpOnlyFirst(stack + [comps[0]], comps[1..]);
      }
    }
  }

  /** A name followed by `..` cancels, wherever it stands. */
  lemma LexicalCancels(a: Path, name: string, b: Path)
    ensures Lexical(a + [Name(name), Up] + b) == Lexical(a + b)
  {
    var stack := Lexical(a);
    assert a + [Name(name), Up] + b == a + ([Name(name), Up] + b);
    PushedInParts([], a, [Name(name), Up] + b);
    PushedInParts(stack, [Name(name), Up], b);
    PushedInParts([], a, b);
    assert [Name(name), Up][1..] == [Up] && [Up][1..] == [];
    var pushed := stack + [Name(name)];
    assert pushed[..|pushed| - 1] == stack;
    assert Pushed(stack, [Name(name), Up]) == Pushed(pushed, [Up]) == Pushed(stack, []) == stack;
  }

  lemma LexicalIdempotent(comps: Path)
    ensures UpOnlyFirst(Lexical(comps))
    ensures Lexical(Lexical(comps)) == Lexical(comps)
  {
    PushedUpOnlyFirst([], comps);
    var p := Lexical(comps);
    if p != [] && p[0].Up? {
      PushedNames([Up], p[1..]);
      assert p == [Up] + p[1..];
      assert [] + [Up] == [Up];
    } else {
      PushedNames([], p);
      assert [] + p == p;
    }
  }

  function Ups(k: nat): Path {
    if k == 0 then [] else Ups(k - 1) + [Up]
  }

  /** At the root directory `..` is kept when it comes alone and cancels in pairs. */
  lemma {:induction false} ParentsOfRoot(k: nat)
    ensures Lexical(Ups(k)) == if k % 2 == 0 then [] else [Up]
  {
    if k > 0 {
      ParentsOfRoot(k - 1);
      PushedInParts([], Ups(k - 1), [Up]);
      var stack := Lexical(Ups(k - 1));
      assert [Up][1..] == [];
      if stack == [Up] {
        assert [Up][..0] == [];
      } else {
        assert [] + [Up] == [Up];
      }
    }
  }

  // ----- the symlink pass -----

  /** The canonical form of the deepest existing ancestor, the missing names behind it. */
  function Anchored(fs: Path -> Option<Path>, p: Path): Option<Path>
    decreases |p|
  {
    if fs(p).Some? then fs(p)
    else if p == [] || p[|p| - 1].Up? then None
    else
      var r := Anchored(fs, p[..|p| - 1]);
      if r.None? then None else Some(r.value + [p[|p| - 1]])
  }

  datatype Resolution = Resolved(path: Path) | Escapes | CannotResolve

  function Resolve(fs: Path -> Option<Path>, root: Path, requested: string): Resolution {
    var normalized := Lexical(Join(root, requested));
    if !(root <= normalized) then Escapes
    else
      var target := Anchored(fs, normalized);
      if target.None? then CannotResolve
      else if !(root <= target.value) then Escapes
      else Resolved(target.value)
  }

  /** `resolve_in_workspace` */
  method ResolveInWorkspace(fs: Path -> Option<Path>, root: Path, requested: string) returns (r: Resolution)
    ensures r == Resolve(fs, root, requested)
  {
    var normalized := LexicalNormalize(Join(root, requested));
    if !(root <= normalized) {
      return Escapes;
    }
    var tail: seq<Component> := [];
    var current := normalized;
    BehindNothing(Anchored(fs, normalized));
    while fs(current).None?
      invariant Anchored(fs, normalized) == Behind(Anchored(fs, current), Backwards(tail))
      decreases |current|
    {
      if current == [] || current[|current| - 1].Up? {
        return CannotResolve;
      }
      var name := current[|current| - 1];
      BackwardsSnoc(tail, name);
      BehindName(fs, current, Backwards(tail));
      tail := tail + [name];
      current := current[..|current| - 1];
    }
    var target := PushTail(fs(current).value, tail);
    if !(root <= target) {
      return Escapes;
    }
    return Resolved(target);
  }

  /** The missing names go back behind the ancestor, last one first. */
  method PushTail(ancestor: Path, tail: seq<Component>) returns (target: Path)
    ensures target == ancestor + Backwards(tail)
  {
    target := ancestor;
    assert tail[..|tail|] == tail;
    for k := |tail| downto 0
      invariant target + Backwards(tail[..k]) == ancestor + Backwards(tail)
    {
      assert tail[..k + 1] == tail[..k] + [tail[k]];
      BackwardsSnoc(tail[..k], tail[k]);
      Assoc(target, [tail[k]], Backwards(tail[..k]));
      target := target + [tail[k]];
    }
    assert target + Backwards(tail[..0]) == target;
  }

  lemma BehindNothing(p: Option<Path>)
    ensures Behind(p, Backwards([])) == p
  {
    if p.Some? {
      assert p.value + [] == p.value;
    }
  }

  /** `tail.iter().rev()` */
  function Backwards(tail: seq<Component>): Path {
    if tail == [] then [] else Backwards(tail[1..]) + [tail[0]]
  }

  lemma {:induction false} BackwardsSnoc(tail: seq<Component>, c: Component)
    ensures Backwards(tail + [c]) == [c] + Backwards(tail)
  {
    if tail == [] {
      assert tail + [c] == [c];
    } else {
      AppendTail(tail, [c]);
      BackwardsSnoc(tail[1..], c);
    }
  }

  function Behind(p: Option<Path>, names: Path): Option<Path> {
    if p.None? then None else Some(p.value + names)
  }

  lemma BehindName(fs: Path -> Option<Path>, current: Path, names: Path)
    requires fs(current).None? && current != [] && !current[|current| - 1].Up?
    ensures Behind(Anchored(fs, current), names) ==
            Behind(Anchored(fs, current[..|current| - 1]), [current[|current| - 1]] + names)
  {
    var r := Anchored(fs, current[..|current| - 1]);
    if r.Some? {
      Assoc(r.value, [current[|current| - 1]], names);
    }
  }

  // ----- what an accepted path is -----

  ghost predicate LinkFree(fs: Path -> Option<Path>, p: Path, k: nat) {
    k <= |p| && fs(p[..k]) == Some(p[..k]) && (k < |p| ==> fs(p[..k + 1]).None?)
  }

  lemma {:induction false} AnchoredLinkFree(fs: Path -> Option<Path>, p: Path) returns (k: nat)
    requires IsFileSystem(fs) && Anchored(fs, p).Some?
    requires forall i :: 0 <= i < |p| ==> p[i].Up? || IsName(p[i])
    ensures LinkFree(fs, Anchored(fs, p).value, k)
    ensures AllNames(Anchored(fs, p).value)
    ensures fs(p).None? ==> k < |Anchored(fs, p).value|
    decreases |p|
  {
    hide IsFileSystem;
    var t := Anchored(fs, p).value;
    if fs(p).Some? {
      CanonicalFacts(fs, p);
      k := |t|;
      assert t[..k] == t;
    } else {
      var q := p[..|p| - 1];
      var c := p[|p| - 1];
      assert q + [c] == p;
      k := AnchoredLinkFree(fs, q);
      var r := Anchored(fs, q).value;
      assert t == r + [c];
      assert t[..k] == r[..k];
      if fs(q).Some? {
        CanonicalFacts(fs, q);
        ChildFacts(fs, q, c);
        assert r == fs(q).value;
        k := |r|;
        assert t[..k] == r && t[..k + 1] == t;
      } else {
        assert t[..k + 1] == r[..k + 1];
      }
    }
  }

  lemma CanonicalFacts(fs: Path -> Option<Path>, p: Path)
    requires IsFileSystem(fs) && fs(p).Some?
    ensures AllNames(fs(p).value) && fs(fs(p).value) == fs(p)
  {
  }

  lemma ChildFacts(fs: Path -> Option<Path>, p: Path, c: Component)
    requires IsFileSystem(fs)
    ensures fs(p).None? ==> fs(p + [c]).None?
    ensures fs(p).Some? && IsName(c) ==> fs(p + [c]) == fs(fs(p).value + [c])
  {
  }

  lemma {:induction false} ComponentsAreNames(s: string)
    ensures forall i :: 0 <= i < |Components(s)| ==> Components(s)[i].Up? || IsName(Components(s)[i])
    decreases |s|
  {
    var (first, rest) := Segment(s);
    if rest.Some? {
      ComponentsAreNames(rest.value);
    }
  }

  lemma {:induction false} PushedKeeps(stack: Path, comps: Path)
    requires forall i :: 0 <= i < |stack| ==> stack[i].Up? || IsName(stack[i])
    requires forall i :: 0 <= i < |comps| ==> comps[i].Up? || IsName(comps[i])
    ensures forall i :: 0 <= i < |Pushed(stack, comps)| ==> Pushed(stack, comps)[i].Up? || IsName(Pushed(stack, comps)[i])
    decreases |comps|
  {
    if comps != [] {
      if comps[0].Up? && stack != [] {
        PushedKeeps(stack[..|stack| - 1], comps[1..]);
      } else {
        PushedKeeps(stack + [comps[0]], comps[1..]);
      }
    }
  }

  lemma NormalizedKeeps(root: Path, requested: string)
    requires AllNames(root)
    ensures var p := Lexical(Join(root, requested));
            forall i :: 0 <= i < |p| ==> p[i].Up? || IsName(p[i])
  {
    ComponentsAreNames(requested);
    PushedKeeps([], Join(root, requested));
  }

  /** An accepted path lies in the root by whole components, holds no `..` and no
      link: up to some component it is canonical, and the next does not exist. */
  lemma AcceptedPath(fs: Path -> Option<Path>, root: Path, requested: string)
    requires IsFileSystem(fs) && AllNames(root)
    requires Resolve(fs, root, requested).Resolved?
    ensures var t := Resolve(fs, root, requested).path;
            root <= t && AllNames(t) && exists k: nat :: LinkFree(fs, t, k)
  {
    NormalizedKeeps(root, requested);
    var k := AnchoredLinkFree(fs, Lexical(Join(root, requested)));
  }

  lemma {:induction false} NothingBelow(fs: Path -> Option<Path>, p: Path, k: nat, j: nat)
    requires IsFileSystem(fs) && k <= j <= |p| && fs(p[..k]).None?
    ensures fs(p[..j]).None?
    decreases j
  {
    if k < j {
      NothingBelow(fs, p, k, j - 1);
      assert p[..j] == p[..j - 1] + [p[j - 1]];
    }
  }

  lemma AnchoredName(fs: Path -> Option<Path>, p: Path)
    requires fs(p).None? && p != [] && p[|p| - 1].Name?
    ensures Anchored(fs, p) == Behind(Anchored(fs, p[..|p| - 1]), [p[|p| - 1]])
  {
  }

  lemma AllNamesAt(p: Path, i: nat)
    requires AllNames(p) && i < |p|
    ensures p[i].Name?
  {
    assert IsName(p[i]);
  }

  lemma DropLast(p: Path, j: nat)
    requires 0 < j <= |p|
    ensures p[..j] != [] && p[..j][|p[..j]| - 1] == p[j - 1]
    ensures p[..j][..|p[..j]| - 1] == p[..j - 1]
    ensures p[..j] == p[..j - 1] + [p[j - 1]]
  {
  }

  lemma LinkFreeFacts(fs: Path -> Option<Path>, p: Path, k: nat)
    requires LinkFree(fs, p, k)
    ensures k <= |p| && fs(p[..k]) == Some(p[..k]) && (k < |p| ==> fs(p[..k + 1]).None?)
    ensures Anchored(fs, p[..k]) == Some(p[..k])
  {
  }

  /** A link-free path is its own resolution. */
  lemma {:induction false} AnchoredFixed(fs: Path -> Option<Path>, p: Path, k: nat, j: nat)
    requires IsFileSystem(fs) && AllNames(p) && LinkFree(fs, p, k) && k <= j <= |p|
    ensures Anchored(fs, p[..j]) == Some(p[..j])
    decreases j
  {
    hide *;
    LinkFreeFacts(fs, p, k);
    if k < j {
      NothingBelow(fs, p, k + 1, j);
      AnchoredFixed(fs, p, k, j - 1);
      AllNamesAt(p, j - 1);
      DropLast(p, j);
      AnchoredName(fs, p[..j]);
      BehindSome(p[..j - 1], [p[j - 1]]);
    }
  }

  lemma BehindSome(p: Path, names: Path)
    ensures Behind(Some(p), names) == Some(p + names)
  {
  }

  /** `/a/b/c` */
  function Render(p: Path): string {
    if p == [] then "" else "/" + (if p[0].Name? then p[0].name else "..") + Render(p[1..])
  }

  lemma {:induction false} SegmentName(name: string, rest: string)
    requires '/' !in name && (rest != [] ==> rest[0] == '/')
    ensures Segment(name + rest) == (name, if rest == [] then None else Some(rest[1..]))
  {
    if name == [] {
      assert name + rest == rest;
    } else {
      SegmentName(name[1..], rest);
      AppendTail(name, rest);
      assert [name[0]] + name[1..] == name;
    }
  }

  /** What follows the leading slash of a rendered path reads back as the path. */
  lemma {:induction false} RenderedTail(p: Path)
    requires AllNames(p) && p != []
    ensures Components(Render(p)[1..]) == p
  {
    var name, rest := p[0].name, Render(p[1..]);
    assert IsName(p[0]);
    assert Render(p) == "/" + name + rest;
    assert Render(p)[1..] == name + rest;
    SegmentName(name, rest);
    if p[1..] == [] {
      assert p == [p[0]];
    } else {
      RenderedTail(p[1..]);
      assert p == [p[0]] + p[1..];
    }
  }

  /** An accepted path written out as an absolute request. */
  function Printed(p: Path): string {
    if p == [] then "/" else Render(p)
  }

  lemma PrintedComponents(p: Path)
    requires AllNames(p)
    ensures Printed(p) != [] && Printed(p)[0] == '/'
    ensures Components(Printed(p)) == p
  {
    var s := Printed(p);
    var body := s[1..];
    assert Segment(s) == ([], Some(body));
    assert [] + Components(body) == Components(body);
    if p != [] {
      RenderedTail(p);
    } else {
      assert Components("") == [] + [] == [];
    }
  }

  /** Resolving an accepted path again returns it. */
  lemma ResolveIdempotent(fs: Path -> Option<Path>, root: Path, requested: string)
    requires IsFileSystem(fs) && AllNames(root)
    requires Resolve(fs, root, requested).Resolved?
    ensures var t := Resolve(fs, root, requested).path;
            Resolve(fs, root, Printed(t)) == Resolved(t)
  {
    hide IsFileSystem, Components, Render, Pushed, Anchored;
    AcceptedPath(fs, root, requested);
    var t := Resolve(fs, root, requested).path;
    var k: nat :| LinkFree(fs, t, k);
    PrintedComponents(t);
    PushedNames([], t);
    assert [] + t == t;
    AnchoredFixed(fs, t, k, |t|);
    assert t[..|t|] == t;
  }

  // ----- one file, one key -----

  /** What is below a path is what is below its canonical form. */
  lemma {:induction false} SameBelow(fs: Path -> Option<Path>, a: Path, names: Path)
    requires IsFileSystem(fs) && fs(a).Some? && AllNames(names)
    ensures fs(a + names) == fs(fs(a).value + names)
    ensures Anchored(fs, a + names) == Anchored(fs, fs(a).value + names)
    decreases |names|
  {
    hide IsFileSystem;
    var canonical := fs(a).value;
    CanonicalFacts(fs, a);
    if names == [] {
      assert a + names == a && canonical + names == canonical;
    } else {
      var n := |names| - 1;
      var c := names[n];
      SameBelow(fs, a, names[..n]);
      var x, y := a + names[..n], canonical + names[..n];
      ExtendByOne(a, names);
      ExtendByOne(canonical, names);
      ChildFacts(fs, x, c);
      ChildFacts(fs, y, c);
      assert IsName(c);
    }
  }

  lemma ExtendByOne(a: Path, names: Path)
    requires names != []
    ensures var n := |names| - 1;
            && a + names == a + names[..n] + [names[n]]
            && (a + names)[..|a + names| - 1] == a + names[..n]
            && (a + names)[|a + names| - 1] == names[n]
  {
  }

  /** Two requests that reach the same place, through whatever links, and then name
      the same missing components, get the same lock key. With nothing missing this
      says: the same file, the same key. */
  lemma SameFileSameKey(fs: Path -> Option<Path>, root: Path, r1: string, r2: string, a1: Path, a2: Path, names: Path)
    requires IsFileSystem(fs) && AllNames(root) && AllNames(names)
    requires Lexical(Join(root, r1)) == a1 + names && Lexical(Join(root, r2)) == a2 + names
    requires fs(a1).Some? && fs(a1) == fs(a2)
    requires Resolve(fs, root, r1).Resolved? && Resolve(fs, root, r2).Resolved?
    ensures Resolve(fs, root, r1) == Resolve(fs, root, r2)
  {
    SameBelow(fs, a1, names);
    SameBelow(fs, a2, names);
  }

  /** A request through the link and one around it. */
  lemma LinkSharesKey(r1: string, r2: string, names: Path)
    requires AllNames(names)
    requires Lexical(Join([], r1)) == [Name("l")] + names && Lexical(Join([], r2)) == [Name("a")] + names
    ensures Resolve(OneLink, [], r1) == Resolve(OneLink, [], r2) == Resolved([Name("a")] + names)
  {
    OneLinkIsFileSystem();
    ThroughLink(names);
    hide *;
    ResolvesTo(OneLink, r1, [Name("l")] + names, [Name("a")] + names);
    ResolvesTo(OneLink, r2, [Name("a")] + names, [Name("a")] + names);
  }

  lemma ThroughLink(names: Path)
    requires AllNames(names)
    ensures OneLink([Name("l")] + names) == Some([Name("a")] + names) == OneLink([Name("a")] + names)
  {
    var l, a: Path := [Name("l")], [Name("a")];
    assert IsName(l[0]) && IsName(a[0]);
    assert AllNames(l + names) && AllNames(a + names);
    AppendTail(l, names);
    AppendTail(a, names);
    assert l[1..] + names == names;
  }

  lemma ResolvesTo(fs: Path -> Option<Path>, requested: string, p: Path, target: Path)
    requires Lexical(Join([], requested)) == p && fs(p) == Some(target)
    ensures Resolve(fs, [], requested) == Resolved(target)
  {
    hide Lexical, Join;
  }

  /** How many components of the path exist. */
  function Depth(fs: Path -> Option<Path>, p: Path): (k: nat)
    ensures k <= |p|
    decreases |p|
  {
    if p == [] || fs(p).Some? then |p| else Depth(fs, p[..|p| - 1])
  }

  /** The canonical form of what exists of the path, and the components that do not. */
  function Place(fs: Path -> Option<Path>, p: Path): (Option<Path>, Path) {
    var k := Depth(fs, p);
    (fs(p[..k]), p[k..])
  }

  lemma {:induction false} AnchoredPlace(fs: Path -> Option<Path>, p: Path)
    requires Anchored(fs, p).Some?
    ensures var (ancestor, missing) := Place(fs, p);
            && ancestor.Some? && Anchored(fs, p) == Some(ancestor.value + missing)
            && (missing != [] ==> missing[0].Name? && fs(p[..Depth(fs, p) + 1]).None?)
    decreases |p|
  {
    if fs(p).Some? {
      assert p[..|p|] == p && p[|p|..] == [];
      assert fs(p).value + [] == fs(p).value;
    } else {
      var q := p[..|p| - 1];
      var k := Depth(fs, q);
      AnchoredPlace(fs, q);
      assert q[..k] == p[..k] && p[k..] == q[k..] + [p[|p| - 1]];
      if k < |q| {
        assert q[..k + 1] == p[..k + 1];
      } else {
        assert p[..k + 1] == p;
      }
      Assoc(Place(fs, q).0.value, q[k..], [p[|p| - 1]]);
    }
  }

  /** The first missing component is missing in the canonical directory as well. */
  lemma FirstMissing(fs: Path -> Option<Path>, p: Path)
    requires IsFileSystem(fs) && Anchored(fs, p).Some?
    requires forall i :: 0 <= i < |p| ==> p[i].Up? || IsName(p[i])
    ensures var (ancestor, missing) := Place(fs, p);
            && ancestor.Some? && Anchored(fs, p) == Some(ancestor.value + missing)
            && fs(ancestor.value) == ancestor
            && (missing != [] ==> fs(ancestor.value + [missing[0]]).None?)
  {
    hide IsFileSystem, Anchored, Depth, IsName, AllNames;
    AnchoredPlace(fs, p);
    var k := Depth(fs, p);
    CanonicalFacts(fs, p[..k]);
    if k < |p| {
      assert p[..k + 1] == p[..k] + [p[k]];
      ChildFacts(fs, p[..k], p[k]);
    }
  }

  /** A canonical ancestor with a missing name behind it can be read off the path. */
  lemma OneDecomposition(fs: Path -> Option<Path>, a1: Path, n1: Path, a2: Path, n2: Path)
    requires IsFileSystem(fs) && a1 + n1 == a2 + n2 && fs(a2).Some?
    requires n1 != [] ==> fs(a1 + [n1[0]]).None?
    ensures |a2| <= |a1|
  {
    hide IsFileSystem;
    if |a1| < |a2| {
      var t := a1 + n1;
      assert t[..|a1| + 1] == a1 + [n1[0]];
      assert t[..|a2|] == a2 by { assert (a2 + n2)[..|a2|] == a2; }
      NothingBelow(fs, t, |a1| + 1, |a2|);
    }
  }

  /** The key identifies the place: two accepted requests get the same key if and only
      if what exists of them is the same file or directory and they miss the same names. */
  lemma KeyIdentifiesPlace(fs: Path -> Option<Path>, root: Path, r1: string, r2: string)
    requires IsFileSystem(fs) && AllNames(root)
    requires Resolve(fs, root, r1).Resolved? && Resolve(fs, root, r2).Resolved?
    ensures Resolve(fs, root, r1) == Resolve(fs, root, r2) <==>
            Place(fs, Lexical(Join(root, r1))) == Place(fs, Lexical(Join(root, r2)))
  {
    hide IsFileSystem, Anchored, Join, Lexical, AllNames;
    var p1, p2 := Lexical(Join(root, r1)), Lexical(Join(root, r2));
    NormalizedKeeps(root, r1);
    NormalizedKeeps(root, r2);
    FirstMissing(fs, p1);
    FirstMissing(fs, p2);
    hide Place;
    var (a1, n1) := Place(fs, p1);
    var (a2, n2) := Place(fs, p2);
    if Anchored(fs, p1) == Anchored(fs, p2) {
      OneDecomposition(fs, a1.value, n1, a2.value, n2);
      OneDecomposition(fs, a2.value, n2, a1.value, n1);
      SameParts(a1.value, n1, a2.value, n2);
    }
  }

  lemma SameParts(a1: Path, n1: Path, a2: Path, n2: Path)
    requires a1 + n1 == a2 + n2 && |a1| == |a2|
    ensures a1 == a2 && n1 == n2
  {
    assert (a1 + n1)[..|a1|] == a1 && (a2 + n2)[..|a2|] == a2;
    assert (a1 + n1)[|a1|..] == n1 && (a2 + n2)[|a2|..] == n2;
  }
}
