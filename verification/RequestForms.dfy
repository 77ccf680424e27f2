/**
 What the ways of writing a request come to (fs/path.rs): relative requests, with
 `.`, doubled slashes and detours put in, and the requests that leave the workspace.
 */
module RequestForms {
  import opened Seqs
  import opened PathResolver

  /** One part of a request: `name`, `.`, nothing between two slashes, `name/..`. */
  datatype Part = Go(name: string) | Here | Nothing | Detour(name: string)

  function Text(part: Part): string {
    match part
    case Go(name) => name
    case Here => "."
    case Nothing => ""
    case Detour(name) => name + "/.."
  }

  /** The parts with slashes between them. */
  function Written(parts: seq<Part>): string {
    if parts == [] then ""
    else if |parts| == 1 then Text(parts[0])
    else Text(parts[0]) + ("/" + Written(parts[1..]))
  }

  /** The names that count. */
  function Named(parts: seq<Part>): Path {
    if parts == [] then []
    else (if parts[0].Go? then [Name(parts[0].name)] else []) + Named(parts[1..])
  }

  ghost predicate Proper(parts: seq<Part>) {
    forall i :: 0 <= i < |parts| ==>
      (parts[i].Go? ==> IsName(Name(parts[i].name))) && (parts[i].Detour? ==> IsName(Name(parts[i].name)))
  }

  predicate IsRelative(request: string) {
    request == [] || request[0] != '/'
  }

  lemma {:induction false} NamedAreNames(parts: seq<Part>)
    requires Proper(parts)
    ensures AllNames(Named(parts))
  {
    if parts != [] {
      NamedAreNames(parts[1..]);
    }
  }

  // ----- reading a request -----

  lemma ComponentsSlash(segment: string, rest: string)
    requires '/' !in segment
    ensures Components(segment + ("/" + rest)) == Single(segment) + Components(rest)
  {
    SegmentName(segment, "/" + rest);
    assert ("/" + rest)[1..] == rest;
  }

  lemma ComponentsLast(segment: string)
    requires '/' !in segment
    ensures Components(segment) == Single(segment)
  {
    SegmentName(segment, "");
    assert segment + "" == segment;
    assert Single(segment) + [] == Single(segment);
  }

  /** The components of one part. */
  function Read(part: Part): Path {
    match part
    case Go(name) => [Name(name)]
    case Here => []
    case Nothing => []
    case Detour(name) => [Name(name), Up]
  }

  lemma PlainPart(part: Part)
    requires Proper([part]) && !part.Detour?
    ensures '/' !in Text(part) && Single(Text(part)) == Read(part)
  {
    assert [part][0] == part;
  }

  lemma DetourPart(name: string, rest: string)
    requires IsName(Name(name))
    ensures Components(name + ("/" + rest)) == [Name(name)] + Components(rest)
  {
    hide Components;
    ComponentsSlash(name, rest);
  }

  lemma UpPart(rest: string)
    ensures Components(".." + ("/" + rest)) == [Up] + Components(rest) && Components("..") == [Up]
  {
    hide Components;
    ComponentsSlash("..", rest);
    ComponentsLast("..");
  }

  lemma ProperDetour(part: Part)
    requires Proper([part]) && part.Detour?
    ensures IsName(Name(part.name))
  {
    assert [part][0] == part;
  }

  lemma Regroup(name: string, rest: string)
    ensures name + "/.." + ("/" + rest) == name + ("/" + (".." + ("/" + rest)))
    ensures name + "/.." == name + ("/" + "..")
  {
    assert "/.." == "/" + "..";
    Assoc(name, "/", "..");
    Assoc(name, "/..", "/" + rest);
    assert "/.." + ("/" + rest) == "/" + (".." + ("/" + rest));
  }

  lemma PartSlash(part: Part, rest: string)
    requires Proper([part])
    ensures Components(Text(part) + ("/" + rest)) == Read(part) + Components(rest)
  {
    hide Components, Proper, IsName;
    if part.Detour? {
      ProperDetour(part);
      Regroup(part.name, rest);
      DetourPart(part.name, ".." + ("/" + rest));
      UpPart(rest);
      assert [Name(part.name)] + ([Up] + Components(rest)) == [Name(part.name), Up] + Components(rest);
    } else {
      PlainPart(part);
      ComponentsSlash(Text(part), rest);
    }
  }

  lemma PartLast(part: Part)
    requires Proper([part])
    ensures Components(Text(part)) == Read(part)
  {
    hide Components, Proper, IsName;
    if part.Detour? {
      ProperDetour(part);
      Regroup(part.name, "");
      DetourPart(part.name, "..");
      UpPart("");
      assert [Name(part.name)] + [Up] == [Name(part.name), Up];
    } else {
      PlainPart(part);
      ComponentsLast(Text(part));
    }
  }

  lemma PushedPart(stack: Path, part: Part, rest: Path)
    ensures Pushed(stack, Read(part) + rest) == Pushed(stack + (if part.Go? then [Name(part.name)] else []), rest)
  {
    PushedInParts(stack, Read(part), rest);
    if part.Detour? {
      var pushed := stack + [Name(part.name)];
      assert [Name(part.name), Up][1..] == [Up] && [Up][1..] == [];
      assert pushed[..|pushed| - 1] == stack;
      assert Pushed(stack, Read(part)) == Pushed(pushed, [Up]) == Pushed(stack, []) == stack;
    } else if part.Go? {
      PushedNames(stack, [Name(part.name)]);
    }
    assert stack + [] == stack;
  }

  /** The names are pushed, everything else comes to nothing. */
  lemma {:induction false} WrittenPushed(stack: Path, parts: seq<Part>)
    requires Proper(parts)
    ensures Pushed(stack, Components(Written(parts))) == stack + Named(parts)
    decreases |parts|
  {
    if parts == [] {
      ComponentsLast("");
      assert stack + [] == stack;
    } else {
      var part, rest := parts[0], parts[1..];
      var step: Path := if part.Go? then [Name(part.name)] else [];
      assert Proper([part]);
      hide Pushed, Components, Read, Text, Proper;
      Later(parts);
      if |parts| == 1 {
        PartLast(part);
        PushedPart(stack, part, []);
        assert Read(part) + [] == Read(part);
        PushedNames(stack + step, []);
        assert rest == [];
        assert stack + step + [] == stack + (step + []);
      } else {
        PartSlash(part, Written(rest));
        PushedPart(stack, part, Components(Written(rest)));
        WrittenPushed(stack + step, rest);
        Assoc(stack, step, Named(rest));
      }
    }
  }

  lemma Later(parts: seq<Part>)
    requires Proper(parts) && parts != []
    ensures Proper(parts[1..])
  {
  }

  // ----- what requests resolve to -----

  lemma RelativeLexical(root: Path, parts: seq<Part>)
    requires AllNames(root) && Proper(parts) && IsRelative(Written(parts))
    ensures Lexical(Join(root, Written(parts))) == root + Named(parts)
  {
    hide Written, Named, Components, Pushed;
    PushedInParts([], root, Components(Written(parts)));
    PushedNames([], root);
    assert [] + root == root;
    WrittenPushed(root, parts);
  }

  lemma PrintedLexical(root: Path, p: Path)
    requires AllNames(p)
    ensures Lexical(Join(root, Printed(p))) == p
  {
    hide Components, Pushed, Printed;
    PrintedComponents(p);
    PushedNames([], p);
    assert [] + p == p;
  }

  lemma NamesBelow(root: Path, p: Path)
    requires AllNames(root) && AllNames(p)
    ensures AllNames(root + p)
  {
  }

  lemma SameLexical(fs: Path -> Option<Path>, root: Path, a: string, b: string)
    requires Lexical(Join(root, a)) == Lexical(Join(root, b))
    ensures Resolve(fs, root, a) == Resolve(fs, root, b)
  {
  }

  /** A relative request means its names below the root, however it is written. */
  lemma RelativeRequest(fs: Path -> Option<Path>, root: Path, parts: seq<Part>)
    requires AllNames(root) && Proper(parts) && IsRelative(Written(parts))
    ensures Resolve(fs, root, Written(parts)) == Resolve(fs, root, Printed(root + Named(parts)))
  {
    hide *;
    NamedAreNames(parts);
    NamesBelow(root, Named(parts));
    RelativeLexical(root, parts);
    PrintedLexical(root, root + Named(parts));
    SameLexical(fs, root, Written(parts), Printed(root + Named(parts)));
  }

  /** Without links in the way it resolves to exactly these names. */
  lemma RelativeResolved(fs: Path -> Option<Path>, root: Path, parts: seq<Part>, k: nat)
    requires IsFileSystem(fs) && AllNames(root) && Proper(parts) && IsRelative(Written(parts))
    requires LinkFree(fs, root + Named(parts), k)
    ensures Resolve(fs, root, Written(parts)) == Resolved(root + Named(parts))
  {
    var p := root + Named(parts);
    hide IsFileSystem, Written, Named, Proper, AllNames, Anchored, Lexical, Join;
    NamedAreNames(parts);
    NamesBelow(root, Named(parts));
    RelativeLexical(root, parts);
    assert p[..|p|] == p;
    AnchoredFixed(fs, p, k, |p|);
  }

  /** An absolute request means its names, however it is written. */
  lemma AbsoluteRequest(fs: Path -> Option<Path>, root: Path, parts: seq<Part>)
    requires Proper(parts)
    ensures Resolve(fs, root, "/" + Written(parts)) == Resolve(fs, root, Printed(Named(parts)))
  {
    hide Written, Named, Proper, Printed, Pushed;
    NamedAreNames(parts);
    var request := "/" + Written(parts);
    ComponentsSlash("", Written(parts));
    assert "" + request == request;
    assert [] + Components(Written(parts)) == Components(Written(parts));
    WrittenPushed([], parts);
    assert [] + Named(parts) == Named(parts);
    hide Components;
    PrintedLexical(root, Named(parts));
    SameLexical(fs, root, request, Printed(Named(parts)));
  }

  /** What exists resolves to its canonical form, if that is in the workspace. */
  lemma ExistingRequest(fs: Path -> Option<Path>, root: Path, parts: seq<Part>)
    requires AllNames(root) && Proper(parts) && IsRelative(Written(parts))
    requires fs(root + Named(parts)).Some?
    ensures var t := fs(root + Named(parts)).value;
            Resolve(fs, root, Written(parts)) == if root <= t then Resolved(t) else Escapes
  {
    hide Written, Named, Proper, AllNames, Lexical, Join;
    RelativeLexical(root, parts);
  }

  lemma ParentLexical(root: Path, parts: seq<Part>)
    requires root != [] && AllNames(root) && Proper(parts)
    ensures Lexical(Join(root, "../" + Written(parts))) == root[..|root| - 1] + Named(parts)
  {
    hide Written, Named, Proper, Components, Pushed;
    var comps := Components(Written(parts));
    UpPart(Written(parts));
    assert ".." + ("/" + Written(parts)) == "../" + Written(parts);
    PushedInParts([], root, [Up] + comps);
    PushedNames([], root);
    assert [] + root == root;
    PushedInParts(root, [Up], comps);
    OneUp(root);
    WrittenPushed(root[..|root| - 1], parts);
  }

  lemma OneUp(root: Path)
    requires root != []
    ensures Pushed(root, [Up]) == root[..|root| - 1]
  {
    assert [Up][1..] == [];
  }

  lemma BelowAgain(root: Path, names: Path)
    requires root != []
    ensures var above := root[..|root| - 1];
            && (root <= above + names <==> names != [] && names[0] == root[|root| - 1])
            && (root <= above + names ==> above + names == root + names[1..])
  {
    var above := root[..|root| - 1];
    assert root == above + [root[|root| - 1]];
    if names != [] && names[0] == root[|root| - 1] {
      assert above + names == root + names[1..];
    } else if names != [] {
      assert (above + names)[|above|] == names[0];
    }
  }

  lemma Leaves(fs: Path -> Option<Path>, root: Path, request: string)
    requires !(root <= Lexical(Join(root, request)))
    ensures Resolve(fs, root, request) == Escapes
  {
  }

  /** `..` in front leaves the workspace, unless the name of its directory follows. */
  lemma ParentRequest(fs: Path -> Option<Path>, root: Path, parts: seq<Part>)
    requires root != [] && AllNames(root) && Proper(parts)
    ensures var names := Named(parts);
            Resolve(fs, root, "../" + Written(parts)) ==
            if names != [] && names[0] == root[|root| - 1] then Resolve(fs, root, Printed(root + names[1..]))
            else Escapes
  {
    hide *;
    var names := Named(parts);
    var request := "../" + Written(parts);
    ParentLexical(root, parts);
    BelowAgain(root, names);
    if names != [] && names[0] == root[|root| - 1] {
      NamedAreNames(parts);
      NamesBehind(root, names);
      PrintedLexical(root, root + names[1..]);
      SameLexical(fs, root, request, Printed(root + names[1..]));
    } else {
      Leaves(fs, root, request);
    }
  }

  lemma NamesBehind(root: Path, names: Path)
    requires AllNames(root) && AllNames(names) && names != []
    ensures AllNames(root + names[1..])
  {
  }

  // ----- the whole answer -----

  lemma {:induction false} AnchoredDeepest(fs: Path -> Option<Path>, p: Path, k: nat)
    requires IsFileSystem(fs) && AllNames(p) && k <= |p| && fs(p[..k]).Some?
    requires k < |p| ==> fs(p[..k + 1]).None?
    ensures Anchored(fs, p) == Some(fs(p[..k]).value + p[k..])
    decreases |p|
  {
    hide IsFileSystem;
    if k == |p| {
      assert p[..k] == p && p[k..] == [];
      assert fs(p).value + [] == fs(p).value;
    } else {
      var q, c := p[..|p| - 1], p[|p| - 1];
      NothingBelow(fs, p, k + 1, |p|);
      assert p[..|p|] == p;
      assert q[..k] == p[..k] && p[k..] == q[k..] + [c];
      if k < |q| {
        assert q[..k + 1] == p[..k + 1];
      }
      AnchoredDeepest(fs, q, k);
      Assoc(fs(p[..k]).value, q[k..], [c]);
    }
  }

  /** The answer for every path: with `k` names that exist, the rest goes behind their
      canonical form, and neither the path nor the result may leave the root. */
  lemma AnswerForPath(fs: Path -> Option<Path>, root: Path, p: Path, k: nat)
    requires IsFileSystem(fs) && AllNames(p) && k <= |p| && fs(p[..k]).Some?
    requires k < |p| ==> fs(p[..k + 1]).None?
    ensures var target := fs(p[..k]).value + p[k..];
            Resolve(fs, root, Printed(p)) == if root <= p && root <= target then Resolved(target) else Escapes
  {
    hide IsFileSystem, Printed, AllNames, Anchored, Lexical, Join;
    PrintedLexical(root, p);
    AnchoredDeepest(fs, p, k);
  }

  lemma {:induction false} AnchoredBelowUp(fs: Path -> Option<Path>, p: Path)
    requires IsFileSystem(fs) && UpOnlyFirst(p)
    ensures Anchored(fs, p).None? <==> p != [] && p[0].Up? && fs([Up]).None?
    decreases |p|
  {
    if p != [] {
      var q, c := p[..|p| - 1], p[|p| - 1];
      assert p == q + [c];
      if |p| == 1 {
        assert p == [c];
      } else {
        AnchoredBelowUp(fs, q);
        if fs([Up]).None? && p[0].Up? {
          assert p[..1] == [Up];
          NothingBelow(fs, p, 1, |p|);
          assert p[..|p|] == p;
        }
      }
    }
  }

  /** Only in the workspace `/`, for a path that still begins with `..`, is there no
      ancestor to resolve: every other request is accepted or refused as an escape. */
  lemma UnresolvableExactly(fs: Path -> Option<Path>, root: Path, requested: string)
    requires IsFileSystem(fs) && AllNames(root)
    ensures Resolve(fs, root, requested).CannotResolve? <==>
              var p := Lexical(Components(requested));
              root == [] && p != [] && p[0].Up? && fs([Up]).None?
  {
    hide IsFileSystem, Anchored, Pushed;
    var p := Lexical(Join(root, requested));
    PushedUpOnlyFirst([], Join(root, requested));
    AnchoredBelowUp(fs, p);
    if root == [] {
      assert root + Components(requested) == Components(requested);
    } else if root <= p {
      assert p[0] == root[0];
    }
  }
}
