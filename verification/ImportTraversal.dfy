/** Reading proto files and everything they import, over an abstract file system. */
module ImportTraversal {
  import opened Wrappers

  /** The import statements of a file, in order, and whether the rest of it can be parsed. */
  datatype ProtoFile = ProtoFile(imports: seq<string>, parses: bool)

  /** The readable files by path, the include directories, and how a directory and a relative path are joined. */
  datatype Sources = Sources(files: map<string, ProtoFile>, includeDirs: seq<string>, join: (string, string) -> string)

  predicate IsGoogle(relativePath: string) {
    "google/protobuf/" <= relativePath
  }

  /** The first include directory, from the `from`-th on, under which the path can be read. */
  function FirstMatch(src: Sources, relativePath: string, from: nat): Option<string>
    requires from <= |src.includeDirs|
    decreases |src.includeDirs| - from
  {
    if from == |src.includeDirs| then None
    else if src.join(src.includeDirs[from], relativePath) in src.files then
      Some(src.join(src.includeDirs[from], relativePath))
    else FirstMatch(src, relativePath, from + 1)
  }

  /** The file that an import leads to, if any. */
  function Target(src: Sources, relativePath: string): Option<string> {
    if IsGoogle(relativePath) then None else FirstMatch(src, relativePath, 0)
  }

  function Targets(src: Sources, relativePaths: seq<string>): set<string> {
    set r | r in relativePaths && Target(src, r).Some? :: Target(src, r).value
  }

  /** The files that a file leads to: none when it cannot be parsed. */
  function Next(src: Sources, path: string): set<string> {
    if path in src.files && src.files[path].parses then Targets(src, src.files[path].imports) else {}
  }

  ghost predicate ReachableIn(src: Sources, starts: seq<string>, path: string, n: nat)
    decreases n
  {
    if n == 0 then path in Targets(src, starts)
    else exists via :: ReachableIn(src, starts, via, n - 1) && path in Next(src, via)
  }

  ghost predicate Reachable(src: Sources, starts: seq<string>, path: string) {
    exists n: nat :: ReachableIn(src, starts, path, n)
  }

  lemma {:induction false} FirstMatchIsReadable(src: Sources, relativePath: string, from: nat)
    requires from <= |src.includeDirs|
    ensures var t := FirstMatch(src, relativePath, from); t.Some? ==> t.value in src.files
    decreases |src.includeDirs| - from
  {
    if from < |src.includeDirs| {
      FirstMatchIsReadable(src, relativePath, from + 1);
    }
  }

  /** The file by which the path can be read, under the first include directory that has it. */
  ghost predicate ReadFirst(src: Sources, relativePath: string, file: string) {
    exists i: nat :: && i < |src.includeDirs| && file == src.join(src.includeDirs[i], relativePath)
                     && file in src.files
                     && forall j :: 0 <= j < i ==> src.join(src.includeDirs[j], relativePath) !in src.files
  }

  lemma {:induction false} FirstMatchExactly(src: Sources, relativePath: string, from: nat, file: string)
    requires from <= |src.includeDirs|
    requires forall j :: 0 <= j < from ==> src.join(src.includeDirs[j], relativePath) !in src.files
    ensures FirstMatch(src, relativePath, from) == Some(file) <==> ReadFirst(src, relativePath, file)
    decreases |src.includeDirs| - from
  {
    if from < |src.includeDirs| && src.join(src.includeDirs[from], relativePath) !in src.files {
      FirstMatchExactly(src, relativePath, from + 1, file);
    }
  }

  /**
   * Where relative paths lead: to the files found for them in the first include directory that has
   * them, Google's own files left out.
   */
  lemma TargetsExactly(src: Sources, relativePaths: seq<string>, file: string)
    ensures file in Targets(src, relativePaths) <==>
              exists r :: r in relativePaths && !("google/protobuf/" <= r) && ReadFirst(src, r, file)
  {
    forall r
      ensures Target(src, r) == Some(file) <==> !("google/protobuf/" <= r) && ReadFirst(src, r, file)
    {
      FirstMatchExactly(src, r, 0, file);
    }
    hide Target, ReadFirst;
    if r :| r in relativePaths && !("google/protobuf/" <= r) && ReadFirst(src, r, file) {
      assert Target(src, r) == Some(file);
    }
  }

  /** Where one file leads: nowhere when it cannot be parsed, and else where its imports lead. */
  lemma NextExactly(src: Sources, path: string, next: string)
    ensures next in Next(src, path) <==>
              && path in src.files && src.files[path].parses
              && exists r :: r in src.files[path].imports && !("google/protobuf/" <= r) && ReadFirst(src, r, next)
  {
    if path in src.files {
      TargetsExactly(src, src.files[path].imports, next);
    }
  }

  /** The state shared by a traversal: the files begun, and the order in which they were. */
  class ParsedFiles {
    var paths: set<string>
    var order: seq<string>

    constructor ()
      ensures paths == {} && order == []
    {
      paths, order := {}, [];
    }

    /** Every file is begun once. */
    ghost predicate Once()
      reads this
    {
      && (forall i, j :: 0 <= i < j < |order| ==> order[i] != order[j])
      && (forall p :: p in order <==> p in paths)
    }
  }

  method ResolveProtoPath(src: Sources, relativePath: string) returns (r: Option<string>)
    ensures r == FirstMatch(src, relativePath, 0)
    ensures match r
            case Some(file) => ReadFirst(src, relativePath, file)
            case None => forall d :: d in src.includeDirs ==> src.join(d, relativePath) !in src.files
  {
    for i := 0 to |src.includeDirs|
      invariant FirstMatch(src, relativePath, 0) == FirstMatch(src, relativePath, i)
      invariant forall j :: 0 <= j < i ==> src.join(src.includeDirs[j], relativePath) !in src.files
    {
      var candidate := src.join(src.includeDirs[i], relativePath);
      if candidate in src.files {
        assert ReadFirst(src, relativePath, candidate);
        return Some(candidate);
      }
    }
    r := None;
  }

  /** What a traversal adds: files that the imports lead to, each with all it leads to itself. */
  ghost predicate Added(src: Sources, starts: seq<string>, before: set<string>, after: set<string>) {
    && before <= after
    && Targets(src, starts) <= after
    && forall p :: p in after && p !in before ==> Reachable(src, starts, p) && Next(src, p) <= after
  }

  lemma ReachableThrough(src: Sources, first: string, rest: seq<string>, path: string, p: string)
    requires Target(src, first) == Some(path)
    requires rest == (if path in src.files && src.files[path].parses then src.files[path].imports else [])
    requires Reachable(src, rest, p)
    ensures Reachable(src, [first], p)
  {
    var n: nat :| ReachableIn(src, rest, p, n);
    assert first in [first];
    assert ReachableIn(src, [first], path, 0);
    ShiftedByOne(src, first, rest, path, p, n);
  }

  lemma {:induction false} ShiftedByOne(src: Sources, first: string, rest: seq<string>, path: string, p: string, n: nat)
    requires ReachableIn(src, [first], path, 0) && ReachableIn(src, rest, p, n)
    requires rest == (if path in src.files && src.files[path].parses then src.files[path].imports else [])
    ensures ReachableIn(src, [first], p, n + 1)
    decreases n
  {
    if n == 0 {
      assert Targets(src, rest) == Next(src, path);
    } else {
      var via :| ReachableIn(src, rest, via, n - 1) && p in Next(src, via);
      ShiftedByOne(src, first, rest, path, via, n - 1);
    }
  }

  lemma {:induction false} MoreStarts(src: Sources, some: seq<string>, all: seq<string>, p: string, n: nat)
    requires ReachableIn(src, some, p, n) && forall r :: r in some ==> r in all
    ensures ReachableIn(src, all, p, n)
    decreases n
  {
    if n > 0 {
      var via :| ReachableIn(src, some, via, n - 1) && p in Next(src, via);
      MoreStarts(src, some, all, via, n - 1);
    }
  }

  lemma ReachableFromMore(src: Sources, some: seq<string>, all: seq<string>, p: string)
    requires Reachable(src, some, p) && forall r :: r in some ==> r in all
    ensures Reachable(src, all, p)
  {
    var n: nat :| ReachableIn(src, some, p, n);
    MoreStarts(src, some, all, p, n);
  }

  method ParseProtoWithImports(src: Sources, relativePath: string, parsed: ParsedFiles)
    requires parsed.Once()
    modifies parsed
    ensures parsed.Once() && old(parsed.order) <= parsed.order
    ensures Added(src, [relativePath], old(parsed.paths), parsed.paths)
    decreases src.files.Keys - parsed.paths, 1, 0
  {
    if IsGoogle(relativePath) {
      return;
    }
    var fullPath := ResolveProtoPath(src, relativePath);
    FirstMatchIsReadable(src, relativePath, 0);
    if fullPath.None? || fullPath.value in parsed.paths {
      return;
    }
    var path := fullPath.value;
    ghost var before := parsed.paths;
    parsed.paths := parsed.paths + {path};
    parsed.order := parsed.order + [path];
    assert path in src.files.Keys - before;
    var imports := if src.files[path].parses then src.files[path].imports else [];
    ghost var begun := parsed.paths;
    ParseAll(src, imports, parsed);
    assert Next(src, path) == Targets(src, imports);
    assert relativePath in [relativePath] && Target(src, relativePath) == Some(path);
    assert ReachableIn(src, [relativePath], path, 0);
    forall p | p in parsed.paths && p !in before
      ensures Reachable(src, [relativePath], p) && Next(src, p) <= parsed.paths
    {
      if p != path {
        assert p !in begun;
        ReachableThrough(src, relativePath, imports, path, p);
      }
    }
  }

  /** The imports of a file, or the files given at the start, one after the other. */
  method ParseAll(src: Sources, relativePaths: seq<string>, parsed: ParsedFiles)
    requires parsed.Once()
    modifies parsed
    ensures parsed.Once() && old(parsed.order) <= parsed.order
    ensures Added(src, relativePaths, old(parsed.paths), parsed.paths)
    decreases src.files.Keys - parsed.paths, 2, 0
  {
    ghost var before := parsed.paths;
    for i := 0 to |relativePaths|
      invariant parsed.Once() && old(parsed.order) <= parsed.order
      invariant Added(src, relativePaths[..i], before, parsed.paths)
    {
      ghost var middle := parsed.paths;
      ParseProtoWithImports(src, relativePaths[i], parsed);
      AddedInTurn(src, relativePaths, i, before, middle, parsed.paths);
    }
    assert relativePaths[..|relativePaths|] == relativePaths;
  }

  lemma AddedInTurn(src: Sources, starts: seq<string>, i: nat, before: set<string>, middle: set<string>,
                    after: set<string>)
    requires i < |starts|
    requires Added(src, starts[..i], before, middle) && Added(src, [starts[i]], middle, after)
    ensures Added(src, starts[..i + 1], before, after)
  {
    assert starts[..i + 1] == starts[..i] + [starts[i]];
    assert Targets(src, starts[..i + 1]) == Targets(src, starts[..i]) + Targets(src, [starts[i]]);
    forall p | p in after && p !in before
      ensures Reachable(src, starts[..i + 1], p) && Next(src, p) <= after
    {
      if p in middle {
        ReachableFromMore(src, starts[..i], starts[..i + 1], p);
      } else {
        ReachableFromMore(src, [starts[i]], starts[..i + 1], p);
      }
    }
  }

  /** A traversal that starts from nothing has begun exactly the files reachable from its inputs. */
  lemma StartedFromNothing(src: Sources, starts: seq<string>, parsed: set<string>)
    requires Added(src, starts, {}, parsed)
    ensures forall p :: p in parsed <==> Reachable(src, starts, p)
  {
    forall p | Reachable(src, starts, p)
      ensures p in parsed
    {
      var n: nat :| ReachableIn(src, starts, p, n);
      ReachedIsParsed(src, starts, parsed, p, n);
    }
  }

  lemma {:induction false} ReachedIsParsed(src: Sources, starts: seq<string>, parsed: set<string>, p: string, n: nat)
    requires Added(src, starts, {}, parsed) && ReachableIn(src, starts, p, n)
    ensures p in parsed
    decreases n
  {
    if n > 0 {
      var via :| ReachableIn(src, starts, via, n - 1) && p in Next(src, via);
      ReachedIsParsed(src, starts, parsed, via, n - 1);
    }
  }

  /**
   * The whole traversal: it ends on every import graph, begins each file once, and begins exactly
   * the files reachable from the inputs, where files that cannot be parsed lead nowhere.
   */
  method Extract(src: Sources, protoPaths: seq<string>) returns (order: seq<string>)
    ensures forall i, j :: 0 <= i < j < |order| ==> order[i] != order[j]
    ensures forall p :: p in order <==> Reachable(src, protoPaths, p)
  {
    var parsed := new ParsedFiles();
    ParseAll(src, protoPaths, parsed);
    StartedFromNothing(src, protoPaths, parsed.paths);
    order := parsed.order;
  }
}
