/**
 * The repair in the form the service runs it: index tables filled by loops, and descriptors whose
 * references are overwritten in place. Proved to compute `ReflectionFix.FixDefinitions`.
 */
module ReflectionRepair {
  import opened Wrappers
  import opened Dotted
  import opened NameIndex
  import opened ReflectionNames
  import opened ReflectionFix

  /** The two indexes while they are filled. */
  class NameTables {
    var packageMap: Index
    var typeMap: Index

    constructor ()
      ensures packageMap == map[] && typeMap == map[]
    {
      packageMap, typeMap := map[], map[];
    }

    method BuildPackageMap(packageName: string)
      modifies this`packageMap
      ensures packageMap == InsertAll(old(packageMap), PackageEntries(packageName))
    {
      hide SuffixEntries, InsertAll, Split, Join;
      var parts := Split(packageName);
      StartSuffixes(packageMap, packageName);
      var i := 1;
      while i < |parts|
        invariant 1 <= i <= |parts|
        invariant packageMap == InsertAll(old(packageMap), SuffixEntries(packageName, i))
      {
        var suffix := Join(parts[i..]);
        AddSuffix(old(packageMap), packageName, i);
        if suffix in packageMap {
          if packageName !in packageMap[suffix] {
            packageMap := packageMap[suffix := packageMap[suffix] + [packageName]];
          }
        } else {
          packageMap := packageMap[suffix := [packageName]];
        }
        i := i + 1;
      }
    }

    method AddToTypeMap(simpleName: string, fqn: string)
      modifies this`typeMap
      ensures typeMap == Insert(old(typeMap), simpleName, fqn)
    {
      if simpleName in typeMap {
        if fqn !in typeMap[simpleName] {
          typeMap := typeMap[simpleName := typeMap[simpleName] + [fqn]];
        }
      } else {
        typeMap := typeMap[simpleName := [fqn]];
      }
    }

    method CollectMessageTypes(msg: MessageDescriptor<string>, prefix: string)
      modifies this`typeMap
      ensures typeMap == InsertAll(old(typeMap), MessageEntries(msg, prefix))
      decreases msg
    {
      ghost var own: seq<(string, string)> := if msg.name != "" then [(msg.name, prefix + msg.name)] else [];
      if msg.name != "" {
        AddToTypeMap(msg.name, prefix + msg.name);
        assert own[..0] == [];
      }
      ghost var begun := typeMap;
      assert begun == InsertAll(old(typeMap), own);
      var nestedPrefix := prefix + msg.name + ".";
      for i := 0 to |msg.nested|
        invariant typeMap == InsertAll(begun, NestedEntries(msg, i, nestedPrefix))
      {
        InsertAllAppend(begun, NestedEntries(msg, i, nestedPrefix), MessageEntries(msg.nested[i], nestedPrefix));
        CollectMessageTypes(msg.nested[i], nestedPrefix);
      }
      InsertAllAppend(old(typeMap), own, NestedEntries(msg, |msg.nested|, nestedPrefix));
    }

    method CollectTypes(fd: FileDescriptor<string>)
      modifies this`typeMap
      ensures typeMap == InsertAll(old(typeMap), TypeEntries(fd))
    {
      var packagePrefix := "." + fd.package + ".";
      for i := 0 to |fd.messages|
        invariant typeMap == InsertAll(old(typeMap), MessagesEntries(fd.messages[..i], packagePrefix))
      {
        assert fd.messages[..i + 1][..i] == fd.messages[..i];
        InsertAllAppend(old(typeMap), MessagesEntries(fd.messages[..i], packagePrefix),
                        MessageEntries(fd.messages[i], packagePrefix));
        CollectMessageTypes(fd.messages[i], packagePrefix);
      }
      assert fd.messages[..|fd.messages|] == fd.messages;
      ghost var begun := typeMap;
      for i := 0 to |fd.enums|
        invariant typeMap == InsertAll(begun, EnumEntries(fd.enums[..i], packagePrefix))
      {
        var e := fd.enums[i];
        assert fd.enums[..i + 1][..i] == fd.enums[..i];
        if e != "" {
          InsertAllAppend(begun, EnumEntries(fd.enums[..i], packagePrefix), [(e, packagePrefix + e)]);
          AddToTypeMap(e, packagePrefix + e);
        } else {
          assert EnumEntries(fd.enums[..i + 1], packagePrefix) == EnumEntries(fd.enums[..i], packagePrefix);
        }
      }
      assert fd.enums[..|fd.enums|] == fd.enums;
      InsertAllAppend(old(typeMap), MessagesEntries(fd.messages, packagePrefix), EnumEntries(fd.enums, packagePrefix));
    }
  }

  lemma StartSuffixes(m: Index, package: string)
    ensures InsertAll(m, SuffixEntries(package, 1)) == m
    ensures PackageEntries(package) == SuffixEntries(package, |Split(package)|)
  {
  }

  lemma AddSuffix(m: Index, package: string, i: nat)
    requires 1 <= i < |Split(package)|
    ensures InsertAll(m, SuffixEntries(package, i + 1))
         == Insert(InsertAll(m, SuffixEntries(package, i)), Join(Split(package)[i..]), package)
  {
    var entries, last := SuffixEntries(package, i), (Join(Split(package)[i..]), package);
    assert (entries + [last])[..|entries|] == entries;
  }

  // --- Looking names up ---

  method FindKnownType(fqn: string, typeMap: Index) returns (known: bool)
    ensures known <==> IsKnownType(fqn, typeMap)
  {
    var unchecked := typeMap.Keys;
    while unchecked != {}
      invariant unchecked <= typeMap.Keys
      invariant forall k :: k in typeMap && fqn in typeMap[k] ==> k in unchecked
    {
      var k :| k in unchecked;
      if fqn in typeMap[k] {
        return true;
      }
      unchecked := unchecked - {k};
    }
    known := false;
  }

  method FullyQualifyTypeName(typeName: string, packageMap: Index, typeMap: Index) returns (r: string)
    ensures r == Qualify(typeName, packageMap, typeMap)
  {
    if Rooted(typeName) {
      return typeName;
    }
    var parts := Split(typeName);
    if |parts| == 1 {
      if typeName in typeMap && |typeMap[typeName]| == 1 {
        return typeMap[typeName][0];
      }
      return typeName;
    }
    var messageName := parts[|parts| - 1];
    for i := 0 to |parts| - 1
      invariant QualifyFrom(parts, 0, packageMap, typeMap) == QualifyFrom(parts, i, packageMap, typeMap)
    {
      var pkgSuffix := Join(parts[i..|parts| - 1]);
      if pkgSuffix in packageMap {
        var fullPkgs := packageMap[pkgSuffix];
        for j := 0 to |fullPkgs|
          invariant ChoosePackage(fullPkgs, messageName, typeMap, 0) == ChoosePackage(fullPkgs, messageName, typeMap, j)
        {
          var candidate := "." + fullPkgs[j] + "." + messageName;
          var known := FindKnownType(candidate, typeMap);
          if known {
            return candidate;
          }
        }
        return "." + (if fullPkgs == [] then "undefined" else fullPkgs[0]) + "." + messageName;
      }
    }
    JoinSplit(typeName);
    r := "." + typeName;
  }

  // --- Descriptors in memory ---

  /** A reference string of a decoded descriptor. */
  class Cell {
    var text: string

    constructor (text: string)
      ensures this.text == text
    {
      this.text := text;
    }
  }

  function MessageCells(m: MessageDescriptor<Cell>): set<Cell> {
    (set c | c in m.fieldTypes) + NestedCells(m, |m.nested|)
  }

  function NestedCells(m: MessageDescriptor<Cell>, n: nat): set<Cell>
    requires n <= |m.nested|
    decreases m, 0, n
  {
    if n == 0 then {} else NestedCells(m, n - 1) + MessageCells(m.nested[n - 1])
  }

  lemma {:induction false} NestedCellsHave(m: MessageDescriptor<Cell>, n: nat, i: nat)
    requires i < n <= |m.nested|
    ensures MessageCells(m.nested[i]) <= NestedCells(m, n)
  {
    if i < n - 1 {
      NestedCellsHave(m, n - 1, i);
    }
  }

  lemma MessageCellsAre(m: MessageDescriptor<Cell>)
    ensures MessageCells(m) == (set c | c in m.fieldTypes) + NestedCells(m, |m.nested|)
  {
  }

  // --- Descriptors as plain text, given what the cells hold ---

  type Contents = map<Cell, string>

  function Texts(cells: seq<Cell>, now: Contents): seq<string>
    requires forall c :: c in cells ==> c in now
  {
    seq(|cells|, i requires 0 <= i < |cells| => now[cells[i]])
  }

  function ShowMessage(m: MessageDescriptor<Cell>, now: Contents): MessageDescriptor<string>
    requires MessageCells(m) <= now.Keys
    decreases m, 1
  {
    MessageDescriptor(m.name, Texts(m.fieldTypes, now), ShowNested(m, |m.nested|, now))
  }

  function ShowNested(m: MessageDescriptor<Cell>, n: nat, now: Contents): (v: seq<MessageDescriptor<string>>)
    requires n <= |m.nested| && NestedCells(m, n) <= now.Keys
    ensures |v| == n
    decreases m, 0, n
  {
    if n == 0 then [] else ShowNested(m, n - 1, now) + [ShowMessage(m.nested[n - 1], now)]
  }

  /** `now` holds the fixed form of what `was` held, cell by cell. */
  ghost predicate FixedContents(cells: set<Cell>, was: Contents, now: Contents, packageMap: Index, typeMap: Index) {
    && cells <= was.Keys && cells <= now.Keys
    && forall c :: c in cells ==> now[c] == FixRef(was[c], packageMap, typeMap)
  }

  lemma {:induction false} MessageIsFixed(m: MessageDescriptor<Cell>, was: Contents, now: Contents,
                                          packageMap: Index, typeMap: Index)
    requires FixedContents(MessageCells(m), was, now, packageMap, typeMap)
    ensures ShowMessage(m, now) == FixMessage(ShowMessage(m, was), packageMap, typeMap)
    decreases m, 1
  {
    NestedIsFixed(m, |m.nested|, was, now, packageMap, typeMap);
    assert forall i :: 0 <= i < |m.fieldTypes| ==> m.fieldTypes[i] in MessageCells(m);
  }

  lemma {:induction false} NestedIsFixed(m: MessageDescriptor<Cell>, n: nat, was: Contents, now: Contents,
                                         packageMap: Index, typeMap: Index)
    requires n <= |m.nested| && FixedContents(NestedCells(m, n), was, now, packageMap, typeMap)
    ensures forall i :: 0 <= i < n ==>
              ShowNested(m, n, now)[i] == FixMessage(ShowNested(m, n, was)[i], packageMap, typeMap)
    decreases m, 0, n
  {
    if n > 0 {
      NestedIsFixed(m, n - 1, was, now, packageMap, typeMap);
      MessageIsFixed(m.nested[n - 1], was, now, packageMap, typeMap);
    }
  }

  /** Every cell of the set holds the fixed form of what it held before. */
  twostate predicate Fixed(cells: set<Cell>, packageMap: Index, typeMap: Index)
    reads cells
  {
    forall c :: c in cells ==> c.text == FixRef(old(c.text), packageMap, typeMap)
  }

  twostate predicate Changed(cells: set<Cell>)
    reads cells
  {
    exists c :: c in cells && c.text != old(c.text)
  }

  method FixCell(cell: Cell, packageMap: Index, typeMap: Index) returns (modified: bool)
    modifies cell
    ensures cell.text == FixRef(old(cell.text), packageMap, typeMap)
    ensures modified <==> cell.text != old(cell.text)
  {
    modified := false;
    if cell.text != "" && !Rooted(cell.text) {
      var fixed := FullyQualifyTypeName(cell.text, packageMap, typeMap);
      if fixed != cell.text {
        cell.text := fixed;
        modified := true;
      }
    }
  }

  /**
   * Fixing a list of cells. A cell that appears twice is fixed once: the second time nothing is
   * left to do.
   */
  method FixCells(cells: seq<Cell>, packageMap: Index, typeMap: Index) returns (modified: bool)
    requires RootedLists(typeMap)
    modifies cells
    ensures Fixed((set c | c in cells), packageMap, typeMap)
    ensures modified <==> Changed((set c | c in cells))
  {
    hide FixRef, RootedLists;
    modified := false;
    for i := 0 to |cells|
      invariant forall c :: c in cells[..i] ==> c.text == FixRef(old(c.text), packageMap, typeMap)
      invariant forall c :: c in cells && c !in cells[..i] ==> c.text == old(c.text)
      invariant modified <==> exists c :: c in cells[..i] && c.text != old(c.text)
    {
      var cell := cells[i];
      FixRefIdempotent(old(cell.text), packageMap, typeMap);
      assert cells[..i + 1] == cells[..i] + [cell];
      var changed := FixCell(cell, packageMap, typeMap);
      if changed {
        modified := true;
      }
    }
    assert cells[..|cells|] == cells;
  }

  function Snapshot(cells: set<Cell>): Contents
    reads cells
  {
    map c | c in cells :: c.text
  }

  /** The cells of `done` are fixed, the others as they were, and the flag tells whether one changed. */
  ghost predicate Progress(cells: set<Cell>, done: set<Cell>, was: Contents, now: Contents,
                           packageMap: Index, typeMap: Index, modified: bool) {
    && done <= cells && was.Keys == cells && now.Keys == cells
    && (forall c :: c in done ==> now[c] == FixRef(was[c], packageMap, typeMap))
    && (forall c :: c in cells && c !in done ==> now[c] == was[c])
    && (modified <==> exists c :: c in done && now[c] != was[c])
  }

  /** Fixing some more cells, some of them perhaps for the second time. */
  lemma ProgressStep(cells: set<Cell>, done: set<Cell>, more: set<Cell>, was: Contents, before: Contents,
                     after: Contents,
                     packageMap: Index, typeMap: Index, modified: bool, changed: bool)
    requires RootedLists(typeMap) && more <= cells && after.Keys == cells && was.Keys == cells
    requires (done == {} && before == was && !modified)
        || Progress(cells, done, was, before, packageMap, typeMap, modified)
    requires before.Keys == cells
    requires forall c :: c in more ==> after[c] == FixRef(before[c], packageMap, typeMap)
    requires forall c :: c in cells && c !in more ==> after[c] == before[c]
    requires changed <==> exists c :: c in more && after[c] != before[c]
    ensures Progress(cells, done + more, was, after, packageMap, typeMap, modified || changed)
  {
    hide FixRef, RootedLists;
    forall c | c in done
      ensures FixRef(before[c], packageMap, typeMap) == before[c]
    {
      FixRefIdempotent(was[c], packageMap, typeMap);
    }
    forall c | c in done + more
      ensures after[c] == FixRef(was[c], packageMap, typeMap)
      ensures after[c] != was[c] <==> (c in done && before[c] != was[c]) || (c in more && after[c] != before[c])
    {
    }
  }

  lemma ProgressEnds(cells: set<Cell>, was: Contents, now: Contents, packageMap: Index, typeMap: Index, modified: bool)
    requires Progress(cells, cells, was, now, packageMap, typeMap, modified)
    ensures FixedContents(cells, was, now, packageMap, typeMap)
    ensures modified <==> exists c :: c in cells && now[c] != was[c]
  {
  }

  method FixMessageTypeNames(mt: MessageDescriptor<Cell>, ghost cells: set<Cell>, packageMap: Index, typeMap: Index)
    returns (modified: bool)
    requires cells == MessageCells(mt) && RootedLists(typeMap)
    modifies cells
    ensures Fixed(cells, packageMap, typeMap)
    ensures modified <==> Changed(cells)
    decreases mt
  {
    hide FixRef, RootedLists, Progress, MessageCells;
    MessageCellsAre(mt);
    ghost var was := Snapshot(cells);
    ghost var done: set<Cell> := set c | c in mt.fieldTypes;
    modified := FixCells(mt.fieldTypes, packageMap, typeMap);
    ProgressStep(cells, {}, done, was, was, Snapshot(cells), packageMap, typeMap, false, modified);
    assert {} + done == done;
    for i := 0 to |mt.nested|
      invariant done == (set c | c in mt.fieldTypes) + NestedCells(mt, i) && done <= cells
      invariant Progress(cells, done, was, Snapshot(cells), packageMap, typeMap, modified)
    {
      NestedCellsHave(mt, |mt.nested|, i);
      ghost var inner := MessageCells(mt.nested[i]);
      ghost var before := Snapshot(cells);
      var changed := FixMessageTypeNames(mt.nested[i], inner, packageMap, typeMap);
      assert forall c :: c in inner ==> c.text == FixRef(before[c], packageMap, typeMap);
      ProgressStep(cells, done, inner, was, before, Snapshot(cells), packageMap, typeMap, modified, changed);
      done := done + inner;
      if changed {
        modified := true;
      }
    }
    ProgressEnds(cells, was, Snapshot(cells), packageMap, typeMap, modified);
  }

  // --- Files ---

  function ServiceCells(service: seq<MethodDescriptor<Cell>>): set<Cell> {
    (set m | m in service :: m.inputType) + (set m | m in service :: m.outputType)
  }

  function FileCells(fd: FileDescriptor<Cell>): set<Cell> {
    (set m, c | m in fd.messages && c in MessageCells(m) :: c)
    + (set s, c | s in fd.services && c in ServiceCells(s) :: c)
    + (set e | e in fd.extensions :: e.extendee)
    + (set e | e in fd.extensions :: e.typeName)
  }

  function ShowService(service: seq<MethodDescriptor<Cell>>, now: Contents): seq<MethodDescriptor<string>>
    requires ServiceCells(service) <= now.Keys
  {
    seq(|service|, i requires 0 <= i < |service| =>
      assert service[i] in service;
      MethodDescriptor(now[service[i].inputType], now[service[i].outputType]))
  }

  function ShowFile(fd: FileDescriptor<Cell>, now: Contents): FileDescriptor<string>
    requires FileCells(fd) <= now.Keys
  {
    FileDescriptor(fd.package,
      seq(|fd.messages|, i requires 0 <= i < |fd.messages| =>
        (PartsOfFile(fd, i, 0, 0); ShowMessage(fd.messages[i], now))),
      fd.enums,
      seq(|fd.services|, i requires 0 <= i < |fd.services| =>
        (PartsOfFile(fd, 0, i, 0); ShowService(fd.services[i], now))),
      seq(|fd.extensions|, i requires 0 <= i < |fd.extensions| =>
        (PartsOfFile(fd, 0, 0, i);
         ExtensionDescriptor(now[fd.extensions[i].extendee], now[fd.extensions[i].typeName]))))
  }

  /** The cells of the parts are cells of the file. */
  lemma PartsOfFile(fd: FileDescriptor<Cell>, m: nat, s: nat, e: nat)
    ensures m < |fd.messages| ==> MessageCells(fd.messages[m]) <= FileCells(fd)
    ensures s < |fd.services| ==> ServiceCells(fd.services[s]) <= FileCells(fd)
    ensures e < |fd.extensions| ==>
        fd.extensions[e].extendee in FileCells(fd) && fd.extensions[e].typeName in FileCells(fd)
  {
    if m < |fd.messages| { assert fd.messages[m] in fd.messages; }
    if s < |fd.services| { assert fd.services[s] in fd.services; }
    if e < |fd.extensions| { assert fd.extensions[e] in fd.extensions; }
  }

  /** When every cell holds the fixed form of what it held, the file is the repaired file. */
  lemma FileIsFixed(fd: FileDescriptor<Cell>, was: Contents, now: Contents, packageMap: Index, typeMap: Index)
    requires FixedContents(FileCells(fd), was, now, packageMap, typeMap)
    ensures ShowFile(fd, now) == FixFile(ShowFile(fd, was), packageMap, typeMap)
  {
    hide FixRef;
    forall i | 0 <= i < |fd.messages|
      ensures ShowFile(fd, now).messages[i] == FixMessage(ShowFile(fd, was).messages[i], packageMap, typeMap)
    {
      PartsOfFile(fd, i, 0, 0);
      MessageIsFixed(fd.messages[i], was, now, packageMap, typeMap);
    }
    forall i | 0 <= i < |fd.services|
      ensures ShowFile(fd, now).services[i] == FixService(ShowFile(fd, was).services[i], packageMap, typeMap)
    {
      PartsOfFile(fd, 0, i, 0);
    }
    forall i | 0 <= i < |fd.extensions|
      ensures ShowFile(fd, now).extensions[i] == FixExtension(ShowFile(fd, was).extensions[i], packageMap, typeMap)
    {
      PartsOfFile(fd, 0, 0, i);
    }
  }

  /** One more cell of the file, in the course of fixing it. */
  method FixNext(cell: Cell, ghost cells: set<Cell>, ghost done: set<Cell>, ghost was: Contents,
                 packageMap: Index, typeMap: Index, modified: bool)
    returns (now: bool)
    requires cell in cells && RootedLists(typeMap)
    requires Progress(cells, done, was, Snapshot(cells), packageMap, typeMap, modified)
    modifies cell
    ensures Progress(cells, done + {cell}, was, Snapshot(cells), packageMap, typeMap, now)
  {
    assert was.Keys == cells;
    hide Progress;
    ghost var before := Snapshot(cells);
    var changed := FixCell(cell, packageMap, typeMap);
    ProgressStep(cells, done, {cell}, was, before, Snapshot(cells), packageMap, typeMap, modified, changed);
    now := modified || changed;
  }

  /** Two more cells of the file. */
  method FixPair(a: Cell, b: Cell, ghost cells: set<Cell>, ghost done: set<Cell>, ghost was: Contents,
                 packageMap: Index, typeMap: Index, modified: bool)
    returns (now: bool)
    requires a in cells && b in cells && RootedLists(typeMap)
    requires Progress(cells, done, was, Snapshot(cells), packageMap, typeMap, modified)
    modifies a, b
    ensures Progress(cells, done + {a, b}, was, Snapshot(cells), packageMap, typeMap, now)
  {
    hide Progress;
    now := FixNext(a, cells, done, was, packageMap, typeMap, modified);
    now := FixNext(b, cells, done + {a}, was, packageMap, typeMap, now);
    assert done + {a} + {b} == done + {a, b};
  }

  lemma ProgressBegins(cells: set<Cell>, was: Contents, packageMap: Index, typeMap: Index)
    requires was.Keys == cells
    ensures Progress(cells, {}, was, was, packageMap, typeMap, false)
  {
  }

  ghost function MessagesCells(messages: seq<MessageDescriptor<Cell>>): set<Cell> {
    set m, c | m in messages && c in MessageCells(m) :: c
  }

  ghost function ServicesCells(services: seq<seq<MethodDescriptor<Cell>>>): set<Cell> {
    set s, c | s in services && c in ServiceCells(s) :: c
  }

  ghost function ExtensionsCells(extensions: seq<ExtensionDescriptor<Cell>>): set<Cell> {
    (set e | e in extensions :: e.extendee) + (set e | e in extensions :: e.typeName)
  }

  method FixMessages(messages: seq<MessageDescriptor<Cell>>, ghost cells: set<Cell>, packageMap: Index, typeMap: Index)
    returns (modified: bool)
    requires cells == MessagesCells(messages) && RootedLists(typeMap)
    modifies cells
    ensures Fixed(cells, packageMap, typeMap)
    ensures modified <==> Changed(cells)
  {
    hide FixRef, RootedLists, Progress, MessageCells;
    ghost var was := Snapshot(cells);
    ghost var done: set<Cell> := {};
    ProgressBegins(cells, was, packageMap, typeMap);
    modified := false;
    for i := 0 to |messages|
      invariant done <= cells && Progress(cells, done, was, Snapshot(cells), packageMap, typeMap, modified)
      invariant forall j :: 0 <= j < i ==> MessageCells(messages[j]) <= done
    {
      assert messages[i] in messages;
      ghost var inner := MessageCells(messages[i]);
      ghost var before := Snapshot(cells);
      var changed := FixMessageTypeNames(messages[i], inner, packageMap, typeMap);
      assert forall c :: c in inner ==> c.text == FixRef(before[c], packageMap, typeMap);
      ProgressStep(cells, done, inner, was, before, Snapshot(cells), packageMap, typeMap, modified, changed);
      done := done + inner;
      if changed {
        modified := true;
      }
    }
    assert done == cells;
    ProgressEnds(cells, was, Snapshot(cells), packageMap, typeMap, modified);
  }

  lemma ServiceHas(service: seq<MethodDescriptor<Cell>>, k: nat)
    requires k < |service|
    ensures service[k].inputType in ServiceCells(service) && service[k].outputType in ServiceCells(service)
  {
    assert service[k] in service;
  }

  lemma ServiceCovered(service: seq<MethodDescriptor<Cell>>, done: set<Cell>)
    requires done <= ServiceCells(service)
    requires forall j :: 0 <= j < |service| ==> service[j].inputType in done && service[j].outputType in done
    ensures done == ServiceCells(service)
  {
  }

  method FixServiceMethods(service: seq<MethodDescriptor<Cell>>, ghost cells: set<Cell>, packageMap: Index,
                           typeMap: Index)
    returns (modified: bool)
    requires cells == ServiceCells(service) && RootedLists(typeMap)
    modifies cells
    ensures Fixed(cells, packageMap, typeMap)
    ensures modified <==> Changed(cells)
  {
    hide FixRef, RootedLists, Progress, ServiceCells;
    ghost var was := Snapshot(cells);
    ghost var done: set<Cell> := {};
    ProgressBegins(cells, was, packageMap, typeMap);
    modified := false;
    for k := 0 to |service|
      invariant done <= cells && Progress(cells, done, was, Snapshot(cells), packageMap, typeMap, modified)
      invariant forall j :: 0 <= j < k ==> service[j].inputType in done && service[j].outputType in done
    {
      ServiceHas(service, k);
      modified := FixPair(service[k].inputType, service[k].outputType, cells, done, was, packageMap, typeMap, modified);
      done := done + {service[k].inputType, service[k].outputType};
    }
    ServiceCovered(service, done);
    ProgressEnds(cells, was, Snapshot(cells), packageMap, typeMap, modified);
  }

  method FixServices(services: seq<seq<MethodDescriptor<Cell>>>, ghost cells: set<Cell>, packageMap: Index,
                     typeMap: Index)
    returns (modified: bool)
    requires cells == ServicesCells(services) && RootedLists(typeMap)
    modifies cells
    ensures Fixed(cells, packageMap, typeMap)
    ensures modified <==> Changed(cells)
  {
    hide FixRef, RootedLists, Progress, ServiceCells;
    ghost var was := Snapshot(cells);
    ghost var done: set<Cell> := {};
    ProgressBegins(cells, was, packageMap, typeMap);
    modified := false;
    for i := 0 to |services|
      invariant done <= cells && Progress(cells, done, was, Snapshot(cells), packageMap, typeMap, modified)
      invariant forall j :: 0 <= j < i ==> ServiceCells(services[j]) <= done
    {
      assert services[i] in services;
      ghost var inner := ServiceCells(services[i]);
      ghost var before := Snapshot(cells);
      var changed := FixServiceMethods(services[i], inner, packageMap, typeMap);
      assert forall c :: c in inner ==> c.text == FixRef(before[c], packageMap, typeMap);
      ProgressStep(cells, done, inner, was, before, Snapshot(cells), packageMap, typeMap, modified, changed);
      done := done + inner;
      if changed {
        modified := true;
      }
    }
    assert done == cells;
    ProgressEnds(cells, was, Snapshot(cells), packageMap, typeMap, modified);
  }

  lemma ExtensionsHas(extensions: seq<ExtensionDescriptor<Cell>>, k: nat)
    requires k < |extensions|
    ensures extensions[k].extendee in ExtensionsCells(extensions)
        && extensions[k].typeName in ExtensionsCells(extensions)
  {
    assert extensions[k] in extensions;
  }

  lemma ExtensionsCovered(extensions: seq<ExtensionDescriptor<Cell>>, done: set<Cell>)
    requires done <= ExtensionsCells(extensions)
    requires forall j :: 0 <= j < |extensions| ==> extensions[j].extendee in done && extensions[j].typeName in done
    ensures done == ExtensionsCells(extensions)
  {
  }

  method FixExtensions(extensions: seq<ExtensionDescriptor<Cell>>, ghost cells: set<Cell>, packageMap: Index,
                       typeMap: Index)
    returns (modified: bool)
    requires cells == ExtensionsCells(extensions) && RootedLists(typeMap)
    modifies cells
    ensures Fixed(cells, packageMap, typeMap)
    ensures modified <==> Changed(cells)
  {
    hide FixRef, RootedLists, Progress, ExtensionsCells;
    ghost var was := Snapshot(cells);
    ghost var done: set<Cell> := {};
    ProgressBegins(cells, was, packageMap, typeMap);
    modified := false;
    for k := 0 to |extensions|
      invariant done <= cells && Progress(cells, done, was, Snapshot(cells), packageMap, typeMap, modified)
      invariant forall j :: 0 <= j < k ==> extensions[j].extendee in done && extensions[j].typeName in done
    {
      ExtensionsHas(extensions, k);
      var e := extensions[k];
      modified := FixPair(e.extendee, e.typeName, cells, done, was, packageMap, typeMap, modified);
      done := done + {extensions[k].extendee, extensions[k].typeName};
    }
    ExtensionsCovered(extensions, done);
    ProgressEnds(cells, was, Snapshot(cells), packageMap, typeMap, modified);
  }

  /**
   * Fixing a file in place: messages, then service methods, then extensions. The result tells
   * whether some reference changed.
   */
  method ApplyFixes(fd: FileDescriptor<Cell>, ghost cells: set<Cell>, packageMap: Index, typeMap: Index)
    returns (modified: bool)
    requires cells == FileCells(fd) && RootedLists(typeMap)
    modifies cells
    ensures ShowFile(fd, Snapshot(cells)) == FixFile(old(ShowFile(fd, Snapshot(cells))), packageMap, typeMap)
    ensures modified <==> Changed(cells)
  {
    hide FixRef, RootedLists, Progress, ShowFile, MessagesCells, ServicesCells, ExtensionsCells;
    ghost var was := Snapshot(cells);
    ghost var ms, ss, es := MessagesCells(fd.messages), ServicesCells(fd.services), ExtensionsCells(fd.extensions);
    CellsOfParts(fd);
    ProgressBegins(cells, was, packageMap, typeMap);

    var inMessages := FixMessages(fd.messages, ms, packageMap, typeMap);
    ghost var s1 := Snapshot(cells);
    assert forall c :: c in ms ==> c.text == FixRef(was[c], packageMap, typeMap);
    ProgressStep(cells, {}, ms, was, was, s1, packageMap, typeMap, false, inMessages);

    var inServices := FixServices(fd.services, ss, packageMap, typeMap);
    ghost var s2 := Snapshot(cells);
    assert forall c :: c in ss ==> c.text == FixRef(s1[c], packageMap, typeMap);
    ProgressStep(cells, {} + ms, ss, was, s1, s2, packageMap, typeMap, inMessages, inServices);

    var inExtensions := FixExtensions(fd.extensions, es, packageMap, typeMap);
    assert forall c :: c in es ==> c.text == FixRef(s2[c], packageMap, typeMap);
    ProgressStep(cells, {} + ms + ss, es, was, s2, Snapshot(cells), packageMap, typeMap,
                 inMessages || inServices, inExtensions);

    modified := inMessages || inServices || inExtensions;
    assert {} + ms + ss + es == cells;
    ProgressEnds(cells, was, Snapshot(cells), packageMap, typeMap, modified);
    FileIsFixed(fd, was, Snapshot(cells), packageMap, typeMap);
  }

  lemma CellsOfParts(fd: FileDescriptor<Cell>)
    ensures FileCells(fd) == MessagesCells(fd.messages) + ServicesCells(fd.services) + ExtensionsCells(fd.extensions)
  {
  }

  // --- Decoding and encoding ---

  /** What a message shows depends on its own cells only. */
  lemma {:induction false} ShowIsLocal(m: MessageDescriptor<Cell>, a: Contents, b: Contents)
    requires MessageCells(m) <= a.Keys && MessageCells(m) <= b.Keys
    requires forall c :: c in MessageCells(m) ==> a[c] == b[c]
    ensures ShowMessage(m, a) == ShowMessage(m, b)
    decreases m, 1
  {
    ShowNestedIsLocal(m, |m.nested|, a, b);
    assert forall i :: 0 <= i < |m.fieldTypes| ==> m.fieldTypes[i] in MessageCells(m);
  }

  lemma {:induction false} ShowNestedIsLocal(m: MessageDescriptor<Cell>, n: nat, a: Contents, b: Contents)
    requires n <= |m.nested| && NestedCells(m, n) <= a.Keys && NestedCells(m, n) <= b.Keys
    requires forall c :: c in NestedCells(m, n) ==> a[c] == b[c]
    ensures ShowNested(m, n, a) == ShowNested(m, n, b)
    decreases m, 0, n
  {
    if n > 0 {
      ShowNestedIsLocal(m, n - 1, a, b);
      ShowIsLocal(m.nested[n - 1], a, b);
    }
  }

  lemma {:induction false} NestedCellsAre(m: MessageDescriptor<Cell>, n: nat)
    requires n <= |m.nested|
    ensures forall c :: c in NestedCells(m, n) ==> exists i :: 0 <= i < n && c in MessageCells(m.nested[i])
  {
    if n > 0 {
      NestedCellsAre(m, n - 1);
    }
  }

  /** A message whose parts show the parts of `v` shows `v`. */
  lemma Assembled(m: MessageDescriptor<Cell>, v: MessageDescriptor<string>, now: Contents)
    requires MessageCells(m) <= now.Keys && m.name == v.name && |m.nested| == |v.nested|
    requires |m.fieldTypes| == |v.fieldTypes|
    requires forall i :: 0 <= i < |m.fieldTypes| ==> m.fieldTypes[i] in now && now[m.fieldTypes[i]] == v.fieldTypes[i]
    requires forall i :: 0 <= i < |m.nested| ==>
               MessageCells(m.nested[i]) <= now.Keys && ShowMessage(m.nested[i], now) == v.nested[i]
    ensures ShowMessage(m, now) == v
  {
    AssembledNested(m, |m.nested|, v, now);
    assert v.nested[..|m.nested|] == v.nested;
    assert forall i :: 0 <= i < |m.fieldTypes| ==> m.fieldTypes[i] in MessageCells(m);
  }

  lemma {:induction false} AssembledNested(m: MessageDescriptor<Cell>, n: nat, v: MessageDescriptor<string>,
                                           now: Contents)
    requires n <= |m.nested| == |v.nested| && NestedCells(m, n) <= now.Keys
    requires forall i :: 0 <= i < |m.nested| ==>
               MessageCells(m.nested[i]) <= now.Keys && ShowMessage(m.nested[i], now) == v.nested[i]
    ensures ShowNested(m, n, now) == v.nested[..n]
  {
    if n > 0 {
      AssembledNested(m, n - 1, v, now);
    }
  }

  /** Fresh cells for a list of strings. */
  method NewCells(texts: seq<string>) returns (cells: seq<Cell>)
    ensures fresh(cells) && |cells| == |texts|
    ensures forall i :: 0 <= i < |cells| ==> cells[i].text == texts[i]
  {
    cells := [];
    for i := 0 to |texts|
      invariant fresh(cells) && |cells| == i
      invariant forall j :: 0 <= j < i ==> cells[j].text == texts[j]
    {
      var c := new Cell(texts[i]);
      cells := cells + [c];
    }
  }

  ghost predicate Decoded(m: MessageDescriptor<Cell>, v: MessageDescriptor<string>)
    reads MessageCells(m)
  {
    ShowMessage(m, Snapshot(MessageCells(m))) == v
  }

  method DecodeMessage(v: MessageDescriptor<string>) returns (m: MessageDescriptor<Cell>, ghost all: set<Cell>)
    ensures fresh(all) && MessageCells(m) <= all && Decoded(m, v)
    decreases v
  {
    var cells := NewCells(v.fieldTypes);
    var nested, inner := DecodeMessages(v.nested);
    m := MessageDescriptor(v.name, cells, nested);
    all := (set c | c in cells) + inner;
    NestedCellsAre(m, |m.nested|);
    ghost var now := Snapshot(all);
    forall i | 0 <= i < |m.nested|
      ensures MessageCells(m.nested[i]) <= now.Keys && ShowMessage(m.nested[i], now) == v.nested[i]
    {
      assert Decoded(m.nested[i], v.nested[i]);
      ShowIsLocal(m.nested[i], Snapshot(MessageCells(m.nested[i])), now);
    }
    Assembled(m, v, now);
    ShowIsLocal(m, Snapshot(MessageCells(m)), now);
  }

  method DecodeMessages(vs: seq<MessageDescriptor<string>>) returns (ms: seq<MessageDescriptor<Cell>>,
                        ghost all: set<Cell>)
    ensures |ms| == |vs| && fresh(all)
    ensures forall i :: 0 <= i < |ms| ==> MessageCells(ms[i]) <= all && Decoded(ms[i], vs[i])
    decreases vs
  {
    hide Decoded, MessageCells;
    ms, all := [], {};
    for i := 0 to |vs|
      invariant |ms| == i && fresh(all)
      invariant forall j :: 0 <= j < i ==> MessageCells(ms[j]) <= all && Decoded(ms[j], vs[j])
    {
      var m, more := DecodeMessage(vs[i]);
      ms, all := ms + [m], all + more;
    }
  }

  method DecodeMethods(vs: seq<MethodDescriptor<string>>) returns (ms: seq<MethodDescriptor<Cell>>)
    ensures |ms| == |vs| && fresh(ServiceCells(ms))
    ensures forall i :: 0 <= i < |ms| ==>
        ms[i].inputType.text == vs[i].inputType && ms[i].outputType.text == vs[i].outputType
  {
    ms := [];
    for i := 0 to |vs|
      invariant |ms| == i
      invariant forall j :: 0 <= j < i ==> fresh(ms[j].inputType) && fresh(ms[j].outputType)
      invariant forall j :: 0 <= j < i ==>
          ms[j].inputType.text == vs[j].inputType && ms[j].outputType.text == vs[j].outputType
    {
      var input := new Cell(vs[i].inputType);
      var output := new Cell(vs[i].outputType);
      ms := ms + [MethodDescriptor(input, output)];
    }
  }

  method DecodeServices(vs: seq<seq<MethodDescriptor<string>>>) returns (ss: seq<seq<MethodDescriptor<Cell>>>)
    ensures |ss| == |vs|
    ensures forall i :: 0 <= i < |ss| ==> fresh(ServiceCells(ss[i])) && ServiceDecoded(ss[i], vs[i])
  {
    ss := [];
    for i := 0 to |vs|
      invariant |ss| == i
      invariant forall j :: 0 <= j < i ==> fresh(ServiceCells(ss[j])) && ServiceDecoded(ss[j], vs[j])
    {
      var s := DecodeMethods(vs[i]);
      assert forall k :: 0 <= k < |s| ==> s[k] in s;
      assert ServiceDecoded(s, vs[i]);
      ss := ss + [s];
    }
  }

  ghost predicate ServiceDecoded(s: seq<MethodDescriptor<Cell>>, v: seq<MethodDescriptor<string>>)
    reads ServiceCells(s)
  {
    ShowService(s, Snapshot(ServiceCells(s))) == v
  }

  method DecodeExtensions(vs: seq<ExtensionDescriptor<string>>) returns (es: seq<ExtensionDescriptor<Cell>>)
    ensures |es| == |vs| && fresh(ExtensionsCells(es))
    ensures forall i :: 0 <= i < |es| ==> es[i].extendee.text == vs[i].extendee && es[i].typeName.text == vs[i].typeName
  {
    es := [];
    for i := 0 to |vs|
      invariant |es| == i
      invariant forall j :: 0 <= j < i ==> fresh(es[j].extendee) && fresh(es[j].typeName)
      invariant forall j :: 0 <= j < i ==>
          es[j].extendee.text == vs[j].extendee && es[j].typeName.text == vs[j].typeName
    {
      var extendee := new Cell(vs[i].extendee);
      var typeName := new Cell(vs[i].typeName);
      es := es + [ExtensionDescriptor(extendee, typeName)];
    }
  }

  method Decode(v: FileDescriptor<string>) returns (fd: FileDescriptor<Cell>, ghost all: set<Cell>)
    ensures all == FileCells(fd) && fresh(all) && ShowFile(fd, Snapshot(all)) == v
  {
    var messages, inMessages := DecodeMessages(v.messages);
    var services := DecodeServices(v.services);
    var extensions := DecodeExtensions(v.extensions);
    fd := FileDescriptor(v.package, messages, v.enums, services, extensions);
    all := (set c | c in inMessages && c in FileCells(fd)) + ServicesCells(services) + ExtensionsCells(extensions);
    hide FileCells, MessageCells, ServiceCells, ShowMessage, ShowService, ShowFile;
    ghost var now := Snapshot(all);
    forall i | 0 <= i < |messages|
      ensures MessageCells(messages[i]) <= now.Keys && ShowMessage(messages[i], now) == v.messages[i]
    {
      PartsOfFile(fd, i, 0, 0);
      assert Decoded(messages[i], v.messages[i]);
      ShowIsLocal(messages[i], Snapshot(MessageCells(messages[i])), now);
    }
    forall i | 0 <= i < |services|
      ensures ServiceCells(services[i]) <= now.Keys && ShowService(services[i], now) == v.services[i]
    {
      PartsOfFile(fd, 0, i, 0);
      assert ServiceDecoded(services[i], v.services[i]);
      ShowServiceIsLocal(services[i], Snapshot(ServiceCells(services[i])), now);
    }
    AssembledFile(fd, v, now);
  }

  lemma ShowServiceIsLocal(s: seq<MethodDescriptor<Cell>>, a: Contents, b: Contents)
    requires ServiceCells(s) <= a.Keys && ServiceCells(s) <= b.Keys
    requires forall c :: c in ServiceCells(s) ==> a[c] == b[c]
    ensures ShowService(s, a) == ShowService(s, b)
  {
    assert forall i :: 0 <= i < |s| ==> s[i] in s;
  }

  lemma AssembledFile(fd: FileDescriptor<Cell>, v: FileDescriptor<string>, now: Contents)
    requires FileCells(fd) <= now.Keys && fd.package == v.package && fd.enums == v.enums
    requires |fd.messages| == |v.messages| && |fd.services| == |v.services| && |fd.extensions| == |v.extensions|
    requires forall i :: 0 <= i < |fd.messages| ==>
               MessageCells(fd.messages[i]) <= now.Keys && ShowMessage(fd.messages[i], now) == v.messages[i]
    requires forall i :: 0 <= i < |fd.services| ==>
               ServiceCells(fd.services[i]) <= now.Keys && ShowService(fd.services[i], now) == v.services[i]
    requires forall i :: 0 <= i < |fd.extensions| ==>
               && fd.extensions[i].extendee in now && now[fd.extensions[i].extendee] == v.extensions[i].extendee
               && fd.extensions[i].typeName in now && now[fd.extensions[i].typeName] == v.extensions[i].typeName
    ensures ShowFile(fd, now) == v
  {
  }

  // --- The whole repair ---

  /** Decoding a buffer, fixing it in place, and encoding it again when that changed something. */
  method RepairBuffer(buf: FileDescriptor<string>, packageMap: Index, typeMap: Index)
    returns (fixed: FileDescriptor<string>, modified: bool)
    requires RootedLists(typeMap)
    ensures fixed == FixFile(buf, packageMap, typeMap)
    ensures !modified ==> fixed == buf
  {
    hide FixFile, ShowFile, FileCells, RootedLists;
    var fd, all := Decode(buf);
    ghost var was := Snapshot(all);
    modified := ApplyFixes(fd, all, packageMap, typeMap);
    fixed := ShowFile(fd, Snapshot(FileCells(fd)));
    if !modified {
      assert Snapshot(all) == was;
    }
  }

  /** One more file in the indexes; a file seen before adds nothing. */
  lemma AddFile(files: seq<FileDescriptor<string>>, buf: FileDescriptor<string>)
    ensures buf.package != "" ==>
      && PackageMap(files + [buf]) == InsertAll(PackageMap(files), PackageEntries(buf.package))
      && TypeMap(files + [buf]) == InsertAll(TypeMap(files), TypeEntries(buf))
    ensures buf in files || buf.package == "" ==>
      PackageMap(files + [buf]) == PackageMap(files) && TypeMap(files + [buf]) == TypeMap(files)
  {
    var more := files + [buf];
    assert more[..|more| - 1] == files && more[|more| - 1] == buf;
    if buf.package == "" {
      assert AllPackageEntries(more) == AllPackageEntries(files) && AllTypeEntries(more) == AllTypeEntries(files);
    } else {
      InsertAllAppend(map[], AllPackageEntries(files), PackageEntries(buf.package));
      InsertAllAppend(map[], AllTypeEntries(files), TypeEntries(buf));
      if buf in files {
        KnownEntries(files, buf);
        InsertAgain(AllPackageEntries(files), PackageEntries(buf.package));
        InsertAgain(AllTypeEntries(files), TypeEntries(buf));
      }
    }
  }

  lemma {:induction false} KnownEntries(files: seq<FileDescriptor<string>>, buf: FileDescriptor<string>)
    requires buf in files && buf.package != ""
    ensures forall e :: e in PackageEntries(buf.package) ==> e in AllPackageEntries(files)
    ensures forall e :: e in TypeEntries(buf) ==> e in AllTypeEntries(files)
  {
    var n := |files| - 1;
    if files[n] != buf {
      assert files == files[..n] + [files[n]];
      KnownEntries(files[..n], buf);
    }
  }

  /** Collecting the indexes from all buffers, each different one decoded once. */
  method CollectNames(definitions: seq<Definition>) returns (tables: NameTables, decoded: seq<FileDescriptor<string>>)
    ensures tables.packageMap == PackageMap(AllFiles(definitions)) && tables.typeMap == TypeMap(AllFiles(definitions))
    ensures forall b :: b in decoded <==> b in AllFiles(definitions)
  {
    hide PackageMap, TypeMap;
    tables := new NameTables();
    decoded := [];
    NoFiles();
    for i := 0 to |definitions|
      invariant fresh(tables)
      invariant var files := AllFiles(definitions[..i]);
        && tables.packageMap == PackageMap(files) && tables.typeMap == TypeMap(files)
        && forall b :: b in decoded <==> b in files
    {
      ghost var files := AllFiles(definitions[..i]);
      assert definitions[..i + 1][..i] == definitions[..i];
      if definitions[i].buffers.Some? {
        var buffers := definitions[i].buffers.value;
        assert files + buffers[..0] == files;
        for k := 0 to |buffers|
          invariant fresh(tables)
          invariant tables.packageMap == PackageMap(files + buffers[..k])
          invariant tables.typeMap == TypeMap(files + buffers[..k])
          invariant forall b :: b in decoded <==> b in files + buffers[..k]
        {
          var buf := buffers[k];
          AddFile(files + buffers[..k], buf);
          assert files + buffers[..k + 1] == files + buffers[..k] + [buf];
          if buf !in decoded {
            decoded := decoded + [buf];
            if buf.package != "" {
              tables.BuildPackageMap(buf.package);
              tables.CollectTypes(buf);
            }
          }
        }
        assert buffers[..|buffers|] == buffers;
      } else {
        assert AllFiles(definitions[..i + 1]) == files;
      }
    }
    assert definitions[..|definitions|] == definitions;
  }

  lemma NoFiles()
    ensures PackageMap<string>([]) == map[] && TypeMap<string>([]) == map[]
  {
  }

  method FixReflectionTypeNames(definitions: seq<Definition>) returns (r: seq<Definition>)
    ensures r == FixDefinitions(definitions)
  {
    hide FixFile, PackageMap, TypeMap, RootedLists;
    ghost var files := AllFiles(definitions);
    var tables, decoded := CollectNames(definitions);
    var packageMap, typeMap := tables.packageMap, tables.typeMap;
    TypeMapIsRooted(files);
    var fixedBuffers: map<FileDescriptor<string>, FileDescriptor<string>> := map[];
    for i := 0 to |decoded|
      invariant fixedBuffers.Keys <= set b | b in decoded[..i]
      invariant forall b :: b in fixedBuffers ==> fixedBuffers[b] == FixFile(b, packageMap, typeMap)
      invariant forall b :: b in decoded[..i] && b !in fixedBuffers ==> FixFile(b, packageMap, typeMap) == b
    {
      var fixed, modified := RepairBuffer(decoded[i], packageMap, typeMap);
      if modified {
        fixedBuffers := fixedBuffers[decoded[i] := fixed];
      }
      assert decoded[..i + 1] == decoded[..i] + [decoded[i]];
    }
    assert decoded[..|decoded|] == decoded;
    r := ReplaceBuffers(definitions, decoded, fixedBuffers, packageMap, typeMap);
    if fixedBuffers == map[] {
      assert forall i :: 0 <= i < |definitions| ==> r[i] == definitions[i];
      return definitions;
    }
  }

  /** New definitions in which every fixed buffer takes the place of the one it was made from. */
  method ReplaceBuffers(definitions: seq<Definition>, ghost decoded: seq<FileDescriptor<string>>,
                        fixedBuffers: map<FileDescriptor<string>, FileDescriptor<string>>,
                        ghost packageMap: Index, ghost typeMap: Index)
    returns (r: seq<Definition>)
    requires forall b :: b in AllFiles(definitions) ==> b in decoded
    requires forall b :: b in decoded ==>
               (if b in fixedBuffers then fixedBuffers[b] else b) == FixFile(b, packageMap, typeMap)
    ensures |r| == |definitions|
    ensures forall i :: 0 <= i < |r| ==> r[i] == FixDefinition(definitions[i], packageMap, typeMap)
    ensures fixedBuffers == map[] ==> r == definitions
  {
    hide FixFile;
    r := [];
    for i := 0 to |definitions|
      invariant |r| == i
      invariant forall j :: 0 <= j < i ==> r[j] == FixDefinition(definitions[j], packageMap, typeMap)
      invariant fixedBuffers == map[] ==> r == definitions[..i]
    {
      var d := definitions[i];
      if d.buffers.Some? {
        OwnFiles(definitions, i);
        var buffers := d.buffers.value;
        var fixed := seq(|buffers|, k requires 0 <= k < |buffers| =>
          if buffers[k] in fixedBuffers then fixedBuffers[buffers[k]] else buffers[k]);
        assert fixed == FixFiles(buffers, packageMap, typeMap);
        assert fixedBuffers == map[] ==> fixed == buffers;
        r := r + [d.(buffers := Some(fixed))];
      } else {
        r := r + [d];
      }
    }
  }

  lemma {:induction false} OwnFiles(definitions: seq<Definition>, i: nat)
    requires i < |definitions|
    ensures forall b :: b in definitions[i].buffers.GetOr([]) ==> b in AllFiles(definitions)
  {
    var n := |definitions| - 1;
    if i < n {
      OwnFiles(definitions[..n], i);
    }
  }
}
