/** Repairing the descriptors of a package definition: indexes first, then all references in place. */
module ReflectionFix {
  import opened Wrappers
  import opened Dotted
  import opened NameIndex
  import opened ReflectionNames

  // --- The indexes are exact ---

  lemma {:induction false} SuffixEntriesAre(package: string, n: nat, suffix: string, value: string)
    requires 1 <= n <= |Split(package)|
    ensures (suffix, value) in SuffixEntries(package, n) <==>
              value == package && exists i :: 1 <= i < n && suffix == Join(Split(package)[i..])
  {
    if n > 1 {
      SuffixEntriesAre(package, n - 1, suffix, value);
    }
  }

  lemma PackageEntriesAre(package: string, suffix: string, value: string)
    ensures (suffix, value) in PackageEntries(package) <==> value == package && DottedSuffix(package, suffix)
  {
    SuffixEntriesAre(package, |Split(package)|, suffix, value);
    DottedSuffixes(package, suffix);
  }

  lemma {:induction false} AllPackageEntriesAre<R>(files: seq<FileDescriptor<R>>, suffix: string, package: string)
    ensures (suffix, package) in AllPackageEntries(files) <==>
              package != "" && DottedSuffix(package, suffix) && exists fd :: fd in files && fd.package == package
  {
    if files != [] {
      var before, fd := files[..|files| - 1], files[|files| - 1];
      assert files == before + [fd];
      AllPackageEntriesAre(before, suffix, package);
      PackageEntriesAre(fd.package, suffix, package);
    }
  }

  /** A message, or one nested in it at any depth, has this simple and this full name. */
  ghost predicate Declares<R>(m: MessageDescriptor<R>, prefix: string, name: string, fqn: string) {
    || (m.name != "" && name == m.name && fqn == prefix + m.name)
    || exists inner :: inner in m.nested && Declares(inner, prefix + m.name + ".", name, fqn)
  }

  ghost predicate FileDeclares<R>(fd: FileDescriptor<R>, name: string, fqn: string) {
    var prefix := "." + fd.package + ".";
    || (exists m :: m in fd.messages && Declares(m, prefix, name, fqn))
    || (name != "" && name in fd.enums && fqn == prefix + name)
  }

  lemma {:induction false} MessageEntriesAre<R>(m: MessageDescriptor<R>, prefix: string, name: string, fqn: string)
    ensures (name, fqn) in MessageEntries(m, prefix) <==> Declares(m, prefix, name, fqn)
    decreases m, 1
  {
    NestedEntriesAre(m, |m.nested|, prefix + m.name + ".", name, fqn);
    assert m.nested[..|m.nested|] == m.nested;
  }

  lemma {:induction false} NestedEntriesAre<R>(m: MessageDescriptor<R>, n: nat, prefix: string, name: string,
                                               fqn: string)
    requires n <= |m.nested|
    ensures (name, fqn) in NestedEntries(m, n, prefix) <==>
              exists inner :: inner in m.nested[..n] && Declares(inner, prefix, name, fqn)
    decreases m, 0, n
  {
    if n > 0 {
      NestedEntriesAre(m, n - 1, prefix, name, fqn);
      MessageEntriesAre(m.nested[n - 1], prefix, name, fqn);
      assert m.nested[..n] == m.nested[..n - 1] + [m.nested[n - 1]];
    }
  }

  lemma {:induction false} MessagesEntriesAre<R>(messages: seq<MessageDescriptor<R>>, prefix: string, name: string,
                                                 fqn: string)
    ensures (name, fqn) in MessagesEntries(messages, prefix) <==>
              exists m :: m in messages && Declares(m, prefix, name, fqn)
  {
    if messages != [] {
      var before, m := messages[..|messages| - 1], messages[|messages| - 1];
      assert messages == before + [m];
      MessagesEntriesAre(before, prefix, name, fqn);
      MessageEntriesAre(m, prefix, name, fqn);
    }
  }

  lemma {:induction false} EnumEntriesAre(enums: seq<string>, prefix: string, name: string, fqn: string)
    ensures (name, fqn) in EnumEntries(enums, prefix) <==> name != "" && name in enums && fqn == prefix + name
  {
    if enums != [] {
      var before, e := enums[..|enums| - 1], enums[|enums| - 1];
      assert enums == before + [e];
      EnumEntriesAre(before, prefix, name, fqn);
    }
  }

  /** Some file with a package declares the simple name, with this full name. */
  ghost predicate DeclaredIn<R>(files: seq<FileDescriptor<R>>, name: string, fqn: string) {
    exists fd :: fd in files && fd.package != "" && FileDeclares(fd, name, fqn)
  }

  lemma {:induction false} AllTypeEntriesAre<R>(files: seq<FileDescriptor<R>>, name: string, fqn: string)
    ensures (name, fqn) in AllTypeEntries(files) <==>
              DeclaredIn(files, name, fqn)
  {
    if files != [] {
      var before, fd := files[..|files| - 1], files[|files| - 1];
      assert files == before + [fd];
      AllTypeEntriesAre(before, name, fqn);
      MessagesEntriesAre(fd.messages, "." + fd.package + ".", name, fqn);
      EnumEntriesAre(fd.enums, "." + fd.package + ".", name, fqn);
    }
  }

  function PackageMap<R>(files: seq<FileDescriptor<R>>): Index {
    InsertAll(map[], AllPackageEntries(files))
  }

  function TypeMap<R>(files: seq<FileDescriptor<R>>): Index {
    InsertAll(map[], AllTypeEntries(files))
  }

  /**
   * Under a suffix the package map lists, once each, exactly the packages that end in it after a
   * dot; it has no empty list.
   */
  lemma PackageMapExactly<R>(files: seq<FileDescriptor<R>>, suffix: string)
    ensures forall p :: (suffix in PackageMap(files) && p in PackageMap(files)[suffix]) <==>
              p != "" && DottedSuffix(p, suffix) && exists fd :: fd in files && fd.package == p
    ensures suffix in PackageMap(files) ==>
              && PackageMap(files)[suffix] != []
              && PackageMap(files)[suffix] == FirstSeen(AllPackageEntries(files), suffix)
              && forall i, j :: 0 <= i < j < |PackageMap(files)[suffix]| ==>
                   PackageMap(files)[suffix][i] != PackageMap(files)[suffix][j]
  {
    var entries := AllPackageEntries(files);
    IndexHolds(entries);
    FirstSeenMembers(entries, suffix);
    forall p
      ensures (suffix, p) in entries <==>
                p != "" && DottedSuffix(p, suffix) && exists fd :: fd in files && fd.package == p
    {
      AllPackageEntriesAre(files, suffix, p);
    }
  }

  /** Under a simple name the type map lists, once each, exactly the full names declared with it. */
  lemma TypeMapExactly<R>(files: seq<FileDescriptor<R>>, name: string)
    ensures forall fqn :: (name in TypeMap(files) && fqn in TypeMap(files)[name]) <==>
              DeclaredIn(files, name, fqn)
    ensures name in TypeMap(files) ==>
              && TypeMap(files)[name] != []
              && TypeMap(files)[name] == FirstSeen(AllTypeEntries(files), name)
              && forall i, j :: 0 <= i < j < |TypeMap(files)[name]| ==>
                  TypeMap(files)[name][i] != TypeMap(files)[name][j]
  {
    var entries := AllTypeEntries(files);
    IndexHolds(entries);
    FirstSeenMembers(entries, name);
    forall fqn
      ensures (name in TypeMap(files) && fqn in TypeMap(files)[name]) <==>
                DeclaredIn(files, name, fqn)
    {
      AllTypeEntriesAre(files, name, fqn);
      assert fqn in FirstSeen(entries, name) <==> (name, fqn) in entries;
    }
  }

  lemma {:induction false} DeclaredIsRooted<R>(m: MessageDescriptor<R>, prefix: string, name: string, fqn: string)
    requires Declares(m, prefix, name, fqn) && Rooted(prefix)
    ensures Rooted(fqn)
  {
    if !(m.name != "" && name == m.name && fqn == prefix + m.name) {
      var inner :| inner in m.nested && Declares(inner, prefix + m.name + ".", name, fqn);
      DeclaredIsRooted(inner, prefix + m.name + ".", name, fqn);
    }
  }

  lemma TypeMapIsRooted<R>(files: seq<FileDescriptor<R>>)
    ensures RootedLists(TypeMap(files))
  {
    var t := TypeMap(files);
    forall k, i | k in t && 0 <= i < |t[k]|
      ensures Rooted(t[k][i])
    {
      TypeMapExactly(files, k);
      assert t[k][i] in t[k];
      var fd :| fd in files && fd.package != "" && FileDeclares(fd, k, t[k][i]);
      var prefix := "." + fd.package + ".";
      if m :| m in fd.messages && Declares(m, prefix, k, t[k][i]) {
        DeclaredIsRooted(m, prefix, k, t[k][i]);
      }
    }
  }

  // --- Full names that are not kept ---

  /** Whatever is declared: a full name of package `s` is redirected when some other package ends in `.s`. */
  lemma FullNameRedirected<R>(files: seq<FileDescriptor<R>>, s: string, name: string, other: string)
    requires !Rooted(s + "." + name) && !HasDot(name)
    requires other != "" && DottedSuffix(other, s) && exists fd :: fd in files && fd.package == other
    ensures FixRef(s + "." + name, PackageMap(files), TypeMap(files)) != "." + s + "." + name
  {
    var packageMap := PackageMap(files);
    forall k | k in packageMap
      ensures packageMap[k] != []
    {
      PackageMapExactly(files, k);
    }
    PackageMapExactly(files, s);
    JoinSplit(s);
    assert Split(s)[0..] == Split(s);
    assert FirstListedEnding(s, 0, packageMap);
    NotItsOwnEnding(s);
    assert !LeadsTo(packageMap[s], s, name, TypeMap(files));
    FullNameKeptExactly(s, name, packageMap, TypeMap(files));
  }

  lemma NotItsOwnEnding(s: string)
    ensures !DottedSuffix(s, s)
  {
    forall q | true ensures s != q + "." + s {
      assert |q + "." + s| > |s|;
    }
  }

  function TwoFiles(): seq<FileDescriptor<string>> {
    [FileDescriptor("a", [MessageDescriptor("M", [], [])], [], [], []), FileDescriptor("x.a", [], [], [], [])]
  }

  /** Package `a` declares `M`; because package `x.a` exists, the full name `a.M` becomes `.x.a.M`. */
  lemma RedirectedExample()
    ensures var files := TwoFiles();
      && DeclaredIn(files, "M", ".a.M")
      && FixRef("a.M", PackageMap(files), TypeMap(files)) == ".x.a.M"
  {
    hide DottedSuffix, Qualify, FixRef, TypeMap, PackageMap;
    OnlyPackage(TwoFiles());
    MIsDeclared();
    assert "a" + "." + "M" == "a.M" && Candidate("x.a", "M") == ".x.a.M";
    assert "a.M"[0] == 'a' && "."[0] == '.';
    QualifiedInto("a", "M", "x.a", PackageMap(TwoFiles()), TypeMap(TwoFiles()));
  }

  lemma MIsDeclared()
    ensures DeclaredIn(TwoFiles(), "M", ".a.M")
  {
    var files := TwoFiles();
    var m := files[0].messages[0];
    assert Declares(m, ".a.", "M", ".a.M");
    assert "." + "a" + "." == ".a.";
    assert files[0] in files && m in files[0].messages;
    assert FileDeclares(files[0], "M", ".a.M");
  }

  lemma OnlyPackage<R>(files: seq<FileDescriptor<R>>)
    requires |files| == 2 && files[0].package == "a" && files[1].package == "x.a"
    ensures "a" in PackageMap(files) && PackageMap(files)["a"] == ["x.a"]
  {
    hide PackageMap, AllPackageEntries, FirstSeen;
    PackageMapExactly(files, "a");
    assert "x.a" == "x" + "." + "a";
    assert DottedSuffix("x.a", "a");
    NotItsOwnEnding("a");
    assert files[1] in files;
    OnlyOne(PackageMap(files)["a"], "x.a");
  }

  lemma OnlyOne(list: seq<string>, x: string)
    requires list != [] && forall i, j :: 0 <= i < j < |list| ==> list[i] != list[j]
    requires forall y :: y in list ==> y == x
    ensures list == [x]
  {
    var last := list[|list| - 1];
    assert last in list && list[0] in list;
  }

  /** A list of one package leads nowhere else. */
  lemma QualifiedInto(s: string, name: string, only: string, packageMap: Index, typeMap: Index)
    requires !Rooted(s + "." + name) && !HasDot(name) && s in packageMap && packageMap[s] == [only]
    ensures FixRef(s + "." + name, packageMap, typeMap) == Candidate(only, name)
  {
    SplitAppend(s, name);
    SplitOfComponent(name);
    JoinSplit(s);
    var parts := Split(s + "." + name);
    assert parts[0..|parts| - 1] == Split(s);
    assert ChoosePackage([only], name, typeMap, 1) == only;
  }

  // --- Fixing whole descriptors ---

  function FixAll(references: seq<string>, packageMap: Index, typeMap: Index): seq<string> {
    seq(|references|, i requires 0 <= i < |references| => FixRef(references[i], packageMap, typeMap))
  }

  function FixMessage(m: MessageDescriptor<string>, packageMap: Index, typeMap: Index): MessageDescriptor<string> {
    MessageDescriptor(m.name, FixAll(m.fieldTypes, packageMap, typeMap),
      seq(|m.nested|, i requires 0 <= i < |m.nested| => FixMessage(m.nested[i], packageMap, typeMap)))
  }

  function FixMethod(m: MethodDescriptor<string>, packageMap: Index, typeMap: Index): MethodDescriptor<string> {
    MethodDescriptor(FixRef(m.inputType, packageMap, typeMap), FixRef(m.outputType, packageMap, typeMap))
  }

  function FixExtension(e: ExtensionDescriptor<string>, packageMap: Index,
                        typeMap: Index): ExtensionDescriptor<string> {
    ExtensionDescriptor(FixRef(e.extendee, packageMap, typeMap), FixRef(e.typeName, packageMap, typeMap))
  }

  function FixService(s: seq<MethodDescriptor<string>>, packageMap: Index,
                      typeMap: Index): seq<MethodDescriptor<string>> {
    seq(|s|, i requires 0 <= i < |s| => FixMethod(s[i], packageMap, typeMap))
  }

  /** The repaired file: every reference fixed, nothing else touched. */
  function FixFile(fd: FileDescriptor<string>, packageMap: Index, typeMap: Index): FileDescriptor<string> {
    FileDescriptor(fd.package,
      seq(|fd.messages|, i requires 0 <= i < |fd.messages| => FixMessage(fd.messages[i], packageMap, typeMap)),
      fd.enums,
      seq(|fd.services|, i requires 0 <= i < |fd.services| => FixService(fd.services[i], packageMap, typeMap)),
      seq(|fd.extensions|, i requires 0 <= i < |fd.extensions| => FixExtension(fd.extensions[i], packageMap, typeMap)))
  }

  // --- Fixing again ---

  lemma {:induction false} FixMessageTwice(m: MessageDescriptor<string>, packageMap: Index, typeMap: Index)
    requires RootedLists(typeMap)
    ensures FixMessage(FixMessage(m, packageMap, typeMap), packageMap, typeMap) == FixMessage(m, packageMap, typeMap)
  {
    var once := FixMessage(m, packageMap, typeMap);
    forall i | 0 <= i < |m.fieldTypes|
      ensures FixRef(once.fieldTypes[i], packageMap, typeMap) == once.fieldTypes[i]
    {
      FixRefIdempotent(m.fieldTypes[i], packageMap, typeMap);
    }
    forall i | 0 <= i < |m.nested|
      ensures FixMessage(once.nested[i], packageMap, typeMap) == once.nested[i]
    {
      FixMessageTwice(m.nested[i], packageMap, typeMap);
    }
  }

  lemma FixFileTwice(fd: FileDescriptor<string>, packageMap: Index, typeMap: Index)
    requires RootedLists(typeMap)
    ensures FixFile(FixFile(fd, packageMap, typeMap), packageMap, typeMap) == FixFile(fd, packageMap, typeMap)
  {
    var once := FixFile(fd, packageMap, typeMap);
    forall i | 0 <= i < |fd.messages|
      ensures FixMessage(once.messages[i], packageMap, typeMap) == once.messages[i]
    {
      FixMessageTwice(fd.messages[i], packageMap, typeMap);
    }
    forall i | 0 <= i < |fd.services|
      ensures FixService(once.services[i], packageMap, typeMap) == once.services[i]
    {
      forall j | 0 <= j < |fd.services[i]|
        ensures FixMethod(once.services[i][j], packageMap, typeMap) == once.services[i][j]
      {
        FixRefIdempotent(fd.services[i][j].inputType, packageMap, typeMap);
        FixRefIdempotent(fd.services[i][j].outputType, packageMap, typeMap);
      }
    }
    forall i | 0 <= i < |fd.extensions|
      ensures FixExtension(once.extensions[i], packageMap, typeMap) == once.extensions[i]
    {
      FixRefIdempotent(fd.extensions[i].extendee, packageMap, typeMap);
      FixRefIdempotent(fd.extensions[i].typeName, packageMap, typeMap);
    }
  }

  /** Fixing references leaves the declarations, and so the indexes, as they were. */
  lemma {:induction false} FixKeepsMessageEntries(m: MessageDescriptor<string>, prefix: string, packageMap: Index,
                                                  typeMap: Index)
    ensures MessageEntries(FixMessage(m, packageMap, typeMap), prefix) == MessageEntries(m, prefix)
    decreases m, 1
  {
    FixKeepsNestedEntries(m, |m.nested|, prefix + m.name + ".", packageMap, typeMap);
  }

  lemma {:induction false} FixKeepsNestedEntries(m: MessageDescriptor<string>, n: nat, prefix: string,
                                                 packageMap: Index, typeMap: Index)
    requires n <= |m.nested|
    ensures NestedEntries(FixMessage(m, packageMap, typeMap), n, prefix) == NestedEntries(m, n, prefix)
    decreases m, 0, n
  {
    if n > 0 {
      FixKeepsNestedEntries(m, n - 1, prefix, packageMap, typeMap);
      FixKeepsMessageEntries(m.nested[n - 1], prefix, packageMap, typeMap);
    }
  }

  lemma {:induction false} FixKeepsMessagesEntries(messages: seq<MessageDescriptor<string>>,
                                                   fixed: seq<MessageDescriptor<string>>,
                                                   prefix: string, packageMap: Index, typeMap: Index)
    requires |fixed| == |messages|
    requires forall i :: 0 <= i < |messages| ==> fixed[i] == FixMessage(messages[i], packageMap, typeMap)
    ensures MessagesEntries(fixed, prefix) == MessagesEntries(messages, prefix)
  {
    if messages != [] {
      var n := |messages| - 1;
      FixKeepsMessagesEntries(messages[..n], fixed[..n], prefix, packageMap, typeMap);
      FixKeepsMessageEntries(messages[n], prefix, packageMap, typeMap);
    }
  }

  function FixFiles(files: seq<FileDescriptor<string>>, packageMap: Index,
                    typeMap: Index): seq<FileDescriptor<string>> {
    seq(|files|, i requires 0 <= i < |files| => FixFile(files[i], packageMap, typeMap))
  }

  lemma {:induction false} FixKeepsEntries(files: seq<FileDescriptor<string>>, packageMap: Index, typeMap: Index)
    ensures AllPackageEntries(FixFiles(files, packageMap, typeMap)) == AllPackageEntries(files)
    ensures AllTypeEntries(FixFiles(files, packageMap, typeMap)) == AllTypeEntries(files)
  {
    if files != [] {
      var n := |files| - 1;
      var fixed := FixFiles(files, packageMap, typeMap);
      FixKeepsEntries(files[..n], packageMap, typeMap);
      assert fixed[..n] == FixFiles(files[..n], packageMap, typeMap);
      FixKeepsMessagesEntries(files[n].messages, fixed[n].messages, "." + files[n].package + ".", packageMap, typeMap);
    }
  }

  // --- Package definitions ---

  /** A definition with its encoded files, when it carries any. Encoding and decoding undo each other. */
  datatype Definition = Definition(key: string, buffers: Option<seq<FileDescriptor<string>>>)

  function AllFiles(definitions: seq<Definition>): seq<FileDescriptor<string>> {
    if definitions == [] then []
    else
      AllFiles(definitions[..|definitions| - 1]) + definitions[|definitions| - 1].buffers.GetOr([])
  }

  function FixDefinition(d: Definition, packageMap: Index, typeMap: Index): Definition {
    match d.buffers
    case None => d
    case Some(files) => d.(buffers := Some(FixFiles(files, packageMap, typeMap)))
  }

  /** The repaired definitions: the indexes come from all files together. */
  function FixDefinitions(definitions: seq<Definition>): seq<Definition> {
    var files := AllFiles(definitions);
    seq(|definitions|, i requires 0 <= i < |definitions| =>
      FixDefinition(definitions[i], PackageMap(files), TypeMap(files)))
  }

  lemma {:induction false} FilesOfFixed(definitions: seq<Definition>, fixed: seq<Definition>, packageMap: Index,
                                        typeMap: Index)
    requires |fixed| == |definitions|
    requires forall i :: 0 <= i < |fixed| ==> fixed[i] == FixDefinition(definitions[i], packageMap, typeMap)
    ensures AllFiles(fixed) == FixFiles(AllFiles(definitions), packageMap, typeMap)
  {
    if definitions != [] {
      var n := |definitions| - 1;
      FilesOfFixed(definitions[..n], fixed[..n], packageMap, typeMap);
    }
  }

  /** A second repair changes nothing and returns what it was given. */
  lemma RepairIsIdempotent(definitions: seq<Definition>)
    ensures FixDefinitions(FixDefinitions(definitions)) == FixDefinitions(definitions)
  {
    var files := AllFiles(definitions);
    var p, t := PackageMap(files), TypeMap(files);
    var fixed := FixDefinitions(definitions);
    FilesOfFixed(definitions, fixed, p, t);
    FixKeepsEntries(files, p, t);
    assert PackageMap(AllFiles(fixed)) == p && TypeMap(AllFiles(fixed)) == t;
    TypeMapIsRooted(files);
    forall i | 0 <= i < |definitions|
      ensures FixDefinition(fixed[i], p, t) == fixed[i]
    {
      if definitions[i].buffers.Some? {
        var own := definitions[i].buffers.value;
        forall j | 0 <= j < |own|
          ensures FixFile(fixed[i].buffers.value[j], p, t) == fixed[i].buffers.value[j]
        {
          FixFileTwice(own[j], p, t);
        }
        assert FixFiles(FixFiles(own, p, t), p, t) == FixFiles(own, p, t);
      }
    }
  }
}
