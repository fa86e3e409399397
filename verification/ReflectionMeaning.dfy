/** What a repaired reference becomes, and what a repaired file keeps, in terms of the declarations of all files. */
module ReflectionMeaning {
  import opened Wrappers
  import opened Dotted
  import opened NameIndex
  import opened ReflectionNames
  import opened ReflectionFix

  // --- Simple names ---

  /** `fqn` is the only full name declared with this simple name. */
  ghost predicate OnlyDeclared<R>(files: seq<FileDescriptor<R>>, name: string, fqn: string) {
    DeclaredIn(files, name, fqn) && forall other :: DeclaredIn(files, name, other) ==> other == fqn
  }

  /** A name without a dot becomes the one full name declared with it; declared never or more than once, it stays. */
  lemma SimpleNameExactly<R>(files: seq<FileDescriptor<R>>, name: string)
    requires name != "" && !HasDot(name)
    ensures forall fqn :: OnlyDeclared(files, name, fqn) ==> FixRef(name, PackageMap(files), TypeMap(files)) == fqn
    ensures (forall fqn :: !OnlyDeclared(files, name, fqn)) ==> FixRef(name, PackageMap(files), TypeMap(files)) == name
  {
    TypeMapExactly(files, name);
    SplitOfComponent(name);
    var t := TypeMap(files);
    hide TypeMap, PackageMap, DeclaredIn, FirstSeen;
    forall fqn | OnlyDeclared(files, name, fqn)
      ensures name in t && t[name] == [fqn]
    {
      OnlyOne(t[name], fqn);
    }
    if name in t && |t[name]| == 1 {
      assert OnlyDeclared(files, name, t[name][0]);
    }
  }

  // --- Dotted names ---

  /** The file's package ends in a dot and `e`. */
  ghost predicate EndsIn<R>(fd: FileDescriptor<R>, e: string) {
    fd.package != "" && DottedSuffix(fd.package, e)
  }

  ghost predicate Listed<R>(files: seq<FileDescriptor<R>>, e: string) {
    exists i :: 0 <= i < |files| && EndsIn(files[i], e)
  }

  /** `s` itself, or what follows one of its dots. */
  ghost predicate Ending(s: string, e: string) {
    e == s || DottedSuffix(s, e)
  }

  /** The longest ending of `s` in which some package ends. */
  ghost predicate LongestListed<R>(files: seq<FileDescriptor<R>>, s: string, e: string) {
    Ending(s, e) && Listed(files, e) && forall o :: Ending(s, o) && |o| > |e| ==> !Listed(files, o)
  }

  /** Some file declares this full name. */
  ghost predicate Known<R>(files: seq<FileDescriptor<R>>, package: string, name: string) {
    exists simple :: DeclaredIn(files, simple, "." + package + "." + name)
  }

  /** The first file whose package ends in `e` and declares `name`, or the first at all when none declares it. */
  ghost predicate Leads<R>(files: seq<FileDescriptor<R>>, e: string, name: string, i: nat)
    requires i < |files|
  {
    EndsIn(files[i], e)
    && if Known(files, files[i].package, name)
       then forall k :: 0 <= k < i && EndsIn(files[k], e) ==> !Known(files, files[k].package, name)
       else
         (forall k :: 0 <= k < i ==> !EndsIn(files[k], e))
         && forall k :: 0 <= k < |files| && EndsIn(files[k], e) ==> !Known(files, files[k].package, name)
  }

  /** What `s.name` becomes. */
  ghost predicate Becomes<R>(files: seq<FileDescriptor<R>>, s: string, name: string, fixed: string) {
    || ((forall e :: Ending(s, e) ==> !Listed(files, e)) && fixed == "." + s + "." + name)
    || exists e, i: nat :: i < |files| && LongestListed(files, s, e) && Leads(files, e, name, i)
                           && fixed == "." + files[i].package + "." + name
  }

  // --- The order of the packages ---

  lemma OneMoreSeen(entries: seq<(string, string)>, last: (string, string), e: string)
    ensures var before := FirstSeen(entries, e);
      FirstSeen(entries + [last], e) == before + if last.0 == e && last.1 !in before then [last.1] else []
  {
    assert (entries + [last])[..|entries|] == entries;
  }

  /** Entries that all lead to one package add it at most once. */
  lemma {:induction false} PackageSeen(entries: seq<(string, string)>, more: seq<(string, string)>, package: string,
                                       e: string)
    requires forall x :: x in more ==> x.1 == package
    ensures var before := FirstSeen(entries, e);
      FirstSeen(entries + more, e)
      == before + if (e, package) in more && package !in before then [package] else []
  {
    hide FirstSeen;
    if more == [] {
      assert entries + more == entries;
    } else {
      var shorter, last := more[..|more| - 1], more[|more| - 1];
      assert more == shorter + [last];
      assert entries + more == entries + shorter + [last];
      PackageSeen(entries, shorter, package, e);
      OneMoreSeen(entries + shorter, last, e);
    }
  }

  /** One more file adds its package to the list, unless it is there. */
  lemma OneMorePackage<R>(files: seq<FileDescriptor<R>>, e: string)
    requires files != []
    ensures var before := FirstSeen(AllPackageEntries(files[..|files| - 1]), e);
      var fd := files[|files| - 1];
      FirstSeen(AllPackageEntries(files), e)
      == before + if EndsIn(fd, e) && fd.package !in before then [fd.package] else []
  {
    var before, fd := files[..|files| - 1], files[|files| - 1];
    if fd.package != "" {
      forall x | x in PackageEntries(fd.package)
        ensures x.1 == fd.package
      {
        PackageEntriesAre(fd.package, x.0, x.1);
      }
      PackageSeen(AllPackageEntries(before), PackageEntries(fd.package), fd.package, e);
      PackageEntriesAre(fd.package, e, fd.package);
    } else {
      assert AllPackageEntries(before) + [] == AllPackageEntries(before);
    }
  }

  /** The packages that end in `e` are listed in the order of their first files. */
  lemma {:induction false} ListedInOrder<R>(files: seq<FileDescriptor<R>>, e: string, k: nat) returns (i: nat)
    requires k < |FirstSeen(AllPackageEntries(files), e)|
    ensures var list := FirstSeen(AllPackageEntries(files), e);
      && i < |files| && files[i].package == list[k] && EndsIn(files[i], e)
      && forall j :: 0 <= j < i && EndsIn(files[j], e) ==> files[j].package in list[..k]
  {
    hide FirstSeen, AllPackageEntries, EndsIn;
    if files == [] {
      assert FirstSeen(AllPackageEntries(files), e) == [] by {
        NothingSeen<R>(e);
      }
    } else {
      OneMorePackage(files, e);
      var before, fd := files[..|files| - 1], files[|files| - 1];
      var list := FirstSeen(AllPackageEntries(before), e);
      if k < |list| {
        i := ListedInOrder(before, e, k);
        assert FirstSeen(AllPackageEntries(files), e)[..k] == list[..k];
      } else {
        i := |files| - 1;
        assert FirstSeen(AllPackageEntries(files), e)[..k] == list;
        AllAreListed(before, e);
      }
    }
  }

  lemma NothingSeen<R>(e: string)
    ensures FirstSeen(AllPackageEntries<R>([]), e) == []
  {
  }

  lemma {:induction false} AllAreListed<R>(files: seq<FileDescriptor<R>>, e: string)
    ensures forall j :: 0 <= j < |files| && EndsIn(files[j], e)
              ==> files[j].package in FirstSeen(AllPackageEntries(files), e)
  {
    hide FirstSeen, AllPackageEntries, EndsIn;
    if files != [] {
      OneMorePackage(files, e);
      AllAreListed(files[..|files| - 1], e);
    }
  }

  // --- The search ---

  lemma KnownExactly<R>(files: seq<FileDescriptor<R>>, package: string, name: string)
    ensures DeclaredBy(package, name, TypeMap(files)) <==> Known(files, package, name)
  {
    var fqn := Candidate(package, name);
    hide TypeMap, DeclaredIn;
    forall simple
      ensures (simple in TypeMap(files) && fqn in TypeMap(files)[simple]) <==> DeclaredIn(files, simple, fqn)
    {
      TypeMapExactly(files, simple);
    }
  }

  lemma ListedExactly<R>(files: seq<FileDescriptor<R>>, e: string)
    ensures e in PackageMap(files) <==> Listed(files, e)
    ensures e in PackageMap(files) ==> PackageMap(files)[e] == FirstSeen(AllPackageEntries(files), e)
    ensures e in PackageMap(files) ==> PackageMap(files)[e] != []
  {
    PackageMapExactly(files, e);
    hide PackageMap, AllPackageEntries, FirstSeen;
    if i :| 0 <= i < |files| && EndsIn(files[i], e) {
      assert files[i] in files;
    }
    if e in PackageMap(files) {
      var p := PackageMap(files)[e][0];
      assert p in PackageMap(files)[e];
      var fd :| fd in files && fd.package == p;
      var i :| 0 <= i < |files| && files[i] == fd;
      assert EndsIn(files[i], e);
    }
  }

  /** The package chosen from the list of `e` leads, seen over the files. */
  lemma ChosenLeads<R>(files: seq<FileDescriptor<R>>, e: string, name: string) returns (i: nat)
    requires Listed(files, e)
    ensures i < |files| && Leads(files, e, name, i)
    ensures e in PackageMap(files)
    ensures files[i].package == ChoosePackage(PackageMap(files)[e], name, TypeMap(files), 0)
  {
    ListedExactly(files, e);
    var list, t := PackageMap(files)[e], TypeMap(files);
    var c := ChoosePackage(list, name, t, 0);
    ChosenExactly(list, c, name, t);
    hide ChoosePackage, PackageMap, TypeMap, FirstSeen, AllPackageEntries, EndsIn, DeclaredBy, Known;
    forall package
      ensures DeclaredBy(package, name, t) <==> Known(files, package, name)
    {
      KnownExactly(files, package, name);
    }
    var k :| && 0 <= k < |list| && list[k] == c
             && (forall j :: 0 <= j < k ==> !DeclaredBy(list[j], name, t))
             && (DeclaredBy(c, name, t) || (k == 0 && forall j :: 0 <= j < |list| ==> !DeclaredBy(list[j], name, t)));
    i := ListedInOrder(files, e, k);
    AllAreListed(files, e);
    forall p | p in list
      ensures exists j :: 0 <= j < |list| && list[j] == p
    {
    }
  }

  lemma LongerEnding(parts: seq<string>, i: nat, j: nat)
    requires i < j < |parts|
    ensures |Join(parts[i..])| > |Join(parts[j..])|
  {
    JoinAppend(parts[i..j], parts[j..]);
    assert parts[i..j] + parts[j..] == parts[i..];
  }

  lemma EndingsAre(s: string, e: string)
    ensures Ending(s, e) <==> exists j: nat :: j < |Split(s)| && e == Join(Split(s)[j..])
  {
    DottedSuffixes(s, e);
    JoinSplit(s);
    assert Split(s)[0..] == Split(s);
  }

  /** The search from the `i`-th component on, when no longer ending is listed. */
  lemma {:induction false} SearchBecomes<R>(files: seq<FileDescriptor<R>>, s: string, name: string, i: nat)
    requires i <= |Split(s)| && "." + Join(Split(s) + [name]) == "." + s + "." + name
    requires forall k :: 0 <= k < i ==> !Listed(files, Join(Split(s)[k..]))
    ensures Becomes(files, s, name, QualifyFrom(Split(s) + [name], i, PackageMap(files), TypeMap(files)))
    decreases |Split(s)| - i
  {
    hide Join, Split, PackageMap, TypeMap, Listed, Leads, ChoosePackage;
    var parts := Split(s) + [name];
    if i == |Split(s)| {
      forall e | Ending(s, e)
        ensures !Listed(files, e)
      {
        EndingsAre(s, e);
      }
    } else {
      assert parts[i..|parts| - 1] == Split(s)[i..];
      var e := Join(Split(s)[i..]);
      ListedExactly(files, e);
      if Listed(files, e) {
        FoundBecomes(files, s, name, i);
      } else {
        SearchBecomes(files, s, name, i + 1);
      }
    }
  }

  lemma FoundBecomes<R>(files: seq<FileDescriptor<R>>, s: string, name: string, i: nat)
    requires i < |Split(s)| && Listed(files, Join(Split(s)[i..]))
    requires forall k :: 0 <= k < i ==> !Listed(files, Join(Split(s)[k..]))
    ensures var e := Join(Split(s)[i..]);
      && e in PackageMap(files)
      && Becomes(files, s, name, Candidate(ChoosePackage(PackageMap(files)[e], name, TypeMap(files), 0), name))
  {
    hide Join, Split, PackageMap, TypeMap, Listed, Leads, ChoosePackage;
    var e := Join(Split(s)[i..]);
    var k := ChosenLeads(files, e, name);
    EndingsAre(s, e);
    forall o | Ending(s, o) && |o| > |e|
      ensures !Listed(files, o)
    {
      EndingsAre(s, o);
      var j: nat :| j < |Split(s)| && o == Join(Split(s)[j..]);
      if i < j {
        LongerEnding(Split(s), i, j);
      }
    }
    assert LongestListed(files, s, e);
  }

  lemma SameEnding(s: string, e: string, o: string)
    requires Ending(s, e) && Ending(s, o) && |e| == |o|
    ensures e == o
  {
    assert e == s[|s| - |e|..] && o == s[|s| - |o|..];
  }

  lemma BecomesOnce<R>(files: seq<FileDescriptor<R>>, s: string, name: string, x: string, y: string)
    requires Becomes(files, s, name, x) && Becomes(files, s, name, y)
    ensures x == y
  {
    hide Ending, Listed, EndsIn, Known;
    if e, i: nat :| i < |files| && LongestListed(files, s, e) && Leads(files, e, name, i)
                    && x == "." + files[i].package + "." + name {
      var o, j: nat :| j < |files| && LongestListed(files, s, o) && Leads(files, o, name, j)
                       && y == "." + files[j].package + "." + name;
      if |e| == |o| {
        SameEnding(s, e, o);
      }
      assert e == o;
    }
  }

  /**
   * A dotted reference `s.M` becomes `.p.M`, where `p` is the package of the first file, among those
   * whose package ends in the longest possible ending of `s`, that declares `M`, or of the first of
   * them when none does; with no such file it becomes `.s.M`.
   */
  lemma DottedNameExactly<R>(files: seq<FileDescriptor<R>>, s: string, name: string, fixed: string)
    requires !Rooted(s + "." + name) && !HasDot(name)
    ensures FixRef(s + "." + name, PackageMap(files), TypeMap(files)) == fixed <==> Becomes(files, s, name, fixed)
  {
    SplitAppend(s, name);
    SplitOfComponent(name);
    JoinSplit(s + "." + name);
    assert Split(s + "." + name) == Split(s) + [name];
    SearchBecomes(files, s, name, 0);
    var actual := FixRef(s + "." + name, PackageMap(files), TypeMap(files));
    assert actual == QualifyFrom(Split(s) + [name], 0, PackageMap(files), TypeMap(files));
    hide FixRef, PackageMap, TypeMap, QualifyFrom, Becomes;
    if Becomes(files, s, name, fixed) {
      BecomesOnce(files, s, name, fixed, actual);
    }
  }

  // --- Whole files ---

  /** The references held by a message, in the order of its fields, then those of its nested messages. */
  function MessageReferences<R>(m: MessageDescriptor<R>): seq<R>
    decreases m, 1
  {
    m.fieldTypes + NestedReferences(m, |m.nested|)
  }

  function NestedReferences<R>(m: MessageDescriptor<R>, n: nat): seq<R>
    requires n <= |m.nested|
    decreases m, 0, n
  {
    if n == 0 then [] else NestedReferences(m, n - 1) + MessageReferences(m.nested[n - 1])
  }

  function MessagesReferences<R>(messages: seq<MessageDescriptor<R>>): seq<R> {
    if messages == [] then []
    else MessagesReferences(messages[..|messages| - 1]) + MessageReferences(messages[|messages| - 1])
  }

  function ServiceReferences<R>(methods: seq<MethodDescriptor<R>>): seq<R> {
    if methods == [] then []
    else
      var m := methods[|methods| - 1];
      ServiceReferences(methods[..|methods| - 1]) + [m.inputType, m.outputType]
  }

  function ServicesReferences<R>(services: seq<seq<MethodDescriptor<R>>>): seq<R> {
    if services == [] then []
    else ServicesReferences(services[..|services| - 1]) + ServiceReferences(services[|services| - 1])
  }

  function ExtensionReferences<R>(extensions: seq<ExtensionDescriptor<R>>): seq<R> {
    if extensions == [] then []
    else
      var e := extensions[|extensions| - 1];
      ExtensionReferences(extensions[..|extensions| - 1]) + [e.extendee, e.typeName]
  }

  /** Every reference of a file. */
  function References<R>(fd: FileDescriptor<R>): seq<R> {
    MessagesReferences(fd.messages) + ServicesReferences(fd.services) + ExtensionReferences(fd.extensions)
  }

  /** Reference by reference, the second list holds the fixed ones of the first. */
  ghost predicate AllFixed(before: seq<string>, after: seq<string>, packageMap: Index, typeMap: Index) {
    |after| == |before| && forall i :: 0 <= i < |before| ==> after[i] == FixRef(before[i], packageMap, typeMap)
  }

  lemma FixedTogether(a: seq<string>, a': seq<string>, b: seq<string>, b': seq<string>, packageMap: Index,
                      typeMap: Index)
    requires AllFixed(a, a', packageMap, typeMap) && AllFixed(b, b', packageMap, typeMap)
    ensures AllFixed(a + b, a' + b', packageMap, typeMap)
  {
  }

  lemma {:induction false} MessageFixed(m: MessageDescriptor<string>, packageMap: Index, typeMap: Index)
    ensures AllFixed(MessageReferences(m), MessageReferences(FixMessage(m, packageMap, typeMap)), packageMap, typeMap)
    decreases m, 1
  {
    hide FixRef;
    var m' := FixMessage(m, packageMap, typeMap);
    NestedFixed(m, |m.nested|, packageMap, typeMap);
    FixedTogether(m.fieldTypes, m'.fieldTypes, NestedReferences(m, |m.nested|), NestedReferences(m', |m.nested|),
                  packageMap, typeMap);
  }

  lemma {:induction false} NestedFixed(m: MessageDescriptor<string>, n: nat, packageMap: Index, typeMap: Index)
    requires n <= |m.nested|
    ensures AllFixed(NestedReferences(m, n), NestedReferences(FixMessage(m, packageMap, typeMap), n), packageMap,
        typeMap)
    decreases m, 0, n
  {
    hide FixRef;
    if n > 0 {
      var m', k := FixMessage(m, packageMap, typeMap), n - 1;
      NestedFixed(m, k, packageMap, typeMap);
      MessageFixed(m.nested[k], packageMap, typeMap);
      FixedTogether(NestedReferences(m, k), NestedReferences(m', k), MessageReferences(m.nested[k]),
                    MessageReferences(m'.nested[k]), packageMap, typeMap);
    }
  }

  lemma {:induction false} MessagesFixed(messages: seq<MessageDescriptor<string>>,
                                         fixed: seq<MessageDescriptor<string>>, packageMap: Index, typeMap: Index)
    requires |fixed| == |messages|
    requires forall i :: 0 <= i < |messages| ==> fixed[i] == FixMessage(messages[i], packageMap, typeMap)
    ensures AllFixed(MessagesReferences(messages), MessagesReferences(fixed), packageMap, typeMap)
  {
    hide FixRef, FixMessage;
    if messages != [] {
      var k := |messages| - 1;
      MessagesFixed(messages[..k], fixed[..k], packageMap, typeMap);
      MessageFixed(messages[k], packageMap, typeMap);
      FixedTogether(MessagesReferences(messages[..k]), MessagesReferences(fixed[..k]), MessageReferences(messages[k]),
                    MessageReferences(fixed[k]), packageMap, typeMap);
    }
  }

  lemma {:induction false} ServiceFixed(methods: seq<MethodDescriptor<string>>, fixed: seq<MethodDescriptor<string>>,
                                        packageMap: Index, typeMap: Index)
    requires |fixed| == |methods|
    requires forall i :: 0 <= i < |methods| ==> fixed[i] == FixMethod(methods[i], packageMap, typeMap)
    ensures AllFixed(ServiceReferences(methods), ServiceReferences(fixed), packageMap, typeMap)
  {
    hide FixRef;
    if methods != [] {
      var k := |methods| - 1;
      ServiceFixed(methods[..k], fixed[..k], packageMap, typeMap);
      FixedTogether(ServiceReferences(methods[..k]), ServiceReferences(fixed[..k]),
                    [methods[k].inputType, methods[k].outputType], [fixed[k].inputType, fixed[k].outputType],
                    packageMap, typeMap);
    }
  }

  lemma {:induction false} ServicesFixed(services: seq<seq<MethodDescriptor<string>>>,
                                         fixed: seq<seq<MethodDescriptor<string>>>, packageMap: Index, typeMap: Index)
    requires |fixed| == |services|
    requires forall i :: 0 <= i < |services| ==> fixed[i] == FixService(services[i], packageMap, typeMap)
    ensures AllFixed(ServicesReferences(services), ServicesReferences(fixed), packageMap, typeMap)
  {
    hide FixRef, FixMethod;
    if services != [] {
      var k := |services| - 1;
      ServicesFixed(services[..k], fixed[..k], packageMap, typeMap);
      ServiceFixed(services[k], fixed[k], packageMap, typeMap);
      FixedTogether(ServicesReferences(services[..k]), ServicesReferences(fixed[..k]), ServiceReferences(services[k]),
                    ServiceReferences(fixed[k]), packageMap, typeMap);
    }
  }

  lemma {:induction false} ExtensionsFixed(extensions: seq<ExtensionDescriptor<string>>,
                                           fixed: seq<ExtensionDescriptor<string>>, packageMap: Index, typeMap: Index)
    requires |fixed| == |extensions|
    requires forall i :: 0 <= i < |extensions| ==> fixed[i] == FixExtension(extensions[i], packageMap, typeMap)
    ensures AllFixed(ExtensionReferences(extensions), ExtensionReferences(fixed), packageMap, typeMap)
  {
    hide FixRef;
    if extensions != [] {
      var k := |extensions| - 1;
      ExtensionsFixed(extensions[..k], fixed[..k], packageMap, typeMap);
      FixedTogether(ExtensionReferences(extensions[..k]), ExtensionReferences(fixed[..k]),
                    [extensions[k].extendee, extensions[k].typeName], [fixed[k].extendee, fixed[k].typeName],
                    packageMap, typeMap);
    }
  }

  /** What is left of a message without its references: its name, its number of fields and its nested messages. */
  ghost predicate SameShape(m: MessageDescriptor<string>, m': MessageDescriptor<string>) {
    && m'.name == m.name && |m'.fieldTypes| == |m.fieldTypes| && |m'.nested| == |m.nested|
    && forall i :: 0 <= i < |m.nested| ==> SameShape(m.nested[i], m'.nested[i])
  }

  lemma {:induction false} FixKeepsShape(m: MessageDescriptor<string>, packageMap: Index, typeMap: Index)
    ensures SameShape(m, FixMessage(m, packageMap, typeMap))
  {
    forall i | 0 <= i < |m.nested|
      ensures SameShape(m.nested[i], FixMessage(m.nested[i], packageMap, typeMap))
    {
      FixKeepsShape(m.nested[i], packageMap, typeMap);
    }
  }

  /** A repaired file: each of its references, wherever it stands, is fixed, and nothing else is changed. */
  lemma FileFixedExactly(fd: FileDescriptor<string>, packageMap: Index, typeMap: Index)
    ensures var fixed := FixFile(fd, packageMap, typeMap);
      && AllFixed(References(fd), References(fixed), packageMap, typeMap)
      && fixed.package == fd.package && fixed.enums == fd.enums
      && |fixed.messages| == |fd.messages|
      && (forall i :: 0 <= i < |fd.messages| ==> SameShape(fd.messages[i], fixed.messages[i]))
      && |fixed.services| == |fd.services|
      && (forall i :: 0 <= i < |fd.services| ==> |fixed.services[i]| == |fd.services[i]|)
      && |fixed.extensions| == |fd.extensions|
  {
    var fixed := FixFile(fd, packageMap, typeMap);
    MessagesFixed(fd.messages, fixed.messages, packageMap, typeMap);
    ServicesFixed(fd.services, fixed.services, packageMap, typeMap);
    ExtensionsFixed(fd.extensions, fixed.extensions, packageMap, typeMap);
    hide FixRef, FixMessage, FixExtension, AllFixed, SameShape;
    var messages, services := MessagesReferences(fd.messages), ServicesReferences(fd.services);
    FixedTogether(messages, MessagesReferences(fixed.messages), services, ServicesReferences(fixed.services),
                  packageMap, typeMap);
    FixedTogether(messages + services, MessagesReferences(fixed.messages) + ServicesReferences(fixed.services),
                  ExtensionReferences(fd.extensions), ExtensionReferences(fixed.extensions), packageMap, typeMap);
    forall i | 0 <= i < |fd.messages|
      ensures SameShape(fd.messages[i], fixed.messages[i])
    {
      FixKeepsShape(fd.messages[i], packageMap, typeMap);
    }
  }

  // --- All definitions ---

  /** The files of all definitions, in the order in which they stand. */
  lemma {:induction false} FilesInOrder(a: seq<Definition>, b: seq<Definition>)
    ensures AllFiles(a + b) == AllFiles(a) + AllFiles(b)
  {
    assert AllFiles([]) == [];
    hide AllFiles;
    if b == [] {
      assert a + b == a;
    } else {
      var shorter, last := b[..|b| - 1], b[|b| - 1];
      FilesInOrder(a, shorter);
      assert a + b == a + shorter + [last] && b == shorter + [last];
      OneMoreDefinition(a + shorter, a + b, last);
      OneMoreDefinition(shorter, b, last);
    }
  }

  /** One more definition adds its files, if it carries any. */
  lemma OneMoreDefinition(before: seq<Definition>, definitions: seq<Definition>, last: Definition)
    requires definitions == before + [last]
    ensures AllFiles(definitions) == AllFiles(before) + if last.buffers.Some? then last.buffers.value else []
  {
    assert definitions[..|definitions| - 1] == before;
  }

  /** The repair keeps every definition, and fixes each reference of its files by the declarations of all files. */
  lemma RepairExactly(definitions: seq<Definition>, i: nat)
    requires i < |definitions|
    ensures var (files, fixed) := (AllFiles(definitions), FixDefinitions(definitions));
      && |fixed| == |definitions| && fixed[i].key == definitions[i].key
      && (definitions[i].buffers == None ==> fixed[i].buffers == None)
      && (definitions[i].buffers.Some? ==>
            && fixed[i].buffers.Some? && |fixed[i].buffers.value| == |definitions[i].buffers.value|
            && forall j :: 0 <= j < |definitions[i].buffers.value| ==>
                 AllFixed(References(definitions[i].buffers.value[j]), References(fixed[i].buffers.value[j]),
                          PackageMap(files), TypeMap(files)))
  {
    var files, fixed := AllFiles(definitions), FixDefinitions(definitions);
    hide AllFixed, References, PackageMap, TypeMap, FixFile;
    if definitions[i].buffers.Some? {
      var own := definitions[i].buffers.value;
      forall j | 0 <= j < |own|
        ensures AllFixed(References(own[j]), References(fixed[i].buffers.value[j]), PackageMap(files), TypeMap(files))
      {
        FileFixedExactly(own[j], PackageMap(files), TypeMap(files));
      }
    }
  }
}
