/** Turning the type references of file descriptors into fully qualified names. */
module ReflectionNames {
  import opened Dotted
  import opened NameIndex

  // --- Descriptors ---

  /**
   * Descriptors, over the kind of reference they hold: plain strings, or cells that are updated
   * in place. An unset name or reference is the empty string.
   */
  datatype MessageDescriptor<R> = MessageDescriptor(name: string, fieldTypes: seq<R>, nested: seq<MessageDescriptor<R>>)

  datatype MethodDescriptor<R> = MethodDescriptor(inputType: R, outputType: R)

  datatype ExtensionDescriptor<R> = ExtensionDescriptor(extendee: R, typeName: R)

  datatype FileDescriptor<R> = FileDescriptor(
    package: string,
    messages: seq<MessageDescriptor<R>>,
    enums: seq<string>,
    services: seq<seq<MethodDescriptor<R>>>,
    extensions: seq<ExtensionDescriptor<R>>)

  // --- What the indexes are built from ---

  /** `p` ends in a dot followed by `s`. */
  ghost predicate DottedSuffix(p: string, s: string) {
    exists q :: p == q + "." + s
  }

  /** The first `n - 1` proper dotted suffixes of a package, longest first, each leading to the package. */
  function SuffixEntries(package: string, n: nat): seq<(string, string)>
    requires 1 <= n <= |Split(package)|
  {
    if n == 1 then [] else SuffixEntries(package, n - 1) + [(Join(Split(package)[n - 1..]), package)]
  }

  function PackageEntries(package: string): seq<(string, string)> {
    SuffixEntries(package, |Split(package)|)
  }

  /** The messages of a descriptor, outer before inner, under their simple names. */
  function MessageEntries<R>(m: MessageDescriptor<R>, prefix: string): seq<(string, string)>
    decreases m, 1
  {
    (if m.name != "" then [(m.name, prefix + m.name)] else [])
    + NestedEntries(m, |m.nested|, prefix + m.name + ".")
  }

  function NestedEntries<R>(m: MessageDescriptor<R>, n: nat, prefix: string): seq<(string, string)>
    requires n <= |m.nested|
    decreases m, 0, n
  {
    if n == 0 then [] else NestedEntries(m, n - 1, prefix) + MessageEntries(m.nested[n - 1], prefix)
  }

  function MessagesEntries<R>(messages: seq<MessageDescriptor<R>>, prefix: string): seq<(string, string)> {
    if messages == [] then []
    else MessagesEntries(messages[..|messages| - 1], prefix) + MessageEntries(messages[|messages| - 1], prefix)
  }

  function EnumEntries(enums: seq<string>, prefix: string): seq<(string, string)> {
    if enums == [] then []
    else
      var e := enums[|enums| - 1];
      EnumEntries(enums[..|enums| - 1], prefix) + if e != "" then [(e, prefix + e)] else []
  }

  function TypeEntries<R>(fd: FileDescriptor<R>): seq<(string, string)> {
    var prefix := "." + fd.package + ".";
    MessagesEntries(fd.messages, prefix) + EnumEntries(fd.enums, prefix)
  }

  /** What the files contribute: nothing from a file without a package. */
  function AllPackageEntries<R>(files: seq<FileDescriptor<R>>): seq<(string, string)> {
    if files == [] then []
    else
      var fd := files[|files| - 1];
      AllPackageEntries(files[..|files| - 1]) + if fd.package != "" then PackageEntries(fd.package) else []
  }

  function AllTypeEntries<R>(files: seq<FileDescriptor<R>>): seq<(string, string)> {
    if files == [] then []
    else
      var fd := files[|files| - 1];
      AllTypeEntries(files[..|files| - 1]) + if fd.package != "" then TypeEntries(fd) else []
  }

  // --- Qualifying one name ---

  predicate Rooted(s: string) {
    "." <= s
  }

  predicate IsKnownType(fqn: string, typeMap: Index) {
    exists k :: k in typeMap && fqn in typeMap[k]
  }

  function Candidate(package: string, name: string): string {
    "." + package + "." + name
  }

  /**
   * The first of the packages that declares `name`, or else the first of all. Indexing an empty
   * list would print as `undefined`; the indexes that are built hold no empty list.
   */
  function ChoosePackage(packages: seq<string>, name: string, typeMap: Index, from: nat): string
    requires from <= |packages|
    decreases |packages| - from
  {
    if from == |packages| then (if packages == [] then "undefined" else packages[0])
    else if IsKnownType(Candidate(packages[from], name), typeMap) then packages[from]
    else ChoosePackage(packages, name, typeMap, from + 1)
  }

  /** Trying the package parts of a dotted name from the `i`-th component on, longest first. */
  function QualifyFrom(parts: seq<string>, i: nat, packageMap: Index, typeMap: Index): string
    requires |parts| >= 2 && i <= |parts| - 1
    decreases |parts| - i
  {
    var name := parts[|parts| - 1];
    if i == |parts| - 1 then "." + Join(parts)
    else
      var suffix := Join(parts[i..|parts| - 1]);
      if suffix in packageMap then Candidate(ChoosePackage(packageMap[suffix], name, typeMap, 0), name)
      else QualifyFrom(parts, i + 1, packageMap, typeMap)
  }

  function Qualify(typeName: string, packageMap: Index, typeMap: Index): string
  {
    if Rooted(typeName) then typeName
    else if |Split(typeName)| == 1 then
      if typeName in typeMap && |typeMap[typeName]| == 1 then typeMap[typeName][0] else typeName
    else QualifyFrom(Split(typeName), 0, packageMap, typeMap)
  }

  /** What a reference becomes: unset and rooted ones are left alone. */
  function FixRef(reference: string, packageMap: Index, typeMap: Index): string
  {
    if reference == "" || Rooted(reference) then reference else Qualify(reference, packageMap, typeMap)
  }

  // --- Facts about one name ---

  ghost predicate RootedLists(m: Index) {
    forall k, i :: k in m && 0 <= i < |m[k]| ==> Rooted(m[k][i])
  }

  lemma {:induction false} QualifyFromIsRooted(parts: seq<string>, i: nat, packageMap: Index, typeMap: Index)
    requires |parts| >= 2 && i <= |parts| - 1
    ensures Rooted(QualifyFrom(parts, i, packageMap, typeMap))
    decreases |parts| - i
  {
    if i < |parts| - 1 && Join(parts[i..|parts| - 1]) !in packageMap {
      QualifyFromIsRooted(parts, i + 1, packageMap, typeMap);
    }
  }

  /**
   * A fixed reference is unset, rooted, or a simple name that is declared zero or several times
   * and was left as it was.
   */
  lemma FixedForm(reference: string, packageMap: Index, typeMap: Index)
    requires RootedLists(typeMap)
    ensures var fixed := FixRef(reference, packageMap, typeMap);
      || fixed == "" || Rooted(fixed)
      || (fixed == reference && !HasDot(fixed) && (fixed in typeMap ==> |typeMap[fixed]| != 1))
  {
    if reference != "" && !Rooted(reference) {
      if |Split(reference)| >= 2 {
        QualifyFromIsRooted(Split(reference), 0, packageMap, typeMap);
      } else {
        ComponentsHaveNoDot(reference);
        JoinSplit(reference);
        assert Split(reference)[0] in Split(reference);
      }
    }
  }

  /** Fixing a fixed reference changes nothing. */
  lemma FixRefIdempotent(reference: string, packageMap: Index, typeMap: Index)
    requires RootedLists(typeMap)
    ensures var fixed := FixRef(reference, packageMap, typeMap); FixRef(fixed, packageMap, typeMap) == fixed
  {
    FixedForm(reference, packageMap, typeMap);
    var fixed := FixRef(reference, packageMap, typeMap);
    if fixed != "" && !Rooted(fixed) {
      SplitOfComponent(fixed);
    }
  }

  lemma {:induction false} ChosenPackage(packages: seq<string>, name: string, typeMap: Index, from: nat, i: nat)
    requires from <= i < |packages| && IsKnownType(Candidate(packages[i], name), typeMap)
    requires forall j :: from <= j < i ==> !IsKnownType(Candidate(packages[j], name), typeMap)
    ensures ChoosePackage(packages, name, typeMap, from) == packages[i]
    decreases i - from
  {
    if from < i {
      ChosenPackage(packages, name, typeMap, from + 1, i);
    }
  }

  /**
   * A reference `s.M` resolves to the first package that ends in `.s` and declares `M`, whenever
   * there is one.
   */
  lemma ResolvesToFirstDeclaring(s: string, name: string, packageMap: Index, typeMap: Index, i: nat)
    requires !Rooted(s + "." + name) && !HasDot(name)
    requires s in packageMap && i < |packageMap[s]| && IsKnownType(Candidate(packageMap[s][i], name), typeMap)
    requires forall j :: 0 <= j < i ==> !IsKnownType(Candidate(packageMap[s][j], name), typeMap)
    ensures FixRef(s + "." + name, packageMap, typeMap) == Candidate(packageMap[s][i], name)
  {
    SplitAppend(s, name);
    SplitOfComponent(name);
    JoinSplit(s);
    var parts := Split(s + "." + name);
    assert parts[0..|parts| - 1] == Split(s);
    ChosenPackage(packageMap[s], name, typeMap, 0, i);
  }

  predicate DeclaredBy(package: string, name: string, typeMap: Index) {
    IsKnownType(Candidate(package, name), typeMap)
  }

  /**
   * `s` is listed, and no package listed before it declares the name; it declares the name itself,
   * or else it heads a list in which nobody does.
   */
  ghost predicate LeadsTo(packages: seq<string>, s: string, name: string, typeMap: Index) {
    exists i :: && 0 <= i < |packages| && packages[i] == s
                && (forall j :: 0 <= j < i ==> !DeclaredBy(packages[j], name, typeMap))
                && (DeclaredBy(s, name, typeMap)
                    || (i == 0 && forall j :: 0 <= j < |packages| ==> !DeclaredBy(packages[j], name, typeMap)))
  }

  /** The first of the endings of `s`, from the whole of it down, that is listed, if any. */
  ghost predicate FirstListedEnding(s: string, j: nat, packageMap: Index) {
    && j < |Split(s)| && Join(Split(s)[j..]) in packageMap
    && forall k :: 0 <= k < j ==> Join(Split(s)[k..]) !in packageMap
  }

  /**
   * Exactly when a dotted reference keeps its meaning as a full name, declared or not, nested or
   * not: `s.M` becomes `.s.M` if and only if no ending of `s` is listed, or the list of the first
   * listed one leads to `s` itself.
   */
  lemma FullNameKeptExactly(s: string, name: string, packageMap: Index, typeMap: Index)
    requires !Rooted(s + "." + name) && !HasDot(name)
    requires forall k :: k in packageMap ==> packageMap[k] != []
    ensures FixRef(s + "." + name, packageMap, typeMap) == "." + s + "." + name
       <==> forall j: nat :: FirstListedEnding(s, j, packageMap) ==>
           LeadsTo(packageMap[Join(Split(s)[j..])], s, name, typeMap)
  {
    SplitAppend(s, name);
    SplitOfComponent(name);
    JoinSplit(s + "." + name);
    var parts := Split(s + "." + name);
    assert parts == Split(s) + [name];
    assert FixRef(s + "." + name, packageMap, typeMap) == QualifyFrom(parts, 0, packageMap, typeMap);
    assert "." + Join(parts) == "." + s + "." + name;
    SearchKeepsExactly(s, name, 0, packageMap, typeMap);
  }

  lemma {:induction false} SearchKeepsExactly(s: string, name: string, i: nat, packageMap: Index, typeMap: Index)
    requires i <= |Split(s)| && forall k :: k in packageMap ==> packageMap[k] != []
    requires "." + Join(Split(s) + [name]) == Candidate(s, name)
    requires forall k :: 0 <= k < i ==> Join(Split(s)[k..]) !in packageMap
    ensures QualifyFrom(Split(s) + [name], i, packageMap, typeMap) == Candidate(s, name)
       <==> forall j: nat :: FirstListedEnding(s, j, packageMap) ==>
           LeadsTo(packageMap[Join(Split(s)[j..])], s, name, typeMap)
    decreases |Split(s)| - i
  {
    hide LeadsTo, Candidate, Join, Split;
    var parts := Split(s) + [name];
    if i < |Split(s)| {
      assert parts[i..|parts| - 1] == Split(s)[i..];
      var suffix := Join(Split(s)[i..]);
      if suffix in packageMap {
        assert FirstListedEnding(s, i, packageMap);
        assert forall j: nat :: FirstListedEnding(s, j, packageMap) ==> j == i;
        ChosenExactly(packageMap[suffix], s, name, typeMap);
        SameCandidate(ChoosePackage(packageMap[suffix], name, typeMap, 0), s, name);
      } else {
        SearchKeepsExactly(s, name, i + 1, packageMap, typeMap);
      }
    }
  }

  /** The package chosen from a list, described without the search. */
  lemma ChosenExactly(packages: seq<string>, s: string, name: string, typeMap: Index)
    requires packages != []
    ensures ChoosePackage(packages, name, typeMap, 0) == s <==> LeadsTo(packages, s, name, typeMap)
  {
    if i :| 0 <= i < |packages| && DeclaredBy(packages[i], name, typeMap)
            && forall j :: 0 <= j < i ==> !DeclaredBy(packages[j], name, typeMap) {
      ChosenPackage(packages, name, typeMap, 0, i);
      if packages[i] == s {
        assert LeadsTo(packages, s, name, typeMap);
      }
    } else {
      NobodyDeclares(packages, name, typeMap, |packages|);
      NobodyChosen(packages, name, typeMap, 0);
      if packages[0] == s {
        assert LeadsTo(packages, s, name, typeMap);
      }
    }
  }

  lemma {:induction false} NobodyDeclares(packages: seq<string>, name: string, typeMap: Index, n: nat)
    requires n <= |packages|
    requires !exists i :: && 0 <= i < |packages| && DeclaredBy(packages[i], name, typeMap)
                          && forall j :: 0 <= j < i ==> !DeclaredBy(packages[j], name, typeMap)
    ensures forall i :: 0 <= i < n ==> !DeclaredBy(packages[i], name, typeMap)
  {
    if n > 0 {
      NobodyDeclares(packages, name, typeMap, n - 1);
    }
  }

  lemma {:induction false} NobodyChosen(packages: seq<string>, name: string, typeMap: Index, from: nat)
    requires from <= |packages| && packages != []
    requires forall i :: 0 <= i < |packages| ==> !DeclaredBy(packages[i], name, typeMap)
    ensures ChoosePackage(packages, name, typeMap, from) == packages[0]
    decreases |packages| - from
  {
    if from < |packages| {
      assert !DeclaredBy(packages[from], name, typeMap);
      NobodyChosen(packages, name, typeMap, from + 1);
    }
  }

  lemma SameCandidate(a: string, b: string, name: string)
    ensures Candidate(a, name) == Candidate(b, name) <==> a == b
  {
    if Candidate(a, name) == Candidate(b, name) {
      assert |a| == |b|;
      assert Candidate(a, name)[1..1 + |a|] == a && Candidate(b, name)[1..1 + |b|] == b;
    }
  }
}
