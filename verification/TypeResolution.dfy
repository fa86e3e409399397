/** Fetching the types that a tree refers to and does not hold, in at most ten rounds. */
module TypeResolution {
  import opened Wrappers
  import opened Dotted
  import opened NamespaceMerge
  import opened NamespaceTree
  import opened TypeReferences
  import ProtoTypes

  /** Some message of the tree refers to it, and looking up a type or enum from the root does not find it. */
  ghost predicate Missing(root: Node, reference: string, found: (Node, string) -> bool) {
    Referred(root, reference) && !found(root, reference)
  }

  function PlantName(root: Node, typeName: string): (after: Node)
    requires root.Space?
    ensures after.Space?
  {
    if LastComponent(typeName) == "" then root else Plant(root, Split(typeName))
  }

  /** The type references of a message, gathered field by field and nested message by nested message. */
  method CollectTypeRefs(m: TreeObject) returns (refs: set<string>)
    requires m.Valid()
    ensures refs == MessageRefs(m.Tree())
    decreases m.repr, 1
  {
    hide OwnRefs, NestedRefs, MessageRefs;
    RefsUnfold(m.Tree());
    if !m.holds {
      return {};
    }
    refs := CollectFieldRefs(m);
    var nested := CollectNestedRefs(m);
    refs := refs + nested;
    assert m.Tree().nested.Keys == m.nested.Keys && m.Tree().members == m.members;
  }

  method CollectNestedRefs(m: TreeObject) returns (refs: set<string>)
    requires m.Valid() && m.holds
    ensures refs == NestedRefs(m.Tree(), m.nested.Keys)
    decreases m.repr, 0
  {
    hide NestedRefs, MessageRefs;
    ghost var t := m.Tree();
    RefsUnfold(t);
    refs := {};
    var names := m.nested.Keys;
    assert m.nested.Keys - names == {};
    while names != {}
      invariant names <= m.nested.Keys && refs == NestedRefs(t, m.nested.Keys - names)
    {
      var n :| n in names;
      if m.nested[n].kind == MessageKind {
        var inner := CollectTypeRefs(m.nested[n]);
        refs := refs + inner;
      }
      NestedRefsMore(t, m.nested.Keys - names, n);
      assert m.nested.Keys - (names - {n}) == m.nested.Keys - names + {n};
      names := names - {n};
    }
    assert m.nested.Keys - {} == m.nested.Keys;
  }

  method CollectFieldRefs(m: TreeObject) returns (refs: set<string>)
    requires m.Valid() && m.holds
    ensures refs == OwnRefs(m.Tree(), m.members.Keys)
  {
    refs := {};
    ghost var t := m.Tree();
    var fields := m.members.Keys;
    while fields != {}
      invariant fields <= m.members.Keys && refs == OwnRefs(t, m.members.Keys - fields)
    {
      var f :| f in fields;
      if !ProtoTypes.IsBuiltin(m.members[f]) {
        refs := refs + {RefName(m.members[f])};
      }
      assert m.members.Keys - (fields - {f}) == m.members.Keys - fields + {f};
      fields := fields - {f};
    }
    assert m.members.Keys - {} == m.members.Keys;
  }

  /** Walking all namespaces for the messages in them. */
  method CheckNamespace(ns: TreeObject) returns (refs: set<string>)
    requires ns.Valid()
    ensures refs == NamespaceRefs(ns.Tree())
    decreases ns.repr
  {
    hide RefsBelow, MessageRefs, NamespaceRefs;
    RefsUnfold(ns.Tree());
    refs := {};
    if !ns.holds {
      return;
    }
    ghost var t := ns.Tree();
    var names := ns.nested.Keys;
    assert t.nested.Keys == ns.nested.Keys && ns.nested.Keys - names == {};
    while names != {}
      invariant names <= ns.nested.Keys && refs == RefsBelow(t, ns.nested.Keys - names)
    {
      var n :| n in names;
      var inner;
      if ns.nested[n].kind == MessageKind {
        inner := CollectTypeRefs(ns.nested[n]);
      } else {
        inner := CheckNamespace(ns.nested[n]);
      }
      refs := refs + inner;
      assert inner == RefsUnder(t.nested[n]);
      RefsBelowMore(t, ns.nested.Keys - names, n);
      assert ns.nested.Keys - (names - {n}) == ns.nested.Keys - names + {n};
      names := names - {n};
    }
    assert ns.nested.Keys - {} == ns.nested.Keys;
  }

  method FindUnresolvedTypes(root: TreeObject, found: (Node, string) -> bool) returns (unresolved: set<string>)
    requires root.Valid()
    ensures forall reference :: reference in unresolved <==> Missing(root.Tree(), reference, found)
  {
    var refs := CheckNamespace(root);
    unresolved := set r | r in refs && !found(root.Tree(), r);
    forall reference
      ensures reference in refs <==> Referred(root.Tree(), reference)
    {
      ReferencesExactly(root.Tree(), reference);
    }
  }

  // --- The loop ---

  const MAX_ROUNDS := 10

  /** What becomes of the root when one symbol is fetched: its tree is merged, or a placeholder is planted. */
  function AfterOne(root: Node, typeName: string, fetch: string -> Option<Node>): (after: Node)
    requires root.Space?
    ensures after.Space?
  {
    match fetch(typeName)
    case Some(parsed) => Merge(root, parsed)
    case None => PlantName(root, typeName)
  }

  function AfterAll(root: Node, names: seq<string>, fetch: string -> Option<Node>): (after: Node)
    requires root.Space?
    ensures after.Space?
  {
    if names == [] then root else AfterOne(AfterAll(root, names[..|names| - 1], fetch), names[|names| - 1], fetch)
  }

  function Flatten(rounds: seq<seq<string>>): seq<string> {
    if rounds == [] then [] else Flatten(rounds[..|rounds| - 1]) + rounds[|rounds| - 1]
  }

  ghost predicate Different(names: seq<string>) {
    forall i, j :: 0 <= i < j < |names| ==> names[i] != names[j]
  }

  /** A name that is still missing after the given rounds and has not been tried. */
  ghost predicate Untried(root: Node, rounds: seq<seq<string>>, found: (Node, string) -> bool,
                          fetch: string -> Option<Node>, typeName: string)
    requires root.Space?
  {
    Missing(AfterAll(root, Flatten(rounds), fetch), typeName, found) && typeName !in Flatten(rounds)
  }

  /** Each round tries, in some order and once each, exactly the names missing before it and not yet tried. */
  ghost predicate AreRounds(root: Node, rounds: seq<seq<string>>, found: (Node, string) -> bool,
                            fetch: string -> Option<Node>)
    requires root.Space?
  {
    forall i :: 0 <= i < |rounds| ==>
      && rounds[i] != [] && Different(rounds[i])
      && forall t :: t in rounds[i] <==> Untried(root, rounds[..i], found, fetch, t)
  }

  /**
   * The resolution loop, on the root that it changes. `found` is the lookup from the root, and
   * `fetch` what the server answers for a symbol: a parsed tree, or a failure. It stops when nothing
   * new is missing, or after ten rounds.
   */
  method ResolveAllTypes(root: TreeObject, found: (Node, string) -> bool, fetch: string -> Option<Node>)
    returns (rounds: seq<seq<string>>)
    requires root.Valid() && root.holds
    modifies root.repr
    ensures root.Valid() && fresh(root.repr - old(root.repr))
    ensures var start := old(root.Tree());
      && |rounds| <= 10 && AreRounds(start, rounds, found, fetch)
      && root.Tree() == AfterAll(start, Flatten(rounds), fetch)
      && (|rounds| < 10 ==>
            forall t :: Missing(root.Tree(), t, found) ==> t in Flatten(rounds))
  {
    hide Missing, Different;
    ghost var start := root.Tree();
    rounds := [];
    var fetched: set<string> := {};
    while |rounds| < MAX_ROUNDS
      invariant root.Valid() && fresh(root.repr - old(root.repr))
      invariant |rounds| <= MAX_ROUNDS && AreRounds(start, rounds, found, fetch)
      invariant root.Tree() == AfterAll(start, Flatten(rounds), fetch)
      invariant fetched == set t | t in Flatten(rounds)
    {
      var unresolved := FindUnresolvedTypes(root, found);
      var typesToFetch := unresolved - fetched;
      if typesToFetch == {} {
        AllTried(unresolved, fetched, Flatten(rounds));
        return;
      }
      var round := FetchTypes(root, typesToFetch, fetch);
      OneMoreRound(start, rounds, round, found, fetch);
      rounds := rounds + [round];
      fetched := fetched + typesToFetch;
    }
  }

  lemma AllTried(unresolved: set<string>, fetched: set<string>, tried: seq<string>)
    requires unresolved - fetched == {} && fetched == set t | t in tried
    ensures forall t :: t in unresolved ==> t in tried
  {
    forall t | t in unresolved
      ensures t in tried
    {
      assert t !in unresolved - fetched;
    }
  }

  /** One round: each type is fetched and merged, or replaced by a placeholder when that fails. */
  method FetchTypes(root: TreeObject, types: set<string>, fetch: string -> Option<Node>)
    returns (round: seq<string>)
    requires root.Valid() && root.holds
    modifies root.repr
    ensures root.Valid() && fresh(root.repr - old(root.repr))
    ensures root.Tree() == AfterAll(old(root.Tree()), round, fetch)
    ensures Different(round) && forall t :: t in round <==> t in types
  {
    ghost var start := root.Tree();
    round := [];
    var remaining := types;
    while remaining != {}
      invariant root.Valid() && fresh(root.repr - old(root.repr))
      invariant remaining <= types && root.Tree() == AfterAll(start, round, fetch)
      invariant Different(round) && forall t :: t in round <==> t in types && t !in remaining
    {
      var typeName :| typeName in remaining;
      remaining := remaining - {typeName};
      FetchType(root, typeName, fetch);
      assert (round + [typeName])[..|round|] == round;
      round := round + [typeName];
    }
  }

  method FetchType(root: TreeObject, typeName: string, fetch: string -> Option<Node>)
    requires root.Valid() && root.holds
    modifies root.repr
    ensures root.Valid() && fresh(root.repr - old(root.repr))
    ensures root.Tree() == AfterOne(old(root.Tree()), typeName, fetch)
  {
    match fetch(typeName)
    case Some(descriptors) =>
      var parsed := Build(descriptors);
      if parsed.holds {
        MergeAll(root, parsed);
      }
    case None =>
      CreatePlaceholderType(root, typeName);
  }

  method CreatePlaceholderType(root: TreeObject, typeName: string)
    requires root.Valid() && root.holds
    modifies root.repr
    ensures root.Valid() && fresh(root.repr - old(root.repr))
    ensures root.Tree() == PlantName(old(root.Tree()), typeName)
  {
    var parts := Split(typeName);
    if parts[|parts| - 1] != "" {
      PlaceAt(root, parts);
    }
  }

  lemma {:induction false} AfterAppend(root: Node, a: seq<string>, b: seq<string>, fetch: string -> Option<Node>)
    requires root.Space?
    ensures AfterAll(root, a + b, fetch) == AfterAll(AfterAll(root, a, fetch), b, fetch)
  {
    if b == [] {
      assert a + b == a;
    } else {
      AfterAppend(root, a, b[..|b| - 1], fetch);
      assert (a + b)[..|a + b| - 1] == a + b[..|b| - 1];
    }
  }

  lemma OneMoreRound(root: Node, rounds: seq<seq<string>>, round: seq<string>, found: (Node, string) -> bool,
                     fetch: string -> Option<Node>)
    requires root.Space? && AreRounds(root, rounds, found, fetch) && round != [] && Different(round)
    requires forall t :: t in round <==> Untried(root, rounds, found, fetch, t)
    ensures AreRounds(root, rounds + [round], found, fetch)
    ensures Flatten(rounds + [round]) == Flatten(rounds) + round
    ensures AfterAll(root, Flatten(rounds + [round]), fetch)
        == AfterAll(AfterAll(root, Flatten(rounds), fetch), round, fetch)
  {
    hide Untried, Missing;
    var all := rounds + [round];
    assert all[..|rounds|] == rounds;
    AfterAppend(root, Flatten(rounds), round, fetch);
    forall i | 0 <= i < |all|
      ensures all[i] != [] && Different(all[i])
      ensures forall t :: t in all[i] <==> Untried(root, all[..i], found, fetch, t)
    {
      if i < |rounds| {
        assert all[..i] == rounds[..i];
      }
    }
  }

  lemma DifferentAppend(a: seq<string>, b: seq<string>)
    requires Different(a) && Different(b) && forall x :: x in b ==> x !in a
    ensures Different(a + b)
  {
    forall i, j | 0 <= i < j < |a + b|
      ensures (a + b)[i] != (a + b)[j]
    {
      if i < |a| <= j {
        assert (a + b)[j] in b;
      }
    }
  }

  /** Over all rounds no symbol is fetched twice. */
  lemma {:induction false} NothingFetchedTwice(root: Node, rounds: seq<seq<string>>, found: (Node, string) -> bool,
                                               fetch: string -> Option<Node>)
    requires root.Space? && AreRounds(root, rounds, found, fetch)
    ensures Different(Flatten(rounds))
  {
    if rounds != [] {
      var n := |rounds| - 1;
      var before := rounds[..n];
      assert forall i :: 0 <= i < n ==> before[..i] == rounds[..i];
      NothingFetchedTwice(root, before, found, fetch);
      assert forall t :: t in rounds[n] <==> Untried(root, rounds[..n], found, fetch, t);
      DifferentAppend(Flatten(before), rounds[n]);
    }
  }

  /** Whatever is fetched, nothing in the root is removed or replaced, by merges or by placeholders. */
  lemma {:induction false} ResolutionExtends(root: Node, names: seq<string>, fetch: string -> Option<Node>)
    requires root.Space?
    ensures Extends(root, AfterAll(root, names, fetch))
  {
    if names != [] {
      var before, last := AfterAll(root, names[..|names| - 1], fetch), names[|names| - 1];
      ResolutionExtends(root, names[..|names| - 1], fetch);
      match fetch(last) {
        case Some(parsed) => MergeExtends(before, parsed);
        case None =>
          if LastComponent(last) != "" {
            PlantExtends(before, Split(last));
          }
      }
    }
  }

  /**
   * What one fetch does to the root, path by path: what was there stays; of a fetched tree each
   * object is added for which there is room; and for a symbol that cannot be fetched there are
   * afterwards the namespaces on its path and an empty message at its end, if nothing is in the way.
   */
  lemma OneFetchExactly(root: Node, typeName: string, fetch: string -> Option<Node>, path: seq<string>)
    requires root.Space? && MembersApart(root)
    ensures var (after, fetched, name) := (AfterOne(root, typeName, fetch), fetch(typeName), Split(typeName));
      && (Has(root, path) ==> Has(after, path) && Head(At(after, path).value) == Head(At(root, path).value))
      && (fetched.Some? && !Has(root, path) ==>
            && (Has(after, path) <==> fetched.value.Space? && Has(fetched.value, path) && RoomFor(root, path))
            && (Has(after, path) ==> At(after, path) == At(fetched.value, path)))
      && (fetched.None? && !Has(root, path) ==>
            && (Has(after, path) <==> LastComponent(typeName) != "" && NoConflict(root, name) && path <= name)
            && (Has(after, path) ==>
                  Head(At(after, path).value) == if path == name then EMPTY_MESSAGE else EMPTY_NAMESPACE))
  {
    match fetch(typeName)
    case Some(parsed) => MergeIsLeftBiasedUnion(root, parsed, path);
    case None =>
      if LastComponent(typeName) != "" {
        PlantExactly(root, Split(typeName), path);
      }
  }

  /** The object at the path is one that a lookup for a type or an enum finds. */
  predicate FoundAt(root: Node, path: seq<string>) {
    Has(root, path) && At(root, path).value.kind in {MessageKind, EnumKind}
  }

  /**
   * Exactly when a message or an enum stands at the full path of a name after a placeholder was
   * asked for: nothing but namespaces is in the way, and what stood there before, if anything, is
   * a message or an enum itself. A namespace or a service of that name keeps it unresolved.
   */
  lemma PlaceholderResolvesExactly(root: Node, typeName: string)
    requires root.Space? && MembersApart(root) && LastComponent(typeName) != ""
    ensures var path := Split(typeName);
      FoundAt(PlantName(root, typeName), path) <==>
        NoConflict(root, path) && (Has(root, path) ==> At(root, path).value.kind in {MessageKind, EnumKind})
  {
    var path := Split(typeName);
    PlantMakesPathExactly(root, path);
    if Has(root, path) {
      PlantExtendsAt(root, path, path);
    } else if NoConflict(root, path) {
      PlantedIsMessage(root, path);
    }
  }

  /** What is planted at a new path is the empty message. */
  lemma {:induction false} PlantedIsMessage(t: Node, path: seq<string>)
    requires t.Space? && path != [] && NoConflict(t, path) && !Has(t, path)
    ensures At(Plant(t, path), path) == Some(EMPTY_MESSAGE)
    decreases |path|
  {
    if |path| == 1 {
      assert path[1..] == [];
    } else if path[0] in t.nested {
      PlantedIsMessage(t.nested[path[0]], path[1..]);
    } else {
      PlantedIsMessage(EMPTY_NAMESPACE, path[1..]);
    }
  }

  /** A namespace that stands at the path is left there, and the name stays unresolved. */
  lemma NamespaceIsNotReplaced(name: string)
    requires !HasDot(name) && name != ""
    ensures var root := EMPTY_NAMESPACE.(nested := map[name := EMPTY_NAMESPACE]);
      PlantName(root, name) == root && !FoundAt(PlantName(root, name), Split(name))
  {
    SplitOfComponent(name);
    var root := EMPTY_NAMESPACE.(nested := map[name := EMPTY_NAMESPACE]);
    assert At(root, [name]) == At(EMPTY_NAMESPACE, [name][1..]);
  }
}
