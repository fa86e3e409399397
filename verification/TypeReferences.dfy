/** The type references of the messages in a tree: as they are gathered, and by the paths at which they stand. */
module TypeReferences {
  import opened Wrappers
  import opened NamespaceMerge
  import ProtoTypes

  function RefName(ty: string): string {
    if "." <= ty then ty[1..] else ty
  }

  /** The type references of a message and of the messages nested in it. */
  function MessageRefs(m: Node): set<string>
    decreases m, 1
  {
    if m.Leaf? then {} else OwnRefs(m, m.members.Keys) + NestedRefs(m, m.nested.Keys)
  }

  function OwnRefs(m: Node, fields: set<string>): set<string>
    requires m.Space? && fields <= m.members.Keys
  {
    set f | f in fields && !ProtoTypes.IsBuiltin(m.members[f]) :: RefName(m.members[f])
  }

  function NestedRefs(m: Node, names: set<string>): set<string>
    requires m.Space? && names <= m.nested.Keys
    decreases m, 0
  {
    set n, r | n in names && m.nested[n].kind == MessageKind && r in MessageRefs(m.nested[n]) :: r
  }

  /** The type references of all messages below a namespace. */
  function NamespaceRefs(ns: Node): set<string>
    decreases ns, 1
  {
    if ns.Leaf? then {} else RefsBelow(ns, ns.nested.Keys)
  }

  function RefsBelow(ns: Node, names: set<string>): set<string>
    requires ns.Space? && names <= ns.nested.Keys
    decreases ns, 0
  {
    set n, r | n in names && r in RefsUnder(ns.nested[n]) :: r
  }

  function RefsUnder(nested: Node): set<string>
    decreases nested, 2
  {
    if nested.kind == MessageKind then MessageRefs(nested) else NamespaceRefs(nested)
  }

  lemma NestedRefsMore(m: Node, names: set<string>, n: string)
    requires m.Space? && names <= m.nested.Keys && n in m.nested
    ensures NestedRefs(m, names + {n})
         == NestedRefs(m, names) + if m.nested[n].kind == MessageKind then MessageRefs(m.nested[n]) else {}
  {
    hide MessageRefs;
  }

  lemma RefsUnfold(t: Node)
    ensures t.Leaf? ==> MessageRefs(t) == {} && NamespaceRefs(t) == {}
    ensures t.Space? ==> NestedRefs(t, {}) == {} && RefsBelow(t, {}) == {}
    ensures t.Space? ==> MessageRefs(t) == OwnRefs(t, t.members.Keys) + NestedRefs(t, t.nested.Keys)
    ensures t.Space? ==> NamespaceRefs(t) == RefsBelow(t, t.nested.Keys)
  {
  }

  lemma RefsBelowMore(ns: Node, names: set<string>, n: string)
    requires ns.Space? && names <= ns.nested.Keys && n in ns.nested
    ensures RefsBelow(ns, names + {n}) == RefsBelow(ns, names) + RefsUnder(ns.nested[n])
  {
    hide RefsUnder;
  }

  // --- By path ---

  /**
   * A message stands at the path, and on the way to it messages hold nothing but messages: what else
   * is nested in a message is not looked into.
   */
  ghost predicate MessageAt(t: Node, path: seq<string>) {
    && Has(t, path) && path != [] && At(t, path).value.kind == MessageKind
    && forall i, j :: (1 <= i <= j <= |path| && Has(t, path[..i]) && At(t, path[..i]).value.kind == MessageKind
                       && Has(t, path[..j])) ==> At(t, path[..j]).value.kind == MessageKind
  }

  /** The message has a field whose type is not built in and is this reference, up to a leading dot. */
  ghost predicate FieldRefersTo(m: Node, reference: string) {
    m.Space? && exists f :: f in m.members && !ProtoTypes.IsBuiltin(m.members[f])
                         && (m.members[f] == "." + reference || (m.members[f] == reference && !("." <= reference)))
  }

  /** Some message of the tree refers to it. */
  ghost predicate Referred(t: Node, reference: string) {
    exists path :: MessageAt(t, path) && FieldRefersTo(At(t, path).value, reference)
  }

  /** A path of messages nested in one another, from `m` down. */
  ghost predicate MessagesDown(m: Node, path: seq<string>)
    decreases |path|
  {
    path == [] || (m.Space? && path[0] in m.nested && m.nested[path[0]].kind == MessageKind
                   && MessagesDown(m.nested[path[0]], path[1..]))
  }

  /** A path through namespaces to a message, and from there through messages. */
  ghost predicate MessageBelow(t: Node, path: seq<string>)
    decreases |path|
  {
    && path != [] && t.Space? && path[0] in t.nested
    && var n := t.nested[path[0]];
       if n.kind == MessageKind then MessagesDown(n, path[1..]) else MessageBelow(n, path[1..])
  }

  lemma OwnRefsExactly(m: Node, reference: string)
    requires m.Space?
    ensures reference in OwnRefs(m, m.members.Keys) <==> FieldRefersTo(m, reference)
  {
    forall ty: string
      ensures RefName(ty) == reference <==> ty == "." + reference || (ty == reference && !("." <= reference))
    {
      if "." <= ty {
        assert ty == "." + ty[1..];
      }
    }
  }

  lemma HasStep(t: Node, n: string, rest: seq<string>)
    ensures Has(t, [n] + rest) <==> t.Space? && n in t.nested && Has(t.nested[n], rest)
    ensures Has(t, [n] + rest) ==> At(t, [n] + rest) == At(t.nested[n], rest)
  {
    assert ([n] + rest)[1..] == rest;
  }

  lemma MessageRefsMember(m: Node, reference: string)
    requires m.Space?
    ensures reference in MessageRefs(m) <==>
              reference in OwnRefs(m, m.members.Keys)
              || exists n :: n in m.nested && m.nested[n].kind == MessageKind && reference in MessageRefs(m.nested[n])
  {
    RefsUnfold(m);
  }

  lemma NamespaceRefsMember(t: Node, reference: string)
    requires t.Space?
    ensures reference in NamespaceRefs(t) <==> exists n :: n in t.nested && reference in RefsUnder(t.nested[n])
  {
    RefsUnfold(t);
  }

  lemma {:induction false} MessageRefsExactly(m: Node, reference: string)
    ensures reference in MessageRefs(m) <==>
              exists path :: MessagesDown(m, path) && Has(m, path) && FieldRefersTo(At(m, path).value, reference)
    decreases m
  {
    if m.Space? {
      OwnRefsExactly(m, reference);
      forall n | n in m.nested
        ensures reference in MessageRefs(m.nested[n]) <==>
                  exists path :: MessagesDown(m.nested[n], path) && Has(m.nested[n], path)
                              && FieldRefersTo(At(m.nested[n], path).value, reference)
      {
        MessageRefsExactly(m.nested[n], reference);
      }
      MessageRefsMember(m, reference);
      hide FieldRefersTo, OwnRefs, MessageRefs;
      if reference in OwnRefs(m, m.members.Keys) {
        assert MessagesDown(m, []) && At(m, []) == Some(m);
      } else if reference in MessageRefs(m) {
        var n :| n in m.nested && m.nested[n].kind == MessageKind && reference in MessageRefs(m.nested[n]);
        var path :| MessagesDown(m.nested[n], path) && Has(m.nested[n], path)
                    && FieldRefersTo(At(m.nested[n], path).value, reference);
        HasStep(m, n, path);
        assert ([n] + path)[1..] == path;
        assert MessagesDown(m, [n] + path);
      }
      if path :| MessagesDown(m, path) && Has(m, path) && FieldRefersTo(At(m, path).value, reference) {
        if path != [] {
          HasStep(m, path[0], path[1..]);
          assert [path[0]] + path[1..] == path;
          assert reference in MessageRefs(m.nested[path[0]]);
        }
      }
    } else {
      LeafHoldsNothing(m, reference);
    }
  }

  lemma LeafHoldsNothing(m: Node, reference: string)
    requires m.Leaf?
    ensures forall path :: Has(m, path) ==> !FieldRefersTo(At(m, path).value, reference)
  {
  }

  lemma {:induction false} NamespaceRefsExactly(t: Node, reference: string)
    ensures reference in NamespaceRefs(t) <==>
              exists path :: MessageBelow(t, path) && Has(t, path) && FieldRefersTo(At(t, path).value, reference)
    decreases t
  {
    if t.Space? {
      forall n | n in t.nested
        ensures reference in RefsUnder(t.nested[n]) <==>
                  exists path :: (if t.nested[n].kind == MessageKind then MessagesDown(t.nested[n], path)
                                  else MessageBelow(t.nested[n], path))
                              && Has(t.nested[n], path) && FieldRefersTo(At(t.nested[n], path).value, reference)
      {
        MessageRefsExactly(t.nested[n], reference);
        NamespaceRefsExactly(t.nested[n], reference);
      }
      NamespaceRefsMember(t, reference);
      hide FieldRefersTo, RefsUnder, NamespaceRefs;
      if reference in NamespaceRefs(t) {
        var n :| n in t.nested && reference in RefsUnder(t.nested[n]);
        var path :| (if t.nested[n].kind == MessageKind then MessagesDown(t.nested[n], path)
                     else MessageBelow(t.nested[n], path))
                    && Has(t.nested[n], path) && FieldRefersTo(At(t.nested[n], path).value, reference);
        HasStep(t, n, path);
        assert ([n] + path)[1..] == path;
        assert MessageBelow(t, [n] + path);
      }
      if path :| MessageBelow(t, path) && Has(t, path) && FieldRefersTo(At(t, path).value, reference) {
        HasStep(t, path[0], path[1..]);
        assert [path[0]] + path[1..] == path;
        assert reference in RefsUnder(t.nested[path[0]]);
      }
    }
  }

  // --- The two ways to describe a path agree ---

  lemma {:induction false} MessagesDownExactly(m: Node, path: seq<string>)
    requires Has(m, path)
    ensures MessagesDown(m, path) <==> forall j :: 1 <= j <= |path| && Has(m, path[..j]) ==>
                                         At(m, path[..j]).value.kind == MessageKind
    decreases |path|
  {
    if path != [] {
      var n, rest := path[0], path[1..];
      MessagesDownExactly(m.nested[n], rest);
      forall j | 1 <= j <= |path|
        ensures At(m, path[..j]) == At(m.nested[n], rest[..j - 1])
      {
        AtCons(m, path, j);
      }
      assert At(m, path[..1]) == Some(m.nested[n]);
      PrefixesHave(m.nested[n], rest);
      if forall j :: 1 <= j <= |path| && Has(m, path[..j]) ==> At(m, path[..j]).value.kind == MessageKind {
        forall j | 1 <= j <= |rest| && Has(m.nested[n], rest[..j])
          ensures At(m.nested[n], rest[..j]).value.kind == MessageKind
        {
          assert At(m, path[..j + 1]) == At(m.nested[n], rest[..j + 1 - 1]);
        }
      }
    }
  }

  lemma {:induction false} PrefixesHave(t: Node, path: seq<string>)
    requires Has(t, path)
    ensures forall j :: 0 <= j <= |path| ==> Has(t, path[..j])
    decreases |path|
  {
    if path != [] {
      PrefixesHave(t.nested[path[0]], path[1..]);
      forall j | 0 < j <= |path|
        ensures Has(t, path[..j])
      {
        AtCons(t, path, j);
      }
    }
  }

  lemma {:induction false} MessageBelowExactly(t: Node, path: seq<string>)
    requires Has(t, path)
    ensures MessageBelow(t, path) <==> MessageAt(t, path)
    decreases |path|
  {
    if path != [] {
      var n, rest := path[0], path[1..];
      var inner := t.nested[n];
      forall j | 1 <= j <= |path|
        ensures At(t, path[..j]) == At(inner, rest[..j - 1])
      {
        AtCons(t, path, j);
      }
      PrefixesHave(inner, rest);
      PrefixesHave(t, path);
      assert path[..|path|] == path && rest[..|rest|] == rest;
      hide At;
      if inner.kind == MessageKind {
        MessagesDownExactly(inner, rest);
        UnderMessage(t, inner, path, rest);
      } else {
        MessageBelowExactly(inner, rest);
        UnderNamespace(t, inner, path, rest);
      }
    }
  }

  lemma UnderMessage(t: Node, inner: Node, path: seq<string>, rest: seq<string>)
    requires path != [] && rest == path[1..] && inner.kind == MessageKind && Has(t, path) && Has(inner, rest)
    requires forall j :: 1 <= j <= |path| ==> At(t, path[..j]) == At(inner, rest[..j - 1])
    requires forall j :: 0 <= j <= |rest| ==> Has(inner, rest[..j])
    requires forall j :: 0 <= j <= |path| ==> Has(t, path[..j])
    ensures MessageAt(t, path) <==>
              forall j :: 1 <= j <= |rest| && Has(inner, rest[..j]) ==> At(inner, rest[..j]).value.kind == MessageKind
  {
    assert path[..|path|] == path && rest[..0] == [];
    assert At(t, path[..1]) == Some(inner);
    if MessageAt(t, path) {
      forall j | 1 <= j <= |rest|
        ensures At(inner, rest[..j]).value.kind == MessageKind
      {
        assert At(t, path[..j + 1]) == At(inner, rest[..j + 1 - 1]);
      }
    }
    if forall j :: 1 <= j <= |rest| && Has(inner, rest[..j]) ==> At(inner, rest[..j]).value.kind == MessageKind {
      forall j | 1 <= j <= |path|
        ensures At(t, path[..j]).value.kind == MessageKind
      {
        if j > 1 {
          assert At(t, path[..j]) == At(inner, rest[..j - 1]);
        }
      }
    }
  }

  lemma UnderNamespace(t: Node, inner: Node, path: seq<string>, rest: seq<string>)
    requires path != [] && rest == path[1..] && inner.kind != MessageKind && Has(t, path) && Has(inner, rest)
    requires forall j :: 1 <= j <= |path| ==> At(t, path[..j]) == At(inner, rest[..j - 1])
    requires forall j :: 0 <= j <= |rest| ==> Has(inner, rest[..j])
    requires forall j :: 0 <= j <= |path| ==> Has(t, path[..j])
    ensures MessageAt(t, path) <==> MessageAt(inner, rest)
  {
    assert path[..|path|] == path && rest[..|rest|] == rest && rest[..0] == [];
    assert At(t, path[..1]) == Some(inner);
    if MessageAt(t, path) {
      assert rest != [];
      forall i, j | 1 <= i <= j <= |rest| && At(inner, rest[..i]).value.kind == MessageKind
        ensures At(inner, rest[..j]).value.kind == MessageKind
      {
        assert At(t, path[..i + 1]) == At(inner, rest[..i + 1 - 1]);
        assert At(t, path[..j + 1]) == At(inner, rest[..j + 1 - 1]);
      }
    }
    if MessageAt(inner, rest) {
      forall i, j | 1 <= i <= j <= |path| && At(t, path[..i]).value.kind == MessageKind
        ensures At(t, path[..j]).value.kind == MessageKind
      {
        assert At(t, path[..i]) == At(inner, rest[..i - 1]);
        assert At(t, path[..j]) == At(inner, rest[..j - 1]);
        assert i > 1;
      }
    }
  }

  /** What the walk over all namespaces gathers is what some message of the tree refers to. */
  lemma ReferencesExactly(root: Node, reference: string)
    ensures reference in NamespaceRefs(root) <==> Referred(root, reference)
  {
    NamespaceRefsExactly(root, reference);
    hide FieldRefersTo, NamespaceRefs;
    forall path | Has(root, path)
      ensures MessageBelow(root, path) <==> MessageAt(root, path)
    {
      MessageBelowExactly(root, path);
    }
  }
}
