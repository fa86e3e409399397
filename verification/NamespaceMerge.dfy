/** Merging a parsed namespace tree into another, and planting placeholders for missing types. */
module NamespaceMerge {
  import opened Wrappers

  datatype Kind = NamespaceKind | MessageKind | ServiceKind | EnumKind

  /**
   * An object of the tree. Namespaces, messages and services hold nested objects by name; messages
   * and services also have members, which `get` finds before nested objects. For a field the
   * member holds the name of its type. Whatever else an object carries is in `data`.
   */
  datatype Node =
    | Leaf(kind: Kind, data: string)
    | Space(kind: Kind, data: string, members: map<string, string>, nested: map<string, Node>)

  const EMPTY_NAMESPACE := Space(NamespaceKind, "", map[], map[])
  const EMPTY_MESSAGE := Space(MessageKind, "", map[], map[])

  /** The object at a path, following nested objects. */
  function At(t: Node, path: seq<string>): Option<Node>
    decreases |path|
  {
    if path == [] then Some(t)
    else if t.Space? && path[0] in t.nested then At(t.nested[path[0]], path[1..])
    else None
  }

  predicate Has(t: Node, path: seq<string>) {
    At(t, path).Some?
  }

  /** What an object is apart from its nested objects. */
  function Head(t: Node): Node {
    match t
    case Leaf(_, _) => t
    case Space(kind, data, members, _) => Space(kind, data, members, map[])
  }

  // --- Merging ---

  /** Merging the nested objects of `s` into `t`; anything but two namespaces leaves `t` as it is. */
  function Merge(t: Node, s: Node): Node
    decreases t
  {
    if t.Leaf? || s.Leaf? then t
    else
      Space(t.kind, t.data, t.members,
        map n | n in t.nested.Keys + (s.nested.Keys - t.members.Keys) ::
          if n !in t.nested then s.nested[n]
          else if n in s.nested && n !in t.members then Merge(t.nested[n], s.nested[n])
          else t.nested[n])
  }

  /** Merging one named object into a namespace. */
  function MergeNamed(target: Node, name: string, source: Node): Node
    requires target.Space?
  {
    if name in target.members then target
    else if name !in target.nested then target.(nested := target.nested[name := source])
    else target.(nested := target.nested[name := Merge(target.nested[name], source)])
  }

  /** The merge as far as the nested objects named in `done` go. */
  ghost function MergeSome(t: Node, s: Node, done: set<string>): Node
    requires t.Space? && s.Space? && done <= s.nested.Keys
  {
    Space(t.kind, t.data, t.members,
      map n | n in t.nested.Keys + (done - t.members.Keys) ::
        if n !in t.nested then s.nested[n]
        else if n in done && n !in t.members then Merge(t.nested[n], s.nested[n])
        else t.nested[n])
  }

  lemma MergeOneMore(t: Node, s: Node, done: set<string>, n: string)
    requires t.Space? && s.Space? && done <= s.nested.Keys && n in s.nested && n !in done
    ensures MergeNamed(MergeSome(t, s, done), n, s.nested[n]) == MergeSome(t, s, done + {n})
  {
    hide Merge;
    var named := MergeNamed(MergeSome(t, s, done), n, s.nested[n]);
    var some := MergeSome(t, s, done + {n});
    assert named.nested.Keys == some.nested.Keys;
    assert forall k :: k in named.nested ==> named.nested[k] == some.nested[k];
  }

  lemma MergeSomeIsMerge(t: Node, s: Node)
    requires t.Space? && s.Space?
    ensures MergeSome(t, s, {}) == t
    ensures MergeSome(t, s, s.nested.Keys) == Merge(t, s)
  {
    assert MergeSome(t, s, {}).nested == t.nested;
    assert MergeSome(t, s, s.nested.Keys).nested == Merge(t, s).nested;
  }

  // --- The merge is a left-biased union of paths ---

  /**
   * The longest part of the path already in the target is a namespace there, which has no member
   * of the next name in the way.
   */
  ghost predicate RoomFor(t: Node, path: seq<string>) {
    exists k :: && 0 <= k < |path| && At(t, path[..k]).Some? && At(t, path[..k + 1]).None?
                && At(t, path[..k]).value.Space? && path[k] !in At(t, path[..k]).value.members
  }

  /** A path through the first name. */
  lemma AtCons(t: Node, path: seq<string>, k: nat)
    requires 0 < k <= |path|
    ensures At(t, path[..k])
         == if t.Space? && path[0] in t.nested then At(t.nested[path[0]], path[1..][..k - 1]) else None
  {
    assert path[..k][1..] == path[1..][..k - 1];
  }

  lemma RoomInside(t: Node, path: seq<string>)
    requires path != [] && t.Space? && path[0] in t.nested
    ensures RoomFor(t, path) <==> RoomFor(t.nested[path[0]], path[1..])
  {
    var inner, rest := t.nested[path[0]], path[1..];
    if RoomFor(t, path) {
      var k :| && 0 <= k < |path| && At(t, path[..k]).Some? && At(t, path[..k + 1]).None?
               && At(t, path[..k]).value.Space? && path[k] !in At(t, path[..k]).value.members;
      AtCons(t, path, k + 1);
      if k == 0 {
        assert false;
      }
      AtCons(t, path, k);
      assert rest[k - 1] == path[k];
      assert At(inner, rest[..k - 1]).Some? && At(inner, rest[..k - 1 + 1]).None?;
    }
    if RoomFor(inner, rest) {
      var k :| && 0 <= k < |rest| && At(inner, rest[..k]).Some? && At(inner, rest[..k + 1]).None?
               && At(inner, rest[..k]).value.Space? && rest[k] !in At(inner, rest[..k]).value.members;
      AtCons(t, path, k + 1);
      AtCons(t, path, k + 2);
      assert path[k + 1] == rest[k];
      assert At(t, path[..k + 1]).Some? && At(t, path[..k + 1 + 1]).None?;
    }
  }

  lemma RoomHere(t: Node, path: seq<string>)
    requires path != [] && !(t.Space? && path[0] in t.nested)
    ensures RoomFor(t, path) <==> t.Space? && path[0] !in t.members
  {
    if RoomFor(t, path) {
      var k :| && 0 <= k < |path| && At(t, path[..k]).Some? && At(t, path[..k + 1]).None?
               && At(t, path[..k]).value.Space? && path[k] !in At(t, path[..k]).value.members;
      if k > 0 {
        AtCons(t, path, k);
      }
    }
    if t.Space? && path[0] !in t.members {
      AtCons(t, path, 1);
      assert At(t, path[..0]).Some? && At(t, path[..0 + 1]).None?;
    }
  }

  /** No member of a namespace has the name of one of its nested objects. */
  ghost predicate MembersApart(t: Node) {
    t.Space? ==>
      && (forall n :: n in t.members ==> n !in t.nested)
      && forall n :: n in t.nested ==> MembersApart(t.nested[n])
  }

  /**
   * Which paths the merge has: those of the target, each with the object it had, and those of the
   * source for which the target has room, each with the source's object; no others.
   */
  lemma {:induction false} MergeIsLeftBiasedUnion(t: Node, s: Node, path: seq<string>)
    requires MembersApart(t)
    ensures Has(Merge(t, s), path) <==> Has(t, path) || (s.Space? && Has(s, path) && RoomFor(t, path))
    ensures Has(t, path) ==> Head(At(Merge(t, s), path).value) == Head(At(t, path).value)
    ensures !Has(t, path) && Has(Merge(t, s), path) ==> At(Merge(t, s), path) == At(s, path)
    decreases |path|
  {
    if path != [] {
      var n := path[0];
      var m := Merge(t, s);
      if t.Space? && n in t.nested {
        RoomInside(t, path);
        if s.Space? && n in s.nested {
          MergeIsLeftBiasedUnion(t.nested[n], s.nested[n], path[1..]);
        }
      } else {
        RoomHere(t, path);
      }
    }
  }

  /** Merging the same tree again changes nothing. */
  lemma {:induction false} MergeTwice(t: Node, s: Node)
    ensures Merge(Merge(t, s), s) == Merge(t, s)
    decreases s
  {
    var once := Merge(t, s);
    if t.Space? && s.Space? {
      var twice := Merge(once, s);
      assert twice.nested.Keys == once.nested.Keys;
      forall n | n in once.nested
        ensures twice.nested[n] == once.nested[n]
      {
        if n in s.nested && n !in t.members {
          if n in t.nested {
            MergeTwice(t.nested[n], s.nested[n]);
          } else {
            MergeSelf(s.nested[n]);
          }
        }
      }
    }
  }

  lemma {:induction false} MergeSelf(t: Node)
    ensures Merge(t, t) == t
  {
    if t.Space? {
      var m := Merge(t, t);
      assert m.nested.Keys == t.nested.Keys;
      forall n | n in t.nested
        ensures m.nested[n] == t.nested[n]
      {
        if n !in t.members {
          MergeSelf(t.nested[n]);
        }
      }
    }
  }

  // --- Growth ---

  /** Every object of `t` is in `t'` at its path, the same apart from what may have been added below. */
  ghost predicate Extends(t: Node, t': Node) {
    forall path :: Has(t, path) ==> Has(t', path) && Head(At(t', path).value) == Head(At(t, path).value)
  }

  lemma {:induction false} MergeExtendsAt(t: Node, s: Node, path: seq<string>)
    requires Has(t, path)
    ensures Has(Merge(t, s), path) && Head(At(Merge(t, s), path).value) == Head(At(t, path).value)
    decreases |path|
  {
    if path != [] && s.Space? && path[0] in s.nested {
      MergeExtendsAt(t.nested[path[0]], s.nested[path[0]], path[1..]);
    }
  }

  lemma MergeExtends(t: Node, s: Node)
    ensures Extends(t, Merge(t, s))
  {
    forall path | Has(t, path)
      ensures Has(Merge(t, s), path) && Head(At(Merge(t, s), path).value) == Head(At(t, path).value)
    {
      MergeExtendsAt(t, s, path);
    }
  }

  // --- Placeholders ---

  /** Namespaces along the path as far as they are missing, and a message at its end, unless something is in the way. */
  function Plant(t: Node, path: seq<string>): Node
    requires t.Space? && path != []
    decreases |path|
  {
    var name := path[0];
    if |path| == 1 then
      if name in t.members || name in t.nested then t
      else t.(nested := t.nested[name := EMPTY_MESSAGE])
    else if name in t.members then t
    else if name !in t.nested then t.(nested := t.nested[name := Plant(EMPTY_NAMESPACE, path[1..])])
    else if t.nested[name].Leaf? then t
    else t.(nested := t.nested[name := Plant(t.nested[name], path[1..])])
  }

  /** Nothing but namespaces on the way, and no member of the last name at its end. */
  predicate NoConflict(t: Node, path: seq<string>)
    requires path != []
    decreases |path|
  {
    && t.Space? && path[0] !in t.members
    && (|path| > 1 && path[0] in t.nested ==> NoConflict(t.nested[path[0]], path[1..]))
  }

  lemma {:induction false} PlantExtendsAt(t: Node, path: seq<string>, other: seq<string>)
    requires t.Space? && path != [] && Has(t, other)
    ensures Has(Plant(t, path), other) && Head(At(Plant(t, path), other).value) == Head(At(t, other).value)
    decreases |path|
  {
    if other != [] && |path| > 1 && path[0] == other[0] && path[0] !in t.members && t.nested[path[0]].Space? {
      PlantExtendsAt(t.nested[path[0]], path[1..], other[1..]);
    }
  }

  /** A placeholder never replaces anything. */
  lemma PlantExtends(t: Node, path: seq<string>)
    requires t.Space? && path != []
    ensures Extends(t, Plant(t, path)) && Plant(t, path).Space?
  {
    forall other | Has(t, other)
      ensures Has(Plant(t, path), other) && Head(At(Plant(t, path), other).value) == Head(At(t, other).value)
    {
      PlantExtendsAt(t, path, other);
    }
  }

  /**
   * What planting adds: if nothing is in the way, the missing namespaces along the path and the empty
   * message at its end; otherwise nothing.
   */
  lemma {:induction false} PlantExactly(t: Node, path: seq<string>, other: seq<string>)
    requires t.Space? && path != [] && MembersApart(t)
    ensures var planted := Plant(t, path);
      && (Has(t, other) ==> Has(planted, other) && Head(At(planted, other).value) == Head(At(t, other).value))
      && (!Has(t, other) ==>
            && (Has(planted, other) <==> NoConflict(t, path) && other <= path)
            && (Has(planted, other) ==>
                  Head(At(planted, other).value) == if other == path then EMPTY_MESSAGE else EMPTY_NAMESPACE))
    decreases |path|
  {
    var name := path[0];
    if Has(t, other) {
      PlantExtendsAt(t, path, other);
    } else {
      assert other != [];
      if other[0] != name {
        assert !(other <= path);
      } else if |path| == 1 {
        PlantedAtEnd(t, path, other);
      } else if name !in t.members {
        assert other <= path <==> other[1..] <= path[1..];
        assert other == path <==> other[1..] == path[1..];
        if name !in t.nested {
          if other[1..] == [] {
            PlantExtendsAt(EMPTY_NAMESPACE, path[1..], []);
          } else {
            NothingInside(EMPTY_NAMESPACE, other[1..]);
            PlantExactly(EMPTY_NAMESPACE, path[1..], other[1..]);
          }
          NothingInTheWay(path[1..]);
        } else if t.nested[name].Space? {
          PlantExactly(t.nested[name], path[1..], other[1..]);
        }
      }
    }
  }

  lemma NothingInside(t: Node, path: seq<string>)
    requires path != [] && t.Space? && t.nested == map[]
    ensures !Has(t, path)
  {
  }

  lemma PlantedAtEnd(t: Node, path: seq<string>, other: seq<string>)
    requires t.Space? && |path| == 1 && other != [] && other[0] == path[0] && !Has(t, other) && MembersApart(t)
    ensures Has(Plant(t, path), other) <==> NoConflict(t, path) && other <= path
    ensures Has(Plant(t, path), other) ==> At(Plant(t, path), other) == Some(EMPTY_MESSAGE) && other == path
  {
    var planted := Plant(t, path);
    if |other| == 1 {
      assert other == path && other[1..] == [];
      assert forall u: Node :: u.Space? && path[0] in u.nested ==> At(u, other) == At(u.nested[path[0]], []);
    } else {
      assert !(other <= path);
      NothingInside(EMPTY_MESSAGE, other[1..]);
    }
  }

  lemma {:induction false} NothingInTheWay(path: seq<string>)
    requires path != []
    ensures NoConflict(EMPTY_NAMESPACE, path)
  {
  }

  /** Planting makes the path exist exactly when nothing is in the way. */
  lemma {:induction false} PlantMakesPathExactly(t: Node, path: seq<string>)
    requires t.Space? && path != [] && MembersApart(t)
    ensures Has(Plant(t, path), path) <==> NoConflict(t, path)
    decreases |path|
  {
    var name := path[0];
    if |path| == 1 {
      PlantAtEnd(t, path, name);
    } else if name !in t.members {
      if name !in t.nested {
        PlantMakesPathExactly(EMPTY_NAMESPACE, path[1..]);
      } else if t.nested[name].Space? {
        PlantMakesPathExactly(t.nested[name], path[1..]);
        assert Has(Plant(t, path), path) <==> Has(Plant(t.nested[name], path[1..]), path[1..]);
      } else {
        assert !Has(t.nested[name], path[1..]);
      }
    }
  }

  lemma PlantAtEnd(t: Node, path: seq<string>, name: string)
    requires t.Space? && path == [name]
    ensures Has(Plant(t, path), path) <==> name in t.nested || name !in t.members
    ensures NoConflict(t, path) <==> name !in t.members
  {
    var planted := Plant(t, path);
    assert path[1..] == [];
    if name in planted.nested {
      assert At(planted.nested[name], path[1..]) == Some(planted.nested[name]);
    }
  }

}
