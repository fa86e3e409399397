/** The same merge on objects: the target tree is changed in place and takes over parts of the source. */
module NamespaceTree {
  import opened NamespaceMerge

  /** An object of the tree; a namespace, message or service when `holds` is set, and otherwise a leaf. */
  class TreeObject {
    const kind: Kind
    const data: string
    const holds: bool
    const members: map<string, string>
    var nested: map<string, TreeObject>
    ghost var repr: set<TreeObject>

    constructor (kind: Kind, data: string, holds: bool, members: map<string, string>)
      ensures fresh(this) && repr == {this} && nested == map[]
      ensures this.kind == kind && this.data == data && this.holds == holds && this.members == members
      ensures Valid()
    {
      this.kind, this.data, this.holds, this.members := kind, data, holds, members;
      nested, repr := map[], {this};
    }

    /** A tree: the objects below different names are disjoint, and none of them is the object itself. */
    ghost predicate Valid()
      reads this, repr
      decreases repr
    {
      && this in repr && (!holds ==> nested == map[])
      && (forall n :: n in nested ==>
            nested[n] in repr && nested[n].repr <= repr && this !in nested[n].repr && nested[n].Valid())
      && forall a, b :: a in nested && b in nested && a != b ==> nested[a].repr !! nested[b].repr
    }

    /** The tree as a value. */
    function Tree(): (t: Node)
      requires Valid()
      reads this, repr
      ensures (t.Space? <==> holds) && t.kind == kind
      decreases repr
    {
      if holds then Space(kind, data, members, map n | n in nested :: nested[n].Tree())
      else Leaf(kind, data)
    }
  }

  method MergeIntoNamespace(target: TreeObject, name: string, source: TreeObject)
    requires target.Valid() && target.holds && source.Valid() && target.repr !! source.repr
    modifies target.repr, source.repr
    ensures target.Valid() && target.repr <= old(target.repr) + old(source.repr)
    ensures target.Tree() == MergeNamed(old(target.Tree()), name, old(source.Tree()))
    decreases source.repr, 2
  {
    hide Merge;
    ghost var t := target.Tree();
    if name in target.members {
      return;
    }
    if name !in target.nested {
      Attach(target, name, source);
      return;
    }
    var existing := target.nested[name];
    if existing.holds && source.holds {
      MergeExisting(target, name, existing, source);
    } else {
      MergeLeaf(t.nested[name], source.Tree());
      assert t.nested[name := t.nested[name]] == t.nested;
    }
  }

  /** Merging into an object that the target holds already. */
  method MergeExisting(target: TreeObject, name: string, existing: TreeObject, source: TreeObject)
    requires target.Valid() && target.holds && source.Valid() && target.repr !! source.repr
    requires name in target.nested && target.nested[name] == existing && existing.holds && source.holds
    modifies existing.repr, source.repr, target`repr
    ensures target.Valid() && target.repr <= old(target.repr) + old(source.repr)
    ensures var t := old(target.Tree());
      target.Tree() == t.(nested := t.nested[name := Merge(t.nested[name], old(source.Tree()))])
    decreases source.repr, 1
  {
    hide Merge, TreeObject.Tree;
    TreeUnfolds(target);
    ghost var t, s := target.Tree(), source.Tree();
    ghost var before := existing.repr + source.repr;
    forall n | n in target.nested && n != name
      ensures target.nested[n].repr !! before
    {
    }
    MergeAll(existing, source);
    target.repr := target.repr + existing.repr;
    forall n | n in target.nested && n != name
      ensures target.nested[n].Valid() && target.nested[n].repr == old(target.nested[n].repr)
      ensures target.nested[n].Tree() == t.nested[n]
    {
    }
    ChildrenMakeTree(target, name, before);
    SameTree(target, t.(nested := t.nested[name := Merge(t.nested[name], s)]));
  }

  /** Replacing one subtree by another one of the same or of taken over objects leaves a tree. */
  lemma ChildrenMakeTree(o: TreeObject, name: string, taken: set<TreeObject>)
    requires o in o.repr && o.holds && name in o.nested && o !in taken
    requires o.nested[name] in o.repr && o.nested[name].repr <= taken && taken * o.nested[name].repr <= o.repr
    requires o.nested[name].Valid()
    requires forall n :: n in o.nested && n != name ==>
      o.nested[n] in o.repr && o.nested[n].repr <= o.repr && o !in o.nested[n].repr && o.nested[n].Valid()
    requires forall n :: n in o.nested && n != name ==> o.nested[n].repr !! taken
    requires forall a, b :: a in o.nested && b in o.nested && a != name && b != name && a != b ==>
      o.nested[a].repr !! o.nested[b].repr
    ensures o.Valid()
  {
  }

  lemma MergeLeaf(t: Node, s: Node)
    requires t.Leaf? || s.Leaf?
    ensures Merge(t, s) == t
  {
  }

  lemma TreeUnfolds(o: TreeObject)
    requires o.Valid() && o.holds
    ensures var t := o.Tree();
      && t.Space? && t.kind == o.kind && t.data == o.data && t.members == o.members
      && t.nested.Keys == o.nested.Keys && forall n :: n in o.nested ==> t.nested[n] == o.nested[n].Tree()
  {
  }

  /** A tree is given by what its object holds itself and by the trees below it. */
  lemma SameTree(o: TreeObject, t: Node)
    requires o.Valid() && o.holds && t.Space? && t.kind == o.kind && t.data == o.data && t.members == o.members
    requires t.nested.Keys == o.nested.Keys && forall n :: n in o.nested ==> o.nested[n].Tree() == t.nested[n]
    ensures o.Tree() == t
  {
    assert o.Tree().nested == t.nested;
  }

  /** Adding an object under a free name. */
  method Attach(target: TreeObject, name: string, source: TreeObject)
    requires target.Valid() && target.holds && source.Valid() && target.repr !! source.repr && name !in target.nested
    modifies target
    ensures target.Valid() && target.repr == old(target.repr) + source.repr
    ensures target.nested == old(target.nested)[name := source]
    ensures var t := old(target.Tree()); target.Tree() == t.(nested := t.nested[name := old(source.Tree())])
  {
    ghost var t, s := target.Tree(), source.Tree();
    ghost var taken := source.repr;
    target.nested := target.nested[name := source];
    target.repr := target.repr + source.repr;
    forall n | n in target.nested && n != name
      ensures target.nested[n].Valid() && target.nested[n].Tree() == t.nested[n]
    {
    }
    ChildrenMakeTree(target, name, taken);
    SameTree(target, t.(nested := t.nested[name := s]));
  }

  /** The nested objects of `source`, one after the other, in whatever order they are listed. */
  method MergeAll(target: TreeObject, source: TreeObject)
    requires target.Valid() && target.holds && source.Valid() && source.holds && target.repr !! source.repr
    modifies target.repr, source.repr
    ensures target.Valid() && target.repr <= old(target.repr) + old(source.repr)
    ensures target.Tree() == Merge(old(target.Tree()), old(source.Tree()))
    decreases source.repr, 0
  {
    hide Merge, MergeSome, MergeNamed, TreeObject.Tree;
    TreeUnfolds(source);
    ghost var t, s := target.Tree(), source.Tree();
    var names := source.nested.Keys;
    MergeSomeIsMerge(t, s);
    assert s.nested.Keys - names == {};
    while names != {}
      invariant names <= source.nested.Keys && source.nested == old(source.nested)
      invariant target.Valid() && target.repr <= old(target.repr) + old(source.repr) && source !in target.repr
      invariant forall n :: n in names ==>
          source.nested[n].Valid() && source.nested[n].repr == old(source.nested[n].repr)
      invariant forall n :: n in names ==> source.nested[n].repr !! target.repr
      invariant forall n :: n in names ==> source.nested[n].Tree() == s.nested[n]
      invariant target.Tree() == MergeSome(t, s, s.nested.Keys - names)
    {
      var n :| n in names;
      MergeIntoNamespace(target, n, source.nested[n]);
      MergeOneMore(t, s, s.nested.Keys - names, n);
      assert s.nested.Keys - (names - {n}) == s.nested.Keys - names + {n};
      names := names - {n};
    }
    assert s.nested.Keys - {} == s.nested.Keys;
  }

  // --- Placeholders ---

  /** Walking down from `current`, adding namespaces where they are missing, and a message at the end. */
  method PlaceAt(current: TreeObject, parts: seq<string>)
    requires current.Valid() && current.holds && parts != []
    modifies current.repr
    ensures current.Valid() && fresh(current.repr - old(current.repr))
    ensures current.Tree() == Plant(old(current.Tree()), parts)
    decreases |parts|, 0
  {
    hide Plant;
    ghost var t := current.Tree();
    PlantUnfolds(t, parts);
    var part := parts[0];
    if part in current.members {
      return;
    }
    if |parts| == 1 {
      if part !in current.nested {
        AddEmpty(current, part, MessageKind);
      }
      return;
    }
    if part !in current.nested {
      AddEmpty(current, part, NamespaceKind);
    }
    if current.nested[part].holds {
      PlaceBelow(current, part, parts[1..]);
    }
  }

  method AddEmpty(current: TreeObject, name: string, kind: Kind)
    requires current.Valid() && current.holds && name !in current.nested
    modifies current
    ensures current.Valid() && fresh(current.repr - old(current.repr))
    ensures name in current.nested && current.nested[name].holds
    ensures var t := old(current.Tree());
      current.Tree() == t.(nested := t.nested[name := Space(kind, "", map[], map[])])
  {
    var empty := new TreeObject(kind, "", true, map[]);
    Attach(current, name, empty);
  }

  lemma PlantUnfolds(t: Node, path: seq<string>)
    requires t.Space? && path != []
    ensures var name := path[0];
      Plant(t, path) ==
        if name in t.members then t
        else if |path| == 1 then if name in t.nested then t else t.(nested := t.nested[name := EMPTY_MESSAGE])
        else if name !in t.nested then t.(nested := t.nested[name := Plant(EMPTY_NAMESPACE, path[1..])])
        else if t.nested[name].Leaf? then t
        else t.(nested := t.nested[name := Plant(t.nested[name], path[1..])])
  {
  }

  method PlaceBelow(current: TreeObject, part: string, rest: seq<string>)
    requires current.Valid() && current.holds && rest != [] && part in current.nested && current.nested[part].holds
    modifies current.repr
    ensures current.Valid() && fresh(current.repr - old(current.repr))
    ensures var t := old(current.Tree());
      current.Tree() == t.(nested := t.nested[part := Plant(t.nested[part], rest)])
    decreases |rest|, 1
  {
    hide Plant, TreeObject.Tree;
    TreeUnfolds(current);
    ghost var t := current.Tree();
    var next := current.nested[part];
    ghost var before := next.repr;
    PlaceAt(next, rest);
    ghost var taken := before + next.repr;
    current.repr := current.repr + next.repr;
    forall n | n in current.nested && n != part
      ensures current.nested[n].Valid() && current.nested[n].Tree() == t.nested[n]
    {
    }
    ChildrenMakeTree(current, part, taken);
    SameTree(current, t.(nested := t.nested[part := Plant(t.nested[part], rest)]));
  }

  /** The object tree that parsing a fetched descriptor gives. */
  method Build(t: Node) returns (o: TreeObject)
    ensures o.Valid() && fresh(o.repr) && o.Tree() == t
    decreases t
  {
    match t
    case Leaf(kind, data) =>
      o := new TreeObject(kind, data, false, map[]);
    case Space(kind, data, members, nested) =>
      o := new TreeObject(kind, data, true, members);
      var names := nested.Keys;
      while names != {}
        invariant names <= nested.Keys && o.Valid() && fresh(o.repr) && o.holds
        invariant o.nested.Keys == nested.Keys - names
        invariant o.Tree() == Space(kind, data, members, nested - names)
      {
        var n :| n in names;
        var below := Build(nested[n]);
        Attach(o, n, below);
        assert nested - (names - {n}) == (nested - names)[n := nested[n]];
        names := names - {n};
      }
      assert nested - {} == nested;
  }
}
