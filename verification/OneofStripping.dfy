/** Removing synthetic oneof fields from a request, in place and at every depth. */
module OneofStripping {

  /** A property value. Dates, numbers, booleans and null are alike here: they are never looked into. */
  datatype Value = Text(text: string) | Scalar | Ref(target: JsonObject) | List(items: seq<Value>)

  type Fields = map<string, Value>

  // --- One object ---

  /** `_x` with the string value `x`, beside a field `x`. */
  predicate Synthetic(fields: Fields, key: string) {
    && key in fields && fields[key].Text? && key == "_" + fields[key].text
    && fields[key].text in fields
  }

  /** The field `x` is echoed: a field `_x` beside it holds its name as text. */
  ghost predicate Echoed(fields: Fields, x: string) {
    "_" + x in fields && fields["_" + x] == Text(x) && x in fields
  }

  ghost predicate Clean(fields: Fields) {
    forall x :: !Echoed(fields, x)
  }

  /** What the code tests a key for is being the echo of another. */
  lemma SyntheticExactly(fields: Fields, key: string)
    ensures Synthetic(fields, key) <==> exists x :: key == "_" + x && Echoed(fields, x)
    ensures forall x :: Echoed(fields, x) ==> Synthetic(fields, "_" + x)
  {
    if Synthetic(fields, key) {
      assert Echoed(fields, fields[key].text);
    }
  }

  function StripKey(fields: Fields, key: string): Fields {
    if Synthetic(fields, key) then fields - {key} else fields
  }

  /** Looking at the keys in this order. */
  function StripKeys(fields: Fields, order: seq<string>): Fields {
    if order == [] then fields else StripKey(StripKeys(fields, order[..|order| - 1]), order[|order| - 1])
  }

  ghost predicate Lists(order: seq<string>, keys: set<string>) {
    && (forall k :: k in order <==> k in keys)
    && forall i, j :: 0 <= i < j < |order| ==> order[i] != order[j]
  }

  /** `after` is what is left of `before` for some order of its keys. */
  ghost predicate Stripped(before: Fields, after: Fields) {
    exists order :: Lists(order, before.Keys) && after == StripKeys(before, order)
  }

  lemma {:induction false} StripKeysShrinks(fields: Fields, order: seq<string>)
    ensures var after := StripKeys(fields, order);
      && (forall k :: k in after ==> k in fields && after[k] == fields[k])
      && (forall k :: k in fields && k !in after ==> k in order && Synthetic(fields, k))
      && (forall k :: k in order && k in after ==> !Synthetic(after, k))
  {
    if order != [] {
      var before, last := order[..|order| - 1], order[|order| - 1];
      assert order == before + [last];
      StripKeysShrinks(fields, before);
      var middle, after := StripKeys(fields, before), StripKeys(fields, order);
      forall k | k in fields && k !in after
        ensures k in order && Synthetic(fields, k)
      {
        if k in middle {
          assert k == last;
        }
      }
    }
  }

  /** Afterwards no synthetic field is left; only synthetic fields are gone, and the rest is unchanged. */
  lemma StrippedIsClean(before: Fields, after: Fields)
    requires Stripped(before, after)
    ensures Clean(after)
    ensures forall k :: k in after ==> k in before && after[k] == before[k]
    ensures forall k :: k in before && k !in after ==> exists x :: k == "_" + x && Echoed(before, x)
  {
    var order :| Lists(order, before.Keys) && after == StripKeys(before, order);
    StripKeysShrinks(before, order);
    hide Synthetic, StripKeys;
    forall x
      ensures !Echoed(after, x)
    {
      SyntheticExactly(after, "_" + x);
    }
    forall k | k in before && k !in after
      ensures exists x :: k == "_" + x && Echoed(before, x)
    {
      SyntheticExactly(before, k);
    }
  }

  /** Stripping what has been stripped removes nothing. */
  lemma StrippedTwice(before: Fields, after: Fields, again: Fields)
    requires Stripped(before, after) && Stripped(after, again)
    ensures again == after
  {
    StrippedIsClean(before, after);
    StrippedIsClean(after, again);
    assert again.Keys == after.Keys;
  }

  // --- When the order of the keys matters ---

  /** No echo is echoed itself. */
  ghost predicate NoChain(fields: Fields) {
    forall x :: !(Echoed(fields, x) && Echoed(fields, "_" + x))
  }

  lemma ChainsAre(fields: Fields, k: string)
    requires NoChain(fields) && Synthetic(fields, k)
    ensures !Synthetic(fields, fields[k].text)
  {
    var text := fields[k].text;
    if Synthetic(fields, text) {
      var x := fields[text].text;
      assert Echoed(fields, x) && Echoed(fields, "_" + x);
    }
  }

  lemma {:induction false} WithoutChains(fields: Fields, order: seq<string>)
    requires NoChain(fields)
    ensures StripKeys(fields, order) == map k | k in fields && !(k in order && Synthetic(fields, k)) :: fields[k]
  {
    if order != [] {
      var before, last := order[..|order| - 1], order[|order| - 1];
      assert order == before + [last];
      WithoutChains(fields, before);
      var middle := StripKeys(fields, before);
      if Synthetic(fields, last) {
        ChainsAre(fields, last);
      }
      assert Synthetic(fields, last) && last in middle ==> Synthetic(middle, last);
      assert Synthetic(middle, last) ==> Synthetic(fields, last);
    }
  }

  /** Every set of keys can be listed after two given ones. */
  lemma ListedAfter(keys: set<string>) returns (order: seq<string>)
    ensures Lists(order, keys)
    decreases |keys|
  {
    if keys == {} {
      order := [];
    } else {
      var k :| k in keys;
      var rest := ListedAfter(keys - {k});
      order := [k] + rest;
    }
  }

  lemma {:induction false} StripKeysAppend(fields: Fields, a: seq<string>, b: seq<string>)
    ensures StripKeys(fields, a + b) == StripKeys(StripKeys(fields, a), b)
  {
    if b == [] {
      assert a + b == a;
    } else {
      StripKeysAppend(fields, a, b[..|b| - 1]);
      assert (a + b)[..|a + b| - 1] == a + b[..|b| - 1];
    }
  }

  /** A chain gives two orders with different results: one removes its first field, the other keeps it. */
  lemma ChainDependsOnOrder(fields: Fields, k: string)
    requires Synthetic(fields, k) && Synthetic(fields, fields[k].text)
    ensures exists a, b ::
              Lists(a, fields.Keys) && Lists(b, fields.Keys) && StripKeys(fields, a) != StripKeys(fields, b)
  {
    var inner := fields[k].text;
    hide Synthetic, StripKey, StripKeys, Lists;
    var rest := ListedAfter(fields.Keys - {k, inner});
    StripTwo(fields, k, inner);
    StripTwo(fields, inner, k);
    var keptOut, kept := StripKeys(fields, [k, inner]), StripKeys(fields, [inner, k]);
    assert {k, inner} == {inner, k};
    AfterTwo(fields, k, inner, rest);
    AfterTwo(fields, inner, k, rest);
    StaysOut(keptOut, rest, k);
    NotYetSeen(kept, rest, k);
    var a, b := [k, inner] + rest, [inner, k] + rest;
    DifferentResults(fields, a, b, k);
  }

  lemma DifferentResults(fields: Fields, a: seq<string>, b: seq<string>, k: string)
    requires Lists(a, fields.Keys) && Lists(b, fields.Keys)
    requires k !in StripKeys(fields, a) && k in StripKeys(fields, b)
    ensures exists a, b ::
              Lists(a, fields.Keys) && Lists(b, fields.Keys) && StripKeys(fields, a) != StripKeys(fields, b)
  {
    assert StripKeys(fields, a) != StripKeys(fields, b);
  }

  lemma StaysOut(fields: Fields, order: seq<string>, key: string)
    requires key !in fields
    ensures key !in StripKeys(fields, order)
  {
    StripKeysShrinks(fields, order);
  }

  lemma AfterTwo(fields: Fields, k: string, l: string, rest: seq<string>)
    requires k in fields && l in fields && k != l && Lists(rest, fields.Keys - {k, l})
    ensures Lists([k, l] + rest, fields.Keys) && k !in rest
    ensures StripKeys(fields, [k, l] + rest) == StripKeys(StripKeys(fields, [k, l]), rest)
  {
    StripKeysAppend(fields, [k, l], rest);
  }

  lemma StripTwo(fields: Fields, k: string, l: string)
    ensures StripKeys(fields, [k, l]) == StripKey(StripKey(fields, k), l)
  {
    assert [k, l] == [k] + [l];
    StripKeysAppend(fields, [k], [l]);
  }

  /** The result is the same for every order of the keys exactly when there is no chain. */
  lemma OrderIrrelevantExactly(fields: Fields)
    ensures (forall a, b :: Lists(a, fields.Keys) && Lists(b, fields.Keys) ==>
        StripKeys(fields, a) == StripKeys(fields, b))
       <==> NoChain(fields)
  {
    if NoChain(fields) {
      forall a, b | Lists(a, fields.Keys) && Lists(b, fields.Keys)
        ensures StripKeys(fields, a) == StripKeys(fields, b)
      {
        WithoutChains(fields, a);
        WithoutChains(fields, b);
      }
    } else {
      var x :| Echoed(fields, x) && Echoed(fields, "_" + x);
      SyntheticExactly(fields, "_" + x);
      SyntheticExactly(fields, "_" + ("_" + x));
      ChainDependsOnOrder(fields, "_" + ("_" + x));
    }
  }

  // --- Objects inside objects ---

  class JsonObject {
    var fields: Fields
    /** Objects are not inside themselves: an object is higher than what it holds. */
    ghost const height: nat
  }

  /** The objects that stripping goes into: property values, and items of property values that are lists. */
  function Children(fields: Fields): set<JsonObject> {
    (set k | k in fields && fields[k].Ref? :: fields[k].target)
    + (set k, v | k in fields && fields[k].List? && v in fields[k].items && v.Ref? :: v.target)
  }

  ghost predicate WellFounded(world: set<JsonObject>)
    reads world
  {
    forall o, c :: o in world && c in Children(o.fields) ==> c in world && c.height < o.height
  }

  /** What stripping goes into does not change by stripping. */
  lemma ChildrenStay(before: Fields, after: Fields)
    requires Stripped(before, after)
    ensures Children(after) == Children(before)
  {
    StrippedIsClean(before, after);
    hide Stripped, Clean;
  }

  ghost function Contents(world: set<JsonObject>): map<JsonObject, Fields>
    reads world
  {
    map o | o in world :: o.fields
  }

  /** The objects of `visited` are stripped, the others are as they were. */
  ghost predicate StrippedWorld(world: set<JsonObject>, visited: set<JsonObject>,
                                before: map<JsonObject, Fields>, after: map<JsonObject, Fields>) {
    && before.Keys == world && after.Keys == world && visited <= world
    && (forall o :: o in visited ==> Stripped(before[o], after[o]))
    && (forall o :: o in world && o !in visited ==> after[o] == before[o])
  }

  /** Visiting more objects, some of them perhaps again. */
  lemma VisitMore(world: set<JsonObject>, visited: set<JsonObject>, more: set<JsonObject>,
                  before: map<JsonObject, Fields>,
                  middle: map<JsonObject, Fields>, after: map<JsonObject, Fields>)
    requires StrippedWorld(world, visited, before, middle) && StrippedWorld(world, more, middle, after)
    ensures StrippedWorld(world, visited + more, before, after)
  {
    hide Stripped;
    forall o | o in visited + more
      ensures Stripped(before[o], after[o])
    {
      if o in visited && o in more {
        StrippedTwice(before[o], middle[o], after[o]);
      }
    }
  }

  /** Every object that is the value of a field, or an item of a list that is the value of a field, is in `w`. */
  ghost predicate HoldsOnly(fields: Fields, w: set<JsonObject>) {
    forall k :: k in fields ==>
      && (fields[k].Ref? ==> fields[k].target in w)
      && (fields[k].List? ==> forall v :: v in fields[k].items && v.Ref? ==> v.target in w)
  }

  /** All of `contents` is what `obj` leads to: nothing smaller holds `obj` and all that it leads to. */
  ghost predicate LedTo(obj: JsonObject, contents: map<JsonObject, Fields>) {
    && obj in contents
    && forall w: set<JsonObject> ::
         (obj in w && w <= contents.Keys && forall o :: o in w ==> HoldsOnly(contents[o], w)) ==> w == contents.Keys
  }

  lemma ChildrenAreHeld(fields: Fields, w: set<JsonObject>)
    ensures Children(fields) <= w <==> HoldsOnly(fields, w)
  {
    if Children(fields) <= w {
      forall k, v | k in fields && fields[k].List? && v in fields[k].items && v.Ref?
        ensures v.target in w
      {
        assert v.target in Children(fields);
      }
    }
  }

  /** A run visits everything its object leads to. */
  lemma EverythingVisited(obj: JsonObject, visited: set<JsonObject>, before: map<JsonObject, Fields>,
                          after: map<JsonObject, Fields>)
    requires LedTo(obj, before) && StrippedWorld(before.Keys, visited, before, after) && obj in visited
    requires forall o :: o in visited ==> Children(after[o]) <= visited
    ensures visited == before.Keys
  {
    forall o | o in visited
      ensures HoldsOnly(before[o], visited)
    {
      ChildrenStay(before[o], after[o]);
      ChildrenAreHeld(before[o], visited);
    }
  }

  /**
   * For every finite structure of objects and lists, whatever the order of the keys: after one run
   * no object holds a synthetic field, and a second run, in any order, deletes nothing anywhere.
   */
  lemma SecondRunDeletesNothing(obj: JsonObject, first: set<JsonObject>, second: set<JsonObject>,
                                before: map<JsonObject, Fields>, middle: map<JsonObject, Fields>,
                                after: map<JsonObject, Fields>)
    requires LedTo(obj, before) && StrippedWorld(before.Keys, first, before, middle) && obj in first
    requires forall o :: o in first ==> Children(middle[o]) <= first
    requires StrippedWorld(before.Keys, second, middle, after)
    ensures forall o :: o in before ==> Clean(middle[o])
    ensures after == middle
  {
    EverythingVisited(obj, first, before, middle);
    forall o | o in before
      ensures Clean(middle[o]) && after[o] == middle[o]
    {
      StrippedIsClean(before[o], middle[o]);
      if o in second {
        StrippedTwice(before[o], middle[o], after[o]);
      }
    }
  }

  /** What one property value leads to. */
  function ChildrenOf(v: Value): set<JsonObject> {
    match v
    case Ref(o) => {o}
    case List(items) => set i | i in items && i.Ref? :: i.target
    case _ => {}
  }

  lemma ChildrenAre(fields: Fields)
    ensures forall k :: k in fields ==> ChildrenOf(fields[k]) <= Children(fields)
    ensures forall c :: c in Children(fields) ==> exists k :: k in fields && c in ChildrenOf(fields[k])
  {
    forall c | c in Children(fields)
      ensures exists k :: k in fields && c in ChildrenOf(fields[k])
    {
      if k :| k in fields && fields[k].Ref? && fields[k].target == c {
        assert c in ChildrenOf(fields[k]);
      } else {
        var k, v :| k in fields && fields[k].List? && v in fields[k].items && v.Ref? && v.target == c;
        assert c in ChildrenOf(fields[k]);
      }
    }
  }

  /** The visited objects are strictly below `obj`, and with each of them all that it holds is visited. */
  ghost predicate Below(visited: set<JsonObject>, height: nat)
    reads visited
  {
    forall o :: o in visited ==> o.height < height && Children(o.fields) <= visited
  }

  /** Leaving one object out of the world that it is not visited in. */
  lemma Restricted(world: set<JsonObject>, obj: JsonObject, visited: set<JsonObject>,
                   before: map<JsonObject, Fields>, after: map<JsonObject, Fields>)
    requires StrippedWorld(world, visited, before, after) && obj !in visited
    ensures StrippedWorld(world - {obj}, visited, before - {obj}, after - {obj})
  {
    hide Stripped;
  }

  /** One more key in the order of looking at them. */
  lemma OneMoreKey(fields: Fields, order: seq<string>, key: string)
    ensures StripKeys(fields, order + [key]) == StripKey(StripKeys(fields, order), key)
  {
    assert (order + [key])[..|order|] == order;
  }

  lemma NothingSeen(fields: Fields)
    ensures StripKeys(fields, []) == fields && Lists([], {})
  {
  }

  lemma ListsMore(order: seq<string>, keys: set<string>, key: string)
    requires Lists(order, keys) && key !in keys
    ensures Lists(order + [key], keys + {key})
  {
  }

  /** A key not looked at yet still has its value. */
  lemma NotYetSeen(fields: Fields, order: seq<string>, key: string)
    requires key in fields && key !in order
    ensures key in StripKeys(fields, order) && StripKeys(fields, order)[key] == fields[key]
  {
    StripKeysShrinks(fields, order);
  }

  /** Taking out a synthetic field leaves every object where it was. */
  lemma ChildrenWithout(fields: Fields, key: string)
    requires Synthetic(fields, key)
    ensures Children(fields - {key}) <= Children(fields) && ChildrenOf(fields[key]) == {}
  {
  }

  /** Once all keys have been looked at, the object is stripped too. */
  lemma AllKeysSeen(world: set<JsonObject>, obj: JsonObject, visited: set<JsonObject>, order: seq<string>,
                    before: map<JsonObject, Fields>, after: map<JsonObject, Fields>)
    requires obj in world && before.Keys == world && after.Keys == world
    requires StrippedWorld(world - {obj}, visited, before - {obj}, after - {obj})
    requires Lists(order, before[obj].Keys) && after[obj] == StripKeys(before[obj], order)
    ensures StrippedWorld(world, visited + {obj}, before, after) && Stripped(before[obj], after[obj])
  {
    assert Stripped(before[obj], after[obj]);
    hide Stripped;
    forall o | o in visited
      ensures Stripped(before[o], after[o])
    {
      assert (before - {obj})[o] == before[o] && (after - {obj})[o] == after[o];
    }
    forall o | o in world && o !in visited + {obj}
      ensures after[o] == before[o]
    {
      assert (before - {obj})[o] == before[o] && (after - {obj})[o] == after[o];
    }
  }

  /** Stripping the objects that a property value leads to. */
  method StripInside(value: Value, ghost height: nat,
                     ghost world: set<JsonObject>) returns (ghost visited: set<JsonObject>)
    requires WellFounded(world) && forall c :: c in ChildrenOf(value) ==> c in world && c.height < height
    modifies world
    ensures StrippedWorld(world, visited, old(Contents(world)), Contents(world))
    ensures Below(visited, height) && ChildrenOf(value) <= visited && WellFounded(world)
    decreases height, 0
  {
    hide Stripped, Children;
    ghost var start := Contents(world);
    visited := {};
    match value {
      case Ref(o) =>
        visited := StripSyntheticOneofFields(o, world);
      case List(items) =>
        for i := 0 to |items|
          invariant WellFounded(world) && Below(visited, height)
          invariant StrippedWorld(world, visited, start, Contents(world))
          invariant forall j :: 0 <= j < i && items[j].Ref? ==> items[j].target in visited
        {
          if items[i].Ref? {
            assert items[i].target in ChildrenOf(value);
            ghost var middle := Contents(world);
            ghost var more := StripSyntheticOneofFields(items[i].target, world);
            VisitMore(world, visited, more, start, middle, Contents(world));
            BelowBoth(world, visited, more, height, middle, Contents(world));
            visited := visited + more;
          }
        }
      case _ =>
    }
  }

  /** What was visited before stays below, since objects keep what they hold. */
  lemma BelowBoth(world: set<JsonObject>, visited: set<JsonObject>, more: set<JsonObject>, height: nat,
                  middle: map<JsonObject, Fields>, after: map<JsonObject, Fields>)
    requires StrippedWorld(world, more, middle, after) && after == Contents(world)
    requires visited <= world && Below(more, height)
    requires forall o :: o in visited ==> o.height < height && Children(middle[o]) <= visited
    ensures Below(visited + more, height)
  {
    hide Stripped, Children;
    forall o | o in visited
      ensures Children(o.fields) == Children(middle[o]) || o in more
    {
      if o !in more {
        assert after[o] == middle[o];
      }
    }
  }

  /**
   * Stripping an object and all it leads to, for whatever order in which the keys are listed. The
   * object may hold the same object more than once.
   */
  method StripSyntheticOneofFields(obj: JsonObject,
                                   ghost world: set<JsonObject>) returns (ghost visited: set<JsonObject>)
    requires obj in world && WellFounded(world)
    modifies world
    ensures StrippedWorld(world, visited, old(Contents(world)), Contents(world))
    ensures obj in visited && Below(visited, obj.height + 1) && WellFounded(world)
    decreases obj.height, 2
  {
    hide InProgress, Stripped, Children, StrippedWorld, Below, WellFounded, Synthetic;
    ghost var start := Contents(world);
    ghost var order: seq<string> := [];
    var remaining := obj.fields.Keys;
    visited := {};
    Starting(world, obj, start);
    while remaining != {}
      invariant remaining <= start[obj].Keys
      invariant InProgress(world, obj, visited, order, remaining, start)
      decreases |remaining|
    {
      var key :| key in remaining;
      NextKey(world, obj, visited, order, remaining, start, key);
      visited := VisitKey(obj, key, world, visited, order, remaining, start);
      remaining := remaining - {key};
      order := order + [key];
    }
    Finishing(world, obj, visited, order, start);
    visited := visited + {obj};
  }

  /**
   * Half way through the keys of `obj`: those not in `remaining` have been looked at, in `order`,
   * and what they lead to has been visited.
   */
  ghost predicate InProgress(world: set<JsonObject>, obj: JsonObject, visited: set<JsonObject>, order: seq<string>,
                             remaining: set<string>, start: map<JsonObject, Fields>)
    reads world, obj, visited
  {
    && obj in world && start.Keys == world && remaining <= start[obj].Keys
    && Lists(order, start[obj].Keys - remaining)
    && obj.fields == StripKeys(start[obj], order) && WellFounded(world)
    && StrippedWorld(world - {obj}, visited, start - {obj}, Contents(world) - {obj}) && Below(visited, obj.height)
    && forall k :: k in start[obj] && k !in remaining ==> ChildrenOf(start[obj][k]) <= visited
  }

  lemma Starting(world: set<JsonObject>, obj: JsonObject, start: map<JsonObject, Fields>)
    requires obj in world && WellFounded(world) && start == Contents(world)
    ensures InProgress(world, obj, {}, [], obj.fields.Keys, start)
  {
    NothingSeen(obj.fields);
    assert start[obj].Keys - obj.fields.Keys == {};
  }

  lemma Finishing(world: set<JsonObject>, obj: JsonObject, visited: set<JsonObject>, order: seq<string>,
                  start: map<JsonObject, Fields>)
    requires InProgress(world, obj, visited, order, {}, start)
    ensures StrippedWorld(world, visited + {obj}, start, Contents(world))
    ensures Below(visited + {obj}, obj.height + 1) && WellFounded(world)
  {
    hide Stripped, Children, ChildrenOf;
    assert start[obj].Keys - {} == start[obj].Keys;
    AllKeysSeen(world, obj, visited, order, start, Contents(world));
    ChildrenStay(start[obj], obj.fields);
    ChildrenAre(start[obj]);
  }

  /** A key still to be looked at has the value it had, and what that holds is lower. */
  lemma NextKey(world: set<JsonObject>, obj: JsonObject, visited: set<JsonObject>, order: seq<string>,
                remaining: set<string>, start: map<JsonObject, Fields>, key: string)
    requires InProgress(world, obj, visited, order, remaining, start) && key in remaining
    ensures key !in order && key in obj.fields && obj.fields[key] == start[obj][key]
    ensures forall c :: c in ChildrenOf(obj.fields[key]) ==> c in world && c.height < obj.height
  {
    NotYetSeen(start[obj], order, key);
    ChildrenAre(obj.fields);
  }

  /** Looking at one key: removing it, or going into its value. */
  method VisitKey(obj: JsonObject, key: string, ghost world: set<JsonObject>, ghost visited: set<JsonObject>,
                  ghost order: seq<string>, ghost remaining: set<string>, ghost start: map<JsonObject, Fields>)
    returns (ghost visitedNow: set<JsonObject>)
    requires InProgress(world, obj, visited, order, remaining, start) && key in remaining && key in obj.fields
    modifies world
    ensures InProgress(world, obj, visitedNow, order + [key], remaining - {key}, start)
    decreases obj.height, 1
  {
    hide Synthetic, Stripped, Children, StripKeys, Lists, ChildrenOf;
    ghost var fields := start[obj];
    NextKey(world, obj, visited, order, remaining, start, key);
    OneMoreKey(fields, order, key);
    ListsMore(order, fields.Keys - remaining, key);
    assert fields.Keys - (remaining - {key}) == fields.Keys - remaining + {key};
    var value := obj.fields[key];
    if Synthetic(obj.fields, key) {
      ChildrenWithout(obj.fields, key);
      obj.fields := obj.fields - {key};
      visitedNow := visited;
    } else {
      ghost var middle := Contents(world);
      ghost var more := StripInside(value, obj.height, world);
      Restricted(world, obj, more, middle, Contents(world));
      VisitMore(world - {obj}, visited, more, start - {obj}, middle - {obj}, Contents(world) - {obj});
      BelowBoth(world, visited, more, obj.height, middle, Contents(world));
      visitedNow := visited + more;
    }
  }
}
