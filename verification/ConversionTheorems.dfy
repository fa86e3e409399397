/**
 * What request conversion achieves: where the treatment of a value is the one its field means,
 * nothing is left to convert and bodies shown with names and strings are recovered; and exactly
 * where it is not.
 */
module ConversionTheorems {
  import opened Wrappers
  import opened ProtoTypes
  import opened EnumConversion
  import Text

  // --- How values are meant, and how they are treated ---

  /** The way to convert a value: as a scalar, as an enum, as a message, or each part of it in some way. */
  datatype Way =
    | Untouched
    | AsScalar(ty: string)
    | AsEnum(enum: Enum)
    | AsMessage(message: Message)
    | EachItem(item: Way)
    | EachEntry(entry: Way)

  /** The way of a single value of the field's type. */
  function Single(c: Context, m: Message, f: Field): Way {
    if IsBuiltin(f.ty) then AsScalar(f.ty)
    else
      match TargetOf(c, m, f)
      case None => Untouched
      case Some(ToEnum(e)) => AsEnum(e)
      case Some(ToMessage(inner)) => AsMessage(inner)
  }

  /** What the declaration of a field means: a map is converted entry by entry, a list item by item. */
  function Meant(c: Context, m: Message, f: Field): Way {
    if f.keyType.Some? then EachEntry(Single(c, m, f))
    else if f.repeated then EachItem(Single(c, m, f))
    else Single(c, m, f)
  }

  /** What the code does: it looks into lists of enums and messages, not into lists of scalars and not into maps. */
  function Treated(c: Context, m: Message, f: Field): Way {
    if f.repeated && !IsBuiltin(f.ty) then EachItem(Single(c, m, f)) else Single(c, m, f)
  }

  /** The way of what a list, or else an object, holds under a key when it is itself converted in way `w`. */
  function Under(c: Context, w: Way, list: bool, key: string, meant: bool): Way {
    match w
    case AsMessage(m) =>
      (match FindField(m.fields, key)
       case None => Untouched
       case Some(f) => if meant then Meant(c, m, f) else Treated(c, m, f))
    case EachItem(x) => if list then x else Under(c, x, list, key, meant)
    case EachEntry(x) => if list then Under(c, x, list, key, meant) else x
    case _ => Untouched
  }

  /** The enum declares the name with this number; of several declarations the last one counts. */
  ghost predicate Names(e: Enum, name: string, n: int) {
    exists i :: && 0 <= i < |e.values| && e.values[i] == (name, n)
                && forall j :: i < j < |e.values| ==> e.values[j].0 != name
  }

  /** A scalar type that is neither text nor bytes nor a boolean. */
  predicate HoldsNumber(ty: string) {
    IsBuiltin(ty) && ty != "bool" && ty != "string" && ty != "bytes"
  }

  /** A string that stands for something else in this way. */
  ghost predicate Reads(c: Context, w: Way, s: string) {
    match w
    case AsScalar(ty) => ty == "bool" || (HoldsNumber(ty) && c.toNumber(s).Some?)
    case AsEnum(e) => exists n :: Names(e, s, n)
    case EachItem(x) => Reads(c, x, s)
    case EachEntry(x) => Reads(c, x, s)
    case _ => false
  }

  /** What the string stands for: itself, unless it reads as a boolean, a number or a declared name. */
  ghost function ReadAs(c: Context, w: Way, s: string): Body {
    match w
    case AsScalar(ty) =>
      if ty == "bool" then Bool(s == "true" || s == "1")
      else if HoldsNumber(ty) && c.toNumber(s).Some? then Num(c.toNumber(s).value)
      else Str(s)
    case AsEnum(e) =>
      if exists n :: Names(e, s, n) then
        var n :| Names(e, s, n);
        Num(Finite(n as real))
      else Str(s)
    case EachItem(x) => ReadAs(c, x, s)
    case EachEntry(x) => ReadAs(c, x, s)
    case _ => Str(s)
  }

  // --- Reading one string ---

  lemma NamesOnce(e: Enum, name: string, n: int, k: int)
    requires Names(e, name, n) && Names(e, name, k)
    ensures n == k
  {
  }

  lemma {:induction false} FoundAt(values: seq<(string, int)>, name: string) returns (i: nat)
    requires FindValue(values, name).Some?
    ensures i < |values| && values[i] == (name, FindValue(values, name).value)
    ensures forall j :: i < j < |values| ==> values[j].0 != name
  {
    var k: nat := |values| - 1;
    if values[k].0 == name {
      i := k;
    } else {
      i := FoundAt(values[..k], name);
    }
  }

  lemma {:induction false} NotFoundAnywhere(values: seq<(string, int)>, name: string)
    requires FindValue(values, name).None?
    ensures forall i :: 0 <= i < |values| ==> values[i].0 != name
  {
    if values != [] {
      NotFoundAnywhere(values[..|values| - 1], name);
    }
  }

  lemma FoundIsNamed(e: Enum, name: string)
    ensures FindValue(e.values, name).Some? <==> exists n :: Names(e, name, n)
    ensures FindValue(e.values, name).Some? ==> Names(e, name, FindValue(e.values, name).value)
  {
    hide FindValue;
    if FindValue(e.values, name).Some? {
      var i := FoundAt(e.values, name);
      assert Names(e, name, FindValue(e.values, name).value);
    } else {
      NotFoundAnywhere(e.values, name);
    }
  }

  /** What the code makes of a string is what it reads as. */
  lemma StringConverted(c: Context, s: string)
    ensures forall ty :: IsBuiltin(ty) ==> CoerceScalar(c, ty, s) == ReadAs(c, AsScalar(ty), s)
    ensures forall e: Enum :: ConvertSingle(e, Str(s)) == ReadAs(c, AsEnum(e), s)
    ensures forall e: Enum :: FindValue(e.values, s).Some? <==> exists n :: Names(e, s, n)
  {
    forall e: Enum
      ensures ConvertSingle(e, Str(s)) == ReadAs(c, AsEnum(e), s)
      ensures FindValue(e.values, s).Some? <==> exists n :: Names(e, s, n)
    {
      FoundIsNamed(e, s);
      if FindValue(e.values, s).Some? {
        var n := FindValue(e.values, s).value;
        assert Names(e, s, n);
        var k :| Names(e, s, k);
        NamesOnce(e, s, n, k);
      }
    }
  }

  /** A value of an enum, converted: a string is read, anything else stays. */
  lemma SingleConverted(c: Context, e: Enum, v: Body)
    ensures ConvertSingle(e, v) == if v.Str? then ReadAs(c, AsEnum(e), v.text) else v
  {
    if v.Str? {
      StringConverted(c, v.text);
    }
  }

  /** A name that is declared becomes its number, wherever an enum is converted; any other string stays. */
  lemma EnumNameConvertedExactly(c: Context, m: Message, f: Field, e: Enum, s: string)
    requires !IsBuiltin(f.ty) && TargetOf(c, m, f) == Some(ToEnum(e))
    ensures forall n :: Names(e, s, n) ==> ConvertValue(c, m, f, Str(s)) == Num(Finite(n as real))
    ensures (forall n :: !Names(e, s, n)) ==> ConvertValue(c, m, f, Str(s)) == Str(s)
    ensures (forall i, j :: 0 <= i < j < |e.values| ==> e.values[i].0 != e.values[j].0) ==>
              forall n :: (s, n) in e.values ==> ConvertValue(c, m, f, Str(s)) == Num(Finite(n as real))
  {
    StringConverted(c, s);
    forall n | Names(e, s, n)
      ensures ConvertSingle(e, Str(s)) == Num(Finite(n as real))
    {
      var k :| Names(e, s, k) && ReadAs(c, AsEnum(e), s) == Num(Finite(k as real));
      NamesOnce(e, s, n, k);
    }
    if forall i, j :: 0 <= i < j < |e.values| ==> e.values[i].0 != e.values[j].0 {
      forall n | (s, n) in e.values
        ensures Names(e, s, n)
      {
        var i :| 0 <= i < |e.values| && e.values[i] == (s, n);
      }
    }
  }

  // --- When conversion is complete ---

  /** No string that its place means to be converted is left, at any depth, in lists and maps too. */
  ghost predicate Converted(c: Context, w: Way, b: Body)
    decreases b
  {
    match b
    case Str(s) => !Reads(c, w, s)
    case Obj(props) => forall k :: k in props ==> Converted(c, Under(c, w, false, k, true), props[k])
    case Arr(items) =>
      forall i :: 0 <= i < |items| ==> Converted(c, Under(c, w, true, Text.Decimal(i), true), items[i])
    case _ => true
  }

  /**
   * Every string of the body that its place means to be converted (way `w`) is at a place that the
   * code converts (way `t`). A list where a message is expected becomes an object keyed by position.
   */
  ghost predicate Ready(c: Context, w: Way, t: Way, b: Body)
    decreases b
  {
    match b
    case Str(s) => Reads(c, w, s) ==> Reads(c, t, s)
    case Obj(props) =>
      forall k :: k in props ==> Ready(c, Under(c, w, false, k, true), Under(c, t, false, k, false), props[k])
    case Arr(items) =>
      if t.AsMessage? then
        var props := Properties(b).value;
        forall k :: k in props ==> Ready(c, Under(c, w, false, k, true), Under(c, t, false, k, false), props[k])
      else
        forall i :: 0 <= i < |items| ==>
          var k := Text.Decimal(i);
          Ready(c, Under(c, w, true, k, true), Under(c, t, true, k, false), items[i])
    case _ => true
  }

  lemma {:induction false} UntouchedIsConverted(c: Context, w: Way, v: Body)
    ensures Converted(c, w, v) <==> Ready(c, w, Untouched, v)
    decreases v
  {
    match v
    case Obj(props) =>
      forall k | k in props
        ensures var u := Under(c, w, false, k, true);
          Converted(c, u, props[k]) <==> Ready(c, u, Untouched, props[k])
      {
        UntouchedIsConverted(c, Under(c, w, false, k, true), props[k]);
      }
    case Arr(items) =>
      forall i | 0 <= i < |items|
        ensures var u := Under(c, w, true, Text.Decimal(i), true);
          Converted(c, u, items[i]) <==> Ready(c, u, Untouched, items[i])
      {
        UntouchedIsConverted(c, Under(c, w, true, Text.Decimal(i), true), items[i]);
      }
    case _ =>
  }

  lemma LeafConverted(c: Context, w: Way, t: Way, v: Body)
    requires (t.AsScalar? || t.AsEnum?)
    ensures var r := if v.Str? then ReadAs(c, t, v.text) else v;
      Converted(c, w, r) <==> Ready(c, w, t, v)
  {
    if !v.Str? {
      UntouchedIsConverted(c, w, v);
    }
  }

  lemma {:induction false} BodyConverted(c: Context, w: Way, m: Message, b: Body)
    ensures Converted(c, w, Convert(c, m, b)) <==> Ready(c, w, AsMessage(m), b)
    decreases b, 0
  {
    if Properties(b).Some? {
      var props := Properties(b).value;
      forall k | k in props
        ensures Converted(c, Under(c, w, false, k, true), ConvertKey(c, m, k, props[k]))
           <==> Ready(c, Under(c, w, false, k, true), Under(c, AsMessage(m), false, k, false), props[k])
      {
        KeyConverted(c, Under(c, w, false, k, true), m, k, props[k]);
      }
    }
  }

  lemma {:induction false} KeyConverted(c: Context, w: Way, m: Message, key: string, v: Body)
    ensures Converted(c, w, ConvertKey(c, m, key, v)) <==> Ready(c, w, Under(c, AsMessage(m), false, key, false), v)
    decreases v, 2
  {
    match FindField(m.fields, key)
    case None => UntouchedIsConverted(c, w, v);
    case Some(f) => ValueConverted(c, w, m, f, v);
  }

  lemma {:induction false} MessageItemsConverted(c: Context, w: Way, inner: Message, v: Body)
    requires v.Arr?
    ensures Converted(c, w, Arr(seq(|v.items|, i requires 0 <= i < |v.items| => Convert(c, inner, v.items[i]))))
       <==> Ready(c, w, EachItem(AsMessage(inner)), v)
    decreases v, 0
  {
    hide Convert;
    forall i | 0 <= i < |v.items|
      ensures var u := Under(c, w, true, Text.Decimal(i), true);
        Converted(c, u, Convert(c, inner, v.items[i])) <==> Ready(c, u, AsMessage(inner), v.items[i])
    {
      BodyConverted(c, Under(c, w, true, Text.Decimal(i), true), inner, v.items[i]);
    }
  }

  lemma EnumItemsConverted(c: Context, w: Way, e: Enum, v: Body)
    requires v.Arr?
    ensures Converted(c, w, Arr(seq(|v.items|, i requires 0 <= i < |v.items| => ConvertSingle(e, v.items[i]))))
       <==> Ready(c, w, EachItem(AsEnum(e)), v)
  {
    forall i | 0 <= i < |v.items|
      ensures var u := Under(c, w, true, Text.Decimal(i), true);
        Converted(c, u, ConvertSingle(e, v.items[i])) <==> Ready(c, u, AsEnum(e), v.items[i])
    {
      SingleConverted(c, e, v.items[i]);
      LeafConverted(c, Under(c, w, true, Text.Decimal(i), true), AsEnum(e), v.items[i]);
    }
  }

  lemma {:induction false} ValueConverted(c: Context, w: Way, m: Message, f: Field, v: Body)
    ensures Converted(c, w, ConvertValue(c, m, f, v)) <==> Ready(c, w, Treated(c, m, f), v)
    decreases v, 1
  {
    hide CoerceScalar, ReadAs, Reads, Names, FindValue, IsBuiltin, Convert, ConvertSingle;
    if v == Null {
    } else if IsBuiltin(f.ty) {
      if v.Str? {
        StringConverted(c, v.text);
      }
      LeafConverted(c, w, AsScalar(f.ty), v);
    } else {
      match TargetOf(c, m, f)
      case None =>
        if f.repeated {
          UntouchedItems(c, w, v);
        }
        UntouchedIsConverted(c, w, v);
      case Some(ToEnum(e)) =>
        if f.repeated && v.Arr? {
          EnumItemsConverted(c, w, e, v);
        } else {
          SingleConverted(c, e, v);
          LeafConverted(c, w, AsEnum(e), v);
          if f.repeated {
            NoItems(c, w, AsEnum(e), v);
          }
        }
      case Some(ToMessage(inner)) =>
        if f.repeated && v.Arr? {
          MessageItemsConverted(c, w, inner, v);
        } else {
          BodyConverted(c, w, inner, v);
          if f.repeated {
            NoItems(c, w, AsMessage(inner), v);
          }
        }
    }
  }

  /** Of a value that is no list, the items are treated like the value. */
  lemma NoItems(c: Context, w: Way, t: Way, v: Body)
    requires !v.Arr?
    ensures Ready(c, w, EachItem(t), v) <==> Ready(c, w, t, v)
  {
  }

  lemma UntouchedItems(c: Context, w: Way, v: Body)
    ensures Ready(c, w, EachItem(Untouched), v) <==> Ready(c, w, Untouched, v)
  {
  }

  /**
   * Conversion is complete exactly when every string of the body that is meant to be converted
   * stands where the code converts: not in a list of scalars and not inside a map.
   */
  lemma CompleteExactly(c: Context, m: Message, b: Body)
    ensures Converted(c, AsMessage(m), Convert(c, m, b)) <==> Ready(c, AsMessage(m), AsMessage(m), b)
  {
    BodyConverted(c, AsMessage(m), m, b);
  }

  // --- When conversion does what is meant ---

  /** The body with every string converted that its place means to be, in lists and maps too. */
  ghost function MeantForm(c: Context, w: Way, b: Body): Body
    decreases b
  {
    match b
    case Str(s) => ReadAs(c, w, s)
    case Obj(props) => Obj(map k | k in props :: MeantForm(c, Under(c, w, false, k, true), props[k]))
    case Arr(items) =>
      Arr(seq(|items|, i requires 0 <= i < |items| => MeantForm(c, Under(c, w, true, Text.Decimal(i), true), items[i])))
    case _ => b
  }

  /** Every string of the body is treated (way `t`) as it is meant (way `w`), and no list stands for a message. */
  ghost predicate Alike(c: Context, w: Way, t: Way, b: Body)
    decreases b
  {
    match b
    case Str(s) => ReadAs(c, w, s) == ReadAs(c, t, s)
    case Obj(props) =>
      forall k :: k in props ==> Alike(c, Under(c, w, false, k, true), Under(c, t, false, k, false), props[k])
    case Arr(items) =>
      && !t.AsMessage?
      && forall i :: 0 <= i < |items| ==>
           var k := Text.Decimal(i);
           Alike(c, Under(c, w, true, k, true), Under(c, t, true, k, false), items[i])
    case _ => true
  }

  lemma {:induction false} UntouchedAsMeant(c: Context, w: Way, v: Body)
    ensures v == MeantForm(c, w, v) <==> Alike(c, w, Untouched, v)
    decreases v
  {
    match v
    case Obj(props) =>
      forall k | k in props
        ensures props[k] == MeantForm(c, Under(c, w, false, k, true), props[k])
           <==> Alike(c, Under(c, w, false, k, true), Untouched, props[k])
      {
        UntouchedAsMeant(c, Under(c, w, false, k, true), props[k]);
      }
      SameProps(props, MeantForm(c, w, v).props);
    case Arr(items) =>
      forall i | 0 <= i < |items|
        ensures var u := Under(c, w, true, Text.Decimal(i), true);
          items[i] == MeantForm(c, u, items[i]) <==> Alike(c, u, Untouched, items[i])
      {
        UntouchedAsMeant(c, Under(c, w, true, Text.Decimal(i), true), items[i]);
      }
      SameItems(items, MeantForm(c, w, v).items);
    case _ =>
  }

  lemma SameProps(a: map<string, Body>, b: map<string, Body>)
    requires a.Keys == b.Keys
    ensures Obj(a) == Obj(b) <==> forall k :: k in a ==> a[k] == b[k]
  {
    if forall k :: k in a ==> a[k] == b[k] {
      assert a == b;
    }
  }

  lemma SameItems(a: seq<Body>, b: seq<Body>)
    requires |a| == |b|
    ensures Arr(a) == Arr(b) <==> forall i :: 0 <= i < |a| ==> a[i] == b[i]
  {
    if forall i :: 0 <= i < |a| ==> a[i] == b[i] {
      assert a == b;
    }
  }

  lemma LeafAsMeant(c: Context, w: Way, t: Way, v: Body)
    requires t.AsScalar? || t.AsEnum?
    ensures var r := if v.Str? then ReadAs(c, t, v.text) else v;
      r == MeantForm(c, w, v) <==> Alike(c, w, t, v)
  {
    if !v.Str? {
      UntouchedAsMeant(c, w, v);
    }
  }

  lemma {:induction false} BodyAsMeant(c: Context, w: Way, m: Message, b: Body)
    ensures Convert(c, m, b) == MeantForm(c, w, b) <==> Alike(c, w, AsMessage(m), b)
    decreases b, 0
  {
    if b.Obj? {
      forall k | k in b.props
        ensures ConvertKey(c, m, k, b.props[k]) == MeantForm(c, Under(c, w, false, k, true), b.props[k])
           <==> Alike(c, Under(c, w, false, k, true), Under(c, AsMessage(m), false, k, false), b.props[k])
      {
        KeyAsMeant(c, Under(c, w, false, k, true), m, k, b.props[k]);
      }
      var x, y := Convert(c, m, b), MeantForm(c, w, b);
      assert x == Obj(x.props) && y == Obj(y.props);
      assert forall k :: k in b.props ==> x.props[k] == ConvertKey(c, m, k, b.props[k]);
      SameProps(x.props, y.props);
    } else if b.Arr? {
      assert Convert(c, m, b).Obj? && MeantForm(c, w, b).Arr?;
    }
  }

  lemma {:induction false} KeyAsMeant(c: Context, w: Way, m: Message, key: string, v: Body)
    ensures ConvertKey(c, m, key, v) == MeantForm(c, w, v)
        <==> Alike(c, w, Under(c, AsMessage(m), false, key, false), v)
    decreases v, 2
  {
    match FindField(m.fields, key)
    case None => UntouchedAsMeant(c, w, v);
    case Some(f) => ValueAsMeant(c, w, m, f, v);
  }

  lemma {:induction false} ValueAsMeant(c: Context, w: Way, m: Message, f: Field, v: Body)
    ensures ConvertValue(c, m, f, v) == MeantForm(c, w, v) <==> Alike(c, w, Treated(c, m, f), v)
    decreases v, 1
  {
    if v == Null {
    } else if IsBuiltin(f.ty) {
      LeafAsMeant(c, w, AsScalar(f.ty), v);
    } else {
      match TargetOf(c, m, f)
      case None =>
        if f.repeated {
          UntouchedItemsAlike(c, w, v);
        }
        UntouchedAsMeant(c, w, v);
      case Some(ToEnum(e)) =>
        if f.repeated && v.Arr? {
          ItemsAsMeant(c, w, m, f, v);
        } else {
          SingleConverted(c, e, v);
          LeafAsMeant(c, w, AsEnum(e), v);
          if f.repeated {
            NoItemsAlike(c, w, AsEnum(e), v);
          }
        }
      case Some(ToMessage(inner)) =>
        if f.repeated && v.Arr? {
          ItemsAsMeant(c, w, m, f, v);
        } else {
          BodyAsMeant(c, w, inner, v);
          if f.repeated {
            NoItemsAlike(c, w, AsMessage(inner), v);
          }
        }
    }
  }

  /** The items of a list of enums or messages. */
  lemma {:induction false} ItemsAsMeant(c: Context, w: Way, m: Message, f: Field, v: Body)
    requires v.Arr? && f.repeated && !IsBuiltin(f.ty) && TargetOf(c, m, f).Some?
    ensures ConvertValue(c, m, f, v) == MeantForm(c, w, v) <==> Alike(c, w, Treated(c, m, f), v)
    decreases v, 0
  {
    var r := ConvertValue(c, m, f, v);
    forall i | 0 <= i < |v.items|
      ensures var u := Under(c, w, true, Text.Decimal(i), true);
        r.items[i] == MeantForm(c, u, v.items[i]) <==> Alike(c, u, Single(c, m, f), v.items[i])
    {
      var u := Under(c, w, true, Text.Decimal(i), true);
      match TargetOf(c, m, f)
      case Some(ToEnum(e)) =>
        SingleConverted(c, e, v.items[i]);
        LeafAsMeant(c, u, AsEnum(e), v.items[i]);
      case Some(ToMessage(inner)) => BodyAsMeant(c, u, inner, v.items[i]);
    }
    SameItems(r.items, MeantForm(c, w, v).items);
    assert MeantForm(c, w, v) == Arr(MeantForm(c, w, v).items) && r == Arr(r.items);
  }

  lemma NoItemsAlike(c: Context, w: Way, t: Way, v: Body)
    requires !v.Arr?
    ensures Alike(c, w, EachItem(t), v) <==> Alike(c, w, t, v)
  {
  }

  lemma UntouchedItemsAlike(c: Context, w: Way, v: Body)
    ensures Alike(c, w, EachItem(Untouched), v) <==> Alike(c, w, Untouched, v)
  {
  }

  /** The code computes what is meant exactly for the bodies whose strings are all treated as they are meant. */
  lemma ConvertsAsMeantExactly(c: Context, m: Message, b: Body)
    ensures Convert(c, m, b) == MeantForm(c, AsMessage(m), b) <==> Alike(c, AsMessage(m), AsMessage(m), b)
  {
    BodyAsMeant(c, AsMessage(m), m, b);
  }

  /** With no map and no list of scalars in the types, conversion is complete for every body. */
  predicate PlainMessage(m: Message) {
    forall f :: f in m.fields ==> f.keyType.None? && !(f.repeated && IsBuiltin(f.ty))
  }

  ghost predicate PlainTypes(c: Context, w: Way) {
    && (forall t :: t in c.targets && c.targets[t].ToMessage? ==> PlainMessage(c.targets[t].message))
    && match w
       case AsMessage(m) => PlainMessage(m)
       case EachItem(x) => PlainTypes(c, x)
       case EachEntry(_) => false
       case _ => true
  }

  lemma {:induction false} PlainTypesAreReady(c: Context, w: Way, b: Body)
    requires PlainTypes(c, w)
    ensures Ready(c, w, w, b)
    decreases b
  {
    match b
    case Obj(props) =>
      forall k | k in props
        ensures Ready(c, Under(c, w, false, k, true), Under(c, w, false, k, false), props[k])
      {
        PlainUnder(c, w, false, k);
        PlainTypesAreReady(c, Under(c, w, false, k, true), props[k]);
      }
    case Arr(items) =>
      if w.AsMessage? {
        var props := Properties(b).value;
        forall k | k in props
          ensures Ready(c, Under(c, w, false, k, true), Under(c, w, false, k, false), props[k])
        {
          PlainUnder(c, w, false, k);
          PlainTypesAreReady(c, Under(c, w, false, k, true), props[k]);
        }
      } else {
        forall i | 0 <= i < |items|
          ensures var k := Text.Decimal(i); Ready(c, Under(c, w, true, k, true), Under(c, w, true, k, false), items[i])
        {
          PlainUnder(c, w, true, Text.Decimal(i));
          PlainTypesAreReady(c, Under(c, w, true, Text.Decimal(i), true), items[i]);
        }
      }
    case _ =>
  }

  /** In plain types every field is treated as it is meant. */
  lemma {:induction false} PlainUnder(c: Context, w: Way, list: bool, key: string)
    requires PlainTypes(c, w)
    ensures Under(c, w, list, key, true) == Under(c, w, list, key, false)
    ensures PlainTypes(c, Under(c, w, list, key, true))
    decreases w
  {
    match w
    case AsMessage(m) =>
      if FindField(m.fields, key).Some? {
        FoundInFields(m.fields, key);
      }
    case EachItem(x) =>
      if !list {
        PlainUnder(c, x, list, key);
      }
    case _ =>
  }

  lemma {:induction false} FoundInFields(fields: seq<Field>, name: string)
    requires FindField(fields, name).Some?
    ensures FindField(fields, name).value in fields
  {
    if fields[|fields| - 1].name != name {
      FoundInFields(fields[..|fields| - 1], name);
    }
  }

  /** For types without maps and without lists of scalars nothing is left, whatever the body. */
  lemma PlainTypesConvertCompletely(c: Context, m: Message, b: Body)
    requires PlainTypes(c, AsMessage(m))
    ensures Converted(c, AsMessage(m), Convert(c, m, b))
  {
    PlainTypesAreReady(c, AsMessage(m), b);
    CompleteExactly(c, m, b);
  }

  // --- Bodies that conversion leaves alone ---

  /** Nothing in the body is at a place where the code would change it. */
  ghost predicate LeftAlone(c: Context, m: Message, b: Body) {
    Alike(c, Untouched, AsMessage(m), b)
  }

  lemma {:induction false} UntouchedForm(c: Context, b: Body)
    ensures MeantForm(c, Untouched, b) == b
    decreases b
  {
    match b
    case Obj(props) =>
      forall k | k in props ensures MeantForm(c, Untouched, props[k]) == props[k] {
        UntouchedForm(c, props[k]);
      }
      assert (map k | k in props :: MeantForm(c, Untouched, props[k])) == props;
    case Arr(items) =>
      forall i | 0 <= i < |items| ensures MeantForm(c, Untouched, items[i]) == items[i] {
        UntouchedForm(c, items[i]);
      }
      assert MeantForm(c, Untouched, b).items == items;
    case _ =>
  }

  /** Conversion leaves a body alone exactly when nothing in it is where the code changes something. */
  lemma UnchangedExactly(c: Context, m: Message, b: Body)
    ensures Convert(c, m, b) == b <==> LeftAlone(c, m, b)
  {
    BodyAsMeant(c, Untouched, m, b);
    UntouchedForm(c, b);
  }

  lemma {:induction false} ResultLeftAlone(c: Context, m: Message, b: Body)
    ensures LeftAlone(c, m, Convert(c, m, b))
    decreases b, 0
  {
    if Properties(b).Some? {
      var props := Properties(b).value;
      forall k | k in props
        ensures Alike(c, Untouched, Under(c, AsMessage(m), false, k, false), ConvertKey(c, m, k, props[k]))
      {
        match FindField(m.fields, k)
        case None => UntouchedTwice(c, props[k]);
        case Some(f) => ValueLeftAlone(c, m, f, props[k]);
      }
    }
  }

  lemma {:induction false} UntouchedTwice(c: Context, b: Body)
    ensures Alike(c, Untouched, Untouched, b)
  {
    UntouchedForm(c, b);
    UntouchedAsMeant(c, Untouched, b);
  }

  lemma SingleLeftAlone(c: Context, t: Way, v: Body)
    requires t.AsScalar? || t.AsEnum?
    ensures Alike(c, Untouched, t, if v.Str? then ReadAs(c, t, v.text) else v)
  {
    if !v.Str? {
      UntouchedForm(c, v);
      LeafAsMeant(c, Untouched, t, v);
    }
  }

  lemma {:induction false} ValueLeftAlone(c: Context, m: Message, f: Field, v: Body)
    ensures Alike(c, Untouched, Treated(c, m, f), ConvertValue(c, m, f, v))
    decreases v, 1
  {
    var r := ConvertValue(c, m, f, v);
    if v == Null {
    } else if IsBuiltin(f.ty) {
      SingleLeftAlone(c, AsScalar(f.ty), v);
    } else if TargetOf(c, m, f).None? {
      UntouchedItemsAlike(c, Untouched, v);
      UntouchedTwice(c, v);
    } else if f.repeated && v.Arr? {
      forall i | 0 <= i < |v.items|
        ensures Alike(c, Untouched, Single(c, m, f), r.items[i])
      {
        match TargetOf(c, m, f)
        case Some(ToEnum(e)) =>
          SingleConverted(c, e, v.items[i]);
          SingleLeftAlone(c, AsEnum(e), v.items[i]);
        case Some(ToMessage(inner)) => ResultLeftAlone(c, inner, v.items[i]);
      }
    } else {
      match TargetOf(c, m, f)
      case Some(ToEnum(e)) =>
        SingleConverted(c, e, v);
        SingleLeftAlone(c, AsEnum(e), v);
      case Some(ToMessage(inner)) => ResultLeftAlone(c, inner, v);
      if f.repeated {
        NoItemsAlike(c, Untouched, Single(c, m, f), r);
      }
    }
  }

  lemma ConvertTwice(c: Context, m: Message, b: Body)
    ensures Convert(c, m, Convert(c, m, b)) == Convert(c, m, b)
  {
    ResultLeftAlone(c, m, b);
    UnchangedExactly(c, m, Convert(c, m, b));
  }

  // --- Bodies as responses show them ---

  /** A string that a response may show for the value: an enum name, a number or a boolean in digits or words. */
  ghost predicate StandsFor(c: Context, w: Way, s: string, v: Body) {
    match w
    case AsScalar(ty) =>
      || (ty == "bool" && v.Bool? && s in (if v.flag then {"true", "1"} else {"false", "0"}))
      || (HoldsNumber(ty) && v.Num? && c.toNumber(s) == Some(v.number))
    case AsEnum(e) => exists n :: Names(e, s, n) && v == Num(Finite(n as real))
    case EachItem(x) => StandsFor(c, x, s, v)
    case EachEntry(x) => StandsFor(c, x, s, v)
    case _ => false
  }

  /** `d` is `b` with any of its enum numbers and scalars written as strings, at any depth, in lists and maps too. */
  ghost predicate Shown(c: Context, w: Way, b: Body, d: Body)
    decreases b
  {
    match b
    case Obj(props) =>
      && d.Obj? && d.props.Keys == props.Keys
      && forall k :: k in props ==> Shown(c, Under(c, w, false, k, true), props[k], d.props[k])
    case Arr(items) =>
      && d.Arr? && |d.items| == |items|
      && forall i :: 0 <= i < |items| ==> Shown(c, Under(c, w, true, Text.Decimal(i), true), items[i], d.items[i])
    case _ => d == b || (d.Str? && StandsFor(c, w, d.text, b))
  }

  lemma {:induction false} StandsForReads(c: Context, w: Way, s: string, v: Body)
    requires StandsFor(c, w, s, v)
    ensures ReadAs(c, w, s) == v
    decreases w
  {
    match w
    case EachItem(x) => StandsForReads(c, x, s, v);
    case EachEntry(x) => StandsForReads(c, x, s, v);
    case _ =>
  }

  lemma {:induction false} NotReadStays(c: Context, w: Way, s: string)
    ensures ReadAs(c, w, s) == Str(s) <==> !Reads(c, w, s)
    decreases w
  {
    match w
    case EachItem(x) => NotReadStays(c, x, s);
    case EachEntry(x) => NotReadStays(c, x, s);
    case _ =>
  }

  /** What a shown body means is the body it was made from. */
  lemma {:induction false} ShownMeansOriginal(c: Context, w: Way, b: Body, d: Body)
    requires Converted(c, w, b) && Shown(c, w, b, d)
    ensures MeantForm(c, w, d) == b
    decreases b
  {
    hide Reads, ReadAs, StandsFor, Names;
    match b
    case Obj(props) =>
      forall k | k in props
        ensures MeantForm(c, Under(c, w, false, k, true), d.props[k]) == props[k]
      {
        ShownMeansOriginal(c, Under(c, w, false, k, true), props[k], d.props[k]);
      }
      assert MeantForm(c, w, d).props == props;
    case Arr(items) =>
      forall i | 0 <= i < |items|
        ensures MeantForm(c, Under(c, w, true, Text.Decimal(i), true), d.items[i]) == items[i]
      {
        ShownMeansOriginal(c, Under(c, w, true, Text.Decimal(i), true), items[i], d.items[i]);
      }
      assert MeantForm(c, w, d).items == items;
    case _ => LeafMeansOriginal(c, w, b, d);
  }

  lemma LeafMeansOriginal(c: Context, w: Way, b: Body, d: Body)
    requires !b.Obj? && !b.Arr? && (d == b || (d.Str? && StandsFor(c, w, d.text, b)))
    requires b.Str? ==> !Reads(c, w, b.text)
    ensures MeantForm(c, w, d) == b
  {
    if d == b {
      if b.Str? {
        NotReadStays(c, w, b.text);
      }
    } else {
      StandsForReads(c, w, d.text, b);
    }
  }

  /**
   * A converted body, shown as responses show it, is recovered by converting what is shown exactly
   * when every string of what is shown is treated as it is meant.
   */
  lemma ShownConvertsBackExactly(c: Context, m: Message, b: Body, d: Body)
    requires Converted(c, AsMessage(m), b) && Shown(c, AsMessage(m), b, d)
    ensures Convert(c, m, d) == b <==> Alike(c, AsMessage(m), AsMessage(m), d)
  {
    ShownMeansOriginal(c, AsMessage(m), b, d);
    ConvertsAsMeantExactly(c, m, d);
  }

  // --- Maps ---

  ghost predicate Declared(e: Enum, v: Body) {
    v.Str? && exists n :: Names(e, v.text, n)
  }

  lemma {:induction false} NothingMeantIsConverted(c: Context, v: Body)
    ensures Converted(c, Untouched, v)
    decreases v
  {
    match v
    case Obj(props) =>
      forall k | k in props ensures Converted(c, Untouched, props[k]) {
        NothingMeantIsConverted(c, props[k]);
      }
    case Arr(items) =>
      forall i | 0 <= i < |items| ensures Converted(c, Untouched, items[i]) {
        NothingMeantIsConverted(c, items[i]);
      }
    case _ =>
  }

  /** Only a declared name is left to convert in a value of an enum. */
  lemma EnumEntryConverted(c: Context, e: Enum, v: Body)
    ensures Converted(c, AsEnum(e), v) <==> !Declared(e, v)
  {
    match v
    case Obj(props) =>
      forall k | k in props ensures Converted(c, Untouched, props[k]) {
        NothingMeantIsConverted(c, props[k]);
      }
    case Arr(items) =>
      forall i | 0 <= i < |items| ensures Converted(c, Untouched, items[i]) {
        NothingMeantIsConverted(c, items[i]);
      }
    case _ =>
  }

  /** A map of enums is returned as it is, so all that it means is converted exactly when it names no enum value. */
  lemma EnumMapConvertedExactly(c: Context, m: Message, f: Field, e: Enum, v: Body)
    requires f.keyType.Some? && TargetOf(c, m, f) == Some(ToEnum(e)) && v.Obj?
    ensures var r := ConvertValue(c, m, f, v);
      && r == v
      && (!IsBuiltin(f.ty) ==>
            (Converted(c, Meant(c, m, f), r) <==> forall k :: k in v.props ==> !Declared(e, v.props[k])))
  {
    forall k | k in v.props
      ensures Converted(c, AsEnum(e), v.props[k]) <==> !Declared(e, v.props[k])
    {
      EnumEntryConverted(c, e, v.props[k]);
    }
  }

  /** How the code treats the entry of a map of messages: as the field of the message that its key happens to name. */
  function EntryTreated(c: Context, inner: Message, key: string): Way {
    match FindField(inner.fields, key)
    case None => Untouched
    case Some(g) => Treated(c, inner, g)
  }

  /**
   * Entries of a map of messages, by key. One whose key names no field of the message stays as it
   * is, and is converted afterwards exactly when it was before. One whose key names a field is
   * treated as that field's value. All entries are converted afterwards exactly when all strings in
   * them that are meant to be converted stand where that treatment converts.
   */
  lemma MessageMapConvertedExactly(c: Context, m: Message, f: Field, inner: Message, v: Body)
    requires f.keyType.Some? && TargetOf(c, m, f) == Some(ToMessage(inner)) && v.Obj?
    ensures var r := ConvertValue(c, m, f, v);
      && r.Obj? && r.props.Keys == v.props.Keys
      && (forall k :: k in v.props && FindField(inner.fields, k).None? ==> r.props[k] == v.props[k])
      && (forall k :: k in v.props && FindField(inner.fields, k).Some? ==>
            r.props[k] == ConvertValue(c, inner, FindField(inner.fields, k).value, v.props[k]))
      && ((forall k :: k in r.props ==> Converted(c, AsMessage(inner), r.props[k])) <==>
          (forall k :: k in v.props ==> Ready(c, AsMessage(inner), EntryTreated(c, inner, k), v.props[k])))
  {
    var r := ConvertValue(c, m, f, v);
    assert r == Convert(c, inner, v);
    assert forall k :: k in v.props ==> r.props[k] == ConvertKey(c, inner, k, v.props[k]);
    hide Convert, ConvertValue, Converted, Ready, Treated;
    forall k | k in v.props
      ensures Converted(c, AsMessage(inner), r.props[k])
         <==> Ready(c, AsMessage(inner), EntryTreated(c, inner, k), v.props[k])
    {
      KeyConverted(c, AsMessage(inner), inner, k, v.props[k]);
    }
  }

  // --- Bodies that are not converted ---

  lemma OneField(c: Context, m: Message, key: string, v: Body)
    requires ConvertKey(c, m, key, v) == v
    ensures Convert(c, m, Obj(map[key := v])) == Obj(map[key := v])
  {
    var b := Obj(map[key := v]);
    assert Convert(c, m, b).props == map k | k in b.props :: ConvertKey(c, m, k, b.props[k]);
    assert Convert(c, m, b).props == b.props;
  }

  /** A list of strings in a repeated scalar field stays, though each of them stands for a scalar. */
  lemma ListedScalarsStay(c: Context, m: Message, f: Field, texts: seq<string>)
    requires FindField(m.fields, f.name) == Some(f) && f.keyType.None? && f.repeated && IsBuiltin(f.ty)
    requires texts != [] && forall s :: s in texts ==> Reads(c, AsScalar(f.ty), s)
    ensures var b := Obj(map[f.name := Arr(seq(|texts|, i requires 0 <= i < |texts| => Str(texts[i])))]);
      Convert(c, m, b) == b && !Converted(c, AsMessage(m), b)
  {
    var list := Arr(seq(|texts|, i requires 0 <= i < |texts| => Str(texts[i])));
    var b := Obj(map[f.name := list]);
    assert ConvertKey(c, m, f.name, list) == list;
    OneField(c, m, f.name, list);
    assert Under(c, AsMessage(m), false, f.name, true) == EachItem(AsScalar(f.ty));
    assert list.items[0] == Str(texts[0]);
    assert !Converted(c, EachItem(AsScalar(f.ty)), list);
  }

  /** The declared names in a map of enums stay. */
  lemma MapNamesStay(c: Context, m: Message, f: Field, e: Enum, key: string, name: string)
    requires FindField(m.fields, f.name) == Some(f) && f.keyType.Some? && TargetOf(c, m, f) == Some(ToEnum(e))
    requires exists n :: Names(e, name, n)
    ensures var b := Obj(map[f.name := Obj(map[key := Str(name)])]);
      Convert(c, m, b) == b && !Converted(c, AsMessage(m), b)
  {
    var entries := Obj(map[key := Str(name)]);
    var b := Obj(map[f.name := entries]);
    assert ConvertKey(c, m, f.name, entries) == entries;
    OneField(c, m, f.name, entries);
    assert Under(c, AsMessage(m), false, f.name, true) == EachEntry(AsEnum(e));
    assert entries.props[key] == Str(name);
    assert !Converted(c, EachEntry(AsEnum(e)), entries);
  }

  lemma FindInTwo(f: Field, g: Field)
    requires f.name != g.name
    ensures FindField([f, g], f.name) == Some(f) && FindField([f, g], g.name) == Some(g)
  {
    assert [f, g][..1] == [f];
    assert FindField([f], f.name) == Some(f);
  }

  /** `{flags: ["true"]}` for `repeated bool flags`, and `{colors: {a: "RED"}}` for `map<string, Color> colors`. */
  lemma StayingExamples(c: Context)
    requires c.targets == map[("Paint", "colors") := ToEnum(Enum("Color", [("RED", 1)]))]
    ensures var m := Message("Paint", "Paint", [Field("flags", "bool", 1, true, None, None, None),
                                           Field("colors", "Color", 2, false, Some("string"), None, None)], [], []);
      var (b, d) := (Obj(map["flags" := Arr([Str("true")])]), Obj(map["colors" := Obj(map["a" := Str("RED")])]));
      && Convert(c, m, b) == b && !Converted(c, AsMessage(m), b)
      && Convert(c, m, d) == d && !Converted(c, AsMessage(m), d)
  {
    var flags := Field("flags", "bool", 1, true, None, None, None);
    var colors := Field("colors", "Color", 2, false, Some("string"), None, None);
    var m := Message("Paint", "Paint", [flags, colors], [], []);
    FindInTwo(flags, colors);
    ListedScalarsStay(c, m, flags, ["true"]);
    assert seq(1, i requires 0 <= i < 1 => Str(["true"][i])) == [Str("true")];
    var color := Enum("Color", [("RED", 1)]);
    assert color.values[0] == ("RED", 1);
    assert Names(color, "RED", 1);
    MapNamesStay(c, m, colors, Enum("Color", [("RED", 1)]), "a", "RED");
  }
}
