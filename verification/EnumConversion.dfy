/**
 * Turning request bodies into what the encoder expects: enum names become numbers, strings given
 * for scalar fields become scalars, at every depth.
 */
module EnumConversion {
  import opened Wrappers
  import opened ProtoTypes
  import Text

  datatype Number = Finite(value: real) | Infinity(negative: bool)

  datatype Body =
    | Null
    | Bool(flag: bool)
    | Num(number: Number)
    | Str(text: string)
    | Arr(items: seq<Body>)
    | Obj(props: map<string, Body>)

  datatype Target = ToMessage(message: Message) | ToEnum(enum: Enum)

  /**
   * What conversion looks up: the type a field of a message stands for, by the message's full name
   * and the field's name, absent when it cannot be found; and how the language reads a number from
   * a string, `None` standing for not-a-number.
   */
  datatype Context = Context(targets: map<(string, string), Target>, toNumber: string -> Option<Number>)

  function TargetOf(c: Context, m: Message, f: Field): Option<Target> {
    if IsBuiltin(f.ty) || (m.fullName, f.name) !in c.targets then None else Some(c.targets[(m.fullName, f.name)])
  }

  /** `enumType.values[name]`: values are keyed by name. */
  function FindValue(values: seq<(string, int)>, name: string): Option<int> {
    if values == [] then None
    else if values[|values| - 1].0 == name then Some(values[|values| - 1].1)
    else FindValue(values[..|values| - 1], name)
  }

  function CoerceScalar(c: Context, ty: string, value: string): Body {
    if ty == "bool" then Bool(value == "true" || value == "1")
    else if IsNumeric(ty) && c.toNumber(value).Some? then Num(c.toNumber(value).value)
    else Str(value)
  }

  function ConvertSingle(e: Enum, v: Body): Body {
    if v.Str? && FindValue(e.values, v.text).Some? then Num(Finite(FindValue(e.values, v.text).value as real)) else v
  }

  /** `{ ...items }`: an array spread into an object is keyed by position. */
  function Spread(items: seq<Body>): (props: map<string, Body>)
    ensures forall k :: k in props ==> props[k] in items
  {
    if items == [] then map[] else Spread(items[..|items| - 1])[Text.Decimal(|items| - 1) := items[|items| - 1]]
  }

  /** An array spread into an object: under the digits of each position stands its item. */
  lemma {:induction false} SpreadExactly(items: seq<Body>, k: string)
    ensures k in Spread(items) <==> exists i :: 0 <= i < |items| && k == Text.Decimal(i)
    ensures forall i :: 0 <= i < |items| && k == Text.Decimal(i) ==> Spread(items)[k] == items[i]
  {
    hide Text.Decimal;
    if items != [] {
      var n: nat := |items| - 1;
      SpreadExactly(items[..n], k);
      assert Spread(items) == Spread(items[..n])[Text.Decimal(n) := items[n]];
      forall i: nat | i < n
        ensures Text.Decimal(i) != Text.Decimal(n)
      {
        DecimalsDiffer(i, n);
      }
      assert forall i :: 0 <= i < n ==> items[..n][i] == items[i];
    }
  }

  lemma {:induction false} DecimalsDiffer(i: nat, n: nat)
    requires i != n
    ensures Text.Decimal(i) != Text.Decimal(n)
    decreases i
  {
    var a, b := Text.Decimal(i), Text.Decimal(n);
    if i >= 10 && n >= 10 {
      assert a[|a| - 1] == Text.Digit(i % 10) && b[|b| - 1] == Text.Digit(n % 10);
      assert a[..|a| - 1] == Text.Decimal(i / 10) && b[..|b| - 1] == Text.Decimal(n / 10);
      if i / 10 != n / 10 {
        DecimalsDiffer(i / 10, n / 10);
      }
    }
  }

  /** The properties of a body, when it is an object or an array. */
  function Properties(b: Body): (r: Option<map<string, Body>>)
    ensures r.Some? ==> forall k :: k in r.value ==> r.value[k] < b
  {
    match b
    case Obj(props) => Some(props)
    case Arr(items) => (assert forall i :: 0 <= i < |items| ==> items[i] < b; Some(Spread(items)))
    case _ => None
  }

  // --- Conversion ---

  function Convert(c: Context, m: Message, b: Body): (r: Body)
    ensures !r.Arr?
    decreases b, 0
  {
    match Properties(b)
    case None => b
    case Some(props) => Obj(map k | k in props :: ConvertKey(c, m, k, props[k]))
  }

  function ConvertKey(c: Context, m: Message, key: string, v: Body): Body
    decreases v, 2
  {
    match FindField(m.fields, key)
    case None => v
    case Some(f) => ConvertValue(c, m, f, v)
  }

  function ConvertValue(c: Context, m: Message, f: Field, v: Body): Body
    decreases v, 1
  {
    if v == Null then v
    else if v.Str? && IsBuiltin(f.ty) then CoerceScalar(c, f.ty, v.text)
    else
      match TargetOf(c, m, f)
      case None => v
      case Some(ToEnum(e)) =>
        if f.repeated && v.Arr? then Arr(seq(|v.items|, i requires 0 <= i < |v.items| => ConvertSingle(e, v.items[i])))
        else ConvertSingle(e, v)
      case Some(ToMessage(inner)) =>
        if f.repeated && v.Arr? then Arr(seq(|v.items|, i requires 0 <= i < |v.items| => Convert(c, inner, v.items[i])))
        else Convert(c, inner, v)
  }

  /** The conversion as the client runs it: a copy of the body, updated field by field. */
  method ConvertEnumValues(c: Context, ty: Message, body: Body) returns (r: Body)
    requires KeyedByName(ty.fields) && AllKeyedByName(c)
    ensures r == Convert(c, ty, body)
    decreases body, 0
  {
    var props := Properties(body);
    if props.None? {
      return body;
    }
    var result := props.value;
    for i := 0 to |ty.fields|
      invariant result.Keys == props.value.Keys
      invariant forall k :: k in result ==>
        result[k] == if NamedBefore(ty.fields, i, k) then ConvertKey(c, ty, k, props.value[k]) else props.value[k]
    {
      var field := ty.fields[i];
      NamedNext(ty.fields, i);
      if field.name in result {
        var value := ConvertField(c, ty, field, result[field.name]);
        result := result[field.name := value];
      }
    }
    forall k | k in result
      ensures result[k] == ConvertKey(c, ty, k, props.value[k])
    {
      NotNamedNotFound(ty.fields, k);
    }
    assert result == map k | k in props.value :: ConvertKey(c, ty, k, props.value[k]);
    r := Obj(result);
  }

  /** The value of one field. */
  method ConvertField(c: Context, ty: Message, field: Field, value: Body) returns (r: Body)
    requires AllKeyedByName(c)
    ensures r == ConvertValue(c, ty, field, value)
    decreases value, 1
  {
    if value == Null {
      return value;
    }
    if value.Str? && IsBuiltin(field.ty) {
      return CoerceScalar(c, field.ty, value.text);
    }
    match TargetOf(c, ty, field)
    case None =>
      r := value;
    case Some(ToEnum(e)) =>
      if field.repeated && value.Arr? {
        r := Arr(seq(|value.items|, i requires 0 <= i < |value.items| => ConvertSingle(e, value.items[i])));
      } else {
        r := ConvertSingle(e, value);
      }
    case Some(ToMessage(inner)) =>
      if field.repeated && value.Arr? {
        var items := [];
        for i := 0 to |value.items|
          invariant items == seq(i, j requires 0 <= j < i => Convert(c, inner, value.items[j]))
        {
          var item := ConvertEnumValues(c, inner, value.items[i]);
          items := items + [item];
        }
        r := Arr(items);
      } else {
        r := ConvertEnumValues(c, inner, value);
      }
  }

  predicate NamedBefore(fields: seq<Field>, n: nat, key: string)
    requires n <= |fields|
  {
    exists i :: 0 <= i < n && fields[i].name == key
  }

  lemma NamedNext(fields: seq<Field>, i: nat)
    requires i < |fields| && KeyedByName(fields)
    ensures FindField(fields, fields[i].name) == Some(fields[i])
    ensures !NamedBefore(fields, i, fields[i].name)
    ensures forall k :: NamedBefore(fields, i + 1, k) <==> NamedBefore(fields, i, k) || k == fields[i].name
  {
    KeyedIsFound(fields, i);
  }

  lemma {:induction false} KeyedIsFound(fields: seq<Field>, i: nat)
    requires i < |fields| && KeyedByName(fields)
    ensures FindField(fields, fields[i].name) == Some(fields[i])
  {
    if i < |fields| - 1 {
      KeyedIsFound(fields[..|fields| - 1], i);
    }
  }

  lemma {:induction false} NotNamedNotFound(fields: seq<Field>, key: string)
    ensures NamedBefore(fields, |fields|, key) <==> FindField(fields, key).Some?
  {
    if fields != [] && fields[|fields| - 1].name != key {
      NotNamedNotFound(fields[..|fields| - 1], key);
      if i :| 0 <= i < |fields| && fields[i].name == key {
        assert fields[..|fields| - 1][i].name == key;
      }
    }
  }

  predicate AllKeyedByName(c: Context) {
    forall k :: k in c.targets && c.targets[k].ToMessage? ==> KeyedByName(c.targets[k].message.fields)
  }
}
