/** Each field of a message is printed exactly once, in its own place, and its text determines it. */
module PrintedOnce {
  import opened Wrappers
  import opened Splitting
  import opened ProtoTypes
  import opened ProtoPrinter
  import opened ProtoReader
  import opened PrintedLines
  import opened ProtoRoundTrip

  // --- Names, counted ---

  function FieldNames(fields: seq<Field>): multiset<string> {
    if fields == [] then multiset{}
    else FieldNames(fields[..|fields| - 1]) + multiset{fields[|fields| - 1].name}
  }

  function MemberNames(oneofs: seq<Oneof>): multiset<string> {
    if oneofs == [] then multiset{}
    else MemberNames(oneofs[..|oneofs| - 1]) + multiset(oneofs[|oneofs| - 1].members)
  }

  function TextNames(fields: seq<FieldText>): multiset<string> {
    if fields == [] then multiset{}
    else TextNames(fields[..|fields| - 1]) + multiset{fields[|fields| - 1].name}
  }

  function OneofTextNames(oneofs: seq<OneofText>): multiset<string> {
    if oneofs == [] then multiset{}
    else OneofTextNames(oneofs[..|oneofs| - 1]) + TextNames(oneofs[|oneofs| - 1].fields)
  }

  /** The names of all fields read, inside and outside oneofs. */
  function ReadNames(t: MessageText): multiset<string> {
    OneofTextNames(t.oneofs) + TextNames(t.fields)
  }

  /** Field names differ, and each field is in at most one of the oneofs that are printed, once. */
  predicate WellPlaced(m: Message) {
    && (forall n :: n in FieldNames(m.fields) ==> FieldNames(m.fields)[n] == 1)
    && MemberNames(RealOneofs(m.oneofs)) <= FieldNames(m.fields)
  }

  // --- Exactly once ---

  lemma {:induction false} FieldNamesAre(fields: seq<Field>, name: string)
    ensures name in FieldNames(fields) <==> FindField(fields, name).Some?
  {
    if fields != [] {
      FieldNamesAre(fields[..|fields| - 1], name);
    }
  }

  /** With distinct names, a field is the one found under its name. */
  lemma {:induction false} FieldIsFound(fields: seq<Field>, f: Field)
    requires f in fields && forall n :: n in FieldNames(fields) ==> FieldNames(fields)[n] == 1
    ensures FindField(fields, f.name) == Some(f) && f.name in FieldNames(fields)
  {
    var before, last := fields[..|fields| - 1], fields[|fields| - 1];
    assert fields == before + [last];
    assert FieldNames(fields)[last.name] == FieldNames(before)[last.name] + 1;
    assert forall n :: n in FieldNames(before) ==>
        n in FieldNames(fields) && FieldNames(before)[n] <= FieldNames(fields)[n];
    if f != last {
      FieldIsFound(before, f);
    }
  }

  lemma {:induction false} MembersPrinted(m: Message, members: seq<string>)
    requires forall n :: n in members ==> n in FieldNames(m.fields)
    ensures TextNames(ExpectedMembers(m, members)) == multiset(members)
  {
    if members != [] {
      var before, n := members[..|members| - 1], members[|members| - 1];
      assert n in members && members == before + [n];
      assert forall x :: x in before ==> x in members;
      MembersPrinted(m, before);
      FieldNamesAre(m.fields, n);
      FoundIsField(m.fields, n);
      var f := FindField(m.fields, n).value;
      assert ExpectedMembers(m, members) == ExpectedMembers(m, before) + [MemberTextOf(f)];
      assert (ExpectedMembers(m, before) + [MemberTextOf(f)])[..|ExpectedMembers(m, before)|]
          == ExpectedMembers(m, before);
    }
  }

  lemma {:induction false} OneofsPrinted(m: Message, oneofs: seq<Oneof>)
    requires MemberNames(oneofs) <= FieldNames(m.fields)
    ensures OneofTextNames(ExpectedOneofs(m, oneofs)) == MemberNames(oneofs)
  {
    if oneofs != [] {
      var before, o := oneofs[..|oneofs| - 1], oneofs[|oneofs| - 1];
      OneofsPrinted(m, before);
      forall n | n in o.members ensures n in FieldNames(m.fields) {
        assert n in multiset(o.members);
        assert n in MemberNames(oneofs);
      }
      MembersPrinted(m, o.members);
      var texts := ExpectedOneofs(m, before);
      assert (texts + [OneofText(o.name, ExpectedMembers(m, o.members))])[..|texts|] == texts;
    }
  }

  lemma {:induction false} PlainPrinted(m: Message, fields: seq<Field>, name: string)
    ensures TextNames(ExpectedFields(m, fields))[name]
        == if name in InRealOneof(m.oneofs) then 0 else FieldNames(fields)[name]
  {
    if fields != [] {
      var before, f := fields[..|fields| - 1], fields[|fields| - 1];
      PlainPrinted(m, before, name);
      var texts := ExpectedFields(m, before);
      if f.name !in InRealOneof(m.oneofs) {
        assert (texts + [FieldTextOf(f)])[..|texts|] == texts;
      } else {
        assert texts + [] == texts;
      }
    }
  }

  lemma {:induction false} MemberNamesAre(oneofs: seq<Oneof>, name: string)
    ensures name in MemberNames(oneofs) <==> exists o :: o in oneofs && name in o.members
  {
    if oneofs != [] {
      var before, o := oneofs[..|oneofs| - 1], oneofs[|oneofs| - 1];
      MemberNamesAre(before, name);
      assert oneofs == before + [o];
      assert name in MemberNames(oneofs) <==> name in MemberNames(before) || name in multiset(o.members);
    }
  }

  lemma {:induction false} RealOneofsAre(oneofs: seq<Oneof>)
    ensures forall o :: o in RealOneofs(oneofs) <==> o in oneofs && !StartsWith(o.name, "_")
  {
    if oneofs != [] {
      RealOneofsAre(oneofs[..|oneofs| - 1]);
      assert oneofs == oneofs[..|oneofs| - 1] + [oneofs[|oneofs| - 1]];
    }
  }

  lemma InOneofIsMember(m: Message, name: string)
    ensures name in InRealOneof(m.oneofs) <==> name in MemberNames(RealOneofs(m.oneofs))
  {
    RealOneofsAre(m.oneofs);
    MemberNamesAre(RealOneofs(m.oneofs), name);
  }

  /** No field is lost and none is printed twice, whether it stands in a oneof or not. */
  lemma EachFieldReadOnce(m: Message)
    requires WellPlaced(m)
    ensures ReadNames(Expected(m)) == FieldNames(m.fields)
  {
    OneofsPrinted(m, RealOneofs(m.oneofs));
    hide OneofTextNames, TextNames, InRealOneof, MemberNames, FieldNames;
    forall name
      ensures ReadNames(Expected(m))[name] == FieldNames(m.fields)[name]
    {
      PlainPrinted(m, m.fields, name);
      InOneofIsMember(m, name);
    }
  }

  /** Every field is read in its own place: as a member of its oneof, or with its modifier among the plain fields. */
  lemma EachFieldInItsPlace(m: Message, f: Field)
    requires WellPlaced(m) && f in m.fields
    ensures f.name !in InRealOneof(m.oneofs) ==> FieldTextOf(f) in Expected(m).fields
    ensures forall o :: o in m.oneofs && !StartsWith(o.name, "_") && f.name in o.members ==>
      exists t :: t in Expected(m).oneofs && t.name == o.name && MemberTextOf(f) in t.fields
  {
    FieldIsFound(m.fields, f);
    PlainHas(m, m.fields, f);
    RealOneofsAre(m.oneofs);
    hide InRealOneof, FieldNames, MemberNames, RealOneofs;
    forall o | o in m.oneofs && !StartsWith(o.name, "_") && f.name in o.members
      ensures exists t :: t in Expected(m).oneofs && t.name == o.name && MemberTextOf(f) in t.fields
    {
      MembersHave(m, o.members, f);
      OneofsHave(m, RealOneofs(m.oneofs), o);
      var t := OneofText(o.name, ExpectedMembers(m, o.members));
      assert t in Expected(m).oneofs;
    }
  }

  lemma {:induction false} PlainHas(m: Message, fields: seq<Field>, f: Field)
    requires f in fields
    ensures f.name !in InRealOneof(m.oneofs) ==> FieldTextOf(f) in ExpectedFields(m, fields)
  {
    if f != fields[|fields| - 1] {
      assert f in fields[..|fields| - 1];
      PlainHas(m, fields[..|fields| - 1], f);
    }
  }

  lemma {:induction false} MembersHave(m: Message, members: seq<string>, f: Field)
    requires f.name in members && FindField(m.fields, f.name) == Some(f)
    ensures MemberTextOf(f) in ExpectedMembers(m, members)
  {
    if f.name != members[|members| - 1] {
      assert f.name in members[..|members| - 1];
      MembersHave(m, members[..|members| - 1], f);
    }
  }

  lemma {:induction false} OneofsHave(m: Message, oneofs: seq<Oneof>, o: Oneof)
    requires o in oneofs
    ensures OneofText(o.name, ExpectedMembers(m, o.members)) in ExpectedOneofs(m, oneofs)
  {
    if o != oneofs[|oneofs| - 1] {
      assert o in oneofs[..|oneofs| - 1];
      OneofsHave(m, oneofs[..|oneofs| - 1], o);
    }
  }

  // --- The text of a field determines it ---

  /** Two fields are written with the same type exactly when both their types agree. */
  lemma TypeTextDetermines(f: Field, g: Field)
    requires PlainField(f) && PlainField(g)
    ensures TypePart(f) == TypePart(g) <==> f.ty == g.ty && f.keyType == g.keyType
  {
    if TypePart(f) == TypePart(g) {
      if f.keyType.Some? && g.keyType.Some? {
        MapTextSplits(f.keyType.value, f.ty);
        MapTextSplits(g.keyType.value, g.ty);
        var k: string, l: string := "map<" + f.keyType.value, "map<" + g.keyType.value;
        var v: string, w: string := " " + f.ty + ">", " " + g.ty + ">";
        var a: seq<string>, b: seq<string> := [k, v], [l, w];
        assert TypePart(f) == "map<" + f.keyType.value + ", " + f.ty + ">";
        assert TypePart(g) == "map<" + g.keyType.value + ", " + g.ty + ">";
        assert a == b && a[0] == b[0] && a[1] == b[1];
        assert f.keyType.value == k[4..] && g.keyType.value == l[4..];
        assert f.ty == v[1..|v| - 1] && g.ty == w[1..|w| - 1];
      } else if f.keyType.Some? {
        MapTextIsNoToken(f);
      } else if g.keyType.Some? {
        MapTextIsNoToken(g);
      }
    }
  }

  lemma MapTextIsNoToken(f: Field)
    requires f.keyType.Some?
    ensures !Token(TypePart(f))
  {
    assert TypePart(f)[3] == '<' && TypePart(f)[3] in TypePart(f);
  }

  lemma MapTextSplits(key: string, value: string)
    requires Token(key) && Token(value)
    ensures SplitOn(',', "map<" + key + ", " + value + ">") == ["map<" + key, " " + value + ">"]
  {
    var a, b := "map<" + key, " " + value + ">";
    assert "map<" + key + ", " + value + ">" == a + [','] + b;
    SplitOfPiece(',', a);
    SplitOfPiece(',', b);
    SplitOfAppend(',', a, b);
  }

  /** What is read of a plain field determines its name, its number, its types and its modifier. */
  lemma FieldTextDetermines(f: Field, g: Field)
    requires PlainField(f) && PlainField(g) && FieldTextOf(f) == FieldTextOf(g)
    ensures f.name == g.name && f.id == g.id && f.ty == g.ty && f.keyType == g.keyType
    ensures f.keyType.None? ==>
        f.repeated == g.repeated && (!f.repeated ==> ExplicitlyOptional(f) == ExplicitlyOptional(g))
  {
    TypeTextDetermines(f, g);
    assert "repeated"[0] == 'r' && "optional"[0] == 'o';
  }
}
