/**
  The in-memory contact store of the C++ server: a list of records and the
  next id to hand out, with the six request handlers that work on them.

  A request body is given as it comes out of `json::parse`: `None` when the
  text does not parse, the parsed value otherwise. A response is its status
  code and either a plain text or the JSON value the handler dumps.
 */
module ContactStore {
  import opened Options
  import opened Json
  import Utf8

  // ---------------------------------------------------------------------
  // Records

  datatype Record = Record(
    id: int,
    firstName: string,
    middleName: string,
    lastName: string,
    street: string,
    city: string,
    state: string,
    zip: string,
    phone: string,
    email: string)

  /** The nine text fields of a record. */
  datatype Field = FirstName | MiddleName | LastName | Street | City | State | Zip | Phone | Email

  /** The text fields in the order the handlers visit them. */
  const Fields: seq<Field> := [FirstName, MiddleName, LastName, Street, City, State, Zip, Phone, Email]

  /** The JSON member name of a field. */
  function Name(f: Field): string {
    match f
    case FirstName => "first_name"
    case MiddleName => "middle_name"
    case LastName => "last_name"
    case Street => "street"
    case City => "city"
    case State => "state"
    case Zip => "zip"
    case Phone => "phone"
    case Email => "email"
  }

  function Text(r: Record, f: Field): string {
    match f
    case FirstName => r.firstName
    case MiddleName => r.middleName
    case LastName => r.lastName
    case Street => r.street
    case City => r.city
    case State => r.state
    case Zip => r.zip
    case Phone => r.phone
    case Email => r.email
  }

  /** `r` with field `f` set to `s`. */
  function WithText(r: Record, f: Field, s: string): (q: Record)
    ensures Text(q, f) == s
    ensures q.id == r.id
    ensures forall g :: g != f ==> Text(q, g) == Text(r, g)
  {
    match f
    case FirstName => r.(firstName := s)
    case MiddleName => r.(middleName := s)
    case LastName => r.(lastName := s)
    case Street => r.(street := s)
    case City => r.(city := s)
    case State => r.(state := s)
    case Zip => r.(zip := s)
    case Phone => r.(phone := s)
    case Email => r.(email := s)
  }

  lemma FieldsComplete(f: Field)
    ensures f in Fields
  {
  }

  /** `Record::to_json`: the id and the nine fields under their names. */
  function ToJson(r: Record): (v: Value)
    ensures v.Object? && DistinctKeys(v.members)
    ensures Get(v, "id") == Some(Number(r.id))
    ensures forall f :: Get(v, Name(f)) == Some(String(Text(r, f)))
    ensures forall k :: Get(v, k).Some? <==> k == "id" || exists f :: Name(f) == k
  {
    RecordMembersShape(r);
    FindDistinct(RecordMembers(r), 0);
    RecordMemberValues(r);
    RecordMemberNames(r);
    Object(RecordMembers(r))
  }

  lemma RecordMemberValues(r: Record)
    ensures forall f :: Get(Object(RecordMembers(r)), Name(f)) == Some(String(Text(r, f)))
  {
    var ms := RecordMembers(r);
    RecordMembersShape(r);
    forall f
      ensures Get(Object(ms), Name(f)) == Some(String(Text(r, f)))
    {
      FindDistinct(ms, Position(f) + 1);
    }
  }

  lemma RecordMemberNames(r: Record)
    ensures forall k :: Get(Object(RecordMembers(r)), k).Some? <==> k == "id" || exists f :: Name(f) == k
  {
    var ms := RecordMembers(r);
    RecordMembersShape(r);
    forall k
      ensures Find(ms, k).Some? <==> k == "id" || exists f :: Name(f) == k
    {
      if Find(ms, k).Some? {
        var j := Find(ms, k).value;
        if j > 0 {
          assert Name(Fields[j - 1]) == k;
        }
      }
      if k == "id" {
        FindDistinct(ms, 0);
      } else if exists f :: Name(f) == k {
        var f :| Name(f) == k;
        FindDistinct(ms, Position(f) + 1);
      }
    }
  }

  function RecordMembers(r: Record): seq<Member> {
    [ Member("id", Number(r.id)),
      Member("first_name", String(r.firstName)),
      Member("middle_name", String(r.middleName)),
      Member("last_name", String(r.lastName)),
      Member("street", String(r.street)),
      Member("city", String(r.city)),
      Member("state", String(r.state)),
      Member("zip", String(r.zip)),
      Member("phone", String(r.phone)),
      Member("email", String(r.email)) ]
  }

  lemma RecordMembersShape(r: Record)
    ensures |RecordMembers(r)| == |Fields| + 1
    ensures RecordMembers(r)[0] == Member("id", Number(r.id))
    ensures forall j :: 0 < j < |RecordMembers(r)| ==> RecordMembers(r)[j] == Member(Name(Fields[j - 1]), String(Text(r, Fields[j - 1])))
    ensures DistinctKeys(RecordMembers(r))
  {
  }

  /** The place of a field in `Fields`. */
  function Position(f: Field): (j: nat)
    ensures j < |Fields| && Fields[j] == f
  {
    match f
    case FirstName => 0
    case MiddleName => 1
    case LastName => 2
    case Street => 3
    case City => 4
    case State => 5
    case Zip => 6
    case Phone => 7
    case Email => 8
  }

  // ---------------------------------------------------------------------
  // Reading a request body

  /**
    `body.value(name, "")`: the string under the field's name, or "" when the
    object has no such member; it throws (`None`) when the body is not an
    object or the member is not a string.
   */
  function ValueOr(body: Value, f: Field): (r: Option<string>)
    ensures r.Some? <==> body.Object? && (Get(body, Name(f)).None? || Get(body, Name(f)).value.String?)
    ensures r.Some? && Get(body, Name(f)).None? ==> r.value == ""
    ensures r.Some? && Get(body, Name(f)).Some? ==> Get(body, Name(f)) == Some(String(r.value))
  {
    if !body.Object? then None
    else
      match Get(body, Name(f))
      case None => Some("")
      case Some(String(s)) => Some(s)
      case Some(_) => None
  }

  /**
    The assignments `r.<field> = body.value(<name>, "")` of `create` for the
    fields `fs`, in order; the first one that throws abandons the record.
   */
  function Fill(r: Record, body: Value, fs: seq<Field>): Option<Record>
    decreases |fs|
  {
    if fs == [] then Some(r)
    else
      var s :- ValueOr(body, fs[0]);
      Fill(WithText(r, fs[0], s), body, fs[1..])
  }

  /** A default-constructed record: every string empty. */
  function Blank(id: int): Record {
    Record(id, "", "", "", "", "", "", "", "", "")
  }

  /** The record `create` makes from the body under the id it has taken. */
  function BuildRecord(body: Value, id: int): Option<Record> {
    Fill(Blank(id), body, Fields)
  }

  /**
    Filling succeeds exactly when none of the fields throws, and then keeps
    the id, gives each field of `fs` the body's string (or "") and leaves
    the other fields alone.
   */
  lemma {:induction false} FillFields(r: Record, body: Value, fs: seq<Field>)
    ensures Fill(r, body, fs).Some? <==> forall j :: 0 <= j < |fs| ==> ValueOr(body, fs[j]).Some?
    ensures Fill(r, body, fs).Some? ==> Fill(r, body, fs).value.id == r.id
    ensures Fill(r, body, fs).Some? ==>
              forall f :: Text(Fill(r, body, fs).value, f) == if f in fs then ValueOr(body, f).value else Text(r, f)
    decreases |fs|
  {
    if fs != [] {
      ReadableCons(body, fs);
      match ValueOr(body, fs[0])
      case None =>
      case Some(s) =>
        FillFields(WithText(r, fs[0], s), body, fs[1..]);
        assert forall f :: f in fs <==> f == fs[0] || f in fs[1..];
    }
  }

  lemma ReadableCons(body: Value, fs: seq<Field>)
    requires fs != []
    ensures (forall j :: 0 <= j < |fs| ==> ValueOr(body, fs[j]).Some?)
            <==> ValueOr(body, fs[0]).Some? && forall j :: 0 <= j < |fs[1..]| ==> ValueOr(body, fs[1..][j]).Some?
  {
    assert forall j :: 0 < j < |fs| ==> fs[j] == fs[1..][j - 1];
  }

  /**
    `create` builds a record exactly when no field throws; the record has
    the id it was given, and each field the body's string under that
    field's name, or "" when the body has no member of that name.
   */
  lemma BuildRecordFields(body: Value, id: int)
    ensures BuildRecord(body, id).Some? <==> forall f :: ValueOr(body, f).Some?
    ensures BuildRecord(body, id).Some? ==> BuildRecord(body, id).value.id == id
    ensures BuildRecord(body, id).Some? ==>
              forall f :: ValueOr(body, f) == Some(Text(BuildRecord(body, id).value, f))
    ensures BuildRecord(body, id).Some? ==>
              forall f :: Get(body, Name(f)).None? ==> Text(BuildRecord(body, id).value, f) == ""
  {
    FillFields(Blank(id), body, Fields);
    forall f
      ensures f in Fields
    {
      FieldsComplete(f);
    }
  }

  /** What `update` does with one field of the body. */
  datatype FieldOutcome = Keep | Set(text: string) | Throw

  /**
    `if (body.contains(name)) field = body[name].get<std::string>();`:
    nothing when the body has no member of that name (a body that is not an
    object has none), the member's text when it is a string, and a throw
    otherwise.
   */
  function FieldUpdate(body: Value, f: Field): (u: FieldOutcome)
  {
    match Get(body, Name(f))
    case None => Keep
    case Some(String(s)) => Set(s)
    case Some(_) => Throw
  }

  /** What each of the three outcomes of an assignment says about the body. */
  lemma FieldUpdateMeaning(body: Value, f: Field)
    ensures FieldUpdate(body, f).Keep? <==> Get(body, Name(f)).None?
    ensures FieldUpdate(body, f).Set? <==> Get(body, Name(f)).Some? && Get(body, Name(f)).value.String?
    ensures FieldUpdate(body, f).Set? ==> Get(body, Name(f)) == Some(String(FieldUpdate(body, f).text))
  {
  }

  /** A record after some of the field assignments, and whether all of them ran. */
  datatype Patched = Patched(record: Record, ok: bool)

  /**
    The field assignments of `update` for the fields `fs`, in order. A throw
    stops them, leaving the record as the earlier assignments made it.
   */
  function Patch(r: Record, body: Value, fs: seq<Field>): Patched
    decreases |fs|
  {
    if fs == [] then Patched(r, true)
    else
      match FieldUpdate(body, fs[0])
      case Keep => Patch(r, body, fs[1..])
      case Set(s) => Patch(WithText(r, fs[0], s), body, fs[1..])
      case Throw => Patched(r, false)
  }

  /** The record after the assignment of one field, when it does not throw. */
  function Assigned(r: Record, body: Value, f: Field): Record {
    match FieldUpdate(body, f)
    case Set(s) => WithText(r, f, s)
    case _ => r
  }

  lemma PatchStep(r: Record, body: Value, fs: seq<Field>)
    requires fs != []
    ensures Patch(r, body, fs) == if FieldUpdate(body, fs[0]).Throw? then Patched(r, false)
                                  else Patch(Assigned(r, body, fs[0]), body, fs[1..])
  {
  }

  /** The field assignments never touch the id. */
  lemma {:induction false} PatchKeepsId(r: Record, body: Value, fs: seq<Field>)
    ensures Patch(r, body, fs).record.id == r.id
    decreases |fs|
  {
    if fs != [] {
      match FieldUpdate(body, fs[0])
      case Keep => PatchKeepsId(r, body, fs[1..]);
      case Set(s) => PatchKeepsId(WithText(r, fs[0], s), body, fs[1..]);
      case Throw =>
    }
  }

  /** The assignments all run exactly when none of the fields throws. */
  lemma {:induction false} PatchOk(r: Record, body: Value, fs: seq<Field>)
    ensures Patch(r, body, fs).ok <==> forall j :: 0 <= j < |fs| ==> !FieldUpdate(body, fs[j]).Throw?
    decreases |fs|
  {
    if fs != [] {
      NoThrowCons(body, fs);
      match FieldUpdate(body, fs[0])
      case Keep => PatchOk(r, body, fs[1..]);
      case Set(s) => PatchOk(WithText(r, fs[0], s), body, fs[1..]);
      case Throw =>
    }
  }

  lemma NoThrowCons(body: Value, fs: seq<Field>)
    requires fs != []
    ensures (forall j :: 0 <= j < |fs| ==> !FieldUpdate(body, fs[j]).Throw?)
            <==> !FieldUpdate(body, fs[0]).Throw?
                 && forall j :: 0 <= j < |fs[1..]| ==> !FieldUpdate(body, fs[1..][j]).Throw?
  {
    assert forall j :: 0 < j < |fs| ==> fs[j] == fs[1..][j - 1];
  }

  /**
    When all assignments run, a field named in `fs` that the body carries as
    a string takes that string, and every other field keeps its text.
   */
  lemma {:induction false} PatchFields(r: Record, body: Value, fs: seq<Field>)
    requires Patch(r, body, fs).ok
    ensures forall f :: Text(Patch(r, body, fs).record, f)
                        == if f in fs && FieldUpdate(body, f).Set? then FieldUpdate(body, f).text else Text(r, f)
    decreases |fs|
  {
    if fs != [] {
      match FieldUpdate(body, fs[0])
      case Keep => PatchFields(r, body, fs[1..]);
      case Set(s) => PatchFields(WithText(r, fs[0], s), body, fs[1..]);
    }
  }

  /**
    When the field at `j` is the first that throws, the record keeps exactly
    the assignments of the fields before it.
   */
  lemma PatchStops(r: Record, body: Value, fs: seq<Field>, j: nat)
    requires j < |fs| && FieldUpdate(body, fs[j]).Throw?
    requires forall i :: 0 <= i < j ==> !FieldUpdate(body, fs[i]).Throw?
    ensures Patch(r, body, fs) == Patched(Patch(r, body, fs[..j]).record, false)
    ensures Patch(r, body, fs[..j]).ok
  {
    PatchOk(r, body, fs[..j]);
    assert forall i :: 0 <= i < j ==> fs[..j][i] == fs[i];
    PatchAppend(r, body, fs[..j], fs[j..]);
    assert fs[..j] + fs[j..] == fs;
    PatchStep(Patch(r, body, fs[..j]).record, body, fs[j..]);
  }

  /**
    Running the assignments of `a` and then those of `b` is running those of
    `a + b`, except that a throw in `a` stops everything.
   */
  lemma {:induction false} PatchAppend(r: Record, body: Value, a: seq<Field>, b: seq<Field>)
    ensures Patch(r, body, a + b)
            == if Patch(r, body, a).ok then Patch(Patch(r, body, a).record, body, b) else Patch(r, body, a)
    decreases |a|
  {
    if a == [] {
      assert a + b == b;
    } else {
      var r' := Assigned(r, body, a[0]);
      assert (a + b)[0] == a[0] && (a + b)[1..] == a[1..] + b;
      PatchStep(r, body, a + b);
      PatchStep(r, body, a);
      if !FieldUpdate(body, a[0]).Throw? {
        PatchAppend(r', body, a[1..], b);
      }
    }
  }

  /** A body that is not an object changes nothing and throws nothing. */
  lemma {:induction false} PatchNonObject(r: Record, body: Value, fs: seq<Field>)
    requires !body.Object?
    ensures Patch(r, body, fs) == Patched(r, true)
    decreases |fs|
  {
    if fs != [] {
      PatchNonObject(r, body, fs[1..]);
    }
  }

  // ---------------------------------------------------------------------
  // Lookup, removal and selection over the record list

  /** The index of the first record with the id, as `std::find_if` finds it. */
  function FirstWithId(rs: seq<Record>, id: int): (k: Option<nat>)
    ensures k.Some? ==> k.value < |rs| && rs[k.value].id == id
    ensures k.Some? ==> forall j :: 0 <= j < k.value ==> rs[j].id != id
    ensures k.None? <==> forall j :: 0 <= j < |rs| ==> rs[j].id != id
  {
    if rs == [] then None
    else if rs[0].id == id then Some(0)
    else
      match FirstWithId(rs[1..], id)
      case None => None
      case Some(j) => Some(j + 1)
  }

  predicate UniqueIds(rs: seq<Record>) {
    forall i, j :: 0 <= i < j < |rs| ==> rs[i].id != rs[j].id
  }

  /** The records whose id is not `id`, in their order. */
  function Without(rs: seq<Record>, id: int): seq<Record> {
    if rs == [] then []
    else Without(rs[..|rs| - 1], id) + (if rs[|rs| - 1].id == id then [] else [rs[|rs| - 1]])
  }

  lemma {:induction false} WithoutMembers(rs: seq<Record>, id: int)
    ensures forall x :: x in Without(rs, id) <==> x in rs && x.id != id
  {
    if rs != [] {
      WithoutMembers(rs[..|rs| - 1], id);
      assert rs == rs[..|rs| - 1] + [rs[|rs| - 1]];
    }
  }

  lemma {:induction false} WithoutAbsent(rs: seq<Record>, id: int)
    requires forall j :: 0 <= j < |rs| ==> rs[j].id != id
    ensures Without(rs, id) == rs
  {
    if rs != [] {
      WithoutAbsent(rs[..|rs| - 1], id);
    }
  }

  /**
    With distinct ids, erasing the record found under `id` is the same as
    dropping every record with that id.
   */
  lemma {:induction false} EraseIsWithout(rs: seq<Record>, id: int, k: nat)
    requires UniqueIds(rs) && k < |rs| && rs[k].id == id
    ensures rs[..k] + rs[k + 1..] == Without(rs, id)
  {
    var n := |rs| - 1;
    if k == n {
      WithoutAbsent(rs[..n], id);
    } else {
      EraseIsWithout(rs[..n], id, k);
      assert rs[..n][..k] == rs[..k];
      assert rs[..n][k + 1..] + [rs[n]] == rs[k + 1..];
    }
  }

  /** `xs` is `ys` with some elements dropped and the rest kept in their order. */
  predicate IsSubsequence<T(==)>(xs: seq<T>, ys: seq<T>)
    decreases |ys|
  {
    if ys == [] then xs == []
    else
      || IsSubsequence(xs, ys[..|ys| - 1])
      || (xs != [] && xs[|xs| - 1] == ys[|ys| - 1] && IsSubsequence(xs[..|xs| - 1], ys[..|ys| - 1]))
  }

  lemma {:induction false} WithoutSubsequence(rs: seq<Record>, id: int)
    ensures IsSubsequence(Without(rs, id), rs)
  {
    if rs != [] {
      var n := |rs| - 1;
      var w := Without(rs[..n], id);
      WithoutSubsequence(rs[..n], id);
      assert rs[..|rs| - 1] == rs[..n];
      if rs[n].id != id {
        assert Without(rs, id) == w + [rs[n]];
        assert (w + [rs[n]])[..|w|] == w;
      } else {
        assert Without(rs, id) == w;
      }
    }
  }

  /** Query parameters by field; an absent parameter reads as "". */
  type Criteria = map<Field, string>

  function Wanted(c: Criteria, f: Field): string {
    if f in c then c[f] else ""
  }

  /**
    Whether a field's text satisfies a query parameter: an empty parameter
    always does, otherwise the text must equal it, except that a phone
    parameter of three bytes also matches a phone that starts with those
    bytes (its area code). The server's strings hold UTF-8, and `length`
    and `substr` count bytes, not characters.
   */
  predicate Satisfies(f: Field, want: string, have: string) {
    || want == ""
    || have == want
    || (f == Phone && AreaCode(want, have))
  }

  predicate AreaCode(want: string, have: string) {
    var w, h := Utf8.Encode(want), Utf8.Encode(have);
    |w| == 3 && |h| >= 3 && h[..3] == w
  }

  /** The test read wholly on bytes, as `std::string` compares them. */
  lemma SatisfiesOnBytes(f: Field, want: string, have: string)
    ensures Satisfies(f, want, have) <==>
      || Utf8.Encode(want) == []
      || Utf8.Encode(have) == Utf8.Encode(want)
      || (f == Phone && AreaCode(want, have))
  {
    if Utf8.Encode(have) == Utf8.Encode(want) {
      Utf8.EncodeInjective(have, want);
    }
  }

  /** For ASCII text the byte test is the character test. */
  lemma AsciiAreaCode(want: string, have: string)
    requires Utf8.IsAscii(want) && Utf8.IsAscii(have)
    ensures AreaCode(want, have) <==> |want| == 3 && |have| >= 3 && have[..3] == want
  {
    Utf8.EncodeAscii(want);
    Utf8.EncodeAscii(have);
    if |want| == 3 && |have| >= 3 {
      var w, h := Utf8.Encode(want), Utf8.Encode(have);
      assert h[..3] == w <==> have[..3] == want by {
        if h[..3] == w {
          assert forall i :: 0 <= i < 3 ==> have[i] as int == want[i] as int by {
            assert forall i :: 0 <= i < 3 ==> h[..3][i] == w[i];
          }
        }
      }
    }
  }

  /**
    Counting bytes differs from counting characters once the text leaves
    ASCII: "\U{20AC}" (three bytes, one character) is an area code of
    "\U{20AC}55", while "12\U{E9}" (four bytes, three characters) is not one
    of "12\U{E9}999".
   */
  lemma MultiByteAreaCode()
    ensures AreaCode("\U{20AC}", "\U{20AC}55") && |"\U{20AC}"| == 1
    ensures !Satisfies(Phone, "12\U{E9}", "12\U{E9}999") && "12\U{E9}999"[..3] == "12\U{E9}"
  {
    assert Utf8.Encode("\U{20AC}") == [0xE2, 0x82, 0xAC];
    assert |Utf8.Encode("12\U{E9}")| == 4;
  }

  predicate Matches(r: Record, c: Criteria) {
    forall f :: Satisfies(f, Wanted(c, f), Text(r, f))
  }

  /** The records a query selects, in store order. */
  function Filter(rs: seq<Record>, c: Criteria): seq<Record> {
    if rs == [] then []
    else Filter(rs[..|rs| - 1], c) + (if Matches(rs[|rs| - 1], c) then [rs[|rs| - 1]] else [])
  }

  /** Filtering one record more adds it at the end when it matches. */
  lemma FilterStep(rs: seq<Record>, i: nat, c: Criteria)
    requires i < |rs|
    ensures Filter(rs[..i + 1], c) == Filter(rs[..i], c) + if Matches(rs[i], c) then [rs[i]] else []
  {
    assert rs[..i + 1][..i] == rs[..i];
  }

  lemma ToJsonListSnoc(rs: seq<Record>, r: Record)
    ensures ToJsonList(rs + [r]) == ToJsonList(rs) + [ToJson(r)]
  {
    assert forall i :: 0 <= i < |rs| ==> (rs + [r])[i] == rs[i];
  }

  lemma {:induction false} FilterMembers(rs: seq<Record>, c: Criteria)
    ensures forall x :: x in Filter(rs, c) <==> x in rs && Matches(x, c)
  {
    if rs != [] {
      FilterMembers(rs[..|rs| - 1], c);
      assert rs == rs[..|rs| - 1] + [rs[|rs| - 1]];
    }
  }

  lemma {:induction false} FilterSubsequence(rs: seq<Record>, c: Criteria)
    ensures IsSubsequence(Filter(rs, c), rs)
  {
    if rs != [] {
      var n := |rs| - 1;
      var w := Filter(rs[..n], c);
      FilterSubsequence(rs[..n], c);
      assert rs[..|rs| - 1] == rs[..n];
      if Matches(rs[n], c) {
        assert Filter(rs, c) == w + [rs[n]];
        assert (w + [rs[n]])[..|w|] == w;
      } else {
        assert Filter(rs, c) == w;
      }
    }
  }

  /** With no non-empty parameter a query returns every record. */
  lemma {:induction false} FilterEverything(rs: seq<Record>, c: Criteria)
    requires forall f :: Wanted(c, f) == ""
    ensures Filter(rs, c) == rs
  {
    if rs != [] {
      FilterEverything(rs[..|rs| - 1], c);
    }
  }

  /**
    A phone parameter that is the area code of the record's phone lets the
    record through exactly when the other parameters do.
   */
  lemma AreaCodeMatches(r: Record, c: Criteria)
    requires AreaCode(Wanted(c, Phone), r.phone)
    ensures Matches(r, c) <==> forall f :: f != Phone ==> Satisfies(f, Wanted(c, f), Text(r, f))
  {
  }

  /** A phone parameter that is neither the phone nor three bytes long rejects the record. */
  lemma PhoneMismatch(r: Record, c: Criteria)
    requires Wanted(c, Phone) != "" && |Utf8.Encode(Wanted(c, Phone))| != 3 && r.phone != Wanted(c, Phone)
    ensures !Matches(r, c)
  {
    assert !Satisfies(Phone, Wanted(c, Phone), Text(r, Phone));
  }

  /** The per-record test of `query`, one parameter after the other. */
  method RecordMatches(r: Record, c: Criteria) returns (m: bool)
    ensures m == Matches(r, c)
  {
    // `all` is the conjunction of the criteria checked so far.
    ghost var all := true;
    m := true;
    if Wanted(c, FirstName) != "" && r.firstName != Wanted(c, FirstName) { m := false; }
    all := all && Satisfies(FirstName, Wanted(c, FirstName), r.firstName);
    assert m == all;
    if Wanted(c, MiddleName) != "" && r.middleName != Wanted(c, MiddleName) { m := false; }
    all := all && Satisfies(MiddleName, Wanted(c, MiddleName), r.middleName);
    assert m == all;
    if Wanted(c, LastName) != "" && r.lastName != Wanted(c, LastName) { m := false; }
    all := all && Satisfies(LastName, Wanted(c, LastName), r.lastName);
    assert m == all;
    if Wanted(c, Street) != "" && r.street != Wanted(c, Street) { m := false; }
    all := all && Satisfies(Street, Wanted(c, Street), r.street);
    assert m == all;
    if Wanted(c, City) != "" && r.city != Wanted(c, City) { m := false; }
    all := all && Satisfies(City, Wanted(c, City), r.city);
    assert m == all;
    if Wanted(c, State) != "" && r.state != Wanted(c, State) { m := false; }
    all := all && Satisfies(State, Wanted(c, State), r.state);
    assert m == all;
    if Wanted(c, Zip) != "" && r.zip != Wanted(c, Zip) { m := false; }
    all := all && Satisfies(Zip, Wanted(c, Zip), r.zip);
    assert m == all;
    if Wanted(c, Email) != "" && r.email != Wanted(c, Email) { m := false; }
    all := all && Satisfies(Email, Wanted(c, Email), r.email);
    assert m == all;
    var phone := Wanted(c, Phone);
    if phone != "" {
      var wantBytes, haveBytes := Utf8.Encode(phone), Utf8.Encode(r.phone);
      if r.phone == phone {
        // full match
      } else if |wantBytes| == 3 && |haveBytes| >= 3 && haveBytes[..3] == wantBytes {
        // area code match
      } else {
        m := false;
      }
    }
    all := all && Satisfies(Phone, phone, r.phone);
    assert m == all;
    MatchesByField(r, c);
  }

  lemma MatchesByField(r: Record, c: Criteria)
    ensures Matches(r, c) <==>
      && Satisfies(FirstName, Wanted(c, FirstName), r.firstName)
      && Satisfies(MiddleName, Wanted(c, MiddleName), r.middleName)
      && Satisfies(LastName, Wanted(c, LastName), r.lastName)
      && Satisfies(Street, Wanted(c, Street), r.street)
      && Satisfies(City, Wanted(c, City), r.city)
      && Satisfies(State, Wanted(c, State), r.state)
      && Satisfies(Zip, Wanted(c, Zip), r.zip)
      && Satisfies(Email, Wanted(c, Email), r.email)
      && Satisfies(Phone, Wanted(c, Phone), r.phone)
  {
  }

  function ToJsonList(rs: seq<Record>): (vs: seq<Value>)
    ensures |vs| == |rs| && forall i :: 0 <= i < |rs| ==> vs[i] == ToJson(rs[i])
  {
    seq(|rs|, i requires 0 <= i < |rs| => ToJson(rs[i]))
  }

  // ---------------------------------------------------------------------
  // Responses

  datatype Body = Plain(text: string) | Dumped(value: Value)

  datatype Response = Response(status: int, body: Body)

  const Ok := 200
  const Created := 201
  const NoContent := 204
  const BadRequest := 400
  const NotFound := 404

  const InvalidJson := Response(BadRequest, Plain("Invalid JSON"))
  const RecordNotFound := Response(NotFound, Plain("Record not found"))
  const Done := Response(NoContent, Plain(""))

  // ---------------------------------------------------------------------
  // The store

  /** Ids are distinct and every id was handed out before `nextId`. */
  predicate StoreInvariant(rs: seq<Record>, nextId: int) {
    && 1 <= nextId
    && UniqueIds(rs)
    && forall i :: 0 <= i < |rs| ==> 1 <= rs[i].id < nextId
  }

  /** Appending a record under the next id and moving past it keeps the invariant. */
  lemma AppendKeepsInvariant(rs: seq<Record>, nextId: int, r: Record)
    requires StoreInvariant(rs, nextId) && r.id == nextId
    ensures StoreInvariant(rs + [r], nextId + 1)
  {
  }

  /** Replacing a record by one with the same id keeps the invariant. */
  lemma ReplaceKeepsInvariant(rs: seq<Record>, nextId: int, k: nat, r: Record)
    requires StoreInvariant(rs, nextId) && k < |rs| && r.id == rs[k].id
    ensures StoreInvariant(rs[k := r], nextId)
  {
  }

  /** Erasing one record keeps the invariant. */
  lemma EraseKeepsInvariant(rs: seq<Record>, nextId: int, k: nat)
    requires StoreInvariant(rs, nextId) && k < |rs|
    ensures StoreInvariant(rs[..k] + rs[k + 1..], nextId)
  {
    var qs := rs[..k] + rs[k + 1..];
    assert forall i :: 0 <= i < |qs| ==> qs[i] == rs[if i < k then i else i + 1];
  }

  class Store {
    var records: seq<Record>
    var nextId: int

    /** Ids are distinct and every id was handed out before `nextId`. */
    ghost predicate Valid()
      reads this
    {
      StoreInvariant(records, nextId)
    }

    constructor ()
      ensures Valid() && records == [] && nextId == 1
    {
      records := [];
      nextId := 1;
    }

    /** `std::find_if` over the records for the id. */
    method FindIndex(id: int) returns (k: Option<nat>)
      ensures k == FirstWithId(records, id)
    {
      var i := 0;
      while i < |records|
        invariant 0 <= i <= |records|
        invariant forall j :: 0 <= j < i ==> records[j].id != id
      {
        if records[i].id == id {
          return Some(i);
        }
        i := i + 1;
      }
      return None;
    }

    /** `ApiHandler::create`. */
    method Create(body: Option<Value>) returns (res: Response)
      requires Valid()
      modifies this
      ensures Valid()
      ensures body.None? ==> res == InvalidJson && records == old(records) && nextId == old(nextId)
      ensures body.Some? ==> nextId == old(nextId) + 1
      ensures body.Some? ==>
        match BuildRecord(body.value, old(nextId))
        case Some(r) => records == old(records) + [r] && res == Response(Created, Dumped(ToJson(r)))
        case None => records == old(records) && res == InvalidJson
    {
      if body.None? {
        return InvalidJson;
      }
      var id := nextId;
      nextId := nextId + 1;
      var r := BuildRecord(body.value, id);
      if r.None? {
        return InvalidJson;
      }
      assert r.value.id == id by {
        BuildRecordFields(body.value, id);
      }
      AppendKeepsInvariant(records, id, r.value);
      records := records + [r.value];
      return Response(Created, Dumped(ToJson(r.value)));
    }

    /** `ApiHandler::read`. */
    method Read(id: int) returns (res: Response)
      ensures match FirstWithId(records, id)
              case Some(k) => res == Response(Ok, Dumped(ToJson(records[k])))
              case None => res == RecordNotFound
    {
      var k := FindIndex(id);
      if k.None? {
        return RecordNotFound;
      }
      return Response(Ok, Dumped(ToJson(records[k.value])));
    }

    /** `ApiHandler::update`. */
    method Update(id: int, body: Option<Value>) returns (res: Response)
      requires Valid()
      modifies this
      ensures Valid() && nextId == old(nextId)
      ensures body.None? ==> res == InvalidJson && records == old(records)
      ensures body.Some? && FirstWithId(old(records), id).None? ==> res == RecordNotFound && records == old(records)
      ensures body.Some? && FirstWithId(old(records), id).Some? ==>
        var k := FirstWithId(old(records), id).value;
        var p := Patch(old(records)[k], body.value, Fields);
        && records == old(records)[k := p.record]
        && res == if p.ok then Response(Ok, Dumped(ToJson(p.record))) else InvalidJson
    {
      if body.None? {
        return InvalidJson;
      }
      var found := FindIndex(id);
      if found.None? {
        return RecordNotFound;
      }
      var k := found.value;
      PatchKeepsId(records[k], body.value, Fields);
      ReplaceKeepsInvariant(records, nextId, k, Patch(records[k], body.value, Fields).record);
      var ok := AssignFields(k, body.value);
      if !ok {
        return InvalidJson;
      }
      return Response(Ok, Dumped(ToJson(records[k])));
    }

    /**
      The field assignments of `update` on the record at `k`, through the
      iterator the search returned; `ok` is false when one of them threw.
     */
    method AssignFields(k: nat, body: Value) returns (ok: bool)
      requires k < |records|
      modifies this
      ensures nextId == old(nextId)
      ensures records == old(records)[k := Patch(old(records)[k], body, Fields).record]
      ensures ok == Patch(old(records)[k], body, Fields).ok
    {
      ghost var goal := Patch(records[k], body, Fields);
      var rest := Fields;
      while rest != []
        invariant |records| == |old(records)|
        invariant records == old(records)[k := records[k]]
        invariant goal == Patch(records[k], body, rest)
        invariant nextId == old(nextId)
        decreases |rest|
      {
        PatchStep(records[k], body, rest);
        ok := AssignField(k, body, rest[0]);
        if !ok {
          return;
        }
        rest := rest[1..];
      }
      return true;
    }

    /** `if (body.contains(name)) it-><field> = body[name].get<std::string>();` */
    method AssignField(k: nat, body: Value, f: Field) returns (ok: bool)
      requires k < |records|
      modifies this
      ensures nextId == old(nextId)
      ensures ok == !FieldUpdate(body, f).Throw?
      ensures records == old(records)[k := Assigned(old(records)[k], body, f)]
    {
      match FieldUpdate(body, f) {
        case Keep =>
        case Set(s) =>
          records := records[k := WithText(records[k], f, s)];
        case Throw =>
          return false;
      }
      return true;
    }

    /** `ApiHandler::del`. */
    method Delete(id: int) returns (res: Response)
      requires Valid()
      modifies this
      ensures Valid() && nextId == old(nextId)
      ensures records == Without(old(records), id)
      ensures match FirstWithId(old(records), id)
              case Some(k) => res == Done && records == old(records)[..k] + old(records)[k + 1..]
              case None => res == RecordNotFound && records == old(records)
    {
      var found := FindIndex(id);
      if found.None? {
        WithoutAbsent(records, id);
        return RecordNotFound;
      }
      var k := found.value;
      EraseIsWithout(records, id, k);
      EraseKeepsInvariant(records, nextId, k);
      records := records[..k] + records[k + 1..];
      return Done;
    }

    /** `ApiHandler::reset`. */
    method Reset() returns (res: Response)
      modifies this
      ensures Valid() && records == [] && nextId == 1 && res == Done
    {
      records := [];
      nextId := 1;
      return Done;
    }

    /** `ApiHandler::query`. */
    method Query(c: Criteria) returns (res: Response)
      ensures res == Response(Ok, Dumped(Array(ToJsonList(Filter(records, c)))))
    {
      var results: seq<Value> := [];
      var i := 0;
      while i < |records|
        invariant 0 <= i <= |records|
        invariant results == ToJsonList(Filter(records[..i], c))
      {
        var m := RecordMatches(records[i], c);
        FilterStep(records, i, c);
        if m {
          ToJsonListSnoc(Filter(records[..i], c), records[i]);
          results := results + [ToJson(records[i])];
        }
        i := i + 1;
      }
      assert records[..i] == records;
      return Response(Ok, Dumped(Array(results)));
    }
  }
}
