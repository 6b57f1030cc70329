/**
  The acceptance-test steps that drive the contacts API over HTTP. One
  `ApiTest` value is shared by every scenario of the suite: it remembers the
  status and body of the last response and the id of the last contact the
  steps created, and the steps and checks read and update those three.

  The HTTP client is outside the model: each sending step states the request
  it builds and takes the client's answer to it as an `Exchange`. Go's JSON
  parser is outside the model too: it is the `decode` function an `ApiTest`
  is built with.
 */
module ApiSteps {
  import opened Options
  import Json
  import JsonLaws
  import Template
  import Decimal
  import ContactStore

  datatype Verb = Post | Get | Put | Delete

  /** A request as a step builds it; one with a body carries the JSON content type. */
  datatype Request = Request(verb: Verb, url: string, body: Option<string>)

  /** What the HTTP client made of a request. */
  datatype Exchange =
    | NotBuilt                            // the request could not be built from its URL
    | NotSent                             // the client returned an error
    | NotRead(status: int)                // a response came, reading its body failed
    | Received(status: int, body: string) // a response came and its body was read

  /** The error a step returns, one variant per message of the test code. */
  datatype StepError =
    | CannotCreate(verb: Verb)
    | CannotSend(verb: Verb)
    | CannotRead(verb: Verb)
    | ContactNotCreated(status: int)
    | DecodeFailed
    | IdNotNumber
    | NoResponse
    | WrongStatus(expected: int, got: int, body: string)
    | UnmarshalFailed(body: string)
    | NoContactId(body: string)
    | ExpectedUnmarshalFailed
    | WrongCount(expectedCount: nat, gotCount: nat)
    | Mismatch(expectedText: string, actualText: string)

  /** A value Go can decode into `map[string]interface{}`: an object, or null for a nil map. */
  predicate IsMap(v: Json.Value) {
    v.Object? || v.Null?
  }

  /** A value Go can decode into `[]map[string]interface{}`: null for a nil slice, or an array of maps. */
  predicate IsMapList(v: Json.Value) {
    v.Null? || (v.Array? && forall i :: 0 <= i < |v.items| ==> IsMap(v.items[i]))
  }

  /** `len` of a decoded slice; a nil slice has none. */
  function Count(v: Json.Value): nat {
    if v.Array? then |v.items| else 0
  }

  /** The "id" member when it is a number; a nil map has no members. */
  function NumberId(m: Json.Value): Option<int> {
    match Json.Get(m, "id")
    case Some(Number(n)) => Some(n)
    case _ => None
  }

  /**
    The JSON comparison of two decoded values: they agree when Go writes the
    same text for both, and a mismatch carries the two texts.
   */
  function CompareJson(actual: Json.Value, expected: Json.Value): (err: Option<StepError>)
    ensures err.None? <==> Json.Equivalent(actual, expected)
    ensures err.Some? ==> err.value == Mismatch(Json.Serialize(expected), Json.Serialize(actual))
  {
    JsonLaws.SameTextIffEquivalent(actual, expected);
    var a := Json.Serialize(actual);
    var e := Json.Serialize(expected);
    if a != e then Some(Mismatch(e, a)) else None
  }

  /** A value agrees with itself. */
  lemma CompareJsonReflexive(v: Json.Value)
    ensures CompareJson(v, v) == None
  {
    JsonLaws.EquivalentReflexive(v);
  }

  /** The comparison gives the same verdict with its arguments swapped. */
  lemma CompareJsonSymmetric(a: Json.Value, b: Json.Value)
    ensures CompareJson(a, b).None? <==> CompareJson(b, a).None?
  {
    JsonLaws.SameTextIffEquivalent(a, b);
    JsonLaws.SameTextIffEquivalent(b, a);
  }

  /** Objects whose distinct members come in another order compare equal. */
  lemma CompareJsonIgnoresOrder(ms: seq<Json.Member>, ps: seq<Json.Member>)
    requires Json.DistinctKeys(ms)
    requires multiset(ms) == multiset(ps)
    ensures CompareJson(Json.Object(ms), Json.Object(ps)) == None
  {
    JsonLaws.KeyOrderIrrelevant(ms, ps);
  }

  /** Arrays are compared element by element in order: a swap of two different elements is a mismatch. */
  lemma CompareJsonKeepsOrder(x: Json.Value, y: Json.Value)
    requires !Json.Equivalent(x, y)
    ensures CompareJson(Json.Array([x, y]), Json.Array([y, x])).Some?
  {
    var a, b := Json.Array([x, y]), Json.Array([y, x]);
    assert a.items[0] == x && b.items[0] == y;
    assert !Json.Equivalent(a, b);
  }

  /** The contact the fixture steps create, with the members in the order the test code lists them. */
  function Contact(firstName: string, phone: string): Json.Value {
    Json.Object([
      Json.Member("first_name", Json.String(firstName)),
      Json.Member("last_name", Json.String("Doe")),
      Json.Member("phone", Json.String(phone)),
      Json.Member("email", Json.String("john@example.com")),
      Json.Member("street", Json.String("123 Main St")),
      Json.Member("city", Json.String("Anytown")),
      Json.Member("state", Json.String("CA")),
      Json.Member("zip", Json.String("12345"))
    ])
  }

  class ApiTest {
    const baseUrl: string
    const decode: string -> Option<Json.Value>
    /** The status of the last response, None before any. */
    var lastResponse: Option<int>
    var lastResponseBody: string
    var lastCreatedId: int

    constructor (baseUrl: string, decode: string -> Option<Json.Value>)
      ensures this.baseUrl == baseUrl && this.decode == decode
      ensures lastResponse == None && lastResponseBody == "" && lastCreatedId == 0
    {
      this.baseUrl := baseUrl;
      this.decode := decode;
      lastResponse := None;
      lastResponseBody := "";
      lastCreatedId := 0;
    }

    /** `json.Unmarshal` of `text` into `map[string]interface{}`. */
    function AsMap(text: string): (m: Option<Json.Value>)
      ensures m.Some? <==> decode(text).Some? && IsMap(decode(text).value)
      ensures m.Some? ==> m == decode(text)
    {
      match decode(text)
      case Some(v) => if IsMap(v) then Some(v) else None
      case None => None
    }

    /** `json.Unmarshal` of `text` into `[]map[string]interface{}`. */
    function AsMapList(text: string): (m: Option<Json.Value>)
      ensures m.Some? <==> decode(text).Some? && IsMapList(decode(text).value)
      ensures m.Some? ==> m == decode(text)
    {
      match decode(text)
      case Some(v) => if IsMapList(v) then Some(v) else None
      case None => None
    }

    /** The id a POST step keeps: the "id" of a decoded map when it is a number, else the old one. */
    function CapturedId(body: string, previous: int): int {
      match AsMap(body)
      case Some(m) => (match NumberId(m) case Some(n) => n case None => previous)
      case None => previous
    }

    /** A placeholder in a path or a document stands for the last id created. */
    function Expand(text: string): string
      reads this
    {
      Template.Substitute(text, lastCreatedId)
    }

    /**
      The common tail of the sending steps: a response replaces the last
      status, and its body replaces the last body once it is read.
     */
    method Observe(verb: Verb, ex: Exchange) returns (err: Option<StepError>)
      modifies this
      ensures ex.NotBuilt? ==> err == Some(CannotCreate(verb))
      ensures ex.NotSent? ==> err == Some(CannotSend(verb))
      ensures ex.NotRead? ==> err == Some(CannotRead(verb))
      ensures ex.Received? ==> err == None
      ensures lastResponse == (if ex.NotRead? || ex.Received? then Some(ex.status) else old(lastResponse))
      ensures lastResponseBody == (if ex.Received? then ex.body else old(lastResponseBody))
      ensures lastCreatedId == old(lastCreatedId)
    {
      match ex
      case NotBuilt =>
        err := Some(CannotCreate(verb));
      case NotSent =>
        err := Some(CannotSend(verb));
      case NotRead(status) =>
        lastResponse := Some(status);
        err := Some(CannotRead(verb));
      case Received(status, body) =>
        lastResponse := Some(status);
        lastResponseBody := body;
        err := None;
    }

    /**
      POST `details` to the path as written (no placeholder is expanded
      here); when the body read back decodes to a map whose "id" is a
      number, that number becomes the last id created.
     */
    method SendPost(path: string, details: string, ex: Exchange) returns (req: Request, err: Option<StepError>)
      modifies this
      ensures req == Request(Post, baseUrl + path, Some(details))
      ensures ex.NotBuilt? ==> err == Some(CannotCreate(Post))
      ensures ex.NotSent? ==> err == Some(CannotSend(Post))
      ensures ex.NotRead? ==> err == Some(CannotRead(Post))
      ensures ex.Received? ==> err == None
      ensures lastResponse == (if ex.NotRead? || ex.Received? then Some(ex.status) else old(lastResponse))
      ensures lastResponseBody == (if ex.Received? then ex.body else old(lastResponseBody))
      ensures lastCreatedId == (if ex.Received? then CapturedId(ex.body, old(lastCreatedId)) else old(lastCreatedId))
    {
      req := Request(Post, baseUrl + path, Some(details));
      err := Observe(Post, ex);
      if ex.Received? {
        lastCreatedId := CapturedId(ex.body, lastCreatedId);
      }
    }

    /** GET the path with the placeholder expanded. */
    method SendGet(path: string, ex: Exchange) returns (req: Request, err: Option<StepError>)
      modifies this
      ensures req == Request(Get, baseUrl + old(Expand(path)), None)
      ensures ex.NotBuilt? ==> err == Some(CannotCreate(Get))
      ensures ex.NotSent? ==> err == Some(CannotSend(Get))
      ensures ex.NotRead? ==> err == Some(CannotRead(Get))
      ensures ex.Received? ==> err == None
      ensures lastResponse == (if ex.NotRead? || ex.Received? then Some(ex.status) else old(lastResponse))
      ensures lastResponseBody == (if ex.Received? then ex.body else old(lastResponseBody))
      ensures lastCreatedId == old(lastCreatedId)
    {
      req := Request(Get, baseUrl + Expand(path), None);
      err := Observe(Get, ex);
    }

    /** PUT `details`, as written, to the path with the placeholder expanded. */
    method SendPut(path: string, details: string, ex: Exchange) returns (req: Request, err: Option<StepError>)
      modifies this
      ensures req == Request(Put, baseUrl + old(Expand(path)), Some(details))
      ensures ex.NotBuilt? ==> err == Some(CannotCreate(Put))
      ensures ex.NotSent? ==> err == Some(CannotSend(Put))
      ensures ex.NotRead? ==> err == Some(CannotRead(Put))
      ensures ex.Received? ==> err == None
      ensures lastResponse == (if ex.NotRead? || ex.Received? then Some(ex.status) else old(lastResponse))
      ensures lastResponseBody == (if ex.Received? then ex.body else old(lastResponseBody))
      ensures lastCreatedId == old(lastCreatedId)
    {
      req := Request(Put, baseUrl + Expand(path), Some(details));
      err := Observe(Put, ex);
    }

    /** DELETE the path with the placeholder expanded. */
    method SendDelete(path: string, ex: Exchange) returns (req: Request, err: Option<StepError>)
      modifies this
      ensures req == Request(Delete, baseUrl + old(Expand(path)), None)
      ensures ex.NotBuilt? ==> err == Some(CannotCreate(Delete))
      ensures ex.NotSent? ==> err == Some(CannotSend(Delete))
      ensures ex.NotRead? ==> err == Some(CannotRead(Delete))
      ensures ex.Received? ==> err == None
      ensures lastResponse == (if ex.NotRead? || ex.Received? then Some(ex.status) else old(lastResponse))
      ensures lastResponseBody == (if ex.Received? then ex.body else old(lastResponseBody))
      ensures lastCreatedId == old(lastCreatedId)
    {
      req := Request(Delete, baseUrl + Expand(path), None);
      err := Observe(Delete, ex);
    }

    /**
      The fixture steps: POST the contact's canonical text to "/records",
      demand 201, decode the body and take its "id". The last response and
      body are left alone. An "id" that is missing or not a number fails the
      unchecked type assertion of the test code, which is `IdNotNumber` here.
     */
    method CreateContact(contact: Json.Value, ex: Exchange) returns (req: Request, err: Option<StepError>)
      modifies this`lastCreatedId
      ensures req == Request(Post, baseUrl + "/records", Some(Json.Serialize(contact)))
      ensures ex.NotBuilt? ==> err == Some(CannotCreate(Post))
      ensures ex.NotSent? ==> err == Some(CannotSend(Post))
      ensures (ex.NotRead? || ex.Received?) && ex.status != ContactStore.Created ==>
                err == Some(ContactNotCreated(ex.status))
      ensures ex.NotRead? && ex.status == ContactStore.Created ==> err == Some(DecodeFailed)
      ensures ex.Received? && ex.status == ContactStore.Created && AsMap(ex.body).None? ==>
                err == Some(DecodeFailed)
      ensures ex.Received? && ex.status == ContactStore.Created && AsMap(ex.body).Some? ==>
                err == (if NumberId(AsMap(ex.body).value).Some? then None else Some(IdNotNumber))
      ensures lastCreatedId == (if err.None? then NumberId(AsMap(ex.body).value).value else old(lastCreatedId))
    {
      req := Request(Post, baseUrl + "/records", Some(Json.Serialize(contact)));
      match ex
      case NotBuilt =>
        err := Some(CannotCreate(Post));
      case NotSent =>
        err := Some(CannotSend(Post));
      case NotRead(status) =>
        err := if status != ContactStore.Created then Some(ContactNotCreated(status)) else Some(DecodeFailed);
      case Received(status, body) =>
        if status != ContactStore.Created {
          err := Some(ContactNotCreated(status));
        } else {
          match AsMap(body)
          case None =>
            err := Some(DecodeFailed);
          case Some(m) =>
            match NumberId(m)
            case None =>
              err := Some(IdNotNumber);
            case Some(n) =>
              lastCreatedId := n;
              err := None;
        }
    }

    /** "a contact exists with ID {id}": the id of the step text is not used. */
    method ContactExistsWithId(id: string, ex: Exchange) returns (req: Request, err: Option<StepError>)
      modifies this`lastCreatedId
      ensures req == Request(Post, baseUrl + "/records", Some(Json.Serialize(Contact("John", "1234567890"))))
      ensures (ex.NotRead? || ex.Received?) && ex.status != ContactStore.Created ==>
                err == Some(ContactNotCreated(ex.status))
      ensures err.None? <==>
                ex.Received? && ex.status == ContactStore.Created &&
                AsMap(ex.body).Some? && NumberId(AsMap(ex.body).value).Some?
      ensures lastCreatedId == (if err.None? then NumberId(AsMap(ex.body).value).value else old(lastCreatedId))
    {
      req, err := CreateContact(Contact("John", "1234567890"), ex);
    }

    method ContactExistsWithFirstNameAndPhone(firstName: string, phone: string, ex: Exchange)
      returns (req: Request, err: Option<StepError>)
      modifies this`lastCreatedId
      ensures req == Request(Post, baseUrl + "/records", Some(Json.Serialize(Contact(firstName, phone))))
      ensures (ex.NotRead? || ex.Received?) && ex.status != ContactStore.Created ==>
                err == Some(ContactNotCreated(ex.status))
      ensures err.None? <==>
                ex.Received? && ex.status == ContactStore.Created &&
                AsMap(ex.body).Some? && NumberId(AsMap(ex.body).value).Some?
      ensures lastCreatedId == (if err.None? then NumberId(AsMap(ex.body).value).value else old(lastCreatedId))
    {
      req, err := CreateContact(Contact(firstName, phone), ex);
    }

    /** The status check: it passes exactly when the last response has the expected status. */
    function StatusIs(expected: int): (err: Option<StepError>)
      reads this
      ensures err.None? <==> lastResponse == Some(expected)
      ensures lastResponse.None? ==> err == Some(NoResponse)
      ensures lastResponse.Some? && lastResponse.value != expected ==>
                err == Some(WrongStatus(expected, lastResponse.value, lastResponseBody))
    {
      match lastResponse
      case None => Some(NoResponse)
      case Some(status) =>
        if status != expected then Some(WrongStatus(expected, status, lastResponseBody)) else None
    }

    /**
      The id check: the last body must decode to a map, and it passes
      exactly when that map is an object with a member named "id", whatever
      its value. A null body decodes to a nil map, which has no "id".
     */
    function ContainsContactId(): (err: Option<StepError>)
      reads this
      ensures err.None? <==>
                decode(lastResponseBody).Some? && decode(lastResponseBody).value.Object? &&
                exists j :: 0 <= j < |decode(lastResponseBody).value.members| &&
                            decode(lastResponseBody).value.members[j].key == "id"
      ensures AsMap(lastResponseBody).None? ==> err == Some(UnmarshalFailed(lastResponseBody))
      ensures AsMap(lastResponseBody).Some? && err.Some? ==> err == Some(NoContactId(lastResponseBody))
    {
      match AsMap(lastResponseBody)
      case None => Some(UnmarshalFailed(lastResponseBody))
      case Some(m) =>
        if m.Object? && Json.Find(m.members, "id").Some? then None
        else Some(NoContactId(lastResponseBody))
    }

    /**
      The details checks (for a created and for an updated contact alike):
      the expected document, with the placeholder expanded, and then the
      last body must each decode to a map, and the check passes exactly when
      the two are equivalent.
     */
    function DetailsMatch(doc: string): (err: Option<StepError>)
      reads this
      ensures AsMap(Expand(doc)).None? ==> err == Some(ExpectedUnmarshalFailed)
      ensures AsMap(Expand(doc)).Some? && AsMap(lastResponseBody).None? ==>
                err == Some(UnmarshalFailed(lastResponseBody))
      ensures err.None? <==>
                AsMap(Expand(doc)).Some? && AsMap(lastResponseBody).Some? &&
                Json.Equivalent(AsMap(lastResponseBody).value, AsMap(Expand(doc)).value)
    {
      match AsMap(Expand(doc))
      case None => Some(ExpectedUnmarshalFailed)
      case Some(expected) =>
        match AsMap(lastResponseBody)
        case None => Some(UnmarshalFailed(lastResponseBody))
        case Some(actual) => CompareJson(actual, expected)
    }

    /**
      The list check: both documents decode to lists of maps; lists of
      different lengths fail with the two counts before any comparison, and
      otherwise the check passes exactly when the lists are equivalent.
     */
    function ListMatch(doc: string): (err: Option<StepError>)
      reads this
      ensures AsMapList(Expand(doc)).None? ==> err == Some(ExpectedUnmarshalFailed)
      ensures AsMapList(Expand(doc)).Some? && AsMapList(lastResponseBody).None? ==>
                err == Some(UnmarshalFailed(lastResponseBody))
      ensures AsMapList(Expand(doc)).Some? && AsMapList(lastResponseBody).Some? &&
              Count(AsMapList(lastResponseBody).value) != Count(AsMapList(Expand(doc)).value) ==>
                err == Some(WrongCount(Count(AsMapList(Expand(doc)).value), Count(AsMapList(lastResponseBody).value)))
      ensures err.None? <==>
                AsMapList(Expand(doc)).Some? && AsMapList(lastResponseBody).Some? &&
                Json.Equivalent(AsMapList(lastResponseBody).value, AsMapList(Expand(doc)).value)
    {
      match AsMapList(Expand(doc))
      case None => Some(ExpectedUnmarshalFailed)
      case Some(expected) =>
        match AsMapList(lastResponseBody)
        case None => Some(UnmarshalFailed(lastResponseBody))
        case Some(actual) =>
          if Count(actual) != Count(expected) then Some(WrongCount(Count(expected), Count(actual)))
          else CompareJson(actual, expected)
    }

    /**
      A second GET, with the placeholder expanded, that must answer with
      `statusCode`; it leaves the last response, body and id alone. The body
      is read only to report a wrong status. When that read fails, Go keeps
      the part `io.ReadAll` returned with its error; an `Exchange` carries no
      partial body, so the model reports "" there.
     */
    method SubsequentGet(path: string, statusCode: int, ex: Exchange) returns (req: Request, err: Option<StepError>)
      ensures req == Request(Get, baseUrl + Expand(path), None)
      ensures ex.NotBuilt? ==> err == Some(CannotCreate(Get))
      ensures ex.NotSent? ==> err == Some(CannotSend(Get))
      ensures err.None? <==> (ex.NotRead? || ex.Received?) && ex.status == statusCode
      ensures (ex.NotRead? || ex.Received?) && ex.status != statusCode ==>
                err == Some(WrongStatus(statusCode, ex.status, if ex.Received? then ex.body else ""))
    {
      req := Request(Get, baseUrl + Expand(path), None);
      match ex
      case NotBuilt =>
        err := Some(CannotCreate(Get));
      case NotSent =>
        err := Some(CannotSend(Get));
      case NotRead(status) =>
        err := if status != statusCode then Some(WrongStatus(statusCode, status, "")) else None;
      case Received(status, body) =>
        err := if status != statusCode then Some(WrongStatus(statusCode, status, body)) else None;
    }

    /**
      The hook after every scenario: when an id was ever created, DELETE
      "/records/<id>" (the answer is ignored); it never reports an error.
     */
    method Teardown() returns (req: Option<Request>, err: Option<StepError>)
      ensures req.Some? <==> lastCreatedId != 0
      ensures req.Some? ==> req.value == Request(Delete, baseUrl + "/records/" + Decimal.Format(lastCreatedId), None)
      ensures err.None?
    {
      if lastCreatedId != 0 {
        req := Some(Request(Delete, baseUrl + "/records/" + Decimal.Format(lastCreatedId), None));
      } else {
        req := None;
      }
      err := None;
    }
  }

  /** The teardown request is the one a DELETE step to "/records/{lastCreatedID}" builds. */
  lemma TeardownIsDeleteStep(id: int)
    ensures Template.Substitute("/records/" + Template.Token, id) == "/records/" + Decimal.Format(id)
  {
    Template.SubstituteSuffix("/records/", id);
  }

  /**
    When the POST step reads back the record the store created, decoded as
    the store wrote it, the step keeps that record's id.
   */
  lemma PostKeepsStoreId(t: ApiTest, body: string, previous: int, r: ContactStore.Record)
    requires t.decode(body) == Some(ContactStore.ToJson(r))
    ensures t.CapturedId(body, previous) == r.id
  {
  }

  /** The same answer lets a fixture step succeed and take the record's id. */
  lemma FixtureTakesStoreId(t: ApiTest, body: string, r: ContactStore.Record)
    requires t.decode(body) == Some(ContactStore.ToJson(r))
    ensures t.AsMap(body).Some? && NumberId(t.AsMap(body).value) == Some(r.id)
  {
  }

  /** A record as the store writes it passes the id check. */
  lemma StoreRecordHasId(t: ApiTest, r: ContactStore.Record)
    requires t.decode(t.lastResponseBody) == Some(ContactStore.ToJson(r))
    ensures t.ContainsContactId() == None
  {
    var v := ContactStore.ToJson(r);
    assert Json.Get(v, "id").Some?;
    var j := Json.Find(v.members, "id").value;
    assert v.members[j].key == "id";
  }

  /** The record the store makes from a fixture contact: the fields it names, and no middle name. */
  function FixtureRecord(firstName: string, phone: string, id: int): ContactStore.Record {
    ContactStore.Record(id, firstName, "", "Doe", "123 Main St", "Anytown", "CA", "12345", phone, "john@example.com")
  }

  /** The store accepts the fixture contact and keeps every field it sends. */
  lemma FixtureAccepted(firstName: string, phone: string, id: int)
    ensures ContactStore.BuildRecord(Contact(firstName, phone), id) == Some(FixtureRecord(firstName, phone, id))
  {
    var body := Contact(firstName, phone);
    var want := FixtureRecord(firstName, phone, id);
    forall f
      ensures ContactStore.ValueOr(body, f) == Some(ContactStore.Text(want, f))
    {
      ContactField(firstName, phone, id, f);
    }
    ContactStore.BuildRecordFields(body, id);
    var got := ContactStore.BuildRecord(body, id).value;
    assert forall f :: ContactStore.Text(got, f) == ContactStore.Text(want, f);
    SameFields(got, want);
  }

  lemma ContactField(firstName: string, phone: string, id: int, f: ContactStore.Field)
    ensures ContactStore.ValueOr(Contact(firstName, phone), f) == Some(ContactStore.Text(FixtureRecord(firstName, phone, id), f))
  {
    var body := Contact(firstName, phone);
    ContactDistinct(firstName, phone);
    match f
    case FirstName => ValueAt(body, f, 0);
    case MiddleName =>
    case LastName => ValueAt(body, f, 1);
    case Phone => ValueAt(body, f, 2);
    case Email => ValueAt(body, f, 3);
    case Street => ValueAt(body, f, 4);
    case City => ValueAt(body, f, 5);
    case State => ValueAt(body, f, 6);
    case Zip => ValueAt(body, f, 7);
  }

  /** In an object with distinct names, a string member gives its field that text. */
  lemma ValueAt(body: Json.Value, f: ContactStore.Field, i: nat)
    requires body.Object? && Json.DistinctKeys(body.members) && i < |body.members|
    requires body.members[i].key == ContactStore.Name(f) && body.members[i].value.String?
    ensures ContactStore.ValueOr(body, f) == Some(body.members[i].value.s)
  {
    Json.FindDistinct(body.members, i);
  }

  /** The fixture's member names are distinct. */
  lemma ContactDistinct(firstName: string, phone: string)
    ensures Json.DistinctKeys(Contact(firstName, phone).members)
  {
    var ms := Contact(firstName, phone).members;
    forall i, j | 0 <= i < j < |ms|
      ensures ms[i].key != ms[j].key
    {
      assert ms[i].key[0] != ms[j].key[0] || ms[i].key[2] != ms[j].key[2] by {
        assert i < 7 && 0 < j;
        assert i == 0 || i == 1 || i == 2 || i == 3 || i == 4 || i == 5 || i == 6;
        assert j == 1 || j == 2 || j == 3 || j == 4 || j == 5 || j == 6 || j == 7;
      }
    }
  }

  /** Two records with the same id and the same text in every field are the same record. */
  lemma SameFields(a: ContactStore.Record, b: ContactStore.Record)
    requires a.id == b.id
    requires forall f :: ContactStore.Text(a, f) == ContactStore.Text(b, f)
    ensures a == b
  {
    assert ContactStore.Text(a, ContactStore.FirstName) == ContactStore.Text(b, ContactStore.FirstName);
    assert ContactStore.Text(a, ContactStore.MiddleName) == ContactStore.Text(b, ContactStore.MiddleName);
    assert ContactStore.Text(a, ContactStore.LastName) == ContactStore.Text(b, ContactStore.LastName);
    assert ContactStore.Text(a, ContactStore.Street) == ContactStore.Text(b, ContactStore.Street);
    assert ContactStore.Text(a, ContactStore.City) == ContactStore.Text(b, ContactStore.City);
    assert ContactStore.Text(a, ContactStore.State) == ContactStore.Text(b, ContactStore.State);
    assert ContactStore.Text(a, ContactStore.Zip) == ContactStore.Text(b, ContactStore.Zip);
    assert ContactStore.Text(a, ContactStore.Phone) == ContactStore.Text(b, ContactStore.Phone);
    assert ContactStore.Text(a, ContactStore.Email) == ContactStore.Text(b, ContactStore.Email);
  }
}
