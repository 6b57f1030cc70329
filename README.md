# Contacts REST API: a verified model

This project models two pieces of code in Dafny.

- **The in-memory contact store.** It is served over HTTP by `main.cpp`:
  - a `Record` carries an id and nine text fields;
  - an `ApiHandler` keeps the records in a vector, together with the next id to hand out;
  - it can create, read, update or delete a record, reset the store, and query it by field values.
- **The acceptance-test steps in Go** (`contacts_test.go`). They drive the store. An `apiTest` remembers three things:
  - the last response;
  - the last response body;
  - the id of the last contact created.

  The steps send requests, replace the `{lastCreatedID}` placeholder and check the answers. Two decoded JSON documents are compared by their canonical text. After every scenario, a hook deletes the last contact created.

The project has these modules:

- `Options`: the `Option` type.
- `Decimal`: the decimal text `%d` writes. The project proves it reads back to the same integer and can be cut off only one way.
- `Json`: the JSON values both programs parse, as a datatype.
  - A lookup finds the last member of a name.
  - Go's canonical serialisation writes escaped strings and sorted, de-duplicated keys.
  - A structural equivalence relation is defined next to it.
- `JsonLaws`: two values have the same canonical text exactly when they are equivalent. Reordering distinct members never changes the text.
- `ContactStore`: `Record`, `to_json`, and the `Store` class with `records` and `nextId` and one method per handler. Each method is proved against reference functions, and the lemmas state what the handlers promise.
- `Utf8`: the UTF-8 bytes of a text, which the store's `length` and `substr` count.
- `Template`: `strings.ReplaceAll`, and the placeholder substitution built on it.
- `ApiSteps`: the `ApiTest` class with the step and check members, `compareJSON`, and the teardown hook.

Request bodies are given to the store already parsed. `None` stands for a body that `json::parse` rejects, and the response a handler sends carries the JSON value it dumps. The Go side is modelled in the same way:
- **HTTP answers:** each sending step returns the request it builds and takes the client's answer as an input. The answer is either a failure to build the request, a failure to send it, a status whose body could not be read, or a status with its body.
- **JSON decoding:** Go's parser is the `decode` function an `ApiTest` is built with.

A few things in the code are worth knowing when reading the model:

- **Leftover ids.** One `apiTest` value is shared by every scenario (contacts_test.go:316-319). `lastCreatedID` is never reset, so a scenario can see the id a previous scenario created. The teardown may also delete an id that is already gone.
- **No substitution on POST.** The POST step does not replace the placeholder in its path (contacts_test.go:31). The GET, PUT, DELETE and subsequent-GET steps do. No step replaces it in a request body.
- **Ignored fixture id.** The "a contact exists with ID {id}" step ignores its argument (contacts_test.go:117). It always creates John Doe.
- **`create` spends an id on failure.** `create` takes the next id before reading the body (main.cpp:48). A body with a non-string field value therefore answers 400 and still uses up an id.
- **Area codes count bytes.** The phone test compares `length()` and `substr(0, 3)` of `std::string`s (main.cpp:149), which count UTF-8 bytes. A one-character euro sign is a three-byte area code, and a three-character parameter with an accented letter is never one.
- **`update` can stop half-way.** The assignments run one by one (main.cpp:88-96). A field that is present but not a string throws, and the fields assigned before it stay changed while the answer is 400.
- **`update` ignores a body that is not an object.** Such a body has no members (main.cpp:88), so the update changes nothing and answers 200.
- **What counts as a map in Go.** A JSON `null` decodes into a nil map or a nil slice without error. A nil map has no `"id"`, and a nil slice is written back as `null`, which differs from `[]`.

## Model

| member | source | states |
|---|---|---|
| `ContactStore.ToJson` | main.cpp:23-36 | the record as an object with distinct names: its id under "id", each field's text under that field's name, and no other member |
| `ContactStore.ValueOr` | main.cpp:49 | `body.value(name, "")` throws exactly when the body is not an object or the member is not a string; an absent member reads as "" |
| `ContactStore.Fill` | main.cpp:49-57 | the field reads of `create` in order; the first that throws abandons the record |
| `ContactStore.BuildRecord` | main.cpp:47-57 | the record `create` makes: a blank record under the taken id, filled from the body |
| `ContactStore.FillFields` | main.cpp:49-57 | the sequence of field reads succeeds exactly when no field throws; it keeps the id and gives each visited field the body's string, or "" |
| `ContactStore.BuildRecordFields` | main.cpp:47-57 | `create` builds a record exactly when no field throws; the record has the given id, each field has the body's string, and a field absent from the body is "" |
| `ContactStore.FieldUpdate` | main.cpp:88 | what one guarded assignment does with a field: keep it, set it, or throw |
| `ContactStore.Patch` | main.cpp:88-96 | the assignments of `update` in field order, stopping at the first throw with the earlier ones in force |
| `ContactStore.FieldUpdateMeaning` | main.cpp:88 | no member: keep the field; a string member: set it; any other member: throw |
| `ContactStore.PatchStep` | main.cpp:88-96 | one assignment, then the rest in order, unless it throws |
| `ContactStore.PatchKeepsId` | main.cpp:88-96 | the assignments never change the id |
| `ContactStore.PatchOk` | main.cpp:88-96 | the assignments all run exactly when no field present in the body is a non-string |
| `ContactStore.PatchFields` | main.cpp:88-96 | after a complete update, a field present as a string takes that string and every other field keeps its text |
| `ContactStore.PatchStops` | main.cpp:88-100 | when field j is the first one that throws, the assignments before it stay in force and the update fails |
| `ContactStore.PatchAppend` | main.cpp:88-100 | running the assignments of one list and then another is running those of the joined list, except that a throw in the first stops everything |
| `ContactStore.PatchNonObject` | main.cpp:88-96 | a body that is not an object changes nothing and never throws |
| `ContactStore.FirstWithId` | main.cpp:68-69 | the index of the first record with the id; nothing when no record has it |
| `ContactStore.Without` | main.cpp:112 | the records whose id differs, in their order |
| `ContactStore.WithoutMembers` | main.cpp:112 | the records left after the removal are exactly the records without that id |
| `ContactStore.WithoutAbsent` | main.cpp:108-111 | a missing id removes nothing |
| `ContactStore.EraseIsWithout` | main.cpp:106-112 | with distinct ids, erasing the record found is the same as dropping every record with that id |
| `ContactStore.WithoutSubsequence` | main.cpp:112 | the removal keeps the other records in their order |
| `ContactStore.FilterMembers` | main.cpp:133-158 | a record is in the query result exactly when it is stored and satisfies every criterion |
| `ContactStore.FilterSubsequence` | main.cpp:134-159 | query results keep the store's order |
| `ContactStore.FilterEverything` | main.cpp:135-154 | with every criterion empty, the query returns all records in order |
| `ContactStore.Satisfies` | main.cpp:137-154 | one parameter against one field: an empty parameter passes, otherwise the text must equal it, and for the phone a three-byte parameter may instead be the phone's first three bytes |
| `ContactStore.AreaCode` | main.cpp:149 | the area-code test on the UTF-8 bytes of both texts: the parameter is three bytes, the phone at least three, and its first three bytes are the parameter's |
| `ContactStore.Matches` | main.cpp:135-154 | a record passes a query when every field satisfies its parameter |
| `ContactStore.Filter` | main.cpp:134-158 | the records that pass, in store order |
| `ContactStore.SatisfiesOnBytes` | main.cpp:137-154 | the per-field test is the same when every comparison is made on UTF-8 bytes, as `std::string` makes it |
| `ContactStore.AsciiAreaCode` | main.cpp:149 | for ASCII text the byte area code is the first three characters |
| `ContactStore.MultiByteAreaCode` | main.cpp:149 | the euro sign, one character of three bytes, is an area code of the euro sign followed by "55"; "12é", four bytes, does not select "12é999" although it is its first three characters |
| `ContactStore.AreaCodeMatches` | main.cpp:146-154 | for every record and query whose phone parameter is the area code of the record's phone, the record passes exactly when every other parameter is satisfied |
| `ContactStore.PhoneMismatch` | main.cpp:146-153 | for every record and query, a phone parameter that is not empty, not three bytes long and not the phone rejects the record |
| `ContactStore.MatchesByField` | main.cpp:137-154 | a record matches exactly when each of the nine criteria, phone included, is satisfied |
| `ContactStore.RecordMatches` | main.cpp:135-154 | the `match` flag computed by the sequence of ifs, with the area code compared on bytes, is the conjunction of the per-field criteria |
| `Utf8.EncodeChar` | main.cpp:149 | the one to four UTF-8 bytes of a character; the lead byte fixes the width, the others are continuation bytes, and only ASCII takes one byte |
| `Utf8.DecodeEncodeChar` | main.cpp:149 | decoding a character's bytes gives back its code point |
| `Utf8.Encode` | main.cpp:149 | the bytes of a text, at least one per character |
| `Utf8.EncodeInjective` | main.cpp:137-147 | equal bytes only for equal texts, so the server's byte comparisons are comparisons of the texts |
| `Utf8.EncodeAscii` | main.cpp:149 | ASCII text takes one byte per character, the character's code |
| `Utf8.EncodeLonger` | main.cpp:149 | a text with any character above ASCII has more bytes than characters |
| `ContactStore.AppendKeepsInvariant` | main.cpp:48-59 | appending a record under the old next id and advancing the counter keeps ids distinct and below the counter |
| `ContactStore.ReplaceKeepsInvariant` | main.cpp:88-96 | changing a record's fields in place keeps the invariant |
| `ContactStore.EraseKeepsInvariant` | main.cpp:112 | erasing a record keeps the invariant |
| `ContactStore.Store.constructor` | main.cpp:170-171 | an empty store whose first id is 1 |
| `ContactStore.Store.FindIndex` | main.cpp:68-69 | the search loop returns the first index with the id, or nothing |
| `ContactStore.Store.Create` | main.cpp:44-64 | an unparsable body gives 400 and changes nothing. Otherwise the counter advances by one. The new record, with the old counter as id, is appended after the unchanged earlier records, and the answer is 201 with its JSON. A non-string field gives 400, consumes the id and appends nothing |
| `ContactStore.Store.Read` | main.cpp:66-75 | 200 with the first record with the id, or 404. The store is not changed |
| `ContactStore.Store.Update` | main.cpp:77-102 | an unparsable body gives 400 and a missing id gives 404, both without change. Otherwise only the found record changes, to the result of the assignments. The answer is 200 with its JSON, or 400 when one assignment threw. The counter is unchanged |
| `ContactStore.Store.AssignFields` | main.cpp:88-96 | the nine assignments in order on the found record, stopping at the first throw; nothing else changes |
| `ContactStore.Store.AssignField` | main.cpp:88 | one guarded assignment: throws exactly on a non-string member, otherwise sets or keeps the field |
| `ContactStore.Store.Delete` | main.cpp:104-114 | an existing id gives 204 and removes exactly that record, keeping the others' order. A missing id gives 404 with no change. The counter is unchanged |
| `ContactStore.Store.Reset` | main.cpp:116-120 | no records and next id 1, answer 204 |
| `ContactStore.Store.Query` | main.cpp:122-162 | 200 with the JSON of exactly the records satisfying the criteria, in store order |
| `Json.Find` | cpp-rest-api-tests/contacts_test.go:49 | the last member with the name, as both decoders keep the last duplicate; nothing when no member has it |
| `Json.Get` | main.cpp:88 | the value under a name when the value is an object that has it |
| `Json.EscapeChar` | cpp-rest-api-tests/contacts_test.go:271-275 | how `json.Marshal` writes one character of a string: short escapes for quote, backslash and common controls, `\u00XX` for other controls and `<`, `>`, `&`, `\u202X` for the two line separators, the character itself otherwise |
| `Json.Escape` | cpp-rest-api-tests/contacts_test.go:271-275 | a string written character by character |
| `Json.Serialize` | cpp-rest-api-tests/contacts_test.go:271-275 | `json.Marshal` of a decoded value: literals, decimal integers, quoted escaped strings, arrays in order, objects by sorted distinct names with the last duplicate's value |
| `Json.Equivalent` | cpp-rest-api-tests/contacts_test.go:270-284 | same kind; equal scalars; arrays of equal length with equivalent elements in order; objects with the same names and equivalent values under each |
| `Json.SortedKeys` | cpp-rest-api-tests/contacts_test.go:271 | the distinct member names, strictly sorted, as Go writes a map |
| `Json.Insert` | cpp-rest-api-tests/contacts_test.go:271 | adding a name to a sorted list keeps it sorted with exactly the old names and the new one |
| `Json.SortedUnique` | cpp-rest-api-tests/contacts_test.go:271 | two strictly sorted lists with the same names are equal, so the written key order is determined by the names alone |
| `Json.BelowTransitive` | cpp-rest-api-tests/contacts_test.go:271 | the key order is transitive |
| `Json.BelowTotal` | cpp-rest-api-tests/contacts_test.go:271 | any two different keys are ordered one way |
| `JsonLaws.EquivalentSameText` | cpp-rest-api-tests/contacts_test.go:271-279 | equivalent values are written as the same text |
| `JsonLaws.SerializeUnique` | cpp-rest-api-tests/contacts_test.go:279 | a canonical text followed by a boundary can be parsed back in one way only: the values are equivalent and the rests equal |
| `JsonLaws.EscapeUnique` | cpp-rest-api-tests/contacts_test.go:271 | string escaping is decodable in one way only |
| `JsonLaws.SameTextIffEquivalent` | cpp-rest-api-tests/contacts_test.go:270-284 | two values have the same canonical text exactly when they are equivalent |
| `JsonLaws.EquivalentReflexive` | cpp-rest-api-tests/contacts_test.go:270-284 | every value is equivalent to itself |
| `JsonLaws.KeyOrderIrrelevant` | cpp-rest-api-tests/contacts_test.go:271 | permuting the members of an object with distinct names leaves its canonical text unchanged |
| `Decimal.Format` | cpp-rest-api-tests/contacts_test.go:57 | `%d`: a minus sign exactly for negative numbers, then digits with no leading zero |
| `Decimal.FormatRoundTrip` | cpp-rest-api-tests/contacts_test.go:57 | reading back the `%d` text of an integer gives the integer |
| `Decimal.FormatInjective` | cpp-rest-api-tests/contacts_test.go:57 | different ids are written differently |
| `Decimal.FormatUnique` | cpp-rest-api-tests/contacts_test.go:271 | a number followed by a non-digit is cut off one way only |
| `Template.ReplaceAll` | cpp-rest-api-tests/contacts_test.go:57 | `strings.ReplaceAll`: the leftmost occurrence of the token in what is left is replaced, and the search carries on after it |
| `Template.Substitute` | cpp-rest-api-tests/contacts_test.go:211 | the placeholder replaced by the decimal last id |
| `Template.FirstOccurrenceIsFirst` | cpp-rest-api-tests/contacts_test.go:57 | the occurrence found is the leftmost one, and none is found exactly when the token does not occur |
| `Template.FirstFromIsFirst` | cpp-rest-api-tests/contacts_test.go:57 | the search from a position finds an occurrence, none starts between the position and it, and it finds none only when none starts at or after the position |
| `Template.ReplaceSelf` | cpp-rest-api-tests/contacts_test.go:57 | replacing the token by itself gives the text back, so the replaced stretches are exactly occurrences and the text between them is kept |
| `Template.Unchanged` | cpp-rest-api-tests/contacts_test.go:57 | text without the token is returned as it is |
| `Template.NoneLeft` | cpp-rest-api-tests/contacts_test.go:57 | a non-empty replacement that shares no character with the token leaves no occurrence behind |
| `Template.SubstituteComplete` | cpp-rest-api-tests/contacts_test.go:211 | after the substitution no `{lastCreatedID}` is left, and text without one is unchanged |
| `Template.SubstituteSuffix` | cpp-rest-api-tests/contacts_test.go:57 | a path ending in the placeholder, with no "{" before it, gets the decimal id in its place |
| `ApiSteps.CompareJson` | cpp-rest-api-tests/contacts_test.go:270-285 | success exactly when the two values are equivalent; a mismatch carries both canonical texts |
| `ApiSteps.CompareJsonReflexive` | cpp-rest-api-tests/contacts_test.go:270-285 | a value compares equal to itself |
| `ApiSteps.CompareJsonSymmetric` | cpp-rest-api-tests/contacts_test.go:279 | swapping the arguments does not change the verdict |
| `ApiSteps.CompareJsonIgnoresOrder` | cpp-rest-api-tests/contacts_test.go:271 | objects that differ only in the order of their distinct members compare equal |
| `ApiSteps.CompareJsonKeepsOrder` | cpp-rest-api-tests/contacts_test.go:279 | arrays are compared in order: swapping two non-equivalent elements is a mismatch |
| `ApiSteps.Contact` | cpp-rest-api-tests/contacts_test.go:118-127 | the fixture contact: first name and phone as given, "Doe", the fixed email and address, and no middle name |
| `ApiSteps.ApiTest.CapturedId` | cpp-rest-api-tests/contacts_test.go:47-52 | the id a POST step keeps: the numeric "id" of a body that decodes to a map, otherwise the previous id |
| `ApiSteps.ApiTest.constructor` | cpp-rest-api-tests/contacts_test.go:316-319 | no response yet, an empty body and id 0 |
| `ApiSteps.ApiTest.AsMap` | cpp-rest-api-tests/contacts_test.go:47-48 | decoding into a map succeeds exactly for an object or null |
| `ApiSteps.ApiTest.AsMapList` | cpp-rest-api-tests/contacts_test.go:242-243 | decoding into a list of maps succeeds exactly for null or an array of objects and nulls |
| `ApiSteps.ApiTest.Observe` | cpp-rest-api-tests/contacts_test.go:36-46 | what a failed build or send reports with the state untouched. A response replaces the last status, and its body replaces the last body once read; the id is untouched |
| `ApiSteps.ApiTest.SendPost` | cpp-rest-api-tests/contacts_test.go:30-54 | POST to the unsubstituted path. The state is updated as for every response, and the id is taken from a read body that decodes to a map with a numeric "id", otherwise kept |
| `ApiSteps.ApiTest.SendGet` | cpp-rest-api-tests/contacts_test.go:56-74 | GET to the substituted path, then the common state update |
| `ApiSteps.ApiTest.SendPut` | cpp-rest-api-tests/contacts_test.go:76-95 | PUT of the details as written to the substituted path, then the common state update |
| `ApiSteps.ApiTest.SendDelete` | cpp-rest-api-tests/contacts_test.go:97-115 | DELETE to the substituted path, then the common state update |
| `ApiSteps.ApiTest.CreateContact` | cpp-rest-api-tests/contacts_test.go:128-150 | POST of the canonical contact to "/records". A status other than 201 fails, and so does an undecodable body. A missing or non-numeric "id" is the failed type assertion. On success only the id changes |
| `ApiSteps.ApiTest.ContactExistsWithId` | cpp-rest-api-tests/contacts_test.go:117-151 | the fixed contact, whatever the step's id; success exactly when a 201 answer decodes to a map with a numeric "id", which becomes the last id |
| `ApiSteps.ApiTest.ContactExistsWithFirstNameAndPhone` | cpp-rest-api-tests/contacts_test.go:153-187 | the contact with the given first name and phone; same outcome rule |
| `ApiSteps.ApiTest.StatusIs` | cpp-rest-api-tests/contacts_test.go:189-197 | fails with no response recorded; otherwise passes exactly when the recorded status is the expected one |
| `ApiSteps.ApiTest.ContainsContactId` | cpp-rest-api-tests/contacts_test.go:199-208 | passes exactly when the last body decodes to an object with a member named "id"; an undecodable body and a body without the id fail differently |
| `ApiSteps.ApiTest.DetailsMatch` | cpp-rest-api-tests/contacts_test.go:210-234 | the created- and updated-details checks alike. The substituted expected document must decode first, then the body. They pass exactly when the two maps are equivalent |
| `ApiSteps.ApiTest.ListMatch` | cpp-rest-api-tests/contacts_test.go:236-250 | both lists must decode; different lengths fail with the two counts before any comparison; otherwise pass exactly when the lists are equivalent |
| `ApiSteps.ApiTest.SubsequentGet` | cpp-rest-api-tests/contacts_test.go:252-268 | GET to the substituted path that passes exactly when a response with the wanted status comes; no state changes |
| `ApiSteps.ApiTest.Teardown` | cpp-rest-api-tests/contacts_test.go:288-296 | a DELETE of "/records/<id>" exactly when the last id is not 0, and never an error |
| `ApiSteps.TeardownIsDeleteStep` | cpp-rest-api-tests/contacts_test.go:290 | the teardown URL is the one a DELETE step to "/records/{lastCreatedID}" builds |
| `ApiSteps.PostKeepsStoreId` | cpp-rest-api-tests/contacts_test.go:47-52 | a POST step reading back a record as the store writes it keeps that record's id |
| `ApiSteps.FixtureTakesStoreId` | cpp-rest-api-tests/contacts_test.go:145-149 | a fixture step reading back a record as the store writes it succeeds with that record's id |
| `ApiSteps.StoreRecordHasId` | cpp-rest-api-tests/contacts_test.go:199-208 | a record as the store writes it passes the id check |
| `ApiSteps.FixtureAccepted` | cpp-rest-api-tests/contacts_test.go:153-163 | the store accepts the fixture contact and keeps every field it sends, with an empty middle name |

## Left out

- **HTTP.**
  - The Pistache endpoint, its router, the route table and `main` (main.cpp:169-195) are not modelled.
  - The Go HTTP client is not modelled either: `http.NewRequest`, `client.Do` and `io.ReadAll` are replaced by the request a step returns and the answer it is given.
  - The Content-Type header is implied by a request having a body.
- **Concurrency.** The server runs four threads over shared records without locks (main.cpp:175). The model is sequential.
- **Route parameters.** Parsing `:id` into an `int` (main.cpp:67) is left out: the handlers take the id as an integer.
- **Query parameters.** Reading the query parameters is left out: `query` takes a map from field to text, and an absent parameter reads as "".
- **JSON parsing and dumping.** nlohmann's parser and `dump()` text are not modelled: the store receives parsed bodies and answers with JSON values. Go's parser is the `decode` parameter of `ApiTest`.
  - Decoding into a map or a list of maps is modelled on top of `decode`. `json.Decoder.Decode`, used by the fixture steps, is given the same decoder: trailing data after the first value is not told apart.
  - Records and parameters are texts of characters; the store reads them as UTF-8 bytes where it counts or cuts them. Invalid UTF-8, numbers larger than an int, and the parsers' depth limits are not modelled.
- **Numbers.**
  - JSON numbers are integers. Go's `float64` decoding and its `int(...)` conversion of the id are not modelled. Neither is the float formatting `json.Marshal` would use for non-integral numbers.
  - `next_id_` is an unbounded integer: the C++ `int` overflow after 2^31-1 creations is not modelled.
- **compareJSON marshal errors.** The "failed to marshal" errors of `compareJSON` (contacts_test.go:271-278) cannot occur for decoded values, so the model has no such error.
- **Diffs.** The diff text of a mismatch (contacts_test.go:280-282) is not modelled; the error carries the two canonical texts instead.
- **Error texts.** Go's error messages are modelled as `StepError` variants, without their wording or the wrapped error values.
- **Steps without logic.**
  - `theAPIIsRunning` (contacts_test.go:26-28) does nothing.
  - The step registration (contacts_test.go:298-310) and `TestMain` (contacts_test.go:313-330) are library dispatch and process setup.
- **Other test files.** `step_definitions/contact_steps.go` and `godog/godog_test.go` are not part of this model: the first does not compile, and the second only wraps the suite.
- **Teardown request failure.** The teardown drops the error of `http.NewRequest` (contacts_test.go:290). Had building failed, `client.Do` would be called with a nil request and panic (contacts_test.go:291). The URL is always well formed, so the model always builds the request and has no panic.
- **Update's assignments.** The nine assignments of `update` (main.cpp:88-96) are written as one loop over the fields, in the same order, rather than as nine statements.
- ApiSteps.ApiTest.SubsequentGet: when reading the body of a wrong-status answer fails, Go prints the partial body `io.ReadAll` returned with the error (contacts_test.go:264-265); an answer in the model has no partial body, so it reports an empty one.
