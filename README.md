# DocumentTransfer, modelled in Dafny

This project models `DocumentTransfer`, the Hyperledger Fabric contract in
`lib/chaincode.js`, and proves properties of the model. The contract keeps
users, identity documents with their detail sub-records, and travels in the
ledger's world state. The world state is a flat map from key to stored text.

The model has the following modules:

- `Outcomes` (`outcomes.dfy`): `Option`, the contract's error kinds, and
  `Result`. `Result` tells apart an operation that *throws* (`Thrown`, which
  fails the transaction) from one that *returns* an `Error` object
  (`Returned`, which commits an answer).
- `Text` (`text.dfy`): the lexicographic order on strings that key sorting
  uses, with its order laws.
- `Records` (`records.dfy`): a record is a sequence of named string fields in
  the order they were set. A JS object keeps that order too, except that it
  lists integer-like names first; no record the contract builds has such a name. It provides the last-wins lookup
  `Get` and the key sort `SortFields` (the model of `sortKeysRecursive`). The
  module proves that the sort keeps every lookup and does not depend on the
  order in which fields were set.
- `Json` (`json.dfy`): `Stringify` is `JSON.stringify` of a flat object.
  `Encode` is `stringify(sortKeysRecursive(r))`, the stored form. `Decode` is
  `JSON.parse`, as a partial parser of flat objects of strings. The module
  proves that decoding undoes encoding, and that the stored form is
  independent of field order.
- `WorldState` (`worldstate.dfy`): what the contract reaches through
  `ctx.stub`:
  - the `Stub` class (`getState` as a function of its state, `putState`,
    `deleteState`, `getQueryResult`, all over a `map<string, string>` field);
  - the `QueryIterator` class (`next`, `close`);
  - the selector match a query applies.
- `DocumentTransfer` (`documenttransfer.dfy`): the contract's operations.
  Reads and record builders are functions. Operations that write are
  methods on a `Stub` whose postconditions state the whole new state. The
  module also holds the contract's common api:
  - `_GetAllResults` as a loop over the iterator, proved against the
    specification function `Collect`;
  - `GetQueryResultForQueryString`, proved to answer with exactly the
    matching stored entries.

The model keeps these choices of the code:

- **CreateDocument's errors are returned, not thrown.** `CreateDocument`
  returns (rather than throws) its not-found and unsupported-type errors, so
  that transaction commits an error value. It still writes nothing.
- **DeleteDocument checks the owner.** It is gated on the owner's key, not
  on the document's.
- **No existence checks.** `CreateTravel` and `DeleteTravel` check nothing.
- **Reads return raw text.** `GetSpecificDocument` and `GetSpecificTravel`
  return the stored text without decoding it.
- **CreateUser and ModifyPassword always fail.** Each reads an undeclared
  variable (`password` and `id` respectively). The model therefore has them
  always throw, and neither writes anything.

## Model

| member | source | states |
|---|---|---|
| `Text.Transitive` | lib/chaincode.js:5 | the key order used for sorting is transitive |
| `Text.Total` | lib/chaincode.js:5 | any two distinct keys are ordered one way or the other |
| `Text.Asymmetric` | lib/chaincode.js:5 | no two keys precede each other |
| `Records.Get` | lib/chaincode.js:119-122 | a field lookup finds nothing exactly when no field has that name, and what it finds is a field of the record |
| `Records.GetDistinct` | lib/chaincode.js:76-91 | in a record with distinct names, a lookup yields `v` exactly when the record holds the field `name: v` |
| `Records.GetPermutation` | lib/chaincode.js:5 | two records holding the same fields answer every lookup alike |
| `Records.InsertKeeps` | lib/chaincode.js:5 | inserting a field keeps every field and adds it once, and keeps a sorted record sorted |
| `Records.SortFieldsKeeps` | lib/chaincode.js:5 | sorting keys is a permutation of the fields and, for distinct names, yields strictly ascending names |
| `Records.SortedUnique` | lib/chaincode.js:5 | two sorted records holding the same fields are equal |
| `Records.SortOrderInsensitive` | lib/chaincode.js:5 | the sorted form does not depend on the order in which fields were set |
| `Records.SortKeepsLookups` | lib/chaincode.js:110-111 | sorting keeps names distinct and keeps the value of every field |
| `Json.Stringify` | lib/chaincode.js:112 | the serialized object is a text that opens with `{`, closes with `}` and holds no raw control character |
| `Json.CharAtEscape` | lib/chaincode.js:214 | reading back the escape written for a character, control characters included, gives that character and the escape's width |
| `Json.ParseCharsConsumes` | lib/chaincode.js:214 | a string literal that parses leaves a suffix of its input, and the part read holds no raw control character |
| `Json.EscapeOfUnit` | lib/chaincode.js:214 | the `\u` escape of any code unit, written with its four lower-case hexadecimal digits, reads back as that code unit whatever text follows |
| `Json.ReadsSurrogatePair` | lib/chaincode.js:214 | for every high surrogate `h` and low surrogate `l`, the escape of `h` followed by that of `l` reads as the one character beyond the Basic Multilingual Plane they encode, taking twelve characters of text |
| `Json.PairPoint` | lib/chaincode.js:214 | any text starting with the escape of a high surrogate followed by that of a low one reads as their combined character |
| `Json.RejectsLoneLowSurrogate` | lib/chaincode.js:214 | for every low surrogate, its escape with no high surrogate before it is not a character, whatever follows |
| `Json.RejectsLoneHighSurrogate` | lib/chaincode.js:214 | for every high surrogate, its escape is a character exactly when the escape of a low surrogate follows it |
| `Json.Decode` | lib/chaincode.js:214 | `{}` parses to the empty record, and any text that parses is delimited by `{` and `}` |
| `Json.DecodeRejectsControl` | lib/chaincode.js:214 | a text holding a raw control character does not parse |
| `Json.Encode` | lib/chaincode.js:110-111 | the stored text decodes to the key-sorted record |
| `Json.ParseEscaped` | lib/chaincode.js:214 | parsing a written string literal gives back the string and the text after it |
| `Json.ParseOneMember` | lib/chaincode.js:214 | parsing a written `"name":"value"` member gives back that field |
| `Json.ParseMembersOf` | lib/chaincode.js:214 | parsing the written members of a record gives back the record |
| `Json.DecodeStringify` | lib/chaincode.js:214 | parsing a serialized object gives back the object, field for field and in order |
| `Json.DecodeEncode` | lib/chaincode.js:110-111 | a stored record read back answers every field lookup as the record did |
| `Json.EncodeOrderInsensitive` | lib/chaincode.js:110-111 | two records with the same fields are stored as the same text |
| `WorldState.GetState` | lib/chaincode.js:68 | the read is empty exactly when the key is absent or holds the empty value, and otherwise is the stored value |
| `WorldState.Matches` | lib/chaincode.js:190 | the reference definition of the selector test: the text parses and agrees with every selector field; the empty selector matches exactly the texts that parse |
| `WorldState.MatchesPair` | lib/chaincode.js:119-122 | a two-field selector matches exactly the texts holding both fields |
| `WorldState.StoredField` | lib/chaincode.js:110-111 | a stored record's text holds each of its fields with its value and no other |
| `WorldState.StoredPairMatch` | lib/chaincode.js:190 | a stored record matches a two-field selector exactly when the selector asks for the values it holds |
| `WorldState.Scan` | lib/chaincode.js:190 | the store's query lists exactly the matching entries, each once, with their stored text |
| `WorldState.QueryIterator.Next` | lib/chaincode.js:197 | `next()` yields the following entry and advances, or reports done at the end |
| `WorldState.QueryIterator.Close` | lib/chaincode.js:224 | `close()` is recorded once per call |
| `WorldState.Stub.PutState` | lib/chaincode.js:110 | the key now holds the value and no other key changes |
| `WorldState.Stub.DeleteState` | lib/chaincode.js:48 | the key is removed and no other key changes |
| `WorldState.Stub.GetQueryResult` | lib/chaincode.js:190 | a fresh, unread, unclosed iterator over exactly the matching entries |
| `DocumentTransfer.PayloadOf` | lib/chaincode.js:213-218 | the payload is the decoded record when the text parses, and the raw text exactly when it does not |
| `DocumentTransfer.Collect` | lib/chaincode.js:198-223 | there are no more results than entries, and none when every value is empty |
| `DocumentTransfer.CollectAppend` | lib/chaincode.js:198-223 | collecting a run of entries is collecting its parts in order |
| `DocumentTransfer.CollectSnoc` | lib/chaincode.js:198-223 | one more entry adds its result at the end exactly when its value is non-empty |
| `DocumentTransfer.CollectCount` | lib/chaincode.js:199 | there are no more results than entries, and exactly as many when no value is empty |
| `DocumentTransfer.CollectMembers` | lib/chaincode.js:199-220 | every entry with a non-empty value yields its result, and every result comes from such an entry |
| `DocumentTransfer.CollectMatched` | lib/chaincode.js:212-214 | entries that matched a selector each yield a keyed result carrying the decoded record, in order |
| `DocumentTransfer.GetAllResults` | lib/chaincode.js:195-226 | the results are those of the unread entries with non-empty values, in order, and the iterator ends drained and closed exactly once |
| `DocumentTransfer.GetQueryResultForQueryString` | lib/chaincode.js:189-193 | one keyed, decoded result per stored entry matching the selector, no key twice and nothing else |
| `DocumentTransfer.NoMatchNoResults` | lib/chaincode.js:189-193 | a query nothing matches answers with the empty sequence |
| `DocumentTransfer.AdminUser` | lib/chaincode.js:9-22 | the seeded user record has distinct field names |
| `DocumentTransfer.InitLedger` | lib/chaincode.js:8-25 | the admin user is stored, encoded, under its id and nothing else changes |
| `DocumentTransfer.CreateUser` | lib/chaincode.js:29-44 | the call fails on the undeclared `password` and writes nothing |
| `DocumentTransfer.UserExists` | lib/chaincode.js:66-70 | true exactly when the key holds a value of non-zero length |
| `DocumentTransfer.DeleteUser` | lib/chaincode.js:45-51 | an existing user's key alone is removed; otherwise it throws not-found and nothing changes |
| `DocumentTransfer.ModifyPassword` | lib/chaincode.js:52-64 | the call throws not-found for a missing user, fails on the undeclared `id` otherwise, and writes nothing |
| `DocumentTransfer.DocumentRecord` | lib/chaincode.js:76-86 | the document record has distinct field names |
| `DocumentTransfer.DetailField` | lib/chaincode.js:95-108 | the switch selects `visaType` exactly for VISA, `passportSerialNumber` exactly for PASSPORT, `driverLicenseSerialNumber` exactly for DRIVERLICENSE, and nothing for any other type |
| `DocumentTransfer.DetailRecord` | lib/chaincode.js:87-108 | a detail exists exactly for VISA, PASSPORT and DRIVERLICENSE; it has four fields (its id, the document's id, `docDetail`, and the serial number under the one field the type selects) and the other two type fields are absent |
| `DocumentTransfer.DetailWith` | lib/chaincode.js:87-104 | the detail with one type field holds its id, document id, kind and serial, and no other type field |
| `DocumentTransfer.CreateDocument` | lib/chaincode.js:74-116 | an unknown owner or an unsupported type returns an error and writes nothing; otherwise the document and then the detail are written, the detail winning a shared key, nothing else changes and the unsorted document text is returned |
| `DocumentTransfer.GetSpecificDocument` | lib/chaincode.js:126-131 | the stored text is returned exactly when the key holds a non-empty value; otherwise it throws not-found |
| `DocumentTransfer.DeleteDocument` | lib/chaincode.js:139-145 | when the owner exists, the document's key alone is removed; otherwise it throws not-found and nothing changes |
| `DocumentTransfer.DocumentExists` | lib/chaincode.js:148-151 | true exactly when the key holds a value of non-zero length |
| `DocumentTransfer.TravelRecord` | lib/chaincode.js:155-164 | the travel record has distinct field names |
| `DocumentTransfer.CreateTravel` | lib/chaincode.js:154-166 | the encoded travel, of kind `travelInfo`, is written under its id and nothing else changes |
| `DocumentTransfer.GetSpecificTravel` | lib/chaincode.js:176-181 | the stored text is returned exactly when the key holds a non-empty value; otherwise it throws not-found |
| `DocumentTransfer.DeleteTravel` | lib/chaincode.js:183-185 | the travel's key is removed without any check and nothing else changes |
| `DocumentTransfer.DocumentsSelector` | lib/chaincode.js:119-122 | matches exactly the texts with `userId` the email and `dataType` `document` |
| `DocumentTransfer.DetailSelector` | lib/chaincode.js:133-136 | matches exactly the texts with `docId` the document and `dataType` `docDetail` |
| `DocumentTransfer.TravelsSelector` | lib/chaincode.js:169-172 | matches exactly the texts with `email` the email and `dataType` `travelInfo` |
| `DocumentTransfer.GetAllDocuments` | lib/chaincode.js:118-124 | answers with exactly the stored entries matching the documents selector |
| `DocumentTransfer.GetDocumentDetail` | lib/chaincode.js:132-138 | answers with exactly the stored entries matching the detail selector |
| `DocumentTransfer.GetAllTravels` | lib/chaincode.js:168-174 | answers with exactly the stored entries matching the travels selector |
| `DocumentTransfer.StoredDocumentListed` | lib/chaincode.js:76-86 | a stored document is listed for exactly its owner and only when its `dataType` is `document`, and it holds its id, type and the caller's `dataType` |
| `DocumentTransfer.StoredDetailListed` | lib/chaincode.js:87-111 | a stored detail is listed for exactly its document and holds the serial number under its type's field |
| `DocumentTransfer.StoredTravelListed` | lib/chaincode.js:154-174 | a stored travel is listed for exactly its email |
| `DocumentTransfer.DeletedIsGone` | lib/chaincode.js:126-151 | after a delete, the key neither exists nor reads back |
| `DocumentTransfer.DocumentNotDetail` | lib/chaincode.js:76-86 | a stored document never matches a detail query, since it has no `docId` field |
| `DocumentTransfer.SecondWriteAnswered` | lib/chaincode.js:110-111 | after two writes where only the second text matches a query and nothing else stored does, the query answers with the second record alone |
| `DocumentTransfer.OnlyKeyAnswered` | lib/chaincode.js:189-193 | a query that exactly one stored key matches answers with that key's decoded record and nothing else |
| `DocumentTransfer.DistinctKeysCount` | lib/chaincode.js:189-193 | results with distinct keys have exactly as many keys as results |
| `DocumentTransfer.CreatedDetailQueried` | lib/chaincode.js:87-138 | after CreateDocument's writes, the detail query for the new document answers with exactly one result, the new detail, holding the serial number under its type's field, when no other stored record was a detail of that document |
| `DocumentTransfer.CreatedReadBack` | lib/chaincode.js:110-111 | after the two writes, both keys exist, the detail reads back, the document reads back unless the detail shares its key, and every other key is untouched |

## Left out

- The world state holds text, not bytes. `Buffer.from` and `toString('utf8')` are taken as inverse conversions, so non-empty text stands for a non-empty value.
- Json.Decode: models `JSON.parse` only on flat objects whose values are strings, written without whitespace. Any JSON text that is not a flat object of strings, such as `{"a":null}`, a nested value, a number or a top-level `"abc"`, counts as unparseable, which sends `_GetAllResults` to the raw-text fallback. Like `JSON.parse`, it refuses raw control characters and reads `\u` escapes, a surrogate pair as one character. Unlike `JSON.parse`, it counts the escape of an unpaired surrogate as unparseable, because a string here is a sequence of Unicode scalar values.
- Json.Decode: a text that repeats a name decodes to both fields, while `JSON.parse` keeps one property holding the last value. `Get` is last-wins, so every lookup agrees with `JSON.parse`; only the field count differs.
- Json.Stringify: writes fields in the order they were set. For an object with integer-like names such as `"1"`, `JSON.stringify` would write those first, in ascending numeric order; no record the contract builds has such a name, and stored records are key-sorted first.
- Json.Stringify: strings are sequences of code points, so a lone surrogate cannot occur and the `\u` escape `JSON.stringify` writes for one is not modelled.
- Records are flat: nested objects and arrays, which `sortKeysRecursive` would also sort, are not modelled.
- Text.Less: compares by code point, while JavaScript's default sort compares UTF-16 code units. The two agree within the Basic Multilingual Plane.
- The query string is not modelled as JSON text. The selector object it carries is passed directly. The store's query is modelled as an equality filter over the selector's fields, not as the full query language.
- The order in which the store returns query matches is not fixed by the model. `Scan` picks any order.
- DocumentTransfer.GetQueryResultForQueryString: returns the results as a sequence rather than their `JSON.stringify` text.
- History queries carry no `isDelete` flag. Nothing in the contract issues one, so `_GetAllResults` is only ever called with `isHistory` false. Its history branch is modelled, though.
- Store calls are assumed to succeed: `getState`, `putState`, `deleteState`, `getQueryResult` and the iterator's `next()` never reject. In the code, a rejected `next()` at lib/chaincode.js:197 or :222 ends `_GetAllResults` without the `close()` at :224; the model does not capture that path.
- `_GetAllResults` also tests `res.value` for being truthy. The model's iterator always yields an entry, so that test is not modelled.
- Logging (`console.log`), `async`/`await` and the missing `await`s before `putState` are not modelled. Each operation is one sequential step.
- The store's multi-version concurrency checks and the contract base class's plumbing are not modelled. Neither is the `ctx` object beyond its stub, nor the re-export in `index.js`.
- InitLedger: its loop over a one-element list of seed users is modelled as the single write it performs.
- Password handling is not modelled: CreateUser and ModifyPassword fail before they write.
