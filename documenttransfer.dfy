/** The DocumentTransfer contract: users, identity documents with their
    detail sub-records, and travels, kept in the world state under their
    own keys. Each operation is one sequential step on the state. */
module DocumentTransfer {
  import opened Outcomes
  import opened Records
  import opened WorldState
  import Json

  // ---------------------------------------------------------------- users

  const AdminEmail: string := "admin@admin.com"

  /** The one user InitLedger seeds, with the `docType` field it adds. */
  function AdminUser(): (o: Object)
    ensures DistinctNames(o)
  {
    [Field("id", AdminEmail), Field("userId", "admin"), Field("email", AdminEmail),
     Field("password", "adminpw"), Field("name", ""), Field("birthday", "2022-02-01"),
     Field("address", "성북구"), Field("sex", "1"), Field("nation", "대한민국"),
     Field("docType", "user")]
  }

  /** Seeds the state with the admin user, stored under its id. */
  method InitLedger(stub: Stub)
    modifies stub
    ensures stub.state == old(stub.state)[AdminEmail := Json.Encode(AdminUser())]
  {
    stub.PutState(AdminEmail, Json.Encode(AdminUser()));
  }

  /** CreateUser reads the undeclared variable `password` while building the
      record, so it throws before its write. */
  method CreateUser(stub: Stub, id: string, email: string, name: string, birthday: string,
                    address: string, sex: string, nation: string) returns (r: Result<string>)
    ensures r == Thrown(Undefined("password"))
  {
    r := Thrown(Undefined("password"));
  }

  /** An existing user's key holds a value of non-zero length. */
  function UserExists(st: State, email: string): (e: bool)
    ensures e <==> email in st && |st[email]| > 0
  {
    HasValue(st, email)
  }

  /** Deletes the user's key, which must exist. */
  method DeleteUser(stub: Stub, email: string) returns (r: Result<()>)
    modifies stub
    ensures UserExists(old(stub.state), email) ==> r == Ok(()) && stub.state == old(stub.state) - {email}
    ensures !UserExists(old(stub.state), email) ==>
              r == Thrown(NotFound("The document " + email + " does not exist")) &&
              stub.state == old(stub.state)
  {
    var userExists := UserExists(stub.state, email);
    if userExists {
      stub.DeleteState(email);
      r := Ok(());
    } else {
      r := Thrown(NotFound("The document " + email + " does not exist"));
    }
  }

  /** ModifyPassword fails either way: on a missing user with not-found, on
      an existing one because the key it writes, `id`, is undeclared. */
  method ModifyPassword(stub: Stub, email: string, password: string, newPassword: string)
    returns (r: Result<string>)
    ensures UserExists(stub.state, email) ==> r == Thrown(Undefined("id"))
    ensures !UserExists(stub.state, email) ==> r == Thrown(NotFound("The document " + email + " does not exist"))
  {
    var userExists := UserExists(stub.state, email);
    if userExists {
      r := Thrown(Undefined("id"));
    } else {
      r := Thrown(NotFound("The document " + email + " does not exist"));
    }
  }

  // ------------------------------------------------------------ documents

  /** The document record CreateDocument stores, in the order it sets the
      fields. */
  function DocumentRecord(documentId: string, email: string, docName: string, docSerialNum: string,
                          docPublishedDate: string, docExpiryDate: string, docPublishOrg: string,
                          docType: string, dataType: string): (o: Object)
    ensures DistinctNames(o)
  {
    [Field("id", documentId), Field("userId", email), Field("docName", docName),
     Field("docSerialNum", docSerialNum), Field("docPublishedDate", docPublishedDate),
     Field("docExpiryDate", docExpiryDate), Field("docPublishedOrg", docPublishOrg),
     Field("docType", docType), Field("dataType", dataType)]
  }

  /** The switch over the document type: the one field of the detail record
      that carries the detail serial number, or none for a type the contract
      does not support. */
  function DetailField(docType: string): (f: Option<string>)
    ensures f == Some("visaType") <==> docType == "VISA"
    ensures f == Some("passportSerialNumber") <==> docType == "PASSPORT"
    ensures f == Some("driverLicenseSerialNumber") <==> docType == "DRIVERLICENSE"
    ensures f.Some? ==> f.value in {"visaType", "passportSerialNumber", "driverLicenseSerialNumber"}
  {
    if docType == "VISA" then Some("visaType")
    else if docType == "PASSPORT" then Some("passportSerialNumber")
    else if docType == "DRIVERLICENSE" then Some("driverLicenseSerialNumber")
    else None
  }

  predicate Supported(docType: string) {
    DetailField(docType).Some?
  }

  /** The detail record: its id, the document it belongs to, the
      `docDetail` kind, and exactly one type-specific field. */
  function DetailRecord(detailId: string, documentId: string, docType: string, serial: string)
    : (d: Option<Object>)
    ensures d.Some? <==> docType in {"VISA", "PASSPORT", "DRIVERLICENSE"}
    ensures d.Some? ==>
              && DistinctNames(d.value) && |d.value| == 4
              && Get(d.value, "id") == Some(detailId)
              && Get(d.value, "docId") == Some(documentId)
              && Get(d.value, "dataType") == Some("docDetail")
              && Get(d.value, "visaType") == (if docType == "VISA" then Some(serial) else None)
              && Get(d.value, "passportSerialNumber") == (if docType == "PASSPORT" then Some(serial) else None)
              && Get(d.value, "driverLicenseSerialNumber") == (if docType == "DRIVERLICENSE" then Some(serial) else None)
  {
    match DetailField(docType)
    case None => None
    case Some(f) => Some(DetailWith(detailId, documentId, f, serial))
  }

  /** The detail record with its type-specific field `f`. */
  function DetailWith(detailId: string, documentId: string, f: string, serial: string): (d: Object)
    requires f == "visaType" || f == "passportSerialNumber" || f == "driverLicenseSerialNumber"
    ensures DistinctNames(d) && |d| == 4
    ensures Get(d, "id") == Some(detailId) && Get(d, "docId") == Some(documentId)
    ensures Get(d, "dataType") == Some("docDetail") && Get(d, f) == Some(serial)
    ensures f != "visaType" ==> Get(d, "visaType") == None
    ensures f != "passportSerialNumber" ==> Get(d, "passportSerialNumber") == None
    ensures f != "driverLicenseSerialNumber" ==> Get(d, "driverLicenseSerialNumber") == None
  {
    var d := [Field("id", detailId), Field("docId", documentId), Field("dataType", "docDetail"),
              Field(f, serial)];
    GetDistinct(d, "id", detailId);
    GetDistinct(d, "docId", documentId);
    GetDistinct(d, "dataType", "docDetail");
    GetDistinct(d, f, serial);
    assert forall i :: 0 <= i < |d| ==> d[i].name in {"id", "docId", "dataType", f};
    d
  }

  /** Stores a document and its detail record for an existing owner and a
      supported type; otherwise returns an error and writes nothing. */
  method CreateDocument(stub: Stub, documentId: string, detailId: string, email: string,
                        docName: string, docSerialNum: string, docPublishedDate: string,
                        docExpiryDate: string, docPublishOrg: string, docType: string,
                        dataType: string, docDetailSerialNum: string) returns (r: Result<string>)
    modifies stub
    ensures !UserExists(old(stub.state), email) ==>
              r == Returned(NotFound("The user " + email + " does not exist")) &&
              stub.state == old(stub.state)
    ensures UserExists(old(stub.state), email) && !Supported(docType) ==>
              r == Returned(Unsupported("The kind of document is not support")) &&
              stub.state == old(stub.state)
    ensures UserExists(old(stub.state), email) && Supported(docType) ==>
              var doc := DocumentRecord(documentId, email, docName, docSerialNum, docPublishedDate,
                                        docExpiryDate, docPublishOrg, docType, dataType);
              var detail := DetailRecord(detailId, documentId, docType, docDetailSerialNum).value;
              && r == Ok(Json.Stringify(doc))
              && stub.state == old(stub.state)[documentId := Json.Encode(doc)][detailId := Json.Encode(detail)]
  {
    var document := DocumentRecord(documentId, email, docName, docSerialNum, docPublishedDate,
                                   docExpiryDate, docPublishOrg, docType, dataType);
    var userExists := UserExists(stub.state, email);
    if userExists {
      var detail := DetailRecord(detailId, documentId, docType, docDetailSerialNum);
      if detail.None? {
        return Returned(Unsupported("The kind of document is not support"));
      }
      stub.PutState(documentId, Json.Encode(document));
      stub.PutState(detailId, Json.Encode(detail.value));
      r := Ok(Json.Stringify(document));
    } else {
      r := Returned(NotFound("The user " + email + " does not exist"));
    }
  }

  /** The stored text of a document, which must be present and non-empty. */
  function GetSpecificDocument(st: State, docId: string): (r: Result<string>)
    ensures r.Ok? <==> docId in st && |st[docId]| > 0
    ensures r.Ok? ==> r.value == st[docId]
    ensures !r.Ok? ==> r == Thrown(NotFound("the document " + docId + " does not exist"))
  {
    var json := GetState(st, docId);
    if |json| == 0 then Thrown(NotFound("the document " + docId + " does not exist"))
    else Ok(json)
  }

  /** Deletes the document's key, gated on the OWNER's key existing; the
      document's own key is not checked. */
  method DeleteDocument(stub: Stub, email: string, docId: string) returns (r: Result<()>)
    modifies stub
    ensures UserExists(old(stub.state), email) ==> r == Ok(()) && stub.state == old(stub.state) - {docId}
    ensures !UserExists(old(stub.state), email) ==>
              r == Thrown(NotFound("The document " + email + " does not exist")) &&
              stub.state == old(stub.state)
  {
    var userExists := UserExists(stub.state, email);
    if userExists {
      stub.DeleteState(docId);
      r := Ok(());
    } else {
      r := Thrown(NotFound("The document " + email + " does not exist"));
    }
  }

  function DocumentExists(st: State, id: string): (e: bool)
    ensures e <==> id in st && |st[id]| > 0
  {
    HasValue(st, id)
  }

  // -------------------------------------------------------------- travels

  /** The travel record CreateTravel stores. */
  function TravelRecord(travelId: string, email: string, travelTitle: string, guestCnt: string,
                        destinationCountry: string, leaveDate: string, arriveDate: string): (o: Object)
    ensures DistinctNames(o)
  {
    [Field("travelId", travelId), Field("email", email), Field("travelTitle", travelTitle),
     Field("guestCnt", guestCnt), Field("destinationCountry", destinationCountry),
     Field("leaveDate", leaveDate), Field("arriveDate", arriveDate), Field("dataType", "travelInfo")]
  }

  /** Stores the travel under its id, without any check. */
  method CreateTravel(stub: Stub, travelId: string, email: string, travelTitle: string,
                      guestCnt: string, destinationCountry: string, leaveDate: string,
                      arriveDate: string)
    modifies stub
    ensures stub.state == old(stub.state)[travelId := Json.Encode(
              TravelRecord(travelId, email, travelTitle, guestCnt, destinationCountry, leaveDate, arriveDate))]
  {
    var travel := TravelRecord(travelId, email, travelTitle, guestCnt, destinationCountry,
                               leaveDate, arriveDate);
    stub.PutState(travelId, Json.Encode(travel));
  }

  function GetSpecificTravel(st: State, travelId: string): (r: Result<string>)
    ensures r.Ok? <==> travelId in st && |st[travelId]| > 0
    ensures r.Ok? ==> r.value == st[travelId]
    ensures !r.Ok? ==> r == Thrown(NotFound("the document " + travelId + " does not exist"))
  {
    var json := GetState(st, travelId);
    if |json| == 0 then Thrown(NotFound("the document " + travelId + " does not exist"))
    else Ok(json)
  }

  /** Deletes the travel's key, without any check. */
  method DeleteTravel(stub: Stub, travelId: string)
    modifies stub
    ensures stub.state == old(stub.state) - {travelId}
  {
    stub.DeleteState(travelId);
  }

  // ----------------------------------------------------------- common api

  /** A result's payload: the decoded object, or the raw text when the
      stored text does not decode. */
  datatype Payload = Decoded(record: Object) | Raw(text: string)

  /** One element of `_GetAllResults`' answer: `{Key, Record}` for a state
      query, `{TxId, Timestamp, Value}` for a history query. */
  datatype QueryResult =
    | KeyRecord(key: string, record: Payload)
    | HistoryRecord(txId: string, timestamp: Timestamp, value: Payload)

  function PayloadOf(text: string): (p: Payload)
    ensures p.Raw? <==> Json.Decode(text).None?
    ensures p.Decoded? ==> Json.Decode(text) == Some(p.record)
    ensures p.Raw? ==> p.text == text
  {
    match Json.Decode(text)
    case Some(o) => Decoded(o)
    case None => Raw(text)
  }

  /** Every entry is of the kind the `isHistory` flag expects. */
  predicate OfKind(es: seq<Entry>, isHistory: bool) {
    forall i :: 0 <= i < |es| ==> es[i].KeyModification? == isHistory
  }

  function ResultOf(e: Entry, isHistory: bool): QueryResult
    requires e.KeyModification? == isHistory
  {
    if isHistory then HistoryRecord(e.txId, e.timestamp, PayloadOf(e.value))
    else KeyRecord(e.key, PayloadOf(e.value))
  }

  /** What `_GetAllResults` collects from a run of entries: one result per
      entry with a non-empty value, in order. */
  function Collect(es: seq<Entry>, isHistory: bool): (r: seq<QueryResult>)
    requires OfKind(es, isHistory)
    ensures |r| <= |es|
    ensures (forall i :: 0 <= i < |es| ==> es[i].value == "") ==> r == []
  {
    if es == [] then []
    else (if es[0].value != "" then [ResultOf(es[0], isHistory)] else []) + Collect(es[1..], isHistory)
  }

  /** Collecting is done entry by entry: the results of a run are the
      results of its parts, in the same order. */
  lemma {:induction false} CollectAppend(a: seq<Entry>, b: seq<Entry>, isHistory: bool)
    requires OfKind(a, isHistory) && OfKind(b, isHistory)
    ensures OfKind(a + b, isHistory)
    ensures Collect(a + b, isHistory) == Collect(a, isHistory) + Collect(b, isHistory)
  {
    OfKindAppend(a, b, isHistory);
    if a != [] {
      var ab := a + b;
      assert ab[0] == a[0];
      assert ab[1..] == a[1..] + b;
      CollectAppend(a[1..], b, isHistory);
      var head := if a[0].value != "" then [ResultOf(a[0], isHistory)] else [];
      assert Collect(ab, isHistory) == head + Collect(ab[1..], isHistory);
      assert Collect(a, isHistory) == head + Collect(a[1..], isHistory);
      Associative(head, Collect(a[1..], isHistory), Collect(b, isHistory));
    } else {
      assert a + b == b;
    }
  }

  lemma Associative(x: seq<QueryResult>, y: seq<QueryResult>, z: seq<QueryResult>)
    ensures x + (y + z) == (x + y) + z
  {
  }

  lemma OfKindAppend(a: seq<Entry>, b: seq<Entry>, isHistory: bool)
    requires OfKind(a, isHistory) && OfKind(b, isHistory)
    ensures OfKind(a + b, isHistory)
  {
    forall i | 0 <= i < |a + b| ensures (a + b)[i].KeyModification? == isHistory {
      if i < |a| { assert (a + b)[i] == a[i]; } else { assert (a + b)[i] == b[i - |a|]; }
    }
  }

  /** No more results than entries, and as many exactly when no value is
      empty. */
  lemma {:induction false} CollectCount(es: seq<Entry>, isHistory: bool)
    requires OfKind(es, isHistory)
    ensures |Collect(es, isHistory)| <= |es|
    ensures |Collect(es, isHistory)| == |es| <==> forall i :: 0 <= i < |es| ==> es[i].value != ""
  {
    if es != [] {
      CollectCount(es[1..], isHistory);
      if es[0].value != "" {
        assert forall i :: 1 <= i < |es| ==> es[i] == es[1..][i - 1];
      }
    }
  }

  /** Every entry with a non-empty value yields its result, whether or not
      its text decodes, and every result comes from such an entry. */
  lemma {:induction false} CollectMembers(es: seq<Entry>, isHistory: bool)
    requires OfKind(es, isHistory)
    ensures forall i :: 0 <= i < |es| && es[i].value != "" ==> ResultOf(es[i], isHistory) in Collect(es, isHistory)
    ensures forall r :: r in Collect(es, isHistory) ==>
              exists i :: 0 <= i < |es| && es[i].value != "" && r == ResultOf(es[i], isHistory)
  {
    if es != [] {
      CollectMembers(es[1..], isHistory);
      forall i | 1 <= i < |es| ensures es[i] == es[1..][i - 1] { }
    }
  }

  /** When every entry matched a selector, each yields a keyed result that
      carries its decoded record. */
  lemma {:induction false} CollectMatched(items: seq<Entry>, sel: Object)
    requires forall i :: 0 <= i < |items| ==> items[i].KV? && Matches(items[i].value, sel)
    ensures OfKind(items, false)
    ensures |Collect(items, false)| == |items|
    ensures forall i :: 0 <= i < |items| ==>
              PayloadOf(items[i].value).Decoded? &&
              Collect(items, false)[i] == KeyRecord(items[i].key, PayloadOf(items[i].value))
  {
    if items != [] {
      assert items[0].value != "";
      CollectMatched(items[1..], sel);
    }
  }

  lemma CollectSnoc(es: seq<Entry>, e: Entry, isHistory: bool)
    requires OfKind(es, isHistory) && e.KeyModification? == isHistory
    ensures OfKind(es + [e], isHistory)
    ensures Collect(es + [e], isHistory) ==
            Collect(es, isHistory) + if e.value != "" then [ResultOf(e, isHistory)] else []
  {
    assert [e][1..] == [];
    CollectAppend(es, [e], isHistory);
  }

  /** Reading one more entry of the iterator extends the collected results
      by that entry's result. */
  lemma CollectStep(items: seq<Entry>, start: nat, done: nat, isHistory: bool)
    requires start <= done < |items| && OfKind(items, isHistory)
    ensures OfKind(items[start..done], isHistory) && OfKind(items[start..done + 1], isHistory)
    ensures Collect(items[start..done + 1], isHistory) ==
            Collect(items[start..done], isHistory) +
            if items[done].value != "" then [ResultOf(items[done], isHistory)] else []
  {
    assert items[start..done + 1] == items[start..done] + [items[done]];
    OfKindSlice(items, start, done, isHistory);
    CollectSnoc(items[start..done], items[done], isHistory);
  }

  lemma OfKindSlice(es: seq<Entry>, a: nat, b: nat, isHistory: bool)
    requires a <= b <= |es| && OfKind(es, isHistory)
    ensures OfKind(es[a..b], isHistory)
  {
    assert forall i :: 0 <= i < b - a ==> es[a..b][i] == es[a + i];
  }

  /** `_GetAllResults`: drains the iterator, keeps each entry whose value is
      non-empty as a result (falling back to the raw text when decoding
      fails), then closes the iterator once. */
  method GetAllResults(it: QueryIterator, isHistory: bool) returns (all: seq<QueryResult>)
    requires it.Valid() && it.closeCalls == 0 && OfKind(it.items, isHistory)
    modifies it
    ensures OfKind(it.items[old(it.pos)..], isHistory)
    ensures all == Collect(it.items[old(it.pos)..], isHistory)
    ensures it.pos == |it.items| && it.closeCalls == 1
  {
    ghost var start, done := it.pos, it.pos;
    OfKindSlice(it.items, start, done, isHistory);
    all := [];
    var res := it.Next();
    while res.Some?
      invariant it.Valid() && it.closeCalls == 0 && start <= done <= it.pos
      invariant res.Some? ==> done < |it.items| && it.pos == done + 1 && res.value == it.items[done]
      invariant res.None? ==> it.pos == done == |it.items|
      invariant all == Collect(it.items[start..done], isHistory)
      decreases |it.items| - done
    {
      var e := res.value;
      CollectStep(it.items, start, done, isHistory);
      if e.value != "" {
        all := all + [ResultOf(e, isHistory)];
      }
      done := done + 1;
      res := it.Next();
    }
    assert it.items[start..done] == it.items[start..];
    OfKindSlice(it.items, start, done, isHistory);
    it.Close();
  }

  function ResultKeys(results: seq<QueryResult>): set<string> {
    set i | 0 <= i < |results| && results[i].KeyRecord? :: results[i].key
  }

  /** The answer to a selector query: one keyed result per matching stored
      entry, with its decoded record, no key twice and nothing else. */
  ghost predicate Answers(st: State, sel: Object, results: seq<QueryResult>) {
    && (forall i :: 0 <= i < |results| ==>
          results[i].KeyRecord? && results[i].key in st && Matches(st[results[i].key], sel) &&
          results[i].record == Decoded(Json.Decode(st[results[i].key]).value))
    && (forall k :: k in st && Matches(st[k], sel) <==> k in ResultKeys(results))
    && (forall i, j :: 0 <= i < j < |results| ==> results[i].key != results[j].key)
  }

  /** `GetQueryResultForQueryString`: runs the selector query and collects
      every entry it yields. */
  method GetQueryResultForQueryString(stub: Stub, sel: Object) returns (results: seq<QueryResult>)
    ensures Answers(stub.state, sel, results)
  {
    var it := stub.GetQueryResult(sel);
    assert it.items[0..] == it.items;
    CollectMatched(it.items, sel);
    assert OfKind(it.items, false);
    results := GetAllResults(it, false);
    assert forall i :: 0 <= i < |results| ==> results[i].key == it.items[i].key;
    assert ResultKeys(results) == EntryKeys(it.items);
  }

  /** A query that no stored entry matches answers with the empty
      sequence, not with an error. */
  lemma NoMatchNoResults(st: State, sel: Object, results: seq<QueryResult>)
    requires Answers(st, sel, results)
    ensures (forall k :: k in st ==> !Matches(st[k], sel)) ==> results == []
  {
    if results != [] {
      assert results[0].key in st && Matches(st[results[0].key], sel);
    }
  }

  // -------------------------------------------------------------- queries

  /** The selector of GetAllDocuments. */
  function DocumentsSelector(email: string): (sel: Object)
    ensures forall text :: Matches(text, sel) <==>
              Holds(text, "userId", email) && Holds(text, "dataType", "document")
  {
    MatchesPair("userId", email, "dataType", "document");
    [Field("userId", email), Field("dataType", "document")]
  }

  /** The selector of GetDocumentDetail. */
  function DetailSelector(docId: string): (sel: Object)
    ensures forall text :: Matches(text, sel) <==>
              Holds(text, "docId", docId) && Holds(text, "dataType", "docDetail")
  {
    MatchesPair("docId", docId, "dataType", "docDetail");
    [Field("docId", docId), Field("dataType", "docDetail")]
  }

  /** The selector of GetAllTravels. */
  function TravelsSelector(email: string): (sel: Object)
    ensures forall text :: Matches(text, sel) <==>
              Holds(text, "email", email) && Holds(text, "dataType", "travelInfo")
  {
    MatchesPair("email", email, "dataType", "travelInfo");
    [Field("email", email), Field("dataType", "travelInfo")]
  }

  /** The documents whose `userId` is the email. */
  method GetAllDocuments(stub: Stub, email: string) returns (results: seq<QueryResult>)
    ensures Answers(stub.state, DocumentsSelector(email), results)
  {
    results := GetQueryResultForQueryString(stub, DocumentsSelector(email));
  }

  /** The detail records of a document. */
  method GetDocumentDetail(stub: Stub, docId: string) returns (results: seq<QueryResult>)
    ensures Answers(stub.state, DetailSelector(docId), results)
  {
    results := GetQueryResultForQueryString(stub, DetailSelector(docId));
  }

  /** The travels whose `email` is the email. */
  method GetAllTravels(stub: Stub, email: string) returns (results: seq<QueryResult>)
    ensures Answers(stub.state, TravelsSelector(email), results)
  {
    results := GetQueryResultForQueryString(stub, TravelsSelector(email));
  }

  // ------------------------------------------- what the queries then find

  /** A stored document is listed for exactly its owner, and only when the
      caller gave `"document"` as its `dataType`. */
  lemma StoredDocumentListed(documentId: string, email: string, docName: string, docSerialNum: string,
                             docPublishedDate: string, docExpiryDate: string, docPublishOrg: string,
                             docType: string, dataType: string, owner: string)
    ensures var text := Json.Encode(DocumentRecord(documentId, email, docName, docSerialNum,
                                                   docPublishedDate, docExpiryDate, docPublishOrg,
                                                   docType, dataType));
            && (Matches(text, DocumentsSelector(owner)) <==> owner == email && dataType == "document")
            && Holds(text, "id", documentId)
            && Holds(text, "docType", docType)
            && Holds(text, "dataType", dataType)
  {
    var doc := DocumentRecord(documentId, email, docName, docSerialNum, docPublishedDate,
                              docExpiryDate, docPublishOrg, docType, dataType);
    assert doc[0] == Field("id", documentId) && doc[1] == Field("userId", email);
    assert doc[7] == Field("docType", docType) && doc[8] == Field("dataType", dataType);
    StoredPairMatch(doc, "userId", email, "dataType", dataType, owner, "document");
    StoredField(doc, "id", documentId);
    StoredField(doc, "docType", docType);
    StoredField(doc, "dataType", dataType);
  }

  /** A stored detail record is listed for exactly its document, and its
      type-specific field holds the detail serial number. */
  lemma StoredDetailListed(detailId: string, documentId: string, docType: string, serial: string,
                           docId: string)
    requires Supported(docType)
    ensures var text := Json.Encode(DetailRecord(detailId, documentId, docType, serial).value);
            && (Matches(text, DetailSelector(docId)) <==> docId == documentId)
            && Holds(text, DetailField(docType).value, serial)
  {
    var d := DetailRecord(detailId, documentId, docType, serial).value;
    assert d == DetailWith(detailId, documentId, DetailField(docType).value, serial);
    assert d[1] == Field("docId", documentId) && d[2] == Field("dataType", "docDetail");
    assert d[3] == Field(DetailField(docType).value, serial);
    StoredPairMatch(d, "docId", documentId, "dataType", "docDetail", docId, "docDetail");
    StoredField(d, DetailField(docType).value, serial);
  }

  /** A stored travel is listed for exactly its email. */
  lemma StoredTravelListed(travelId: string, email: string, travelTitle: string, guestCnt: string,
                           destinationCountry: string, leaveDate: string, arriveDate: string,
                           owner: string)
    ensures var text := Json.Encode(TravelRecord(travelId, email, travelTitle, guestCnt,
                                                 destinationCountry, leaveDate, arriveDate));
            Matches(text, TravelsSelector(owner)) <==> owner == email
  {
    var t := TravelRecord(travelId, email, travelTitle, guestCnt, destinationCountry,
                          leaveDate, arriveDate);
    assert t[1] == Field("email", email) && t[7] == Field("dataType", "travelInfo");
    StoredPairMatch(t, "email", email, "dataType", "travelInfo", owner, "travelInfo");
  }

  // ------------------------------------------- what the reads then see

  /** After a delete of `key`, the key neither exists nor reads back. */
  lemma DeletedIsGone(st: State, key: string)
    ensures !UserExists(st - {key}, key) && !DocumentExists(st - {key}, key)
    ensures GetSpecificDocument(st - {key}, key) == Thrown(NotFound("the document " + key + " does not exist"))
    ensures GetSpecificTravel(st - {key}, key) == Thrown(NotFound("the document " + key + " does not exist"))
  {
  }

  /** After CreateDocument, the detail query for the new document lists
      exactly the new detail, carrying the serial number under its type's
      field, when no other stored record was a detail of that document. */
  lemma CreatedDetailQueried(st: State, documentId: string, detailId: string, email: string,
                             docName: string, docSerialNum: string, docPublishedDate: string,
                             docExpiryDate: string, docPublishOrg: string, docType: string,
                             dataType: string, serial: string, results: seq<QueryResult>)
    requires Supported(docType)
    requires forall k :: k in st && k != documentId && k != detailId ==>
               !Matches(st[k], DetailSelector(documentId))
    requires var doc := DocumentRecord(documentId, email, docName, docSerialNum, docPublishedDate,
                                       docExpiryDate, docPublishOrg, docType, dataType);
             var detail := DetailRecord(detailId, documentId, docType, serial).value;
             Answers(st[documentId := Json.Encode(doc)][detailId := Json.Encode(detail)],
                     DetailSelector(documentId), results)
    ensures |results| == 1 && results[0].KeyRecord? && results[0].key == detailId
    ensures results[0].record.Decoded? && Get(results[0].record.record, DetailField(docType).value) == Some(serial)
  {
    var docText := Json.Encode(DocumentRecord(documentId, email, docName, docSerialNum, docPublishedDate,
                                              docExpiryDate, docPublishOrg, docType, dataType));
    var detailText := Json.Encode(DetailRecord(detailId, documentId, docType, serial).value);
    DocumentNotDetail(documentId, email, docName, docSerialNum, docPublishedDate,
                      docExpiryDate, docPublishOrg, docType, dataType, documentId);
    StoredDetailListed(detailId, documentId, docType, serial, documentId);
    SecondWriteAnswered(st, documentId, docText, detailId, detailText, DetailSelector(documentId), results);
  }

  /** A document record never matches a detail query: it has no `docId`. */
  lemma DocumentNotDetail(documentId: string, email: string, docName: string, docSerialNum: string,
                          docPublishedDate: string, docExpiryDate: string, docPublishOrg: string,
                          docType: string, dataType: string, docId: string)
    ensures !Matches(Json.Encode(DocumentRecord(documentId, email, docName, docSerialNum, docPublishedDate,
                                                docExpiryDate, docPublishOrg, docType, dataType)),
                     DetailSelector(docId))
  {
    var doc := DocumentRecord(documentId, email, docName, docSerialNum, docPublishedDate,
                              docExpiryDate, docPublishOrg, docType, dataType);
    Json.DecodeEncode(doc, "docId");
  }

  /** Of two writes, when only the second text matches a query and no
      other stored text does, the query answers with the second record
      alone. */
  lemma SecondWriteAnswered(st: State, k1: string, t1: string, k2: string, t2: string, sel: Object,
                            results: seq<QueryResult>)
    requires !Matches(t1, sel) && Matches(t2, sel)
    requires forall k :: k in st && k != k1 && k != k2 ==> !Matches(st[k], sel)
    requires Answers(st[k1 := t1][k2 := t2], sel, results)
    ensures |results| == 1 && results[0] == KeyRecord(k2, Decoded(Json.Decode(t2).value))
  {
    var after := st[k1 := t1][k2 := t2];
    forall k | k in after
      ensures Matches(after[k], sel) <==> k == k2
    {
      if k != k2 && k != k1 {
        assert after[k] == st[k];
      }
    }
    OnlyKeyAnswered(after, sel, k2, results);
  }

  /** A query that exactly one stored key matches answers with that key's
      record alone. */
  lemma OnlyKeyAnswered(st: State, sel: Object, key: string, results: seq<QueryResult>)
    requires key in st && Answers(st, sel, results)
    requires forall k :: k in st ==> (Matches(st[k], sel) <==> k == key)
    ensures |results| == 1 && results[0] == KeyRecord(key, Decoded(Json.Decode(st[key]).value))
  {
    forall x | x in ResultKeys(results)
      ensures x == key
    {
      var i :| 0 <= i < |results| && results[i].KeyRecord? && results[i].key == x;
    }
    assert key in ResultKeys(results);
    assert ResultKeys(results) == {key};
    DistinctKeysCount(results);
  }

  /** Results with distinct keys have as many keys as results. */
  lemma {:induction false} DistinctKeysCount(results: seq<QueryResult>)
    requires forall i :: 0 <= i < |results| ==> results[i].KeyRecord?
    requires forall i, j :: 0 <= i < j < |results| ==> results[i].key != results[j].key
    ensures |ResultKeys(results)| == |results|
  {
    if results != [] {
      var init, last := results[..|results| - 1], results[|results| - 1];
      assert forall i :: 0 <= i < |init| ==> init[i] == results[i];
      DistinctKeysCount(init);
      forall x | x in ResultKeys(results)
        ensures x in ResultKeys(init) + {last.key}
      {
        var i :| 0 <= i < |results| && results[i].KeyRecord? && results[i].key == x;
        if i < |init| {
          assert init[i] == results[i];
        }
      }
      forall x | x in ResultKeys(init)
        ensures x in ResultKeys(results) && x != last.key
      {
        var i :| 0 <= i < |init| && init[i].KeyRecord? && init[i].key == x;
        assert init[i] == results[i];
      }
      assert ResultKeys(results) == ResultKeys(init) + {last.key};
    }
  }

  /** After a successful CreateDocument, the document's key reads back its
      encoded record, unless the detail was written under the same key, in
      which case the later detail write is what reads back. */
  lemma CreatedReadBack(st: State, documentId: string, detailId: string, doc: Object, detail: Object)
    ensures var after := st[documentId := Json.Encode(doc)][detailId := Json.Encode(detail)];
            && DocumentExists(after, documentId) && DocumentExists(after, detailId)
            && GetSpecificDocument(after, detailId) == Ok(Json.Encode(detail))
            && GetSpecificDocument(after, documentId) ==
                 Ok(if documentId == detailId then Json.Encode(detail) else Json.Encode(doc))
            && forall k :: k != documentId && k != detailId ==>
                 (k in after <==> k in st) && (k in st ==> after[k] == st[k])
  {
    var a, b := Json.Encode(doc), Json.Encode(detail);
    var after := st[documentId := a][detailId := b];
    assert |a| > 0 && |b| > 0;
    assert after[detailId] == b;
    assert after[documentId] == if documentId == detailId then b else a;
  }
}
