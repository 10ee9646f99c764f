/** Mock responses the server hands to a client application
    (src/routes/mock/base_response.rs and src/routes/mock/session.rs),
    encoded with the `Respond` trait. A `HashMap`'s iteration order is
    not specified, so every encoding is stated for any order that
    enumerates the map. */
module MockResponses {
  import opened Strings
  import opened Respond

  /** `BaseMockResponse`. */
  datatype BaseMockResponse = BaseMockResponse(
    isSuccess: bool,
    messageType: string,
    messageSeverity: Byte,
    messageSeverityDictionary: seq<string>,
    messageCode: Byte,
    messageCodeDictionary: seq<string>,
    messageException: string,
    messageCustomValuesPiped: string,
    reasonCode: Byte)

  /** `DEFAULT_RESPONSE`: success, with every other field empty or zero. */
  const DEFAULT_RESPONSE: BaseMockResponse := BaseMockResponse(true, "", 0, [], 0, [], "", "", 0)

  /** The fields of a response under their names, in declaration order. */
  function Fields(b: BaseMockResponse): (es: seq<Entry>)
    ensures |es| == 9
  {
    [ Entry("IsSuccess", Bool(b.isSuccess)),
      Entry("MessageType", Str(b.messageType)),
      Entry("MessageSeverity", U8(b.messageSeverity)),
      Entry("MessageSeverityDictionary", Strings(b.messageSeverityDictionary)),
      Entry("MessageCode", U8(b.messageCode)),
      Entry("MessageCodeDictionary", Strings(b.messageCodeDictionary)),
      Entry("MessageException", Str(b.messageException)),
      Entry("MessageCustomValuesPiped", Str(b.messageCustomValuesPiped)),
      Entry("ReasonCode", U8(b.reasonCode)) ]
  }

  /** `get_default_response`: the default's nine fields collected into a
      map. */
  function GetDefaultResponse(): (m: map<string, Value>)
    ensures Enumerates(Fields(DEFAULT_RESPONSE), m)
  {
    FieldNamesDistinct(Fields(DEFAULT_RESPONSE));
    CollectEnumerates(Fields(DEFAULT_RESPONSE));
    Collect(Fields(DEFAULT_RESPONSE))
  }

  /** No two fields share a name: the length and the character at index
      7 tell the nine names apart. */
  lemma FieldNamesDistinct(es: seq<Entry>)
    requires es == Fields(DEFAULT_RESPONSE)
    ensures forall i, j :: 0 <= i < j < |es| ==> es[i].key != es[j].key
  {
    forall i, j | 0 <= i < j < |es|
      ensures es[i].key != es[j].key
    {
      if |es[i].key| == |es[j].key| {
        assert es[i].key[7] != es[j].key[7];
      }
    }
  }

  /** How the default's values encode: the flag as `true`, the three
      numbers as `0`, the three strings as `""` and the two dictionaries
      as `[]`. */
  lemma DefaultValuesEncode()
    ensures var es := Fields(DEFAULT_RESPONSE);
      && GetJson(es[0].value) == "true"
      && GetJson(es[2].value) == "0" && GetJson(es[4].value) == "0" && GetJson(es[8].value) == "0"
      && GetJson(es[1].value) == "\"\"" && GetJson(es[6].value) == "\"\"" && GetJson(es[7].value) == "\"\""
      && GetJson(es[3].value) == "[]" && GetJson(es[5].value) == "[]"
  {
    assert Decimal(0) == "0";
    StringsJson([]);
  }

  /** Any iteration order of the default map encodes all nine entries
      between braces, in as many bytes as the declaration order does. */
  lemma DefaultResponseJson(es: seq<Entry>)
    requires Enumerates(es, GetDefaultResponse())
    ensures |es| == 9
    ensures var t := GetJson(Object(es));
      && StartsWith(t, "{") && EndsWith(t, "}")
      && |t| == |GetJson(Object(Fields(DEFAULT_RESPONSE)))|
      && forall i :: 0 <= i < 9 ==> Contains(t, EntryJson(Fields(DEFAULT_RESPONSE)[i]))
  {
    SameMapEncodings(es, Fields(DEFAULT_RESPONSE), GetDefaultResponse());
  }

  // -----------------------------------------------------------------------
  // The session route
  // -----------------------------------------------------------------------

  const SESSION_ID: string := "1234567890ABCDEF"

  /** The session entry followed by the default's fields in declaration
      order. `create_new_session_id` chains the default map, whose order is
      unspecified, so this is one enumeration of the session map among
      many; `SessionMap` and `SessionBodyIsEntries` state everything for
      every order. */
  function SessionEntries(): (es: seq<Entry>)
    ensures |es| == 10
  {
    [Entry("SessionId", Str(SESSION_ID))] + Fields(DEFAULT_RESPONSE)
  }

  /** The map `create_new_session_id` collects. */
  function SessionMap(): (m: map<string, Value>)
    ensures Enumerates(SessionEntries(), m)
  {
    SessionKeysDistinct(SessionEntries());
    CollectEnumerates(SessionEntries());
    Collect(SessionEntries())
  }

  /** No default field is named `SessionId`, so nothing replaces the
      session entry and the map has ten keys. */
  lemma SessionKeysDistinct(es: seq<Entry>)
    requires es == SessionEntries()
    ensures forall i, j :: 0 <= i < j < |es| ==> es[i].key != es[j].key
  {
    var fs := Fields(DEFAULT_RESPONSE);
    FieldNamesDistinct(fs);
    forall i, j | 0 <= i < j < |es|
      ensures es[i].key != es[j].key
    {
      assert es[j] == fs[j - 1];
      if i == 0 {
        assert |fs[j - 1].key| != 9 || fs[j - 1].key[0] != 'S';
      } else {
        assert es[i] == fs[i - 1];
      }
    }
  }

  /** Texts without commas and dictionaries of at most one comma-free
      item: then no field entry of the response is written with a comma. */
  predicate CommaFree(b: BaseMockResponse)
  {
    && ',' !in b.messageType && ',' !in b.messageException && ',' !in b.messageCustomValuesPiped
    && ShortCommaFree(b.messageSeverityDictionary) && ShortCommaFree(b.messageCodeDictionary)
  }

  predicate ShortCommaFree(items: seq<string>)
  {
    |items| <= 1 && forall i :: 0 <= i < |items| ==> ',' !in items[i]
  }

  lemma FieldCommaFree(b: BaseMockResponse, j: nat)
    requires CommaFree(b) && j < 9
    ensures ',' !in EntryJson(Fields(b)[j])
  {
    if j < 3 {
      LeadingFieldsCommaFree(b, j);
    } else if j == 3 {
      SeverityDictionaryCommaFree(b);
    } else if j < 6 {
      MiddleFieldsCommaFree(b, j);
    } else {
      TrailingFieldsCommaFree(b, j);
    }
  }

  lemma LeadingFieldsCommaFree(b: BaseMockResponse, j: nat)
    requires CommaFree(b) && j < 3
    ensures ',' !in EntryJson(Fields(b)[j])
  {
    ScalarEntryHasNoComma(Fields(b)[j]);
  }

  lemma SeverityDictionaryCommaFree(b: BaseMockResponse)
    requires CommaFree(b)
    ensures ',' !in EntryJson(Fields(b)[3])
  {
    ScalarEntryHasNoComma(Fields(b)[3]);
  }

  lemma MiddleFieldsCommaFree(b: BaseMockResponse, j: nat)
    requires CommaFree(b) && 4 <= j < 6
    ensures ',' !in EntryJson(Fields(b)[j])
  {
    ScalarEntryHasNoComma(Fields(b)[j]);
  }

  lemma TrailingFieldsCommaFree(b: BaseMockResponse, j: nat)
    requires CommaFree(b) && 6 <= j < 9
    ensures ',' !in EntryJson(Fields(b)[j])
  {
    ScalarEntryHasNoComma(Fields(b)[j]);
  }

  /** No session entry is written with a comma: the keys and texts hold
      none, and the two dictionaries are empty. */
  lemma SessionEntryCommaFree(j: nat)
    requires j < |SessionEntries()|
    ensures ',' !in EntryJson(SessionEntries()[j])
  {
    if j == 0 {
      ScalarEntryHasNoComma(Entry("SessionId", Str(SESSION_ID)));
    } else {
      assert SessionEntries()[j] == Fields(DEFAULT_RESPONSE)[j - 1];
      FieldCommaFree(DEFAULT_RESPONSE, j - 1);
    }
  }

  /** The session body splits on commas into the entry texts of the order
      the map yields. */
  lemma SessionBodySplits(es: seq<Entry>)
    requires Enumerates(es, SessionMap())
    ensures |es| == 10 && forall i :: 0 <= i < |es| ==> es[i] in SessionEntries()
    ensures var t := GetJson(Object(es)); Split(t[1..|t| - 1], ',') == Texts(es)
  {
    EnumerationListsReference(es, SessionEntries(), SessionMap());
    EnumerationsSameLength(es, SessionEntries(), SessionMap());
    forall i | 0 <= i < |es|
      ensures ',' !in EntryJson(es[i])
    {
      var j :| 0 <= j < |SessionEntries()| && SessionEntries()[j] == es[i];
      SessionEntryCommaFree(j);
    }
    ObjectSplitsIntoEntries(es);
  }

  /** `create_new_session_id`: the session map in the order `es` the
      `HashMap` yields. The route serves it raw, so this text is the
      response body on the wire. */
  function CreateNewSessionId(es: seq<Entry>): (body: string)
    requires Enumerates(es, SessionMap())
    ensures |es| == 10
    ensures StartsWith(body, "{") && EndsWith(body, "}")
    ensures Contains(body, EntryJson(Entry("SessionId", Str(SESSION_ID))))
    ensures |body| == |GetJson(Object(SessionEntries()))|
  {
    SameMapEncodings(es, SessionEntries(), SessionMap());
    GetJson(Object(es))
  }

  /** Whatever order the map yields, the session body holds each of the
      ten chained entries, and splitting it on commas gives back exactly
      the entries of that order, each one of the ten: nothing else is in
      the body. */
  lemma SessionBodyIsEntries(es: seq<Entry>)
    requires Enumerates(es, SessionMap())
    ensures var body := CreateNewSessionId(es);
      && (forall j :: 0 <= j < |SessionEntries()| ==> Contains(body, EntryJson(SessionEntries()[j])))
      && (forall i :: 0 <= i < |es| ==> es[i] in SessionEntries())
      && |body| >= 2 && Split(body[1..|body| - 1], ',') == Texts(es)
  {
    SameMapEncodings(es, SessionEntries(), SessionMap());
    SessionBodySplits(es);
  }
}
