/** `JSONMediaParser`: a record from a decoded JSON value, and back. */
module JsonParser {
  import opened Results
  import opened Media

  /** A decoded JSON value: an object whose members are strings, or anything else. */
  datatype JsonValue = Object(members: map<string, string>) | NotObject

  /** The outcome of decoding a JSON text. */
  datatype JsonText = Malformed | Json(value: JsonValue)

  /** `JSONMediaParser.parse`: `cls_type(**json.loads(string))`. */
  function Parse(t: MediaType, st: Stamps, text: JsonText): (r: Result<Record>)
    ensures text.Malformed? ==> r == Err(JsonSyntax)
    ensures text == Json(NotObject) ==> r == Err(NotAMapping)
    ensures r.Ok? <==>
      text.Json? && text.value.Object? && forall k :: k in text.value.members ==> IsField(t, k)
    ensures text.Json? && text.value.Object? && r.Err? ==>
      r.error == UnexpectedFields(Unknown(t, text.value.members)) && Unknown(t, text.value.members) != {}
    ensures r.Ok? ==> TypeOf(r.value) == t
    ensures r.Ok? ==> forall f :: IsField(t, f) ==>
      Value(r.value, f) == if f in text.value.members then text.value.members[f] else Value(Default(t, st), f)
  {
    match text
    case Malformed => Err(JsonSyntax)
    case Json(NotObject) => Err(NotAMapping)
    case Json(Object(members)) => Construct(t, st, members)
  }

  /** `JSONMediaParser.to_text`: `json.dumps(asdict(r))`, an object with one
      member per field. */
  function ToText(r: Record): (j: JsonText)
    ensures j.Json? && j.value.Object?
    ensures forall k :: k in j.value.members <==> IsField(TypeOf(r), k)
    ensures forall k :: k in j.value.members ==> j.value.members[k] == Value(r, k)
  {
    Json(Object(AsDict(r)))
  }

  /** Parsing what `to_text` wrote, as the record's own type, gives it back. */
  lemma RoundTrip(st: Stamps, r: Record)
    ensures Parse(TypeOf(r), st, ToText(r)) == Ok(r)
  {
    ConstructAsDict(st, r);
  }

  /** Parsing and writing again keeps every member of the input and adds the
      defaults of the fields it lacks. */
  lemma ParseThenToText(t: MediaType, st: Stamps, members: map<string, string>)
    requires Parse(t, st, Json(Object(members))).Ok?
    ensures ToText(Parse(t, st, Json(Object(members))).value) == Json(Object(AsDict(Default(t, st)) + members))
  {
    var r := Parse(t, st, Json(Object(members))).value;
    var d := AsDict(Default(t, st));
    forall k | k in AsDict(r) || k in d + members
      ensures k in AsDict(r) && k in d + members && AsDict(r)[k] == (d + members)[k]
    {
    }
    assert AsDict(r) == d + members;
  }

  /** An object with exactly the type's fields as members parses to the record
      whose `asdict` is that object. */
  lemma ParseCompleteObject(t: MediaType, st: Stamps, members: map<string, string>)
    requires forall k :: k in members <==> IsField(t, k)
    ensures Parse(t, st, Json(Object(members))).Ok?
    ensures AsDict(Parse(t, st, Json(Object(members))).value) == members
  {
    var r := Parse(t, st, Json(Object(members))).value;
    forall k | k in AsDict(r) ensures k in members && AsDict(r)[k] == members[k] {
    }
  }
}
