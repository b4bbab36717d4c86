/** `Adapter`: conversions between the two formats through a record. */
module Adapter {
  import opened Results
  import opened Media
  import opened XmlTree
  import XmlParser
  import JsonParser

  /** `json_to_xml`: the JSON parse, then the XML `to_text`; a parse error is
      passed on unchanged. */
  function JsonToXml(t: MediaType, st: Stamps, json: JsonParser.JsonText): (r: Result<XmlText>)
    ensures r.Err? <==> JsonParser.Parse(t, st, json).Err?
    ensures r.Err? ==> r.error == JsonParser.Parse(t, st, json).error
    ensures r.Ok? ==> r.value == XmlParser.Serialize(JsonParser.Parse(t, st, json).value)
  {
    match JsonParser.Parse(t, st, json)
    case Err(e) => Err(e)
    case Ok(m) => Ok(XmlParser.Serialize(m))
  }

  /** `xml_to_json`: the XML parse, then the JSON `to_text`; a parse error is
      passed on unchanged. */
  function XmlToJson(t: MediaType, st: Stamps, xml: XmlText): (r: Result<JsonParser.JsonText>)
    ensures r.Err? <==> XmlParser.ParseSpec(t, st, xml).Err?
    ensures r.Err? ==> r.error == XmlParser.ParseSpec(t, st, xml).error
    ensures r.Ok? ==> r.value == JsonParser.ToText(XmlParser.ParseSpec(t, st, xml).value)
  {
    match XmlParser.ParseSpec(t, st, xml)
    case Err(e) => Err(e)
    case Ok(m) => Ok(JsonParser.ToText(m))
  }

  /** `xml_to_obj`: the XML parse alone. It succeeds exactly when the document
      has a single root named after the type and every child named after a field
      has data; each field then holds its last such child's data, or its default. */
  function XmlToObj(t: MediaType, st: Stamps, xml: XmlText): (r: Result<Record>)
    ensures r == XmlParser.ParseSpec(t, st, xml)
    ensures r.Ok? <==> (XmlParser.HasRoot(xml, t) &&
      forall i :: 0 <= i < |FieldNames(t)| ==> ContentOk(XmlParser.RootChildren(xml), FieldNames(t)[i]))
    ensures xml.Malformed? ==> r == Err(XmlSyntax)
    ensures xml.Document? && |xml.nodes| != 1 ==> r == Err(NotOneRoot)
    ensures xml.Document? && |xml.nodes| == 1 && NodeName(xml.nodes[0]) != TypeName(t) ==>
      r == Err(RootMismatch(NodeName(xml.nodes[0]), TypeName(t)))
    ensures r.Ok? ==> TypeOf(r.value) == t
    ensures r.Ok? ==> forall f :: IsField(t, f) && !Mentions(XmlParser.RootChildren(xml), f) ==>
      Value(r.value, f) == Value(Default(t, st), f)
    ensures r.Ok? ==> forall f, j :: IsField(t, f) && IsLastNamed(XmlParser.RootChildren(xml), j, f) ==>
      FirstData(XmlParser.RootChildren(xml)[j]) == Ok(Value(r.value, f))
  {
    if XmlParser.HasRoot(xml, t) then
      XmlParser.ParseFails(t, st, xml);
      if XmlParser.ParseSpec(t, st, xml).Ok? then
        XmlParser.ParseFillsAllFields(t, st, xml);
        XmlParser.ParseSpec(t, st, xml)
      else XmlParser.ParseSpec(t, st, xml)
    else XmlParser.ParseSpec(t, st, xml)
  }

  /** `json_to_obj`: the JSON parse alone. It succeeds exactly when the text
      decodes to an object whose every key is a field; each field then holds its
      member's value, or its default when absent. */
  function JsonToObj(t: MediaType, st: Stamps, json: JsonParser.JsonText): (r: Result<Record>)
    ensures r == JsonParser.Parse(t, st, json)
    ensures r.Ok? <==> json.Json? && json.value.Object? && forall k :: k in json.value.members ==> IsField(t, k)
    ensures r.Ok? ==> TypeOf(r.value) == t
    ensures r.Ok? ==> forall f :: IsField(t, f) ==>
      Value(r.value, f) == if f in json.value.members then json.value.members[f] else Value(Default(t, st), f)
  {
    JsonParser.Parse(t, st, json)
  }

  /** JSON to XML and back yields the JSON that the JSON parser's record writes,
      provided that record has no empty field. */
  lemma JsonXmlJson(t: MediaType, st: Stamps, json: JsonParser.JsonText)
    requires JsonToObj(t, st, json).Ok?
    requires XmlParser.NonEmptyFields(JsonToObj(t, st, json).value)
    ensures JsonToXml(t, st, json).Ok?
    ensures XmlToJson(t, st, JsonToXml(t, st, json).value) == Ok(JsonParser.ToText(JsonToObj(t, st, json).value))
  {
    XmlParser.XmlRoundTrip(st, JsonToObj(t, st, json).value);
  }

  /** A JSON object that names every field with a non-empty string comes back
      unchanged from JSON to XML and back. */
  lemma CompleteJsonSurvives(t: MediaType, st: Stamps, members: map<string, string>)
    requires forall k :: k in members <==> IsField(t, k)
    requires forall k :: k in members ==> members[k] != ""
    ensures JsonToXml(t, st, JsonParser.Json(JsonParser.Object(members))).Ok?
    ensures XmlToJson(t, st, JsonToXml(t, st, JsonParser.Json(JsonParser.Object(members))).value)
            == Ok(JsonParser.Json(JsonParser.Object(members)))
  {
    var json := JsonParser.Json(JsonParser.Object(members));
    JsonParser.ParseCompleteObject(t, st, members);
    var r := JsonParser.Parse(t, st, json).value;
    assert XmlParser.NonEmptyFields(r) by {
      forall f | f in FieldNames(TypeOf(r)) ensures Value(r, f) != "" {
        assert f in AsDict(r);
      }
    }
    JsonXmlJson(t, st, json);
  }

  /** XML to JSON and back yields the XML that the XML parser's record writes;
      no condition is needed, since the JSON round trip is exact. */
  lemma XmlJsonXml(t: MediaType, st: Stamps, xml: XmlText)
    requires XmlToObj(t, st, xml).Ok?
    ensures XmlToJson(t, st, xml).Ok?
    ensures JsonToXml(t, st, XmlToJson(t, st, xml).value) == Ok(XmlParser.Serialize(XmlToObj(t, st, xml).value))
  {
    JsonParser.RoundTrip(st, XmlToObj(t, st, xml).value);
  }

  /** `<Tweet><created>01/01/2022, 09:00</created><text>Tweet!</text></Tweet>`
      parses to a Tweet whose text is `Tweet!`, and converts to the JSON object
      with those two members. */
  lemma TweetExample(st: Stamps)
    ensures var xml := Document([Element("Tweet", [Element("created", [Text("01/01/2022, 09:00")]),
                                                   Element("text", [Text("Tweet!")])])]);
      && XmlToObj(TweetType, st, xml) == Ok(Tweet("01/01/2022, 09:00", "Tweet!"))
      && XmlToJson(TweetType, st, xml) ==
           Ok(JsonParser.Json(JsonParser.Object(map["created" := "01/01/2022, 09:00", "text" := "Tweet!"])))
  {
    var r := Tweet("01/01/2022, 09:00", "Tweet!");
    var cs := XmlParser.RootChildren(XmlParser.Serialize(r));
    assert FieldNames(TweetType) == ["created", "text"];
    assert |cs| == 2;
    assert cs[0] == XmlParser.FieldElement("created", Value(r, "created"));
    assert cs[1] == XmlParser.FieldElement("text", Value(r, "text"));
    assert cs == [Element("created", [Text("01/01/2022, 09:00")]), Element("text", [Text("Tweet!")])];
    assert XmlParser.Serialize(r) == Document([Element("Tweet", [Element("created", [Text("01/01/2022, 09:00")]),
                                                                 Element("text", [Text("Tweet!")])])]);
    XmlParser.XmlRoundTrip(st, r);
    assert AsDict(r) == map["created" := "01/01/2022, 09:00", "text" := "Tweet!"];
  }

  /** A root named `BadTweet` read as a Tweet raises the naming error. */
  lemma BadTweetExample(st: Stamps, children: seq<Node>)
    ensures XmlToObj(TweetType, st, Document([Element("BadTweet", children)])) == Err(RootMismatch("BadTweet", "Tweet"))
  {
  }
}
