# Media adapter model

A Dafny model of the media adapter in `design_patterns/structural/adapter.py`.

The adapter has two record types, `Tweet` (fields `created`, `text`) and `NewsArticle` (fields `created`, `text`, `title`, `published`). It has two parser/writer pairs, one for XML and one for JSON. The `Adapter` class chains a parse in one format with a write in the other.

The model works on what the format libraries produce and consume, not on characters:

- An XML document is the DOM tree the parser builds (`XmlTree.XmlText`): either `Malformed`, or the document's top-level nodes. Nodes are elements, character data and comments.
- A JSON text is the decoded value (`JsonParser.JsonText`): either `Malformed`, an object with string members, or some other value.
- The two `datetime.now()` defaults are evaluated once, when the classes are defined. They enter every operation as a `Media.Stamps` parameter.

Modules:

- `Results`: the errors the adapter raises, one constructor per exception, and `Result`.
- `Media`: record types, field order, defaults, the dataclass constructor (`Construct`), `asdict` and `__str__`.
- `XmlTree`: DOM nodes, `nodeName`, `childNodes` and `childNodes[0].data`.
- `XmlParser`: `XMLMediaParser.parse` as a method with the source's nested loop, proved equal to the recursive specification `ParseSpec`. The inner loop is the method `ScanChildren`. It also holds `to_text` as a method with a loop, proved equal to `Serialize`.
- `JsonParser`: `JSONMediaParser.parse` and `to_text` as functions.
- `Adapter`: the four compositions, and lemmas relating them.

Two behaviours of the code limit what the model can promise:

- The XML round trip fails when a field is the empty string. `to_text` then writes an element with no content (design_patterns/structural/adapter.py:98), and `parse` fails reading `node.childNodes[0]` (design_patterns/structural/adapter.py:89). `XmlParser.XmlRoundTrip` therefore requires non-empty fields, and `XmlParser.XmlEmptyFieldFails` proves the failure.
- A JSON key that is not a field becomes a keyword argument of the constructor, which raises a `TypeError` (design_patterns/structural/adapter.py:64). `JsonParser.Parse` returns `UnexpectedFields` for such keys.

## Model

| member | source | states |
|---|---|---|
| `Media.TypeName` | design_patterns/structural/adapter.py:76 | the type name is `"Tweet"` exactly for the Tweet type and `"NewsArticle"` exactly for the NewsArticle type |
| `Media.FieldNames` | design_patterns/structural/adapter.py:12-33 | the declared fields are distinct; the inherited `created`, `text` come first, in that order; a Tweet has only those two, and a NewsArticle adds `title`, `published` after them |
| `Media.Default` | design_patterns/structural/adapter.py:16-33 | `cls_type()` has the requested type, `created` and `published` at their definition-time stamps, `text` = `"<empty>"`, `title` = `"untitled"` |
| `Media.Construct` | design_patterns/structural/adapter.py:12-33 | `cls_type(**kwargs)` succeeds iff every keyword is a field; otherwise it fails with exactly the non-field keywords. On success each field takes its keyword's value, or its default when absent |
| `Media.AsDict` | design_patterns/structural/adapter.py:19-21 | `asdict` has exactly the type's fields as keys, each mapped to the field's value |
| `Media.ConstructAsDict` | design_patterns/structural/adapter.py:19-21 | constructing from a record's own `asdict` rebuilds that record, whatever the defaults |
| `Media.Str` | design_patterns/structural/adapter.py:35-44 | `__str__` is the type's label (`Tweet "` or `News Article "`), then the first shown field (text or title), then `" (`, then the second shown field (created or published), then `)` |
| `Media.StrDeterminesShown` | design_patterns/structural/adapter.py:35-44 | when the first shown field holds no `"`, equal `__str__` outputs mean equal types and equal shown fields |
| `XmlParser.Parse` | design_patterns/structural/adapter.py:75-91 | equals `ParseSpec`. Errors come in this order: unparsable text, then more or fewer than one top-level node (`NotOneRoot`), then a root name other than the type name (`RootMismatch`). Success implies a single root named after the type, and a record of that type |
| `XmlParser.ScanChildren` | design_patterns/structural/adapter.py:87-89 | the inner loop over the root's children for one field equals `Scan`: each child with that name overwrites the key with its data, and a child without data raises |
| `XmlParser.ScanErrPersists` | design_patterns/structural/adapter.py:87-89 | once a child raises in the inner loop, the remaining children change nothing |
| `XmlParser.CollectErrPersists` | design_patterns/structural/adapter.py:86-89 | once the outer loop has raised, the remaining fields change nothing |
| `XmlParser.ScanFails` | design_patterns/structural/adapter.py:87-89 | the inner loop for one field fails iff some child with that name has no data. It fails at the first such child, with that child's error |
| `XmlParser.ScanKeepsOthers` | design_patterns/structural/adapter.py:87-89 | the inner loop for one field changes no other key, and changes nothing when no child has that name |
| `XmlParser.ScanLastWins` | design_patterns/structural/adapter.py:87-89 | after the inner loop, the field's key holds the data of the last child with that name |
| `XmlParser.CollectFails` | design_patterns/structural/adapter.py:85-89 | the nested loop fails iff some field has a matching child without data. It fails at the first such child of the first such field, in declaration order |
| `XmlParser.CollectGathers` | design_patterns/structural/adapter.py:85-89 | a successful nested loop gathers exactly the fields that some child names, each with the data of its last matching child, and no other key |
| `XmlParser.ParseFails` | design_patterns/structural/adapter.py:85-91 | given a single root with the right name, the parse fails iff a matching child has no data. The error is the first such child's error in (field, child) order |
| `XmlParser.ParseFillsFields` | design_patterns/structural/adapter.py:85-91 | a successful parse gives each field the data of its last matching child, and leaves an unmentioned field at its default |
| `XmlParser.ParseIgnoresForeign` | design_patterns/structural/adapter.py:86-89 | inserting a child whose name is not a field name, anywhere among the root's children, does not change the parse result or its error |
| `XmlParser.ToText` | design_patterns/structural/adapter.py:94-101 | equals `Serialize`. The output has a single root named after the record's type, with one child per field in declaration order. Each child holds the field's value as its only text, and has no content when the value is empty |
| `XmlParser.SerializedChild` | design_patterns/structural/adapter.py:95-98 | in the written document, only child `i` is named after field `i`, and reading its data yields the field's value. An empty value reads as `NoContent` |
| `XmlParser.XmlRoundTrip` | design_patterns/structural/adapter.py:86-98 | parsing the XML written for `r`, as `r`'s type, yields `r`, provided no field is empty |
| `XmlParser.SerializedKeys` | design_patterns/structural/adapter.py:85-98 | on the XML written for a record with no empty field, the nested loop gathers exactly the record's `asdict` |
| `XmlParser.XmlEmptyFieldFails` | design_patterns/structural/adapter.py:89-98 | when field `i` is the first empty field, parsing the written XML fails with `NoContent` for that field |
| `JsonParser.Parse` | design_patterns/structural/adapter.py:63-64 | undecodable text gives `JsonSyntax`, and a non-object gives `NotAMapping`. Otherwise the parse succeeds iff every key is a field, and fails with exactly the unknown keys otherwise. Present keys override the defaults, and absent fields keep them |
| `JsonParser.ToText` | design_patterns/structural/adapter.py:67-68 | the output is an object with exactly the record's fields as members, each holding the field's value |
| `JsonParser.RoundTrip` | design_patterns/structural/adapter.py:63-68 | parsing the JSON written for `r`, as `r`'s type, yields `r` |
| `JsonParser.ParseCompleteObject` | design_patterns/structural/adapter.py:63-68 | an object whose members are exactly the type's fields parses, and yields the record whose `asdict` is that object |
| `JsonParser.ParseThenToText` | design_patterns/structural/adapter.py:63-68 | parsing an accepted object and writing it again gives the defaults' `asdict` overridden by the input's members |
| `Adapter.JsonToXml` | design_patterns/structural/adapter.py:111-114 | fails iff the JSON parse fails, with the same error; otherwise returns the XML written for the parsed record |
| `Adapter.XmlToJson` | design_patterns/structural/adapter.py:117-120 | fails iff the XML parse fails, with the same error; otherwise returns the JSON written for the parsed record |
| `Adapter.XmlToObj` | design_patterns/structural/adapter.py:123-125 | succeeds iff the document has a single root named after the type and every child named after a field has data; otherwise the unparsable-text, root-count and root-name errors in that order. On success the record has the requested type, each field holds the data of its last matching child, and a field no child names keeps its default |
| `Adapter.JsonToObj` | design_patterns/structural/adapter.py:128-130 | succeeds iff the JSON decodes to an object whose every key is a field; on success the record has the requested type, and each field holds its member's value, or its default when the object lacks it |
| `Adapter.JsonXmlJson` | design_patterns/structural/adapter.py:111-120 | JSON to XML and back gives the JSON written for the parsed record, provided that record has no empty field |
| `Adapter.CompleteJsonSurvives` | design_patterns/structural/adapter.py:111-120 | a JSON object naming every field with a non-empty string comes back unchanged from JSON to XML and back |
| `Adapter.XmlJsonXml` | design_patterns/structural/adapter.py:111-120 | XML to JSON and back gives the XML written for the parsed record, with no condition |
| `Adapter.TweetExample` | design_patterns/structural/adapter.py:117-125 | `<Tweet><created>01/01/2022, 09:00</created><text>Tweet!</text></Tweet>` gives the Tweet with text `Tweet!`, and the JSON object with exactly those two members |
| `Adapter.BadTweetExample` | design_patterns/structural/adapter.py:81-83 | a root named `BadTweet`, read as a Tweet, fails with the naming error |

## Left out

- Character-level XML and JSON text is not modelled: lexing, escaping, pretty-printing, and the `minidom` / `ElementTree` / `json` library code. The model starts from the parsed tree or decoded value, and any text a library rejects is one opaque error. The XML round trip is proved on trees. Text that XML cannot carry unchanged is outside the model: carriage returns are normalised, and some control characters are forbidden.
- DOM node kinds other than elements, character data and comments are not modelled: CDATA sections, processing instructions and document types.
- JSON member values other than strings are not modelled. The dataclasses would accept numbers, lists or `null` as field values without complaint.
- Media.Construct: Python's TypeError names only the first unexpected keyword, in the object's key order. The model's error carries the whole set of unexpected keys, because a map has no order.
- The `print` call inside XML `to_text` (design_patterns/structural/adapter.py:99) is console output.
- `datetime.now()` at class definition (design_patterns/structural/adapter.py:16, :33) reads the clock. The two values are the `Stamps` parameter.
- `MediaClass` is not modelled as a `cls_type`, by choice. Python would accept it: the class does not use `ABCMeta`, so its `@abstractmethod` (design_patterns/structural/adapter.py:23) blocks nothing. Parsing with it would use the root name `MediaClass` and the fields `created`, `text`, and its `__str__` would return `None`. `MediaParser` is an abstract interface with no behaviour.
- The `Adapter` functions call the parse and write specifications (`XmlParser.ParseSpec`, `XmlParser.Serialize`) rather than the methods `XmlParser.Parse` and `XmlParser.ToText`. Dafny functions cannot call methods; the methods are proved equal to those functions.
- The other examples of the repository are not modelled:
  - The factory and abstract factory call missing names, or only print.
  - The bridge is empty classes.
  - The vehicle builder's source file is not part of this model: only its tests exist.
  - The remaining test stubs only create objects of empty classes.
