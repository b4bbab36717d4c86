/** The DOM tree that the XML library builds from a document's text. */
module XmlTree {
  import opened Results

  /** A DOM node: an element with its child nodes, a run of character data,
      or a comment (which also carries `data`). */
  datatype Node =
    | Element(name: string, children: seq<Node>)
    | Text(data: string)
    | Comment(data: string)

  /** The outcome of parsing a document's text: either the library rejects it,
      or it yields the document's top-level nodes. */
  datatype XmlText = Malformed | Document(nodes: seq<Node>)

  /** `nodeName`: the tag of an element, a fixed marker for the other nodes. */
  function NodeName(n: Node): string
  {
    match n
    case Element(name, _) => name
    case Text(_) => "#text"
    case Comment(_) => "#comment"
  }

  /** `childNodes`: empty for everything but an element. */
  function ChildNodes(n: Node): seq<Node>
  {
    if n.Element? then n.children else []
  }

  /** `n.childNodes[0].data`: fails when `n` has no child, or when its first child
      is an element (elements carry no `data`). */
  function FirstData(n: Node): Result<string>
  {
    var cs := ChildNodes(n);
    if |cs| == 0 then Err(NoContent(NodeName(n)))
    else if cs[0].Element? then Err(NoData(NodeName(n)))
    else Ok(cs[0].data)
  }

  /** Child `j` of `cs` has the name `key`. */
  predicate Named(cs: seq<Node>, j: int, key: string)
  {
    0 <= j < |cs| && NodeName(cs[j]) == key
  }

  /** Some child of `cs` has the name `key`. */
  ghost predicate Mentions(cs: seq<Node>, key: string)
  {
    exists j :: Named(cs, j, key)
  }

  /** Child `j` is the last child of `cs` named `key`. */
  ghost predicate IsLastNamed(cs: seq<Node>, j: int, key: string)
  {
    Named(cs, j, key) && forall j' :: j < j' < |cs| ==> NodeName(cs[j']) != key
  }

  /** Every child named `key` has data to read. */
  ghost predicate ContentOk(cs: seq<Node>, key: string)
  {
    forall j :: Named(cs, j, key) ==> FirstData(cs[j]).Ok?
  }

  /** Child `j` is the first child named `key` that has no data to read. */
  ghost predicate FirstBad(cs: seq<Node>, j: int, key: string)
  {
    && Named(cs, j, key)
    && FirstData(cs[j]).Err?
    && forall j' :: 0 <= j' < j && Named(cs, j', key) ==> FirstData(cs[j']).Ok?
  }
}
