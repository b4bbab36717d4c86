/** `XMLMediaParser`: reading a record from a DOM tree, and writing one out. */
module XmlParser {
  import opened Results
  import opened Media
  import opened XmlTree

  /** One pass of the inner loop: child `n` is compared with field `key`. */
  function Step(n: Node, key: string, keys: map<string, string>): Result<map<string, string>>
  {
    if NodeName(n) != key then Ok(keys)
    else
      match FirstData(n)
      case Err(e) => Err(e)
      case Ok(d) => Ok(keys[key := d])
  }

  /** The inner loop over the root's children `cs` for one field, from `keys`. */
  function Scan(cs: seq<Node>, key: string, keys: map<string, string>): Result<map<string, string>>
    decreases |cs|
  {
    if cs == [] then Ok(keys)
    else
      match Scan(cs[..|cs| - 1], key, keys)
      case Err(e) => Err(e)
      case Ok(m) => Step(cs[|cs| - 1], key, m)
  }

  /** Both loops: every field of `fs`, in order, scanned over `cs`, from no keys. */
  function Collect(fs: seq<string>, cs: seq<Node>): Result<map<string, string>>
    decreases |fs|
  {
    if fs == [] then Ok(map[])
    else
      match Collect(fs[..|fs| - 1], cs)
      case Err(e) => Err(e)
      case Ok(m) => Scan(cs, fs[|fs| - 1], m)
  }

  /** The document has a single top-level node, named after the media type. */
  predicate HasRoot(doc: XmlText, t: MediaType)
  {
    doc.Document? && |doc.nodes| == 1 && NodeName(doc.nodes[0]) == TypeName(t)
  }

  /** What `parse(cls_type, string)` returns or raises. */
  function ParseSpec(t: MediaType, st: Stamps, doc: XmlText): Result<Record>
  {
    match doc
    case Malformed => Err(XmlSyntax)
    case Document(top) =>
      if |top| != 1 then Err(NotOneRoot)
      else if NodeName(top[0]) != TypeName(t) then Err(RootMismatch(NodeName(top[0]), TypeName(t)))
      else
        match Collect(FieldNames(t), ChildNodes(top[0]))
        case Err(e) => Err(e)
        case Ok(keys) => Construct(t, st, keys)
  }

  /** `XMLMediaParser.parse`: the structural checks, then the nested loop that
      fills `keys`, then the constructor call. */
  method Parse(t: MediaType, st: Stamps, doc: XmlText) returns (r: Result<Record>)
    ensures r == ParseSpec(t, st, doc)
    ensures doc.Malformed? ==> r == Err(XmlSyntax)
    ensures doc.Document? && |doc.nodes| != 1 ==> r == Err(NotOneRoot)
    ensures doc.Document? && |doc.nodes| == 1 && NodeName(doc.nodes[0]) != TypeName(t) ==>
      r == Err(RootMismatch(NodeName(doc.nodes[0]), TypeName(t)))
    ensures r.Ok? ==> HasRoot(doc, t) && TypeOf(r.value) == t
  {
    var rootName := TypeName(t);
    if doc.Malformed? {
      return Err(XmlSyntax);
    }
    if |doc.nodes| != 1 {
      return Err(NotOneRoot);
    }
    var root := doc.nodes[0];
    if NodeName(root) != rootName {
      return Err(RootMismatch(NodeName(root), rootName));
    }
    var fields := FieldNames(t);
    var cs := ChildNodes(root);
    var keys: map<string, string> := map[];
    var i := 0;
    while i < |fields|
      invariant 0 <= i <= |fields|
      invariant Collect(fields[..i], cs) == Ok(keys)
    {
      var key := fields[i];
      assert fields[..i + 1][..i] == fields[..i];
      var scanned := ScanChildren(cs, key, keys);
      if scanned.Err? {
        CollectErrPersists(fields, i + 1, cs);
        return Err(scanned.error);
      }
      keys := scanned.value;
      i := i + 1;
    }
    assert fields[..|fields|] == fields;
    r := Construct(t, st, keys);
  }

  /** The inner loop of `parse` for field `key`: each child named `key` overwrites
      the key with its data, and a child without data raises. */
  method ScanChildren(cs: seq<Node>, key: string, keys: map<string, string>)
    returns (r: Result<map<string, string>>)
    ensures r == Scan(cs, key, keys)
  {
    var acc := keys;
    var j := 0;
    while j < |cs|
      invariant 0 <= j <= |cs|
      invariant Scan(cs[..j], key, keys) == Ok(acc)
    {
      var node := cs[j];
      assert cs[..j + 1][..j] == cs[..j];
      if NodeName(node) == key {
        var d := FirstData(node);
        if d.Err? {
          ScanErrPersists(cs, j + 1, key, keys);
          return Err(d.error);
        }
        acc := acc[key := d.value];
      }
      j := j + 1;
    }
    assert cs[..|cs|] == cs;
    r := Ok(acc);
  }

  /** Once the inner loop has raised, the rest of the children change nothing. */
  lemma {:induction false} ScanErrPersists(cs: seq<Node>, j: nat, key: string, m: map<string, string>)
    requires j <= |cs|
    requires Scan(cs[..j], key, m).Err?
    ensures Scan(cs, key, m) == Scan(cs[..j], key, m)
    decreases |cs|
  {
    if j < |cs| {
      var p := cs[..|cs| - 1];
      assert p[..j] == cs[..j];
      ScanErrPersists(p, j, key, m);
    } else {
      assert cs[..j] == cs;
    }
  }

  /** Once the outer loop has raised, the remaining fields change nothing. */
  lemma {:induction false} CollectErrPersists(fs: seq<string>, i: nat, cs: seq<Node>)
    requires i <= |fs|
    requires Collect(fs[..i], cs).Err?
    ensures Collect(fs, cs) == Collect(fs[..i], cs)
    decreases |fs|
  {
    if i < |fs| {
      var p := fs[..|fs| - 1];
      assert p[..i] == fs[..i];
      CollectErrPersists(p, i, cs);
    } else {
      assert fs[..i] == fs;
    }
  }

  /** The inner loop for `key` raises exactly when some child named `key` has no
      data, and then with the error of the first such child. */
  lemma {:induction false} ScanFails(cs: seq<Node>, key: string, m: map<string, string>)
    ensures Scan(cs, key, m).Ok? <==> ContentOk(cs, key)
    ensures Scan(cs, key, m).Err? ==>
      exists j :: FirstBad(cs, j, key) && FirstData(cs[j]) == Err(Scan(cs, key, m).error)
    decreases |cs|
  {
    if cs != [] {
      var n := |cs| - 1;
      var p := cs[..n];
      assert forall j :: 0 <= j < n ==> p[j] == cs[j];
      ScanFails(p, key, m);
      match Scan(p, key, m)
      case Err(e) =>
        var j :| FirstBad(p, j, key) && FirstData(p[j]) == Err(e);
        assert FirstBad(cs, j, key);
      case Ok(_) =>
        if NodeName(cs[n]) == key && FirstData(cs[n]).Err? {
          assert FirstBad(cs, n, key);
        }
    }
  }

  /** A successful inner loop for `key` changes no other key, and changes nothing
      at all when no child is named `key`. */
  lemma {:induction false} ScanKeepsOthers(cs: seq<Node>, key: string, m: map<string, string>)
    requires Scan(cs, key, m).Ok?
    ensures Scan(cs, key, m).value - {key} == m - {key}
    ensures !Mentions(cs, key) ==> Scan(cs, key, m).value == m
    decreases |cs|
  {
    if cs != [] {
      var n := |cs| - 1;
      var p := cs[..n];
      assert forall j :: 0 <= j < n ==> p[j] == cs[j];
      ScanKeepsOthers(p, key, m);
      if NodeName(cs[n]) == key {
        assert Named(cs, n, key);
        var m' := Scan(p, key, m).value;
        assert m'[key := FirstData(cs[n]).value] - {key} == m' - {key};
      } else {
        if Mentions(p, key) {
          var j :| Named(p, j, key);
          assert Named(cs, j, key);
        }
      }
    }
  }

  /** After a successful inner loop for `key`, `key` holds the data of the last
      child named `key`: last match wins. */
  lemma {:induction false} ScanLastWins(cs: seq<Node>, key: string, m: map<string, string>, j: int)
    requires Scan(cs, key, m).Ok?
    requires IsLastNamed(cs, j, key)
    ensures key in Scan(cs, key, m).value
    ensures FirstData(cs[j]) == Ok(Scan(cs, key, m).value[key])
    decreases |cs|
  {
    var n := |cs| - 1;
    var p := cs[..n];
    if j < n {
      assert NodeName(cs[n]) != key;
      assert IsLastNamed(p, j, key);
      ScanLastWins(p, key, m, j);
    }
  }

  /** `keys` holds only fields of `fs`. */
  ghost predicate OnlyFields(fs: seq<string>, keys: map<string, string>)
  {
    forall k :: k in keys ==> k in fs
  }

  /** `keys` holds exactly the fields of `fs` that some child of `cs` is named after. */
  ghost predicate MentionedFields(fs: seq<string>, cs: seq<Node>, keys: map<string, string>)
  {
    forall i :: 0 <= i < |fs| ==> (fs[i] in keys <==> Mentions(cs, fs[i]))
  }

  /** `keys` holds the data of the last child of `cs` named `key`, if there is one. */
  ghost predicate HoldsLast(cs: seq<Node>, key: string, keys: map<string, string>)
  {
    forall j :: IsLastNamed(cs, j, key) ==> key in keys && FirstData(cs[j]) == Ok(keys[key])
  }

  /** For each field of `fs`, `keys` holds the data of the last child named after it. */
  ghost predicate LastData(fs: seq<string>, cs: seq<Node>, keys: map<string, string>)
  {
    forall i :: 0 <= i < |fs| ==> HoldsLast(cs, fs[i], keys)
  }

  /** `keys` holds, for each field of `fs` that some child of `cs` is named after,
      the data of the last such child, and nothing else. */
  ghost predicate Gathered(fs: seq<string>, cs: seq<Node>, keys: map<string, string>)
  {
    OnlyFields(fs, keys) && MentionedFields(fs, cs, keys) && LastData(fs, cs, keys)
  }

  /** Both loops raise exactly when some field has a child without data, and then
      at the first such child of the first such field. */
  lemma {:induction false} CollectFails(fs: seq<string>, cs: seq<Node>)
    ensures Collect(fs, cs).Ok? <==> forall i :: 0 <= i < |fs| ==> ContentOk(cs, fs[i])
    ensures Collect(fs, cs).Err? ==> exists i, j ::
      && 0 <= i < |fs| && FirstBad(cs, j, fs[i])
      && FirstData(cs[j]) == Err(Collect(fs, cs).error)
      && forall i' :: 0 <= i' < i ==> ContentOk(cs, fs[i'])
    decreases |fs|
  {
    if fs != [] {
      var n := |fs| - 1;
      var p := fs[..n];
      assert forall i :: 0 <= i < n ==> p[i] == fs[i];
      CollectFails(p, cs);
      match Collect(p, cs)
      case Err(e) =>
        var i, j :| && 0 <= i < |p| && FirstBad(cs, j, p[i]) && FirstData(cs[j]) == Err(e)
                    && forall i' :: 0 <= i' < i ==> ContentOk(cs, p[i']);
        assert !ContentOk(cs, fs[i]);
      case Ok(m) =>
        ScanFails(cs, fs[n], m);
        if Scan(cs, fs[n], m).Err? {
          var j :| FirstBad(cs, j, fs[n]) && FirstData(cs[j]) == Err(Scan(cs, fs[n], m).error);
          assert !ContentOk(cs, fs[n]);
        }
    }
  }

  /** With distinct field names, successful loops have gathered exactly the
      mentioned fields, each with the data of its last matching child. */
  lemma {:induction false} CollectGathers(fs: seq<string>, cs: seq<Node>)
    requires Distinct(fs)
    requires Collect(fs, cs).Ok?
    ensures Gathered(fs, cs, Collect(fs, cs).value)
    decreases |fs|
  {
    if fs != [] {
      var n := |fs| - 1;
      var p := fs[..n];
      assert fs == p + [fs[n]];
      CollectGathers(p, cs);
      GatherStep(p, fs[n], cs, Collect(p, cs).value);
    }
  }

  /** One more pass of the outer loop, for a field not scanned before. */
  lemma GatherStep(p: seq<string>, key: string, cs: seq<Node>, m: map<string, string>)
    requires Gathered(p, cs, m) && key !in p
    requires Scan(cs, key, m).Ok?
    ensures Gathered(p + [key], cs, Scan(cs, key, m).value)
  {
    ScanKeepsOthers(cs, key, m);
    GatherOnlyStep(p, key, m, Scan(cs, key, m).value);
    GatherMentionedStep(p, key, cs, m);
    GatherLastStep(p, key, cs, m);
  }

  lemma GatherOnlyStep(p: seq<string>, key: string, m: map<string, string>, r: map<string, string>)
    requires OnlyFields(p, m)
    requires r - {key} == m - {key}
    ensures OnlyFields(p + [key], r)
  {
    forall k | k in r ensures k in p + [key] {
      if k != key { assert k in r - {key}; }
    }
  }

  lemma GatherMentionedStep(p: seq<string>, key: string, cs: seq<Node>, m: map<string, string>)
    requires OnlyFields(p, m) && MentionedFields(p, cs, m) && key !in p
    requires Scan(cs, key, m).Ok?
    ensures MentionedFields(p + [key], cs, Scan(cs, key, m).value)
  {
    var fs := p + [key];
    var r := Scan(cs, key, m).value;
    ScanKeepsOthers(cs, key, m);
    assert key in r <==> Mentions(cs, key) by {
      if Mentions(cs, key) {
        var j :| Named(cs, j, key);
        LastExists(cs, j, key);
        var l :| IsLastNamed(cs, l, key);
        ScanLastWins(cs, key, m, l);
      } else {
        assert key !in m;
      }
    }
    forall i | 0 <= i < |fs|
      ensures fs[i] in r <==> Mentions(cs, fs[i])
    {
      if i < |p| {
        assert fs[i] == p[i] != key;
        assert fs[i] in r - {key} <==> fs[i] in m - {key};
      }
    }
  }

  lemma GatherLastStep(p: seq<string>, key: string, cs: seq<Node>, m: map<string, string>)
    requires LastData(p, cs, m) && key !in p
    requires Scan(cs, key, m).Ok?
    ensures LastData(p + [key], cs, Scan(cs, key, m).value)
  {
    var fs := p + [key];
    var r := Scan(cs, key, m).value;
    ScanKeepsOthers(cs, key, m);
    forall i | 0 <= i < |fs| ensures HoldsLast(cs, fs[i], r) {
      if i == |p| {
        forall j | IsLastNamed(cs, j, key) ensures key in r && FirstData(cs[j]) == Ok(r[key]) {
          ScanLastWins(cs, key, m, j);
        }
      } else {
        assert fs[i] == p[i] && HoldsLast(cs, p[i], m);
        HoldsLastKept(cs, p[i], key, m, r);
      }
    }
  }

  /** Updating another key keeps what `HoldsLast` says about `k`. */
  lemma HoldsLastKept(cs: seq<Node>, k: string, key: string, m: map<string, string>, r: map<string, string>)
    requires HoldsLast(cs, k, m) && k != key
    requires r - {key} == m - {key}
    ensures HoldsLast(cs, k, r)
  {
    forall j | IsLastNamed(cs, j, k) ensures k in r && FirstData(cs[j]) == Ok(r[k]) {
      KeptEntry(m, r, key, k);
    }
  }

  lemma KeptEntry(m: map<string, string>, r: map<string, string>, key: string, k: string)
    requires r - {key} == m - {key}
    requires k in m && k != key
    ensures k in r && r[k] == m[k]
  {
    assert k in m - {key};
  }

  /** A child named `key` means there is a last child named `key`. */
  lemma {:induction false} LastExists(cs: seq<Node>, j: int, key: string)
    requires Named(cs, j, key)
    ensures exists l :: IsLastNamed(cs, l, key)
    decreases |cs| - j
  {
    if !IsLastNamed(cs, j, key) {
      var j' :| j < j' < |cs| && NodeName(cs[j']) == key;
      LastExists(cs, j', key);
    }
  }

  /** The children of the single top-level node. */
  function RootChildren(doc: XmlText): seq<Node>
    requires doc.Document? && |doc.nodes| == 1
  {
    ChildNodes(doc.nodes[0])
  }

  /** With the structural checks passed, the parse raises exactly when a child named
      after a field has no data, and then at the first such child of the first such
      field, in declaration order. */
  lemma ParseFails(t: MediaType, st: Stamps, doc: XmlText)
    requires HasRoot(doc, t)
    ensures ParseSpec(t, st, doc).Ok? <==>
      forall i :: 0 <= i < |FieldNames(t)| ==> ContentOk(RootChildren(doc), FieldNames(t)[i])
    ensures ParseSpec(t, st, doc).Err? ==> exists i, j ::
      && 0 <= i < |FieldNames(t)| && FirstBad(RootChildren(doc), j, FieldNames(t)[i])
      && FirstData(RootChildren(doc)[j]) == Err(ParseSpec(t, st, doc).error)
      && forall i' :: 0 <= i' < i ==> ContentOk(RootChildren(doc), FieldNames(t)[i'])
  {
    CollectFails(FieldNames(t), RootChildren(doc));
    if Collect(FieldNames(t), RootChildren(doc)).Ok? {
      CollectGathers(FieldNames(t), RootChildren(doc));
    }
  }

  /** A successful parse sets each field to the data of the last child named after
      it, and leaves a field that no child is named after at its default. */
  lemma ParseFillsFields(t: MediaType, st: Stamps, doc: XmlText, f: string)
    requires HasRoot(doc, t) && IsField(t, f)
    requires ParseSpec(t, st, doc).Ok?
    ensures TypeOf(ParseSpec(t, st, doc).value) == t
    ensures !Mentions(RootChildren(doc), f) ==>
      Value(ParseSpec(t, st, doc).value, f) == Value(Default(t, st), f)
    ensures forall j :: IsLastNamed(RootChildren(doc), j, f) ==>
      FirstData(RootChildren(doc)[j]) == Ok(Value(ParseSpec(t, st, doc).value, f))
  {
    var fs, cs := FieldNames(t), RootChildren(doc);
    CollectFails(fs, cs);
    CollectGathers(fs, cs);
    var i :| 0 <= i < |fs| && fs[i] == f;
    assert fs[i] in Collect(fs, cs).value <==> Mentions(cs, fs[i]);
    assert HoldsLast(cs, fs[i], Collect(fs, cs).value);
  }

  /** `ParseFillsFields` for every field at once. */
  lemma ParseFillsAllFields(t: MediaType, st: Stamps, doc: XmlText)
    requires HasRoot(doc, t)
    requires ParseSpec(t, st, doc).Ok?
    ensures forall f :: IsField(t, f) && !Mentions(RootChildren(doc), f) ==>
      Value(ParseSpec(t, st, doc).value, f) == Value(Default(t, st), f)
    ensures forall f, j :: IsField(t, f) && IsLastNamed(RootChildren(doc), j, f) ==>
      FirstData(RootChildren(doc)[j]) == Ok(Value(ParseSpec(t, st, doc).value, f))
  {
    forall f | IsField(t, f)
      ensures !Mentions(RootChildren(doc), f) ==>
        Value(ParseSpec(t, st, doc).value, f) == Value(Default(t, st), f)
      ensures forall j :: IsLastNamed(RootChildren(doc), j, f) ==>
        FirstData(RootChildren(doc)[j]) == Ok(Value(ParseSpec(t, st, doc).value, f))
    {
      ParseFillsFields(t, st, doc, f);
    }
  }

  /** Inserting a child whose name is not `key` does not change the inner loop. */
  lemma ScanInsert(a: seq<Node>, n: Node, b: seq<Node>, key: string, m: map<string, string>)
    requires NodeName(n) != key
    ensures Scan(a + [n] + b, key, m) == Scan(a + b, key, m)
  {
    ScanAppend(a + [n], b, key, m);
    ScanAppend(a, [n], key, m);
    ScanAppend(a, b, key, m);
    if Scan(a, key, m).Ok? {
      assert [n][..0] == [];
    }
  }

  /** The inner loop over `a + b` is the loop over `a`, continued over `b`. */
  lemma {:induction false} ScanAppend(a: seq<Node>, b: seq<Node>, key: string, m: map<string, string>)
    ensures Scan(a + b, key, m) ==
      match Scan(a, key, m)
      case Err(e) => Err(e)
      case Ok(m') => Scan(b, key, m')
    decreases |b|
  {
    if b == [] {
      assert a + b == a;
    } else {
      var c := a + b;
      var b' := b[..|b| - 1];
      assert c[..|c| - 1] == a + b';
      assert c[|c| - 1] == b[|b| - 1];
      ScanAppend(a, b', key, m);
    }
  }

  /** Inserting a child that is not named after any field of `fs` does not change
      the two loops. */
  lemma {:induction false} CollectInsert(fs: seq<string>, a: seq<Node>, n: Node, b: seq<Node>)
    requires NodeName(n) !in fs
    ensures Collect(fs, a + [n] + b) == Collect(fs, a + b)
    decreases |fs|
  {
    if fs != [] {
      var p := fs[..|fs| - 1];
      assert forall k :: k in p ==> k in fs;
      CollectInsert(p, a, n, b);
      if Collect(p, a + b).Ok? {
        ScanInsert(a, n, b, fs[|fs| - 1], Collect(p, a + b).value);
      }
    }
  }

  /** Children whose names are not field names are ignored, wherever they stand. */
  lemma ParseIgnoresForeign(t: MediaType, st: Stamps, name: string, a: seq<Node>, n: Node, b: seq<Node>)
    requires !IsField(t, NodeName(n))
    ensures ParseSpec(t, st, Document([Element(name, a + [n] + b)])) ==
            ParseSpec(t, st, Document([Element(name, a + b)]))
  {
    CollectInsert(FieldNames(t), a, n, b);
  }

  /** The element that `to_text` writes for one field: an empty string leaves
      the element without any child. */
  function FieldElement(name: string, value: string): Node
  {
    Element(name, if value == "" then [] else [Text(value)])
  }

  /** The document `to_text` writes for `r`, one child per field, in order. */
  function Serialize(r: Record): XmlText
  {
    var fs := FieldNames(TypeOf(r));
    Document([Element(TypeName(TypeOf(r)),
                      seq(|fs|, i requires 0 <= i < |fs| => FieldElement(fs[i], Value(r, fs[i]))))])
  }

  /** `XMLMediaParser.to_text`: a root named after the record's type, with one
      sub-element per field appended in declaration order, each holding the
      field's value as its only content. */
  method ToText(r: Record) returns (x: XmlText)
    ensures x == Serialize(r)
    ensures HasRoot(x, TypeOf(r)) && x.nodes[0].Element?
    ensures |RootChildren(x)| == |FieldNames(TypeOf(r))|
    ensures forall i :: 0 <= i < |FieldNames(TypeOf(r))| ==>
      var f := FieldNames(TypeOf(r))[i];
      RootChildren(x)[i] == Element(f, if Value(r, f) == "" then [] else [Text(Value(r, f))])
  {
    var fs := FieldNames(TypeOf(r));
    var children: seq<Node> := [];
    for i := 0 to |fs|
      invariant |children| == i
      invariant forall k :: 0 <= k < i ==> children[k] == FieldElement(fs[k], Value(r, fs[k]))
    {
      var field := Element(fs[i], []);
      var value := Value(r, fs[i]);
      if value != "" {
        field := field.(children := [Text(value)]);
      }
      children := children + [field];
    }
    assert children == seq(|fs|, i requires 0 <= i < |fs| => FieldElement(fs[i], Value(r, fs[i])));
    x := Document([Element(TypeName(TypeOf(r)), children)]);
  }

  /** Every field of `r` holds a non-empty string. */
  predicate NonEmptyFields(r: Record)
  {
    forall f | f in FieldNames(TypeOf(r)) :: Value(r, f) != ""
  }

  /** In the document written for `r`, field `fs[i]` is named by child `i` only. */
  lemma SerializedChild(r: Record, i: int)
    requires 0 <= i < |FieldNames(TypeOf(r))|
    ensures IsLastNamed(RootChildren(Serialize(r)), i, FieldNames(TypeOf(r))[i])
    ensures forall j :: Named(RootChildren(Serialize(r)), j, FieldNames(TypeOf(r))[i]) ==> j == i
    ensures FirstData(RootChildren(Serialize(r))[i]) ==
      var v := Value(r, FieldNames(TypeOf(r))[i]); if v == "" then Err(NoContent(FieldNames(TypeOf(r))[i])) else Ok(v)
  {
    var fs, cs := FieldNames(TypeOf(r)), RootChildren(Serialize(r));
    assert forall j :: 0 <= j < |cs| ==> NodeName(cs[j]) == fs[j];
  }

  /** Parsing what `to_text` wrote, as the record's own type, gives the record
      back, provided no field is the empty string. */
  lemma XmlRoundTrip(st: Stamps, r: Record)
    requires NonEmptyFields(r)
    ensures ParseSpec(TypeOf(r), st, Serialize(r)) == Ok(r)
  {
    SerializedKeys(r);
    ConstructAsDict(st, r);
  }

  /** On the document written for a record without empty fields, the two loops
      gather exactly the record's `asdict`. */
  lemma SerializedKeys(r: Record)
    requires NonEmptyFields(r)
    ensures Collect(FieldNames(TypeOf(r)), RootChildren(Serialize(r))) == Ok(AsDict(r))
  {
    var fs, cs := FieldNames(TypeOf(r)), RootChildren(Serialize(r));
    forall i | 0 <= i < |fs| ensures ContentOk(cs, fs[i]) {
      SerializedChild(r, i);
    }
    CollectFails(fs, cs);
    CollectGathers(fs, cs);
    GatheredIsAsDict(r, Collect(fs, cs).value);
  }

  lemma GatheredIsAsDict(r: Record, keys: map<string, string>)
    requires NonEmptyFields(r)
    requires Gathered(FieldNames(TypeOf(r)), RootChildren(Serialize(r)), keys)
    ensures keys == AsDict(r)
  {
    var fs, cs := FieldNames(TypeOf(r)), RootChildren(Serialize(r));
    assert OnlyFields(fs, keys) && LastData(fs, cs, keys);
    forall k | k in keys || k in AsDict(r)
      ensures k in keys && k in AsDict(r) && keys[k] == AsDict(r)[k]
    {
      var i :| 0 <= i < |fs| && fs[i] == k;
      SerializedChild(r, i);
      assert HoldsLast(cs, fs[i], keys);
      assert fs[i] in keys && FirstData(cs[i]) == Ok(keys[fs[i]]);
    }
  }

  /** An empty field breaks the round trip: the parse fails on the first empty
      field, whose element was written without content. */
  lemma XmlEmptyFieldFails(st: Stamps, r: Record, i: int)
    requires 0 <= i < |FieldNames(TypeOf(r))|
    requires Value(r, FieldNames(TypeOf(r))[i]) == ""
    requires forall i' :: 0 <= i' < i ==> Value(r, FieldNames(TypeOf(r))[i']) != ""
    ensures ParseSpec(TypeOf(r), st, Serialize(r)) == Err(NoContent(FieldNames(TypeOf(r))[i]))
  {
    var t := TypeOf(r);
    var fs, doc := FieldNames(t), Serialize(r);
    var cs := RootChildren(doc);
    SerializedChild(r, i);
    ParseFails(t, st, doc);
    assert !ContentOk(cs, fs[i]);
    var i0, j0 :| && 0 <= i0 < |fs| && FirstBad(cs, j0, fs[i0])
                  && FirstData(cs[j0]) == Err(ParseSpec(t, st, doc).error)
                  && forall i' :: 0 <= i' < i0 ==> ContentOk(cs, fs[i']);
    SerializedChild(r, i0);
    assert j0 == i0;
    if i0 < i {
      assert false;
    } else if i < i0 {
      assert false;
    }
  }
}
