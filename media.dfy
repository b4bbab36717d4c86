/** The two media record types, their field lists, defaults and `__str__`. */
module Media {
  import opened Results

  /** The class object passed as `cls_type`. */
  datatype MediaType = TweetType | NewsArticleType

  /** The two `datetime.now()` values computed once, when the classes are defined:
      `created` (shared by both types through inheritance) and `published`. */
  datatype Stamps = Stamps(created: string, published: string)

  /** A media record: every field is a string. */
  datatype Record =
    | Tweet(created: string, text: string)
    | NewsArticle(created: string, text: string, title: string, published: string)

  const DEFAULT_TEXT := "<empty>"
  const DEFAULT_TITLE := "untitled"

  function TypeOf(r: Record): MediaType
  {
    if r.Tweet? then TweetType else NewsArticleType
  }

  /** The class name, `type(cls_type()).__name__`. */
  function TypeName(t: MediaType): (name: string)
    ensures name == "Tweet" <==> t == TweetType
    ensures name == "NewsArticle" <==> t == NewsArticleType
  {
    match t
    case TweetType => "Tweet"
    case NewsArticleType => "NewsArticle"
  }

  /** The dataclass fields in declaration order, inherited fields first. */
  function FieldNames(t: MediaType): (fs: seq<string>)
    ensures Distinct(fs)
    ensures |fs| > 0 && fs[0] == "created"
    ensures |fs| >= 2 && fs[..2] == ["created", "text"]
    ensures t == TweetType <==> |fs| == 2
    ensures t == NewsArticleType ==> fs[2..] == ["title", "published"]
  {
    match t
    case TweetType => ["created", "text"]
    case NewsArticleType => ["created", "text", "title", "published"]
  }

  predicate Distinct(fs: seq<string>)
  {
    forall i, j :: 0 <= i < j < |fs| ==> fs[i] != fs[j]
  }

  predicate IsField(t: MediaType, name: string)
  {
    name in FieldNames(t)
  }

  /** `getattr(r, name)` for a declared field. */
  function Value(r: Record, name: string): string
    requires IsField(TypeOf(r), name)
  {
    match name
    case "created" => r.created
    case "text" => r.text
    case "title" => r.title
    case "published" => r.published
  }

  /** `cls_type()`: every field at its class default. */
  function Default(t: MediaType, st: Stamps): (r: Record)
    ensures TypeOf(r) == t
    ensures r.created == st.created && r.text == DEFAULT_TEXT
    ensures r.NewsArticle? ==> r.title == DEFAULT_TITLE && r.published == st.published
  {
    match t
    case TweetType => Tweet(st.created, DEFAULT_TEXT)
    case NewsArticleType => NewsArticle(st.created, DEFAULT_TEXT, DEFAULT_TITLE, st.published)
  }

  function Pick(kwargs: map<string, string>, name: string, fallback: string): string
  {
    if name in kwargs then kwargs[name] else fallback
  }

  /** Names in `kwargs` that are not fields of `t`. */
  function Unknown(t: MediaType, kwargs: map<string, string>): set<string>
  {
    set k | k in kwargs && !IsField(t, k)
  }

  /** `cls_type(**kwargs)`: a keyword that is not a field raises a TypeError; every
      field given as a keyword takes that value and every other field its default. */
  function Construct(t: MediaType, st: Stamps, kwargs: map<string, string>): (r: Result<Record>)
    ensures r.Ok? <==> (forall k :: k in kwargs ==> IsField(t, k))
    ensures r.Err? ==> r.error == UnexpectedFields(Unknown(t, kwargs)) && Unknown(t, kwargs) != {}
    ensures r.Ok? ==> TypeOf(r.value) == t
    ensures r.Ok? ==> forall f :: IsField(t, f) ==>
      Value(r.value, f) == if f in kwargs then kwargs[f] else Value(Default(t, st), f)
  {
    var unknown := Unknown(t, kwargs);
    if unknown != {} then
      assert forall k :: k in kwargs && !IsField(t, k) ==> k in unknown;
      Err(UnexpectedFields(unknown))
    else
      assert forall k :: k in kwargs ==> IsField(t, k) by {
        forall k | k in kwargs ensures IsField(t, k) {
          assert k !in unknown;
        }
      }
      FillValues(t, st, kwargs);
      Ok(Fill(t, st, kwargs))
  }

  /** The record of type `t` with each field taken from `kwargs`, or its default. */
  function Fill(t: MediaType, st: Stamps, kwargs: map<string, string>): Record
  {
    var d := Default(t, st);
    match t
    case TweetType =>
      Tweet(Pick(kwargs, "created", d.created), Pick(kwargs, "text", d.text))
    case NewsArticleType =>
      NewsArticle(Pick(kwargs, "created", d.created), Pick(kwargs, "text", d.text),
                  Pick(kwargs, "title", d.title), Pick(kwargs, "published", d.published))
  }

  lemma FillValues(t: MediaType, st: Stamps, kwargs: map<string, string>)
    ensures TypeOf(Fill(t, st, kwargs)) == t
    ensures forall f :: IsField(t, f) ==>
      Value(Fill(t, st, kwargs), f) == if f in kwargs then kwargs[f] else Value(Default(t, st), f)
  {
    var r, d := Fill(t, st, kwargs), Default(t, st);
    forall f | IsField(t, f)
      ensures Value(r, f) == if f in kwargs then kwargs[f] else Value(d, f)
    {
      if f == "created" {
      } else if f == "text" {
      } else if f == "title" {
      } else {
        assert f == "published";
      }
    }
  }

  /** `asdict(r)`: field name to value, for every declared field. */
  function AsDict(r: Record): (d: map<string, string>)
    ensures forall k :: k in d <==> IsField(TypeOf(r), k)
    ensures forall k :: k in d ==> d[k] == Value(r, k)
  {
    map k | k in FieldNames(TypeOf(r)) :: Value(r, k)
  }

  /** Constructing a record from its own `asdict` gives it back, whatever the defaults. */
  lemma ConstructAsDict(st: Stamps, r: Record)
    ensures Construct(TypeOf(r), st, AsDict(r)) == Ok(r)
  {
    match r
    case Tweet(created, text) => ConstructTweetDict(st, created, text);
    case NewsArticle(created, text, title, published) =>
      ConstructArticleDict(st, created, text, title, published);
  }

  lemma ConstructTweetDict(st: Stamps, created: string, text: string)
    ensures Construct(TweetType, st, AsDict(Tweet(created, text))) == Ok(Tweet(created, text))
  {
    var r := Tweet(created, text);
    var d := AsDict(r);
    assert IsField(TweetType, "created") && IsField(TweetType, "text");
    assert Unknown(TweetType, d) == {};
    assert Fill(TweetType, st, d) == r;
  }

  lemma ConstructArticleDict(st: Stamps, created: string, text: string, title: string, published: string)
    ensures Construct(NewsArticleType, st, AsDict(NewsArticle(created, text, title, published)))
            == Ok(NewsArticle(created, text, title, published))
  {
    var r := NewsArticle(created, text, title, published);
    var d := AsDict(r);
    assert IsField(NewsArticleType, "created") && IsField(NewsArticleType, "text");
    assert IsField(NewsArticleType, "title") && IsField(NewsArticleType, "published");
    assert Unknown(NewsArticleType, d) == {};
    assert Fill(NewsArticleType, st, d) == r;
  }

  /** The two fields that `__str__` shows: text and creation time of a Tweet,
      title and publication time of a NewsArticle. */
  function Shown(r: Record): (string, string)
  {
    match r
    case Tweet(created, text) => (text, created)
    case NewsArticle(_, _, title, published) => (title, published)
  }

  function Label(t: MediaType): string
  {
    match t
    case TweetType => "Tweet \""
    case NewsArticleType => "News Article \""
  }

  /** `__str__`: `Tweet "<text>" (<created>)` or `News Article "<title>" (<published>)`. */
  function Str(r: Record): (s: string)
    ensures |s| == |Label(TypeOf(r))| + |Shown(r).0| + 3 + |Shown(r).1| + 1
    ensures s[..|Label(TypeOf(r))|] == Label(TypeOf(r))
    ensures s[|Label(TypeOf(r))|..|Label(TypeOf(r))| + |Shown(r).0|] == Shown(r).0
    ensures s[|Label(TypeOf(r))| + |Shown(r).0|..|Label(TypeOf(r))| + |Shown(r).0| + 3] == "\" ("
    ensures s[|s| - 1 - |Shown(r).1|..|s| - 1] == Shown(r).1
    ensures s[|s| - 1] == ')'
  {
    match r
    case Tweet(created, text) => "Tweet \"" + text + "\" (" + created + ")"
    case NewsArticle(_, _, title, published) => "News Article \"" + title + "\" (" + published + ")"
  }

  predicate QuoteFree(s: string)
  {
    forall i :: 0 <= i < |s| ==> s[i] != '"'
  }

  /** As long as the first shown field holds no double quote, `__str__` tells the
      two types apart and determines both shown fields. */
  lemma StrDeterminesShown(a: Record, b: Record)
    requires Str(a) == Str(b)
    requires QuoteFree(Shown(a).0) && QuoteFree(Shown(b).0)
    ensures TypeOf(a) == TypeOf(b) && Shown(a) == Shown(b)
  {
    assert Str(a)[0] == Label(TypeOf(a))[0] && Str(b)[0] == Label(TypeOf(b))[0];
    RenderInjective(Label(TypeOf(a)), Shown(a).0, Shown(a).1, Shown(b).0, Shown(b).1);
  }

  /** The layout `L "x" (y)` determines `x` and `y` when `x` holds no double quote. */
  lemma RenderInjective(L: string, x: string, y: string, u: string, v: string)
    requires QuoteFree(x) && QuoteFree(u)
    requires L + x + "\" (" + y + ")" == L + u + "\" (" + v + ")"
    ensures x == u && y == v
  {
    var s := L + x + "\" (" + y + ")";
    var n := |L|;
    assert s[n..n + |x|] == x && s[n + |x|] == '"';
    assert s == L + u + "\" (" + v + ")";
    assert s[n..n + |u|] == u && s[n + |u|] == '"';
    FieldBeforeQuote(s, n, x, u);
    assert y == s[n + |x| + 3..|s| - 1];
    assert v == s[n + |u| + 3..|s| - 1];
  }

  /** Two quote-free strings that both start at `n` in `s` and are both followed by
      a double quote are equal. */
  lemma FieldBeforeQuote(s: string, n: nat, x: string, u: string)
    requires n + |x| < |s| && n + |u| < |s|
    requires s[n..n + |x|] == x && s[n + |x|] == '"'
    requires s[n..n + |u|] == u && s[n + |u|] == '"'
    requires QuoteFree(x) && QuoteFree(u)
    ensures x == u
  {
    assert forall i :: n <= i < n + |x| ==> s[i] == x[i - n] != '"';
    assert forall i :: n <= i < n + |u| ==> s[i] == u[i - n] != '"';
    assert |x| == |u|;
  }
}
