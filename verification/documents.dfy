/** The document loaders of vector_space.py: JSON records become
    `Document`s whose content is a space-separated rendering of selected
    fields. `DataLoader` is the base loader, whose formatter always fails;
    `BookDataLoader` and `MovieDataLoader` each choose five fields. */
module Documents {
  import opened Wrappers
  import opened Text

  /** A JSON value as the loaders see it. Numbers, booleans and null are
      `Scalar`s that carry the text Python's `str()` gives them. */
  datatype Value = Str(s: string) | Array(elems: seq<Value>) | Scalar(shown: string)

  /** A JSON object read from the corpus file. */
  type Record = map<string, Value>

  /** A langchain `Document`: formatted content plus the whole record. */
  datatype Document = Document(content: string, metadata: Record)

  /** The Python exceptions the formatters can raise. */
  datatype LoadError =
    | MissingKey(key: string)   // KeyError from item[key]
    | NotIterable               // ' '.join of a number, boolean or null
    | NonStringItem             // ' '.join of a list holding a non-string
    | NotImplemented            // the base loader's get_page_content

  /** Python's `repr()` of a value nested in a list. */
  function Repr(v: Value): string
    decreases v
  {
    match v
    case Str(s) => "'" + s + "'"
    case Scalar(shown) => shown
    case Array(es) => "[" + JoinWith(", ", seq(|es|, i requires 0 <= i < |es| => Repr(es[i]))) + "]"
  }

  /** What `{item[key]}` puts into an f-string: Python's `str()`. */
  function Render(v: Value): string
  {
    match v
    case Str(s) => s
    case _ => Repr(v)
  }

  /** The single-character strings of `s`, the items a Python loop over a
      string yields. */
  function Chars(s: string): (r: seq<string>)
    ensures |r| == |s|
    ensures forall i :: 0 <= i < |s| ==> r[i] == [s[i]]
  {
    seq(|s|, i requires 0 <= i < |s| => [s[i]])
  }

  /** True when every element is a string. */
  predicate AllStrings(es: seq<Value>) {
    forall i :: 0 <= i < |es| ==> es[i].Str?
  }

  /** The list of JSON strings holding `xs`. */
  function Strs(xs: seq<string>): (r: seq<Value>)
    ensures |r| == |xs| && AllStrings(r)
    ensures forall i :: 0 <= i < |xs| ==> r[i] == Str(xs[i])
  {
    seq(|xs|, i requires 0 <= i < |xs| => Str(xs[i]))
  }

  /** Python's `' '.join(v)`: a string joins its characters, a list must
      hold only strings, anything else is not iterable. */
  function JoinSpaced(v: Value): (r: Result<string, LoadError>)
    ensures r.Success? <==> v.Str? || (v.Array? && AllStrings(v.elems))
    ensures v.Scalar? ==> r == Failure(NotIterable)
    ensures v.Array? && !AllStrings(v.elems) ==> r == Failure(NonStringItem)
    ensures v.Array? && AllStrings(v.elems) ==> forall xs :: v.elems == Strs(xs) ==> r == Success(JoinWith(" ", xs))
  {
    match v
    case Str(s) => Success(JoinWith(" ", Chars(s)))
    case Scalar(_) => Failure(NotIterable)
    case Array(es) =>
      if AllStrings(es) then
        var xs := seq(|es|, i requires 0 <= i < |es| => es[i].s);
        assert forall ys :: es == Strs(ys) ==> ys == xs;
        Success(JoinWith(" ", xs))
      else Failure(NonStringItem)
  }

  /** Joining a string is joining the list of its one-character strings:
      `' '.join("ab") == ' '.join(["a", "b"]) == "a b"`. */
  lemma JoinSpacedString(s: string)
    ensures JoinSpaced(Str(s)) == JoinSpaced(Array(Strs(Chars(s))))
  {
  }

  /** One placeholder of a formatter's f-string. */
  datatype Field = Plain(key: string) | Joined(key: string)

  /** The text one placeholder contributes, or the exception it raises. */
  function FieldText(item: Record, f: Field): Result<string, LoadError>
  {
    if f.key !in item then Failure(MissingKey(f.key))
    else if f.Plain? then Success(Render(item[f.key]))
    else JoinSpaced(item[f.key])
  }

  /** The placeholders of `BookDataLoader.get_page_content`, in order. */
  const BookFields: seq<Field> :=
    [Plain("title"), Plain("author"), Plain("publication_date"), Plain("description"), Joined("genres")]

  /** The placeholders of `MovieDataLoader.get_page_content`, in order. */
  const MovieFields: seq<Field> :=
    [Plain("title"), Plain("release_date"), Plain("summary"), Joined("movie_genres_list"), Joined("movie_actor_list")]

  datatype LoaderKind = BaseLoader | BookLoader | MovieLoader

  /** The f-string placeholders of a concrete loader. */
  function FieldsOf(kind: LoaderKind): seq<Field>
    requires kind != BaseLoader
  {
    if kind == BookLoader then BookFields else MovieFields
  }

  /** `get_page_content(item)`: the base loader always raises; a concrete
      loader evaluates its placeholders left to right and joins their texts
      with single spaces. It succeeds exactly when every placeholder does,
      and otherwise reports the first placeholder that fails. */
  function PageContent(kind: LoaderKind, item: Record): (r: Result<string, LoadError>)
    ensures kind == BaseLoader ==> r == Failure(NotImplemented)
    ensures kind != BaseLoader ==>
      (r.Success? <==> forall i :: 0 <= i < |FieldsOf(kind)| ==> FieldText(item, FieldsOf(kind)[i]).Success?)
    ensures kind != BaseLoader && r.Success? ==>
      var fs := FieldsOf(kind);
      r.value == JoinWith(" ", seq(|fs|, i requires 0 <= i < |fs| => FieldText(item, fs[i]).value))
    ensures kind != BaseLoader && r.Failure? ==>
      var fs := FieldsOf(kind);
      exists i :: 0 <= i < |fs| && FieldText(item, fs[i]) == Failure(r.error)
        && forall j :: 0 <= j < i ==> FieldText(item, fs[j]).Success?
  {
    if kind == BaseLoader then Failure(NotImplemented)
    else
      var fs := FieldsOf(kind);
      var texts :- MapAll(fs, f => FieldText(item, f));
      assert texts == seq(|fs|, i requires 0 <= i < |fs| => FieldText(item, fs[i]).value);
      Success(JoinWith(" ", texts))
  }

  /** A concrete loader whose placeholders give `texts` produces those
      texts separated by single spaces. */
  lemma ContentFromTexts(kind: LoaderKind, item: Record, texts: seq<string>)
    requires kind != BaseLoader
    requires |texts| == |FieldsOf(kind)|
    requires forall i :: 0 <= i < |texts| ==> FieldText(item, FieldsOf(kind)[i]) == Success(texts[i])
    ensures PageContent(kind, item) == Success(JoinWith(" ", texts))
  {
    var fs := FieldsOf(kind);
    var f := (g: Field) => FieldText(item, g);
    assert forall i :: 0 <= i < |fs| ==> f(fs[i]) == Success(texts[i]);
    var m := MapAll(fs, f);
    assert m.value == texts;
  }

  /** The book content of a record whose fields are strings and whose
      genres are a list of strings: title, author, publication date,
      description and the genres, all separated by single spaces. */
  lemma BookContent(item: Record, title: string, author: string, date: string, description: string, genres: seq<string>)
    requires "title" in item && item["title"] == Str(title)
    requires "author" in item && item["author"] == Str(author)
    requires "publication_date" in item && item["publication_date"] == Str(date)
    requires "description" in item && item["description"] == Str(description)
    requires "genres" in item && item["genres"] == Array(Strs(genres))
    ensures PageContent(BookLoader, item)
      == Success(title + " " + author + " " + date + " " + description + " " + JoinWith(" ", genres))
  {
    var pieces := [title, author, date, description, JoinWith(" ", genres)];
    forall i | 0 <= i < 5
      ensures FieldText(item, BookFields[i]) == Success(pieces[i])
    {
      if i == 4 {
        assert JoinSpaced(Array(Strs(genres))) == Success(pieces[4]);
      }
    }
    ContentFromTexts(BookLoader, item, pieces);
    JoinFive(pieces);
  }

  /** The movie content of a record whose fields are strings and whose
      genre and actor fields are lists of strings: title, release date,
      summary, the genres and the actors, all separated by single spaces. */
  lemma MovieContent(item: Record, title: string, date: string, summary: string, genres: seq<string>, actors: seq<string>)
    requires "title" in item && item["title"] == Str(title)
    requires "release_date" in item && item["release_date"] == Str(date)
    requires "summary" in item && item["summary"] == Str(summary)
    requires "movie_genres_list" in item && item["movie_genres_list"] == Array(Strs(genres))
    requires "movie_actor_list" in item && item["movie_actor_list"] == Array(Strs(actors))
    ensures PageContent(MovieLoader, item)
      == Success(title + " " + date + " " + summary + " " + JoinWith(" ", genres) + " " + JoinWith(" ", actors))
  {
    var pieces := [title, date, summary, JoinWith(" ", genres), JoinWith(" ", actors)];
    forall i | 0 <= i < 5
      ensures FieldText(item, MovieFields[i]) == Success(pieces[i])
    {
      if i == 3 {
        assert JoinSpaced(Array(Strs(genres))) == Success(pieces[3]);
      } else if i == 4 {
        assert JoinSpaced(Array(Strs(actors))) == Success(pieces[4]);
      }
    }
    ContentFromTexts(MovieLoader, item, pieces);
    JoinFive(pieces);
  }

  /** Five pieces joined by single spaces. */
  lemma JoinFive(p: seq<string>)
    requires |p| == 5
    ensures JoinWith(" ", p) == p[0] + " " + p[1] + " " + p[2] + " " + p[3] + " " + p[4]
  {
    assert JoinWith(" ", p[4..]) == p[4];
    assert JoinWith(" ", p[3..]) == p[3] + " " + JoinWith(" ", p[4..]);
    assert JoinWith(" ", p[2..]) == p[2] + " " + JoinWith(" ", p[3..]);
    assert JoinWith(" ", p[1..]) == p[1] + " " + JoinWith(" ", p[2..]);
  }


  /** How many records Python's `data[:length]` keeps, following CPython's
      slice-index adjustment: a missing stop is the length, a negative stop
      counts from the end, and the result is clamped to `0..n`. Hence all
      records for `None`, at most `length` for a non-negative bound, and
      all but the last `-length` for a negative one. */
  function PrefixLength(n: nat, length: Option<int>): (m: nat)
    ensures m <= n
    ensures length.None? ==> m == n
    ensures length.Some? && length.value >= 0 ==> m == Min(length.value, n)
    ensures length.Some? && length.value < 0 ==> m == Max(0, n + length.value)
  {
    var stop := if length.None? then n else length.value;
    var adjusted := if stop < 0 then stop + n else stop;
    if adjusted < 0 then 0 else if adjusted >= n then n else adjusted
  }

  /** One element of the `create_documents` comprehension. */
  function MakeDocument(kind: LoaderKind, item: Record): (r: Result<Document, LoadError>)
    ensures r.Success? <==> PageContent(kind, item).Success?
    ensures r.Success? ==> r.value == Document(PageContent(kind, item).value, item)
    ensures r.Failure? ==> r.error == PageContent(kind, item).error
  {
    var c :- PageContent(kind, item);
    Success(Document(c, item))
  }

  /** The `create_documents` comprehension over `items`: one document per
      item, in order, or the error of the first item that cannot be
      formatted. */
  function MakeDocuments(kind: LoaderKind, items: seq<Record>): (r: Result<seq<Document>, LoadError>)
    ensures r.Success? <==> forall i :: 0 <= i < |items| ==> PageContent(kind, items[i]).Success?
    ensures r.Success? ==> |r.value| == |items|
    ensures r.Success? ==> forall i :: 0 <= i < |items| ==>
      r.value[i] == Document(PageContent(kind, items[i]).value, items[i])
    ensures r.Failure? ==>
      exists i :: 0 <= i < |items| && PageContent(kind, items[i]) == Failure(r.error)
        && forall j :: 0 <= j < i ==> PageContent(kind, items[j]).Success?
  {
    MapAll(items, item => MakeDocument(kind, item))
  }

  /** `DataLoader.create_documents(length)` over the already-loaded records
      `data`: one document per record of the prefix `data[:length]`, in
      order, each carrying its record as metadata. The comprehension is
      all-or-nothing: if any record of the prefix cannot be formatted, the
      error of the first such record is raised and no documents result. */
  function CreateDocuments(kind: LoaderKind, data: seq<Record>, length: Option<int>): (r: Result<seq<Document>, LoadError>)
    ensures r.Success? <==> forall i :: 0 <= i < PrefixLength(|data|, length) ==> PageContent(kind, data[i]).Success?
    ensures r.Success? ==> |r.value| == PrefixLength(|data|, length)
    ensures r.Success? ==> forall i :: 0 <= i < |r.value| ==>
      r.value[i].metadata == data[i] && PageContent(kind, data[i]) == Success(r.value[i].content)
    ensures r.Failure? ==>
      exists i :: 0 <= i < PrefixLength(|data|, length) && PageContent(kind, data[i]) == Failure(r.error)
        && forall j :: 0 <= j < i ==> PageContent(kind, data[j]).Success?
    ensures kind == BaseLoader ==> (r.Success? <==> PrefixLength(|data|, length) == 0)
  {
    var m := PrefixLength(|data|, length);
    PrefixDocuments(kind, data, m);
    MakeDocuments(kind, data[..m])
  }

  /** The comprehension over the prefix `data[..m]`, stated in terms of
      `data` itself. */
  lemma PrefixDocuments(kind: LoaderKind, data: seq<Record>, m: nat)
    requires m <= |data|
    ensures var r := MakeDocuments(kind, data[..m]);
      && (r.Success? <==> forall i :: 0 <= i < m ==> PageContent(kind, data[i]).Success?)
      && (r.Success? ==> |r.value| == m)
      && (r.Success? ==> forall i :: 0 <= i < |r.value| ==>
            r.value[i].metadata == data[i] && PageContent(kind, data[i]) == Success(r.value[i].content))
      && (r.Failure? ==>
            exists i :: 0 <= i < m && PageContent(kind, data[i]) == Failure(r.error)
              && forall j :: 0 <= j < i ==> PageContent(kind, data[j]).Success?)
      && (kind == BaseLoader ==> (r.Success? <==> m == 0))
  {
    PrefixSucceeds(kind, data, m);
    PrefixFails(kind, data, m);
  }

  /** The success half of `PrefixDocuments`. */
  lemma PrefixSucceeds(kind: LoaderKind, data: seq<Record>, m: nat)
    requires m <= |data|
    ensures var r := MakeDocuments(kind, data[..m]);
      && (r.Success? <==> forall i :: 0 <= i < m ==> PageContent(kind, data[i]).Success?)
      && (r.Success? ==> |r.value| == m)
      && (r.Success? ==> forall i :: 0 <= i < |r.value| ==>
            r.value[i].metadata == data[i] && PageContent(kind, data[i]) == Success(r.value[i].content))
      && (kind == BaseLoader ==> (r.Success? <==> m == 0))
  {
    var items := data[..m];
    assert forall i :: 0 <= i < |items| ==> items[i] == data[i];
  }

  /** The failure half of `PrefixDocuments`. */
  lemma PrefixFails(kind: LoaderKind, data: seq<Record>, m: nat)
    requires m <= |data|
    ensures var r := MakeDocuments(kind, data[..m]);
      r.Failure? ==>
        exists i :: 0 <= i < m && PageContent(kind, data[i]) == Failure(r.error)
          && forall j :: 0 <= j < i ==> PageContent(kind, data[j]).Success?
  {
    var r := MakeDocuments(kind, data[..m]);
    if r.Failure? {
      FirstFailureInPrefix(kind, data, m, r.error);
    }
  }

  /** A first failing record of a prefix is a first failing record of the
      whole sequence, within the prefix. */
  lemma FirstFailureInPrefix(kind: LoaderKind, data: seq<Record>, m: nat, e: LoadError)
    requires m <= |data|
    requires exists i ::
      0 <= i < m && PageContent(kind, data[..m][i]) == Failure(e)
      && forall j :: 0 <= j < i ==> PageContent(kind, data[..m][j]).Success?
    ensures exists i ::
      0 <= i < m && PageContent(kind, data[i]) == Failure(e)
      && forall j :: 0 <= j < i ==> PageContent(kind, data[j]).Success?
  {
    var prefix := data[..m];
    var i :| 0 <= i < m && PageContent(kind, prefix[i]) == Failure(e)
      && forall j :: 0 <= j < i ==> PageContent(kind, prefix[j]).Success?;
    forall j | 0 <= j < i
      ensures PageContent(kind, data[j]).Success?
    {
      assert prefix[j] == data[j];
    }
    assert prefix[i] == data[i];
  }
}
