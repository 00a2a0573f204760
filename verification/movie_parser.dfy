/** The movie corpus join of movie_parser.py, with the file reading taken
    away: the three inputs are the rows the TSV readers produce and the
    lines of the plot file. Metadata rows create one record per movie id,
    character rows append actor names to known movies, plot lines supply
    summaries, and every record finally gets a summary or a default. */
module MovieParser {
  import opened Wrappers
  import opened Text

  /** One row of a tab-separated file, as `csv.reader` yields it. */
  type Row = seq<string>

  /** Rows must reach column 8 (`row[8]`) in both TSV files. */
  const MetadataWidth: nat := 9
  const CharacterWidth: nat := 9
  /** Summary of a movie without a plot line. */
  const DefaultSummary: string := "Summary not available"

  /** The exceptions that abort the script. */
  datatype ParseError =
    | MetadataRowTooShort    // IndexError in the metadata loop
    | CharacterRowTooShort   // IndexError in the character loop
    | PlotLineWithoutTab     // ValueError unpacking `line.split('\t', 1)`

  /** One movie's dictionary. `summary` is absent until the final pass. */
  datatype Movie = Movie(
    movieId: string,
    title: string,
    releaseDate: string,
    languages: seq<string>,
    countries: seq<string>,
    genres: seq<string>,
    actors: seq<string>,
    summary: Option<string>)

  /** `movies_metadata`, a Python dict: its keys in insertion order and
      the record stored under each key. */
  datatype Table = Table(ids: seq<string>, byId: map<string, Movie>)

  /** The keys are distinct and are exactly the keys of the map. */
  predicate Valid(t: Table) {
    && (forall i, j :: 0 <= i < j < |t.ids| ==> t.ids[i] != t.ids[j])
    && (forall i :: 0 <= i < |t.ids| ==> t.ids[i] in t.byId)
    && (forall id :: id in t.byId ==> id in t.ids)
  }

  /** Every record is stored under its own movie id. */
  predicate KeyedById(t: Table) {
    forall id :: id in t.byId ==> t.byId[id].movieId == id
  }

  predicate AllWide(rows: seq<Row>, width: nat) {
    forall i :: 0 <= i < |rows| ==> |rows[i]| >= width
  }

  /** `d[id] = m` on a Python dict: a new key goes to the end, an existing
      key keeps its position and only its value changes. */
  function Put(t: Table, id: string, m: Movie): (r: Table)
    requires Valid(t)
    ensures Valid(r)
    ensures r.byId == t.byId[id := m]
    ensures id in t.byId ==> r.ids == t.ids
    ensures id !in t.byId ==> r.ids == t.ids + [id]
  {
    if id in t.byId then Table(t.ids, t.byId[id := m]) else Table(t.ids + [id], t.byId[id := m])
  }

  /** The record one metadata row creates; `parse` stands for
      `parse_freebase_tuples`. */
  function FromMetadata(row: Row, parse: string -> seq<string>): (m: Movie)
    requires |row| >= MetadataWidth
    ensures m.movieId == row[0] && m.title == row[2] && m.releaseDate == row[3]
    ensures m.actors == [] && m.summary == None
  {
    Movie(row[0], row[2], row[3], parse(row[6]), parse(row[7]), parse(row[8]), [], None)
  }

  /** The metadata loop: each row, in order, stores its record under
      `row[0]`. A row too short for `row[8]` aborts the whole pass. */
  function MetadataPass(rows: seq<Row>, parse: string -> seq<string>): (r: Result<Table, ParseError>)
    ensures r.Success? <==> AllWide(rows, MetadataWidth)
    ensures r.Failure? ==> r.error == MetadataRowTooShort
    ensures r.Success? ==> Valid(r.value) && KeyedById(r.value)
    ensures r.Success? ==> forall id :: id in r.value.byId ==> r.value.byId[id].actors == [] && r.value.byId[id].summary == None
    decreases |rows|
  {
    if rows == [] then Success(Table([], map[]))
    else
      var t :- MetadataPass(rows[..|rows| - 1], parse);
      var row := rows[|rows| - 1];
      if |row| < MetadataWidth then Failure(MetadataRowTooShort)
      else
        MetadataPassStep(t, row, parse);
        Success(Put(t, row[0], FromMetadata(row, parse)))
  }

  /** Storing one more metadata record keeps the table valid, keyed by id,
      and free of actors and summaries. */
  lemma MetadataPassStep(t: Table, row: Row, parse: string -> seq<string>)
    requires |row| >= MetadataWidth
    requires Valid(t) && KeyedById(t)
    requires forall id :: id in t.byId ==> t.byId[id].actors == [] && t.byId[id].summary == None
    ensures var r := Put(t, row[0], FromMetadata(row, parse));
      && Valid(r) && KeyedById(r)
      && forall id :: id in r.byId ==> r.byId[id].actors == [] && r.byId[id].summary == None
  {
  }

  /** Column 0 of every row. */
  function Ids(rows: seq<Row>): (r: seq<string>)
    requires forall i :: 0 <= i < |rows| ==> |rows[i]| > 0
    ensures |r| == |rows|
    ensures forall i :: 0 <= i < |rows| ==> r[i] == rows[i][0]
  {
    seq(|rows|, i requires 0 <= i < |rows| => rows[i][0])
  }

  /** The distinct elements of `xs` in order of first occurrence. */
  function Dedup(xs: seq<string>): (r: seq<string>)
    ensures forall x :: x in r <==> x in xs
    ensures forall i, j :: 0 <= i < j < |r| ==> r[i] != r[j]
    decreases |xs|
  {
    if xs == [] then []
    else
      var d := Dedup(xs[..|xs| - 1]);
      var x := xs[|xs| - 1];
      assert forall y :: y in xs <==> y in xs[..|xs| - 1] || y == x;
      if x in d then d else d + [x]
  }

  /** The last position of `x` in `xs`, or -1 when it does not occur. */
  function LastIndex(xs: seq<string>, x: string): (k: int)
    ensures -1 <= k < |xs|
    ensures k >= 0 ==> xs[k] == x
    ensures forall j :: k < j < |xs| ==> xs[j] != x
    ensures k == -1 <==> x !in xs
    decreases |xs|
  {
    if xs == [] then -1
    else if xs[|xs| - 1] == x then |xs| - 1
    else
      assert forall y :: y in xs <==> y in xs[..|xs| - 1] || y == xs[|xs| - 1];
      LastIndex(xs[..|xs| - 1], x)
  }

  /** The first position of `x` in `xs`, or `|xs|` when it does not occur. */
  function FirstIndex(xs: seq<string>, x: string): (k: nat)
    ensures k <= |xs|
    ensures k < |xs| ==> xs[k] == x
    ensures forall j :: 0 <= j < k ==> xs[j] != x
    ensures k == |xs| <==> x !in xs
  {
    if xs == [] then 0
    else if xs[0] == x then 0
    else
      assert forall y :: y in xs <==> y == xs[0] || y in xs[1..];
      1 + FirstIndex(xs[1..], x)
  }

  /** An element of a prefix is first found in the same place in the whole. */
  lemma FirstIndexInPrefix(xs: seq<string>, n: nat, x: string)
    requires n <= |xs|
    requires x in xs[..n]
    ensures FirstIndex(xs, x) == FirstIndex(xs[..n], x)
  {
    var k := FirstIndex(xs[..n], x);
    assert xs[k] == x;
  }

  /** The elements of `r` occur in `xs` in the order they are listed. */
  predicate FirstOrdered(xs: seq<string>, r: seq<string>) {
    forall i, j :: 0 <= i < j < |r| ==> FirstIndex(xs, r[i]) < FirstIndex(xs, r[j])
  }

  /** Order by first appearance in a prefix is order in the whole. */
  lemma FirstOrderedInPrefix(xs: seq<string>, n: nat, r: seq<string>)
    requires n <= |xs|
    requires forall i :: 0 <= i < |r| ==> r[i] in xs[..n]
    requires FirstOrdered(xs[..n], r)
    ensures FirstOrdered(xs, r)
  {
    forall i | 0 <= i < |r|
      ensures FirstIndex(xs, r[i]) == FirstIndex(xs[..n], r[i])
    {
      FirstIndexInPrefix(xs, n, r[i]);
    }
  }

  /** Appending an element found later than all listed ones keeps the order. */
  lemma FirstOrderedAppend(xs: seq<string>, r: seq<string>, x: string)
    requires FirstOrdered(xs, r)
    requires forall i :: 0 <= i < |r| ==> FirstIndex(xs, r[i]) < FirstIndex(xs, x)
    ensures FirstOrdered(xs, r + [x])
  {
    var r' := r + [x];
    forall i, j | 0 <= i < j < |r'|
      ensures FirstIndex(xs, r'[i]) < FirstIndex(xs, r'[j])
    {
      assert r'[i] == r[i];
      if j < |r| {
        assert r'[j] == r[j];
      }
    }
  }

  /** `Dedup` lists the distinct elements in order of first appearance, as
      the keys of a dict filled by repeated assignment are ordered. */
  lemma {:induction false} DedupFirstAppearance(xs: seq<string>)
    ensures FirstOrdered(xs, Dedup(xs))
    decreases |xs|
  {
    if xs != [] {
      var p := xs[..|xs| - 1];
      var x := xs[|xs| - 1];
      var d := Dedup(p);
      assert Dedup(xs) == if x in d then d else d + [x];
      DedupFirstAppearance(p);
      assert forall i :: 0 <= i < |d| ==> d[i] in p;
      FirstOrderedInPrefix(xs, |p|, d);
      if x !in d {
        assert x !in p;
        FirstOrderedAppend(xs, d, x);
      }
    }
  }

  /** After the metadata pass, the keys are the distinct metadata ids in
      order of first appearance, and each id holds the record made from the
      LAST row with that id: a later duplicate overwrites the record but
      not its position. */
  lemma MetadataLastRowWins(rows: seq<Row>, parse: string -> seq<string>)
    requires AllWide(rows, MetadataWidth)
    ensures var t := MetadataPass(rows, parse).value;
      && t.ids == Dedup(Ids(rows))
      && forall id :: id in t.byId ==> t.byId[id] == FromMetadata(rows[LastIndex(Ids(rows), id)], parse)
  {
    MetadataKeys(rows, parse);
    MetadataRecords(rows, parse);
  }

  /** The keys of the metadata table are the distinct ids in order. */
  lemma {:induction false} MetadataKeys(rows: seq<Row>, parse: string -> seq<string>)
    requires AllWide(rows, MetadataWidth)
    ensures MetadataPass(rows, parse).value.ids == Dedup(Ids(rows))
    decreases |rows|
  {
    if rows != [] {
      var front := rows[..|rows| - 1];
      var row := rows[|rows| - 1];
      assert AllWide(front, MetadataWidth);
      MetadataKeys(front, parse);
      var ids := Ids(rows);
      assert ids[..|ids| - 1] == Ids(front);
      assert ids[|ids| - 1] == row[0];
    }
  }

  /** Each metadata record comes from the last row with its id. */
  lemma {:induction false} MetadataRecords(rows: seq<Row>, parse: string -> seq<string>)
    requires AllWide(rows, MetadataWidth)
    ensures var t := MetadataPass(rows, parse).value;
      forall id :: id in t.byId ==>
        id in Ids(rows) && t.byId[id] == FromMetadata(rows[LastIndex(Ids(rows), id)], parse)
    decreases |rows|
  {
    if rows != [] {
      var front := rows[..|rows| - 1];
      var row := rows[|rows| - 1];
      assert AllWide(front, MetadataWidth);
      MetadataRecords(front, parse);
      var t0 := MetadataPass(front, parse).value;
      var t := MetadataPass(rows, parse).value;
      assert t.byId == t0.byId[row[0] := FromMetadata(row, parse)];
      forall id | id in t.byId
        ensures t.byId[id] == FromMetadata(rows[LastIndex(Ids(rows), id)], parse)
      {
        MetadataStepAt(rows, parse, t0.byId, t.byId, id);
      }
    }
  }

  lemma MetadataStepAt(rows: seq<Row>, parse: string -> seq<string>, before: map<string, Movie>, after: map<string, Movie>, id: string)
    requires |rows| > 0 && AllWide(rows, MetadataWidth)
    requires var front := rows[..|rows| - 1];
      forall k :: k in before ==> k in Ids(front) && before[k] == FromMetadata(front[LastIndex(Ids(front), k)], parse)
    requires after == before[rows[|rows| - 1][0] := FromMetadata(rows[|rows| - 1], parse)]
    requires id in after
    ensures after[id] == FromMetadata(rows[LastIndex(Ids(rows), id)], parse)
  {
    var front := rows[..|rows| - 1];
    var ids := Ids(rows);
    assert ids[..|ids| - 1] == Ids(front);
    if id != rows[|rows| - 1][0] {
      assert LastIndex(ids, id) == LastIndex(Ids(front), id);
      assert rows[LastIndex(ids, id)] == front[LastIndex(Ids(front), id)];
    }
  }

  /** Actor names (column 8) of the character rows for movie `id`, in row
      order. */
  function ActorsFor(rows: seq<Row>, id: string): seq<string>
    requires AllWide(rows, CharacterWidth)
    decreases |rows|
  {
    if rows == [] then []
    else
      var row := rows[|rows| - 1];
      ActorsFor(rows[..|rows| - 1], id) + (if row[0] == id then [row[8]] else [])
  }

  /** `m` with `extra` appended to its actor list. */
  function AddActors(m: Movie, extra: seq<string>): (r: Movie)
    ensures r.actors == m.actors + extra
    ensures r.(actors := m.actors) == m
  {
    m.(actors := m.actors + extra)
  }

  /** The character loop: each row reads `row[0]` and `row[8]` (so a short
      row aborts even when its id is unknown) and appends the actor name to
      the movie's list when the id is a known key; rows for unknown ids are
      dropped. Keys, their order and every other field stay as they were;
      each movie's list grows by exactly its own actor names, in row order. */
  function CharacterPass(t: Table, rows: seq<Row>): (r: Result<Table, ParseError>)
    requires Valid(t)
    ensures r.Success? <==> AllWide(rows, CharacterWidth)
    ensures r.Failure? ==> r.error == CharacterRowTooShort
    ensures r.Success? ==> r.value.ids == t.ids && r.value.byId.Keys == t.byId.Keys
    ensures r.Success? ==> forall id :: id in t.byId ==> r.value.byId[id] == AddActors(t.byId[id], ActorsFor(rows, id))
    decreases |rows|
  {
    if rows == [] then Success(t)
    else
      var front := rows[..|rows| - 1];
      var row := rows[|rows| - 1];
      assert AllWide(rows, CharacterWidth) <==> AllWide(front, CharacterWidth) && |row| >= CharacterWidth;
      var t' :- CharacterPass(t, front);
      if |row| < CharacterWidth then Failure(CharacterRowTooShort)
      else
        var id := row[0];
        var r := if id in t'.byId then Table(t'.ids, t'.byId[id := AddActors(t'.byId[id], [row[8]])]) else t';
        CharacterPassStep(t, rows, t', r);
        Success(r)
  }

  /** One step of the character loop keeps the character-pass contract. */
  lemma CharacterPassStep(t: Table, rows: seq<Row>, t': Table, r: Table)
    requires |rows| > 0 && AllWide(rows, CharacterWidth)
    requires t'.ids == t.ids && t'.byId.Keys == t.byId.Keys
    requires forall id :: id in t.byId ==> t'.byId[id] == AddActors(t.byId[id], ActorsFor(rows[..|rows| - 1], id))
    requires var id := rows[|rows| - 1][0];
      r == if id in t'.byId then Table(t'.ids, t'.byId[id := AddActors(t'.byId[id], [rows[|rows| - 1][8]])]) else t'
    ensures r.ids == t.ids && r.byId.Keys == t.byId.Keys
    ensures forall id :: id in t.byId ==> r.byId[id] == AddActors(t.byId[id], ActorsFor(rows, id))
  {
    forall id | id in t.byId
      ensures r.byId[id] == AddActors(t.byId[id], ActorsFor(rows, id))
    {
      CharacterPassStepAt(rows, t.byId[id], t'.byId, r.byId, id);
    }
  }

  /** The character-loop step seen from one movie. */
  lemma CharacterPassStepAt(rows: seq<Row>, m: Movie, before: map<string, Movie>, after: map<string, Movie>, id: string)
    requires |rows| > 0 && AllWide(rows, CharacterWidth)
    requires id in before && before[id] == AddActors(m, ActorsFor(rows[..|rows| - 1], id))
    requires var key := rows[|rows| - 1][0];
      after == if key in before then before[key := AddActors(before[key], [rows[|rows| - 1][8]])] else before
    ensures id in after && after[id] == AddActors(m, ActorsFor(rows, id))
  {
    var front := rows[..|rows| - 1];
    var row := rows[|rows| - 1];
    assert AllWide(front, CharacterWidth);
    if id == row[0] {
      assert ActorsFor(rows, id) == ActorsFor(front, id) + [row[8]];
      assert m.actors + ActorsFor(front, id) + [row[8]] == m.actors + ActorsFor(rows, id);
    } else {
      assert ActorsFor(rows, id) == ActorsFor(front, id);
    }
  }

  /** Python's `line.split('\t', 1)` unpacked into an id and the rest: the
      line is cut at its first tab only; a line without a tab cannot be
      unpacked. */
  function SplitAtFirstTab(line: string): (r: Option<(string, string)>)
    ensures r.None? <==> '\t' !in line
    ensures r.Some? ==> '\t' !in r.value.0 && line == r.value.0 + "\t" + r.value.1
  {
    var k := IndexOf(line, '\t');
    if k == |line| then None
    else
      assert line == line[..k] + "\t" + line[k + 1..];
      Some((line[..k], line[k + 1..]))
  }

  /** Splitting is the inverse of joining an id without tabs to any rest
      with one tab. */
  lemma SplitAtFirstTabRoundTrip(id: string, rest: string)
    requires '\t' !in id
    ensures SplitAtFirstTab(id + "\t" + rest) == Some((id, rest))
  {
    var line := id + "\t" + rest;
    var r := SplitAtFirstTab(line);
    var k := IndexOf(line, '\t');
    assert line[|id|] == '\t';
    assert forall j :: 0 <= j < |id| ==> line[j] == id[j];
    assert k == |id|;
    assert r.value.0 == id;
  }

  predicate AllTabbed(lines: seq<string>) {
    forall i :: 0 <= i < |lines| ==> '\t' in lines[i]
  }

  /** The id of a plot line: everything before its first tab. */
  function PlotId(line: string): string
    requires '\t' in line
  {
    SplitAtFirstTab(line).value.0
  }

  /** The summary of a plot line: everything after its first tab, stripped. */
  function PlotSummary(line: string): string
    requires '\t' in line
  {
    Strip(SplitAtFirstTab(line).value.1)
  }

  function PlotIds(lines: seq<string>): (r: seq<string>)
    requires AllTabbed(lines)
    ensures |r| == |lines|
    ensures forall i :: 0 <= i < |lines| ==> r[i] == PlotId(lines[i])
  {
    seq(|lines|, i requires 0 <= i < |lines| => PlotId(lines[i]))
  }

  /** The plot loop: each line maps its id to its stripped summary, a later
      line overwriting an earlier one with the same id. A line without a
      tab aborts the pass. On success the ids are exactly those of the
      lines, and each holds the summary of the LAST line with that id. */
  function PlotPass(lines: seq<string>): (r: Result<map<string, string>, ParseError>)
    ensures r.Success? <==> AllTabbed(lines)
    ensures r.Failure? ==> r.error == PlotLineWithoutTab
    ensures r.Success? ==> forall id :: id in r.value <==> id in PlotIds(lines)
    ensures r.Success? ==> forall id :: id in r.value ==>
      r.value[id] == PlotSummary(lines[LastIndex(PlotIds(lines), id)])
    decreases |lines|
  {
    if lines == [] then Success(map[])
    else
      var front := lines[..|lines| - 1];
      var line := lines[|lines| - 1];
      assert AllTabbed(lines) <==> AllTabbed(front) && '\t' in line;
      var m :- PlotPass(front);
      match SplitAtFirstTab(line)
      case None => Failure(PlotLineWithoutTab)
      case Some((id, rest)) =>
        PlotPassStep(lines, m, id, rest);
        Success(m[id := Strip(rest)])
  }

  /** One step of the plot loop keeps the plot-pass contract. */
  lemma PlotPassStep(lines: seq<string>, m: map<string, string>, id: string, rest: string)
    requires |lines| > 0 && AllTabbed(lines)
    requires SplitAtFirstTab(lines[|lines| - 1]) == Some((id, rest))
    requires var front := lines[..|lines| - 1];
      && (forall k :: k in m <==> k in PlotIds(front))
      && (forall k :: k in m ==> m[k] == PlotSummary(front[LastIndex(PlotIds(front), k)]))
    ensures var r := m[id := Strip(rest)];
      && (forall k :: k in r <==> k in PlotIds(lines))
      && (forall k :: k in r ==> r[k] == PlotSummary(lines[LastIndex(PlotIds(lines), k)]))
  {
    var front := lines[..|lines| - 1];
    var ids := PlotIds(lines);
    assert ids == PlotIds(front) + [id];
    forall k | k in m && k != id
      ensures m[k] == PlotSummary(lines[LastIndex(ids, k)])
    {
      PlotStepOther(lines, id, k);
    }
  }

  /** A line with another id does not move an id's last line. */
  lemma PlotStepOther(lines: seq<string>, id: string, k: string)
    requires |lines| > 0 && AllTabbed(lines)
    requires PlotId(lines[|lines| - 1]) == id && k != id
    requires k in PlotIds(lines[..|lines| - 1])
    ensures var front := lines[..|lines| - 1];
      && LastIndex(PlotIds(lines), k) == LastIndex(PlotIds(front), k)
      && lines[LastIndex(PlotIds(lines), k)] == front[LastIndex(PlotIds(front), k)]
  {
    var front := lines[..|lines| - 1];
    var ids := PlotIds(lines);
    assert ids[..|ids| - 1] == PlotIds(front);
    LastIndexPastOther(ids, k);
  }

  /** A last element other than `k` does not change where `k` last occurs. */
  lemma LastIndexPastOther(xs: seq<string>, k: string)
    requires |xs| > 0 && xs[|xs| - 1] != k
    ensures LastIndex(xs, k) == LastIndex(xs[..|xs| - 1], k)
  {
  }

  /** The final loop: every movie gets `plot_summaries.get(id, default)`.
      Ids that only occur in the plot file never become records, and no
      other field changes. */
  function FillSummaries(t: Table, plots: map<string, string>): (r: Table)
    requires Valid(t)
    ensures Valid(r) && r.ids == t.ids && r.byId.Keys == t.byId.Keys
    ensures forall id :: id in r.byId ==>
      r.byId[id] == t.byId[id].(summary := Some(if id in plots then plots[id] else DefaultSummary))
  {
    Table(t.ids, map id | id in t.byId :: t.byId[id].(summary := Some(if id in plots then plots[id] else DefaultSummary)))
  }

  /** `list(movies_metadata.values())`: the records in key order. */
  function Values(t: Table): (r: seq<Movie>)
    requires Valid(t)
    ensures |r| == |t.ids|
    ensures forall j :: 0 <= j < |r| ==> r[j] == t.byId[t.ids[j]]
  {
    seq(|t.ids|, j requires 0 <= j < |t.ids| => t.byId[t.ids[j]])
  }

  /** The whole script from its three inputs to the list it writes out.
      It fails exactly when one of the inputs is malformed, reporting the
      first pass that meets a malformed input. */
  function BuildCorpus(metaRows: seq<Row>, charRows: seq<Row>, plotLines: seq<string>, parse: string -> seq<string>): (r: Result<seq<Movie>, ParseError>)
    ensures r.Success? <==> AllWide(metaRows, MetadataWidth) && AllWide(charRows, CharacterWidth) && AllTabbed(plotLines)
    ensures !AllWide(metaRows, MetadataWidth) ==> r == Failure(MetadataRowTooShort)
    ensures AllWide(metaRows, MetadataWidth) && !AllWide(charRows, CharacterWidth) ==> r == Failure(CharacterRowTooShort)
    ensures AllWide(metaRows, MetadataWidth) && AllWide(charRows, CharacterWidth) && !AllTabbed(plotLines) ==>
      r == Failure(PlotLineWithoutTab)
  {
    var t :- MetadataPass(metaRows, parse);
    var withActors :- CharacterPass(t, charRows);
    var plots :- PlotPass(plotLines);
    Success(Values(FillSummaries(withActors, plots)))
  }

  /** The record the join should produce for metadata id `id`, stated
      field by field: the metadata fields of the last metadata row with that
      id, the actor names of its character rows in row order, and the
      stripped summary of the last plot line with that id or the default. */
  function JoinedMovie(metaRows: seq<Row>, charRows: seq<Row>, plotLines: seq<string>, parse: string -> seq<string>, id: string): Movie
    requires AllWide(metaRows, MetadataWidth) && AllWide(charRows, CharacterWidth) && AllTabbed(plotLines)
    requires id in Ids(metaRows)
  {
    var row := metaRows[LastIndex(Ids(metaRows), id)];
    var pid := LastIndex(PlotIds(plotLines), id);
    Movie(row[0], row[2], row[3], parse(row[6]), parse(row[7]), parse(row[8]),
          ActorsFor(charRows, id),
          Some(if pid >= 0 then PlotSummary(plotLines[pid]) else DefaultSummary))
  }

  /** What the written list holds, for well-formed inputs: one record per
      distinct metadata id, in order of first appearance (so no duplicate
      and no stray id, and plot-only ids never appear), each equal to the
      field-by-field join above; in particular every record has a summary
      and keeps the id, title and release date of its metadata row. */
  lemma CorpusJoin(metaRows: seq<Row>, charRows: seq<Row>, plotLines: seq<string>, parse: string -> seq<string>)
    requires AllWide(metaRows, MetadataWidth) && AllWide(charRows, CharacterWidth) && AllTabbed(plotLines)
    ensures var out := BuildCorpus(metaRows, charRows, plotLines, parse).value;
      var ids := Dedup(Ids(metaRows));
      && |out| == |ids|
      && forall j :: 0 <= j < |out| ==>
           && out[j] == JoinedMovie(metaRows, charRows, plotLines, parse, ids[j])
           && out[j].movieId == ids[j]
           && out[j].summary.Some?
  {
    var t := MetadataPass(metaRows, parse).value;
    MetadataLastRowWins(metaRows, parse);
    var withActors := CharacterPass(t, charRows).value;
    var plots := PlotPass(plotLines).value;
    var filled := FillSummaries(withActors, plots);
    var out := Values(filled);
    assert out == BuildCorpus(metaRows, charRows, plotLines, parse).value;
    var ids := Dedup(Ids(metaRows));
    forall j | 0 <= j < |out|
      ensures out[j] == JoinedMovie(metaRows, charRows, plotLines, parse, ids[j])
    {
      var id := ids[j];
      assert out[j] == filled.byId[id];
      CorpusJoinAt(metaRows, charRows, plotLines, parse, t, withActors, plots, id);
    }
  }

  /** The join seen from one metadata id. */
  lemma CorpusJoinAt(metaRows: seq<Row>, charRows: seq<Row>, plotLines: seq<string>, parse: string -> seq<string>,
                     t: Table, withActors: Table, plots: map<string, string>, id: string)
    requires AllWide(metaRows, MetadataWidth) && AllWide(charRows, CharacterWidth) && AllTabbed(plotLines)
    requires id in t.byId && id in Ids(metaRows)
    requires t.byId[id] == FromMetadata(metaRows[LastIndex(Ids(metaRows), id)], parse)
    requires id in withActors.byId && withActors.byId[id] == AddActors(t.byId[id], ActorsFor(charRows, id))
    requires forall k :: k in plots <==> k in PlotIds(plotLines)
    requires forall k :: k in plots ==> plots[k] == PlotSummary(plotLines[LastIndex(PlotIds(plotLines), k)])
    ensures withActors.byId[id].(summary := Some(if id in plots then plots[id] else DefaultSummary))
      == JoinedMovie(metaRows, charRows, plotLines, parse, id)
  {
    assert id in plots <==> LastIndex(PlotIds(plotLines), id) >= 0;
  }
}
