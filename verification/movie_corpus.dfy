/** The two halves of the pipeline meet here: the list the movie join
    writes out is the corpus `MovieDataLoader` later reads. A JSON dump
    followed by a load gives back the same strings and lists, so the
    records the loader sees are the movies' dictionaries. */
module MovieCorpus {
  import opened Wrappers
  import opened Text
  import D = Documents
  import P = MovieParser

  /** The JSON object `json.dump` writes for one joined movie. */
  function ToRecord(m: P.Movie): (r: D.Record)
    requires m.summary.Some?
    ensures r.Keys == {"movie_id", "title", "release_date", "supported_languages",
                       "movie_countries", "movie_genres_list", "movie_actor_list", "summary"}
  {
    map[
      "movie_id" := D.Str(m.movieId),
      "title" := D.Str(m.title),
      "release_date" := D.Str(m.releaseDate),
      "supported_languages" := D.Array(D.Strs(m.languages)),
      "movie_countries" := D.Array(D.Strs(m.countries)),
      "movie_genres_list" := D.Array(D.Strs(m.genres)),
      "movie_actor_list" := D.Array(D.Strs(m.actors)),
      "summary" := D.Str(m.summary.value)
    ]
  }

  function ToRecords(ms: seq<P.Movie>): (r: seq<D.Record>)
    requires forall j :: 0 <= j < |ms| ==> ms[j].summary.Some?
    ensures |r| == |ms|
    ensures forall j :: 0 <= j < |ms| ==> r[j] == ToRecord(ms[j])
  {
    seq(|ms|, j requires 0 <= j < |ms| => ToRecord(ms[j]))
  }

  /** The text `MovieDataLoader.get_page_content` makes of a joined movie. */
  function MovieText(m: P.Movie): string
    requires m.summary.Some?
  {
    m.title + " " + m.releaseDate + " " + m.summary.value + " " + JoinWith(" ", m.genres) + " " + JoinWith(" ", m.actors)
  }

  /** The movie loader formats one joined movie into its text. */
  lemma RecordContent(m: P.Movie)
    requires m.summary.Some?
    ensures D.PageContent(D.MovieLoader, ToRecord(m)) == Success(MovieText(m))
  {
    var item := ToRecord(m);
    assert item["title"] == D.Str(m.title);
    assert item["release_date"] == D.Str(m.releaseDate);
    assert item["summary"] == D.Str(m.summary.value);
    assert item["movie_genres_list"] == D.Array(D.Strs(m.genres));
    assert item["movie_actor_list"] == D.Array(D.Strs(m.actors));
    D.MovieContent(item, m.title, m.releaseDate, m.summary.value, m.genres, m.actors);
  }

  /** Any list of movies with summaries loads without failure, one
      document per movie of the prefix, each holding the movie's own text
      and record. */
  lemma MoviesLoad(ms: seq<P.Movie>, length: Option<int>)
    requires forall j :: 0 <= j < |ms| ==> ms[j].summary.Some?
    ensures var docs := D.CreateDocuments(D.MovieLoader, ToRecords(ms), length);
      && docs.Success?
      && |docs.value| == D.PrefixLength(|ms|, length)
      && forall j :: 0 <= j < |docs.value| ==> docs.value[j] == D.Document(MovieText(ms[j]), ToRecord(ms[j]))
  {
    var records := ToRecords(ms);
    forall j | 0 <= j < |ms|
      ensures D.PageContent(D.MovieLoader, records[j]) == Success(MovieText(ms[j]))
    {
      RecordContent(ms[j]);
    }
  }

  /** Loading the joined corpus never hits the all-or-nothing failure:
      every joined movie carries all five fields the movie loader reads,
      so `create_documents(length)` yields one document per movie of the
      prefix, each holding the movie's own text and record. */
  lemma CorpusLoads(metaRows: seq<P.Row>, charRows: seq<P.Row>, plotLines: seq<string>,
                    parse: string -> seq<string>, length: Option<int>)
    requires P.AllWide(metaRows, P.MetadataWidth) && P.AllWide(charRows, P.CharacterWidth) && P.AllTabbed(plotLines)
    ensures var out := P.BuildCorpus(metaRows, charRows, plotLines, parse).value;
      && (forall j :: 0 <= j < |out| ==> out[j].summary.Some?)
      && var docs := D.CreateDocuments(D.MovieLoader, ToRecords(out), length);
      && docs.Success?
      && |docs.value| == D.PrefixLength(|out|, length)
      && forall j :: 0 <= j < |docs.value| ==> docs.value[j] == D.Document(MovieText(out[j]), ToRecord(out[j]))
  {
    P.CorpusJoin(metaRows, charRows, plotLines, parse);
    var out := P.BuildCorpus(metaRows, charRows, plotLines, parse).value;
    MoviesLoad(out, length);
  }
}
