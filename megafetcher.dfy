/**
 * The program's entry point: open the manifest, resolve the language and
 * format filters from the optional command-line values, then collect every
 * manifest row into `toFetch`, stopping at the first row that does not
 * deserialise.
 *
 * Opening the file and deserialising rows are foreign code: the open result
 * and the reader's row-by-row results are parameters.
 */
module Megafetcher {
  import opened Wrappers
  import opened Schema
  import opened Sequences

  // ---------------------------------------------------------------------------
  // Filter resolution
  // ---------------------------------------------------------------------------

  /**
   * The language filter: every language when the option is absent, the one
   * named otherwise, and the parser's error when the name is not recognised.
   */
  function ResolveLanguages(option: Option<string>): (r: Result<seq<Language>>)
    ensures r.Err? <==> option.Some? && LanguageFromStr(option.value).Err?
    ensures r.Err? ==> r.error == Error("invalid language")
    ensures r.Ok? ==> forall l :: l in r.value <==> option.None? || LanguageToString(l) == option.value
    ensures r.Ok? ==> |r.value| > 0 && NoDuplicates(r.value)
    ensures option.None? ==> r == Ok([English, Chinese])
  {
    match option
    case None =>
      assert forall l :: l in [English, Chinese] <==> l.English? || l.Chinese?;
      Ok([English, Chinese])
    case Some(name) =>
      match LanguageFromStr(name)
      case Err(e) => Err(e)
      case Ok(l) => Ok([l])
  }

  /**
   * The format filter: every format when the option is absent, the one
   * named otherwise, and the parser's error when the name is not recognised.
   */
  function ResolveFormats(option: Option<string>): (r: Result<seq<Format>>)
    ensures r.Err? <==> option.Some? && FormatFromStr(option.value).Err?
    ensures r.Err? ==> r.error == Error("invalid format")
    ensures r.Ok? ==> forall f :: f in r.value <==> option.None? || FormatToString(f) == option.value
    ensures r.Ok? ==> |r.value| > 0 && NoDuplicates(r.value)
    ensures option.None? ==> r == Ok([Audio, Video])
  {
    match option
    case None =>
      assert forall f :: f in [Audio, Video] <==> f.Audio? || f.Video?;
      Ok([Audio, Video])
    case Some(name) =>
      match FormatFromStr(name)
      case Err(e) => Err(e)
      case Ok(f) => Ok([f])
  }

  /** A name that parses yields exactly the singleton filter of that language. */
  lemma ResolveLanguagesSingleton(name: string)
    requires LanguageFromStr(name).Ok?
    ensures ResolveLanguages(Some(name)) == Ok([LanguageFromStr(name).value])
  {
  }

  lemma ResolveFormatsSingleton(name: string)
    requires FormatFromStr(name).Ok?
    ensures ResolveFormats(Some(name)) == Ok([FormatFromStr(name).value])
  {
  }

  // ---------------------------------------------------------------------------
  // Record collection
  // ---------------------------------------------------------------------------

  /** Index of the first row that failed to deserialise, or `|rows|` if none did. */
  function FirstError<T>(rows: seq<Result<T>>): (k: nat)
    ensures k <= |rows|
    ensures forall i :: 0 <= i < k ==> rows[i].Ok?
    ensures k < |rows| ==> rows[k].Err?
  {
    if rows == [] then 0
    else if rows[0].Err? then 0
    else 1 + FirstError(rows[1..])
  }

  /** The records carried by rows that all deserialised, in row order. */
  function Records<T>(rows: seq<Result<T>>): (records: seq<T>)
    requires forall i :: 0 <= i < |rows| ==> rows[i].Ok?
    ensures |records| == |rows|
    ensures forall i :: 0 <= i < |rows| ==> records[i] == rows[i].value
  {
    if rows == [] then []
    else Records(rows[..|rows| - 1]) + [rows[|rows| - 1].value]
  }

  /**
   * Once a row has failed, whatever the reader would yield after it never
   * changes where collection stops, nor what has been collected by then.
   */
  lemma {:induction false} AbortIgnoresLaterRows<T>(rows: seq<Result<T>>, later: seq<Result<T>>)
    requires FirstError(rows) < |rows|
    ensures FirstError(rows + later) == FirstError(rows)
    ensures (rows + later)[..FirstError(rows)] == rows[..FirstError(rows)]
  {
    if rows[0].Ok? {
      assert (rows + later)[1..] == rows[1..] + later;
      AbortIgnoresLaterRows(rows[1..], later);
    }
  }

  /**
   * The `for line in reader.deserialize()` loop: push each record onto
   * `toFetch`; `?` returns the first row error. `read` is the number of rows
   * pulled from the reader.
   */
  method CollectRecords(rows: seq<Result<Entry>>) returns (r: Result<()>, toFetch: seq<Entry>, read: nat)
    ensures r.Ok? <==> forall i :: 0 <= i < |rows| ==> rows[i].Ok?
    ensures toFetch == Records(rows[..FirstError(rows)])
    ensures r.Ok? ==> read == |rows|
    ensures r.Err? ==> read == FirstError(rows) + 1 && r.error == rows[FirstError(rows)].error
  {
    toFetch := [];
    var i := 0;
    while i < |rows|
      invariant i <= |rows|
      invariant forall j :: 0 <= j < i ==> rows[j].Ok?
      invariant toFetch == Records(rows[..i])
    {
      if rows[i].Err? {
        return Err(rows[i].error), toFetch, i + 1;
      }
      assert rows[..i + 1][..i] == rows[..i];
      toFetch := toFetch + [rows[i].value];
      i := i + 1;
    }
    assert rows[..i] == rows;
    return Ok(()), toFetch, i;
  }

  // ---------------------------------------------------------------------------
  // main
  // ---------------------------------------------------------------------------

  /**
   * `main`: `source` is the result of opening the manifest (its rows as the
   * reader deserialises them), `language` and `format` the optional
   * command-line values. The filters and `toFetch` are returned so that the
   * contract can speak of them; `read` counts the rows pulled from the reader.
   */
  method Run(source: Result<seq<Result<Entry>>>, language: Option<string>, format: Option<string>)
    returns (r: Result<()>, languages: seq<Language>, formats: seq<Format>, toFetch: seq<Entry>, read: nat)
    ensures source.Err? ==> r == Err(source.error)
    ensures source.Ok? && ResolveLanguages(language).Err? ==> r == Err(ResolveLanguages(language).error)
    ensures source.Ok? && ResolveLanguages(language).Ok? && ResolveFormats(format).Err? ==>
              r == Err(ResolveFormats(format).error)
    ensures read > 0 || toFetch != [] ==>
              source.Ok? && ResolveLanguages(language).Ok? && ResolveFormats(format).Ok?
    ensures r.Ok? <==> source.Ok? && ResolveLanguages(language).Ok? && ResolveFormats(format).Ok? &&
                        forall i :: 0 <= i < |source.value| ==> source.value[i].Ok?
    ensures source.Ok? && ResolveLanguages(language).Ok? && ResolveFormats(format).Ok? ==>
              languages == ResolveLanguages(language).value && formats == ResolveFormats(format).value
    ensures r.Ok? ==> read == |source.value| && toFetch == Records(source.value)
    ensures source.Ok? && ResolveLanguages(language).Ok? && ResolveFormats(format).Ok? && r.Err? ==>
              read == FirstError(source.value) + 1 && read <= |source.value| &&
              r.error == source.value[read - 1].error &&
              toFetch == Records(source.value[..read - 1])
  {
    languages, formats, toFetch, read := [], [], [], 0;
    if source.Err? {
      return Err(source.error), languages, formats, toFetch, read;
    }
    var resolvedLanguages := ResolveLanguages(language);
    if resolvedLanguages.Err? {
      return Err(resolvedLanguages.error), languages, formats, toFetch, read;
    }
    languages := resolvedLanguages.value;
    var resolvedFormats := ResolveFormats(format);
    if resolvedFormats.Err? {
      return Err(resolvedFormats.error), languages, formats, toFetch, read;
    }
    formats := resolvedFormats.value;
    r, toFetch, read := CollectRecords(source.value);
    if r.Ok? {
      assert source.value[..|source.value|] == source.value;
    }
  }
}
