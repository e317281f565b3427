/**
 * The manifest vocabulary: the closed enumerations `Language` and `Format`,
 * their command-line names (`FromStr` / `ToString`), their serialised names
 * (the serde renames), the fallback file extension of a format, and the
 * `Id` / `Entry` records one manifest row deserialises to.
 */
module Schema {
  import opened Wrappers

  // ---------------------------------------------------------------------------
  // Language
  // ---------------------------------------------------------------------------

  datatype Language = Chinese | English

  /** `Language::from_str`: the command-line name of a language. */
  function LanguageFromStr(s: string): (r: Result<Language>)
    ensures r.Ok? <==> s == "chinese" || s == "english"
    ensures r.Err? ==> r.error == Error("invalid language")
  {
    match s
    case "chinese" => Ok(Chinese)
    case "english" => Ok(English)
    case _ => Err(Error("invalid language"))
  }

  /** `Language::to_string`: prints a name that `LanguageFromStr` reads back. */
  function LanguageToString(l: Language): (s: string)
    ensures LanguageFromStr(s) == Ok(l)
  {
    match l
    case Chinese => "chinese"
    case English => "english"
  }

  /** The serialised (manifest) name, fixed by `#[serde(rename = ...)]`. */
  function LanguageSerdeName(l: Language): (s: string)
    ensures |s| == 2
    ensures LanguageFromStr(s).Err?
    ensures s == "中文" <==> LanguageToString(l) == "chinese"
    ensures s == "英文" <==> LanguageToString(l) == "english"
  {
    match l
    case Chinese => "中文"
    case English => "英文"
  }

  /** The derived deserialiser: accepts exactly the renamed variant names. */
  function LanguageFromSerdeName(s: string): (r: Result<Language>)
    ensures r.Ok? <==> s == "中文" || s == "英文"
    ensures r.Ok? ==> LanguageSerdeName(r.value) == s
  {
    if s == LanguageSerdeName(Chinese) then Ok(Chinese)
    else if s == LanguageSerdeName(English) then Ok(English)
    else Err(Error("unknown variant"))
  }

  lemma LanguageRoundTrip(l: Language)
    ensures LanguageFromStr(LanguageToString(l)) == Ok(l)
    ensures LanguageFromSerdeName(LanguageSerdeName(l)) == Ok(l)
  {
  }

  /** Whatever `from_str` accepts, `to_string` prints back unchanged. */
  lemma LanguageFromStrInverse(s: string)
    requires LanguageFromStr(s).Ok?
    ensures LanguageToString(LanguageFromStr(s).value) == s
  {
  }

  lemma LanguageToStringInjective(a: Language, b: Language)
    ensures LanguageToString(a) == LanguageToString(b) <==> a == b
    ensures LanguageSerdeName(a) == LanguageSerdeName(b) <==> a == b
  {
    LanguageRoundTrip(a);
    LanguageRoundTrip(b);
  }

  /**
   * The two naming schemes never overlap: a serialised name is not a
   * command-line name and vice versa, and parsing is case-sensitive.
   */
  lemma LanguageNamesDisjoint(a: Language, b: Language)
    ensures LanguageSerdeName(a) != LanguageToString(b)
    ensures LanguageFromStr(LanguageSerdeName(a)).Err?
    ensures LanguageFromSerdeName(LanguageToString(b)).Err?
    ensures LanguageFromStr("Chinese").Err? && LanguageFromStr("English").Err?
  {
  }

  // ---------------------------------------------------------------------------
  // Format
  // ---------------------------------------------------------------------------

  datatype Format = Audio | Video

  /** `Format::from_str`: the command-line name of a media kind. */
  function FormatFromStr(s: string): (r: Result<Format>)
    ensures r.Ok? <==> s == "audio" || s == "video"
    ensures r.Err? ==> r.error == Error("invalid format")
  {
    match s
    case "audio" => Ok(Audio)
    case "video" => Ok(Video)
    case _ => Err(Error("invalid format"))
  }

  /** `Format::to_string`: prints a name that `FormatFromStr` reads back. */
  function FormatToString(f: Format): (s: string)
    ensures FormatFromStr(s) == Ok(f)
  {
    match f
    case Audio => "audio"
    case Video => "video"
  }

  /** `Format::extension`: the fallback extension of a media kind. */
  function Extension(f: Format): (e: string)
    ensures |e| == 3 && e[..2] == "mp"
    ensures e == "mp3" <==> f == Audio
    ensures e == "mp4" <==> f == Video
  {
    match f
    case Audio => "mp3"
    case Video => "mp4"
  }

  lemma ExtensionInjective(a: Format, b: Format)
    ensures Extension(a) == Extension(b) <==> a == b
  {
  }

  /**
   * `char::to_ascii_lowercase`: no ASCII capital is left, ASCII letters stay
   * letters, and only A-Z change, each to the letter at the same position.
   */
  function AsciiLowerChar(c: char): (d: char)
    ensures !('A' <= d <= 'Z')
    ensures 'a' <= d <= 'z' <==> 'a' <= c <= 'z' || 'A' <= c <= 'Z'
    ensures d != c ==> 'A' <= c <= 'Z' && d as int - 'a' as int == c as int - 'A' as int
  {
    if 'A' <= c <= 'Z' then (c as int + 32) as char else c
  }

  /** `str::to_ascii_lowercase`, as `#[serde(rename_all = "lowercase")]` applies it. */
  function AsciiLowercase(s: string): (t: string)
    ensures |t| == |s|
    ensures forall i :: 0 <= i < |s| ==> t[i] == AsciiLowerChar(s[i])
  {
    if s == [] then [] else [AsciiLowerChar(s[0])] + AsciiLowercase(s[1..])
  }

  /**
   * The serialised (manifest) name of a format: its Rust variant name in
   * lower case. It is also the name `FormatFromStr` accepts for `f`.
   */
  function FormatSerdeName(f: Format): (s: string)
    ensures |s| == 5
    ensures FormatFromStr(s) == Ok(f)
  {
    var variant := match f case Audio => "Audio" case Video => "Video";
    var lowered := AsciiLowercase(variant);
    assert lowered[0] == AsciiLowerChar(variant[0]);
    assert lowered[1..] == variant[1..];
    lowered
  }

  /** The derived deserialiser: accepts exactly the lower-cased variant names. */
  function FormatFromSerdeName(s: string): (r: Result<Format>)
    ensures r.Ok? ==> FormatSerdeName(r.value) == s
  {
    if s == FormatSerdeName(Audio) then Ok(Audio)
    else if s == FormatSerdeName(Video) then Ok(Video)
    else Err(Error("unknown variant"))
  }

  /** Unlike `Language`, a format has one external name: the serde name is the CLI name. */
  lemma FormatSerdeNameIsCliName(f: Format)
    ensures FormatSerdeName(f) == FormatToString(f)
  {
    FormatFromStrInverse(FormatSerdeName(f));
  }

  lemma FormatSerdeAcceptsExactlyCliNames(s: string)
    ensures FormatFromSerdeName(s).Ok? <==> FormatFromStr(s).Ok?
    ensures FormatFromSerdeName(s).Ok? ==> FormatFromSerdeName(s) == FormatFromStr(s)
  {
    FormatSerdeNameIsCliName(Audio);
    FormatSerdeNameIsCliName(Video);
  }

  lemma FormatRoundTrip(f: Format)
    ensures FormatFromStr(FormatToString(f)) == Ok(f)
    ensures FormatFromSerdeName(FormatSerdeName(f)) == Ok(f)
  {
  }

  lemma FormatFromStrInverse(s: string)
    requires FormatFromStr(s).Ok?
    ensures FormatToString(FormatFromStr(s).value) == s
  {
  }

  lemma FormatToStringInjective(a: Format, b: Format)
    ensures FormatToString(a) == FormatToString(b) <==> a == b
  {
    FormatRoundTrip(a);
    FormatRoundTrip(b);
  }

  // ---------------------------------------------------------------------------
  // Records
  // ---------------------------------------------------------------------------

  newtype U32 = x: int | 0 <= x < 0x1_0000_0000

  /** A programme id and an episode id. */
  datatype Id = Id(pid: U32, eid: U32)

  /** The derived `PartialEq` on `Id`: field by field. */
  function IdEq(a: Id, b: Id): (r: bool)
    ensures r <==> a == b
  {
    a.pid == b.pid && a.eid == b.eid
  }

  /** One manifest row; the text fields carry no behaviour. */
  datatype Entry = Entry(
    id: Id,
    programmeTitle: string,
    episodeTitle: string,
    episodeDate: string,
    durationSeconds: Option<U32>,
    ogTitle: string,
    ogDescription: string,
    cids: string,
    categoryNames: string,
    fileUrl: string,
    m3u8Url: Option<string>,
    rssUrl: string,
    language: Language,
    format: Format)
}
