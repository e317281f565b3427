# rthk-csv-megafetcher — a Dafny model of the manifest vocabulary and the start-up of `main`

The program reads a CSV manifest of RTHK programme episodes. Each row becomes an
`Entry`. The program also resolves an optional language filter and an optional
format filter from the command line. This project models two things:

- **`Schema`** (`schema.dfy`, from `src/schema.rs`). It covers the closed
  enumerations `Language` {Chinese, English} and `Format` {Audio, Video}.
  Each has a command-line name: `from_str` parses it and `to_string` prints it.
  Each also has a serialised name, fixed by its serde attributes. For a
  language that name is "中文" or "英文". For a format it is the variant name in
  lower case. `Format::extension` gives the fallback file extension. `Id` is a
  pair of `u32` values with field-wise equality, and `Entry` is a manifest row.
  Everything here is a pure function, because the source is a set of `match`
  expressions.
- **`Megafetcher`** (`megafetcher.dfy`, from `src/main.rs`). Filter resolution is
  a pure combinator chain, so it becomes the functions `ResolveLanguages` and
  `ResolveFormats`. The record loop pushes into a mutable `Vec`, so it becomes
  the method `CollectRecords`, with a `while` loop and invariants. It is proved
  against the specification functions `FirstError` and `Records`. `Run` puts
  the steps together in the order `main` runs them: open the manifest, resolve
  the language filter, resolve the format filter, then collect the records.
  `Wrappers` (`wrappers.dfy`) holds `Option`, `Result` and the error value.
  `Sequences` (`sequences.dfy`) holds the `NoDuplicates` predicate that the filter contracts use.

Opening the file and deserialising each row are done by foreign code. The model
takes them as inputs. `source` is the result of `File::open`, and its rows are
the results the CSV reader yields one by one. An `anyhow::Error` is represented
by its message.

In `main`, `to_fetch` and the two resolved filters are locals that the function
never returns. `Run` returns all three as out-parameters. `CollectRecords` returns
`to_fetch`. Both also return `read`, the number of rows pulled from the reader. This lets the contracts
say what `to_fetch` holds, and that no row is read when start-up fails.

## Model

| member | source | states |
|---|---|---|
| `Schema.LanguageFromStr` | src/schema.rs:15-25 | parsing succeeds exactly on "chinese" and "english"; every other string fails with "invalid language" |
| `Schema.LanguageToString` | src/schema.rs:27-34 | the printed name parses back to the same language |
| `Schema.LanguageSerdeName` | src/schema.rs:8-13 | Chinese is serialised as "中文" and English as "英文" (tied to their command-line names "chinese" and "english"); each is a two-character name that the command-line parser rejects |
| `Schema.LanguageFromSerdeName` | src/schema.rs:7-13 | the derived deserialiser accepts exactly "中文" and "英文", and what it accepts is the serialised name of its result |
| `Schema.LanguageRoundTrip` | src/schema.rs:7-34 | parse after print gives back every language, under both naming schemes |
| `Schema.LanguageFromStrInverse` | src/schema.rs:18-33 | whatever the parser accepts, the printer prints back unchanged |
| `Schema.LanguageToStringInjective` | src/schema.rs:9-34 | distinct languages have distinct command-line names and distinct serialised names |
| `Schema.LanguageNamesDisjoint` | src/schema.rs:9-21 | no serialised name is a command-line name and no command-line name deserialises; parsing is case-sensitive ("Chinese" is rejected) |
| `Schema.FormatFromStr` | src/schema.rs:43-53 | parsing succeeds exactly on "audio" and "video"; every other string fails with "invalid format" |
| `Schema.FormatToString` | src/schema.rs:55-62 | the printed name parses back to the same format |
| `Schema.Extension` | src/schema.rs:64-71 | Audio maps to "mp3" and Video to "mp4", and to no other format |
| `Schema.ExtensionInjective` | src/schema.rs:64-71 | the two formats have different extensions |
| `Schema.AsciiLowerChar` | src/schema.rs:37 | no ASCII capital is left; a character is an ASCII letter after lowering exactly when it was one before; only A-Z change, each to the lower-case letter at the same alphabet position |
| `Schema.AsciiLowercase` | src/schema.rs:37 | the `lowercase` rename keeps the length and lowers each character |
| `Schema.FormatSerdeName` | src/schema.rs:36-41 | the serialised name of a format is its variant name in lower case, five characters long, and `from_str` reads it back as that format |
| `Schema.FormatFromSerdeName` | src/schema.rs:36-41 | what the derived deserialiser accepts is the serialised name of its result |
| `Schema.FormatSerdeNameIsCliName` | src/schema.rs:37-62 | a format's lower-cased serialised name equals its command-line name |
| `Schema.FormatSerdeAcceptsExactlyCliNames` | src/schema.rs:36-53 | the deserialiser and `from_str` accept the same strings and agree on the result |
| `Schema.FormatRoundTrip` | src/schema.rs:36-62 | parse after print gives back every format, under both naming schemes |
| `Schema.FormatFromStrInverse` | src/schema.rs:46-61 | whatever the parser accepts, the printer prints back unchanged |
| `Schema.FormatToStringInjective` | src/schema.rs:55-62 | distinct formats have distinct command-line names |
| `Schema.IdEq` | src/schema.rs:101-105 | two ids are equal exactly when both `pid` and `eid` are equal |
| `Megafetcher.ResolveLanguages` | src/main.rs:17-21 | an absent option gives [English, Chinese]; a name gives exactly the language it names; an unknown name is the parser's error; every filter is non-empty and has no duplicates |
| `Megafetcher.ResolveLanguagesSingleton` | src/main.rs:18-20 | a name that parses yields the singleton of the parsed language |
| `Megafetcher.ResolveFormats` | src/main.rs:22-26 | an absent option gives [Audio, Video]; a name gives exactly the format it names; an unknown name is the parser's error; every filter is non-empty and has no duplicates |
| `Megafetcher.ResolveFormatsSingleton` | src/main.rs:23-25 | a name that parses yields the singleton of the parsed format |
| `Megafetcher.FirstError` | src/main.rs:31-33 | the index of the first row that failed, with every earlier row deserialised |
| `Megafetcher.AbortIgnoresLaterRows` | src/main.rs:31-33 | once a row fails, rows after it change neither where collection stops nor the records collected before it |
| `Megafetcher.Records` | src/main.rs:28-34 | the records of fully deserialised rows, one per row, in row order |
| `Megafetcher.CollectRecords` | src/main.rs:28-34 | `to_fetch` holds exactly the records before the first failing row, in input order; the result is Ok exactly when every row deserialised; otherwise it is the first failing row's error, and no later row is read |
| `Megafetcher.Run` | src/main.rs:11-37 | errors are checked in order (open, language, format, first bad row), and the result is the first error met; no row is read unless the file opened and both filters resolved; once they have, the filters are the resolved ones and `to_fetch` holds the records before the first bad row, in order; the result is Ok exactly when every step succeeds |

## Left out

- `de_from_f32` (src/schema.rs:93-99) is a floating-point to `u32` cast. `durationSeconds` is kept as an opaque `Option<U32>`.
- The derived serde code is not modelled, apart from the variant names it accepts. The same goes for `csv::Reader`, for `clap` (`App::from_yaml`, `load_yaml!`) and for `cli.yml`. Rows come in as a sequence of `Result<Entry>`, and the command-line values as `Option<string>`. The panic of `value_of("source").unwrap()` on a missing source path is not modelled, since `cli.yml` is not part of this model.
- `File::open` and `BufReader` are I/O. The model keeps only that opening may fail before anything else happens.
- `Schema.LanguageFromSerdeName`: serde's "unknown variant" error message is shortened to the words "unknown variant".
- `Schema.FormatFromSerdeName`: serde's "unknown variant" error message is shortened to the words "unknown variant".
- The `Entry` text fields carry no behaviour and are kept as opaque strings.
- The filters are resolved but never used in `main`, and `to_fetch` is never consumed. The program downloads nothing, so no download, resume or concurrency logic exists to model.
