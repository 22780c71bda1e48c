# Font resolution for the custom PDF report (Dafny model)

This project models the font resolver that the Optix custom PDF report sample
(`CreateReport.cs`) installs into PdfSharpCore. It also models the validation
of the report's output path. The model covers three steps:

- **Building the catalogue** (`SetupFontsFiles`, `DeserializeFontFamily`,
  `GuessFontStyle`):
  1. Every scanned `.ttf` path is parsed. Files that fail to parse are skipped.
  2. The files are grouped by family name.
  3. Each group becomes a style-to-path table. A family of one file is
     registered as Regular, whatever its style. Otherwise the first file of
     each style wins.
  4. Each family is added under its lower-cased name. An `Add` that fails
     because the name is taken is caught and skipped.
- **Resolving a typeface** (`ResolveTypeface`): the face name serving a family
  and a bold/italic request.
  - For a known family the cascade is: the requested style, then Regular, then
    the first registered entry.
  - For an unknown family the result is null, or the first file of the first
    family, depending on `NullIfFontNotFound`.
  - When nothing is installed, it throws.
- **Fetching a face** (`GetFont`): which scanned path is read for a face file
  name. This is the first path that contains the file name, ignoring case.

Modules:

| file | module | contents |
|---|---|---|
| `wrappers.dfy` | `Wrappers` | `Option`, `Result` |
| `text.dfy` | `Text` | `ToLower` (`Lower`), ordinal and ordinal-ignore-case `Contains`, `EndsWith`, `Path.GetFileName` (`FileName`) |
| `assoc.dfy` | `AssocList` | `Dictionary` as an insertion-ordered association list; `Add` fails on a duplicate key |
| `fonts.dfy` | `FontDescriptions`, `Fonts` | parsed descriptions, `XFontStyle`, `FontFileInfo`, `GuessFontStyle`, `FontFamilyModel` |
| `catalogue.dfy` | `Catalogue` | `SetupFontsFiles` with its load, group and register loops; `DeserializeFontFamily` |
| `resolver.dfy` | `Resolver` | `ResolveTypeface`, `GetFont`, and the corrected file search |
| `output_path.dfy` | `ReportOutput` | `CreateReport.GetFilePath` |
| `scenarios.dfy` | `Scenarios` | end-to-end properties of build, resolve and fetch |

Modelling choices:

- A `Dictionary<K,V>` is a sequence of pairs in insertion order. This is what
  `First()` observes on a dictionary that is only ever added to.
- `Dictionary.Add` returns `None` where the source throws on a duplicate key.
- Parsing a font file is an input map `Parsed` from path to description. A path
  missing from the map is a file whose description fails to load.
- The static catalogue is an explicit value. `SetupFontsFiles` takes the
  catalogue it adds to and returns the new one.
- `ResolveTypeface` returns `Result<Option<string>, ResolveError>`:
  - `Failure(NoFontsInstalled)` is the `FileNotFoundException`;
  - `Failure(EmptyStyleTable)` is `First()` on an empty table;
  - `Success(None)` is the `null` result.
- The report's output path variable may be missing (`None`), and its value may
  be null (a `Variable` whose `value` is `None`).

A bold and italic request on a family without a BoldItalic file goes to the
Regular step: the Regular file if there is one, otherwise the first registered
entry (`CreateReport.cs:440-459`). It never looks Bold or Italic up, although the
first registered entry can happen to be the Bold or Italic file. So a family of
a Regular and a Bold file answers such a request with the Regular file
(`Scenarios.RegularAndBoldFamily`, `Resolver.BoldItalicFallbackSkipsBoldAndItalic`).

File names depend on the platform the resolver runs on. The static constructor
scans a Linux directory or a Windows directory (`CreateReport.cs:298-319`).
`Path.GetFileName` splits on '/' only on Linux, and on both '/' and '\\' on
Windows. The model therefore takes a `Platform` parameter (`Text.Platform`)
wherever a file name is taken.

## Model

| member | source | states |
|---|---|---|
| Fonts.GuessFontStyle | ProjectFiles/NetSolution/CreateReport.cs:338-350 | Bold, Italic and BoldItalic map to their renderer style, each in both directions; every other parsed style maps to Regular |
| Fonts.GuessFontStyleInjective | ProjectFiles/NetSolution/CreateReport.cs:338-350 | files that guess the same style were parsed with the same style, so no two parsed styles share a slot |
| AssocList.Lookup | ProjectFiles/NetSolution/CreateReport.cs:438 | TryGetValue/ContainsKey: absent exactly when the key is not in the dictionary; otherwise the stored pair is in the dictionary |
| AssocList.Add | ProjectFiles/NetSolution/CreateReport.cs:383 | Dictionary.Add fails exactly when the key is present. Otherwise it appends: the key set grows by the key, the key maps to the value, other lookups are unchanged, and keys stay unique |
| Catalogue.LoadAll | ProjectFiles/NetSolution/CreateReport.cs:360-375 | the loaded files are exactly the scanned paths that parse, each paired with its parsed description |
| Catalogue.LoadAllAppend | ProjectFiles/NetSolution/CreateReport.cs:363-375 | loading is done path by path in scan order: loading a concatenation concatenates the loads |
| Catalogue.LoadFailureSkipped | ProjectFiles/NetSolution/CreateReport.cs:365-374 | a file whose description fails to load is skipped, and the files after it still load as if it were absent |
| Catalogue.LoadAllHead | ProjectFiles/NetSolution/CreateReport.cs:363-369 | the first loaded file is the first scanned path that parses |
| Catalogue.Distinct | ProjectFiles/NetSolution/CreateReport.cs:378 | family names without repeats, the same names as the input, in order of first appearance in the input |
| Catalogue.GroupBy | ProjectFiles/NetSolution/CreateReport.cs:378 | one group per distinct family name, in order of first appearance, so the first file's family comes first. Keys never repeat, each group holds exactly that family's loaded files and is non-empty, and every loaded file's family has a group |
| Catalogue.FirstWithDistinct | ProjectFiles/NetSolution/CreateReport.cs:378 | group keys in order of first appearance find the same first family for a folded name as the raw family-name list |
| Catalogue.FirstPathWithStyle | ProjectFiles/NetSolution/CreateReport.cs:400-405 | reference for a style slot: absent exactly when no file has the style, otherwise the path of the first file with it |
| Catalogue.StyleTable | ProjectFiles/NetSolution/CreateReport.cs:400-405 | the loop builds a first-wins table. Its keys are the styles present, each looks up the first file of that style, there are no duplicate keys, the first entry is the first file's, and every path is a family file |
| Catalogue.StyleTableStep | ProjectFiles/NetSolution/CreateReport.cs:402-404 | one iteration that adds a file only when its style is not yet a key keeps the table first-wins for the longer file list |
| Catalogue.DeserializeFontFamily | ProjectFiles/NetSolution/CreateReport.cs:391-409 | the name is kept. A single file is registered as Regular only, whatever its style. Several files give the first-wins table. A non-empty family gets a usable table whose first entry is the first file, and every path in it belongs to the family |
| Catalogue.FirstRegisteredStyle | ProjectFiles/NetSolution/CreateReport.cs:400-405 | in a family of several files, the first table entry (what `First()` later returns) is the first file under its own style |
| Catalogue.Register | ProjectFiles/NetSolution/CreateReport.cs:378-388 | the registration loop keeps the earlier catalogue as a prefix with its lookups. The new keys are the folded group names, and a fresh key gets the family of the first group folding to it, because a later clashing Add is caught. Every added entry is some group's family under an unused name. Added entries are appended in the order their names first occur among the groups |
| Catalogue.AddOrSkip | ProjectFiles/NetSolution/CreateReport.cs:379-388 | one registration step: the name is added to the keys; when it is taken, the caught Add leaves the catalogue as it was; otherwise the name maps to the new family. Other lookups are unchanged, the old catalogue stays a prefix, and names stay unique |
| Catalogue.RegisterHead | ProjectFiles/NetSolution/CreateReport.cs:378-384 | a first group with an unused name is registered directly after the earlier catalogue |
| Catalogue.RegisterWellFormed | ProjectFiles/NetSolution/CreateReport.cs:378-388 | registering non-empty groups keeps every family usable and the names unique |
| Catalogue.SetupFontsFiles | ProjectFiles/NetSolution/CreateReport.cs:360-389 | the catalogue grows by exactly the lower-cased family names of the files that load. Existing entries are untouched, uniqueness and well-formedness are kept, and every new table path is a scanned path that loads |
| Catalogue.FirstInstalledFamily | ProjectFiles/NetSolution/CreateReport.cs:360-405 | a catalogue built from scratch starts with the family of the first file that loads, under its lower-cased name, and that family's first entry is that file |
| Catalogue.CatalogueEntry | ProjectFiles/NetSolution/CreateReport.cs:377-405 | the family under a fresh lower-cased name is built from the first loaded family name folding to it, with all loaded files of exactly that family in scan order |
| Resolver.SelectEntry | ProjectFiles/NetSolution/CreateReport.cs:440-459 | the style cascade gives the requested style if present, else Regular if present, else the first registered entry. It answers exactly when the table is non-empty, and its answer is a table entry |
| Resolver.BoldItalicFallbackSkipsBoldAndItalic | ProjectFiles/NetSolution/CreateReport.cs:440-459 | without BoldItalic, a bold and italic request is answered like a plain request: Regular if present, otherwise the first registered entry (which may be the Bold or Italic file); Bold and Italic are never looked up |
| Resolver.ResolveTypeface | ProjectFiles/NetSolution/CreateReport.cs:433-467 | throws when nothing is installed. A known family (case-insensitively) gets the file name of its cascade choice. An unknown family gets null or the first file of the first family, per the flag. A well-formed catalogue always answers, and every face named is a table file's name |
| Resolver.ResolveIgnoresCase | ProjectFiles/NetSolution/CreateReport.cs:438 | family names that lower-case alike resolve alike |
| Resolver.ResolveAsLowerCase | ProjectFiles/NetSolution/CreateReport.cs:438 | a family name resolves like its lower-cased form |
| Resolver.FirstWhere | ProjectFiles/NetSolution/CreateReport.cs:417 | `First(predicate)`: no answer exactly when no element is accepted; otherwise the index of an accepted element with none accepted before it |
| Resolver.GetFont | ProjectFiles/NetSolution/CreateReport.cs:411-428 | fails, naming the face, exactly when no scanned path contains the face's file name ignoring case. Otherwise it reads the first path that does |
| Resolver.GetFontByFileName | ProjectFiles/NetSolution/CreateReport.cs:417 | corrected search: fails, naming the face, exactly when no scanned path has the face's file name (ignoring case). Otherwise it reads the first path that has it |
| Resolver.SameFileNameContains | ProjectFiles/NetSolution/CreateReport.cs:417 | a path whose file name equals the face's file name contains it, so the substring search accepts it |
| Resolver.FileNameSearchWithinSubstringSearch | ProjectFiles/NetSolution/CreateReport.cs:417 | wherever a path with the face's file name exists, GetFont succeeds too |
| Resolver.GetFontServesWrongFile | ProjectFiles/NetSolution/CreateReport.cs:417 | with "/f/myarial.ttf" scanned before "/f/arial.ttf", asking for "arial.ttf" reads "/f/myarial.ttf", a file of another name |
| Resolver.GetFontByFileNameServesNamedFile | ProjectFiles/NetSolution/CreateReport.cs:417 | on that scan the corrected search reads "/f/arial.ttf" |
| ReportOutput.GetFilePath | ProjectFiles/NetSolution/CreateReport.cs:265-279 | missing variable, then null or empty value, then no ".pdf" inside, each gives its own error. Any other value is accepted unchanged |
| ReportOutput.GetPdfFilePath | ProjectFiles/NetSolution/CreateReport.cs:275-276 | corrected check: accepted exactly when the value is non-empty and ends in ".pdf"; the error is the original's, or NotPdf |
| ReportOutput.PdfFilePathAcceptsLess | ProjectFiles/NetSolution/CreateReport.cs:275-276 | every path the corrected check accepts, the original accepts with the same result |
| ReportOutput.NonPdfExtensionAccepted | ProjectFiles/NetSolution/CreateReport.cs:275-276 | "report.pdf.txt" passes the original check and fails the corrected one |
| Scenarios.SingleFileFamilyAnswersEverything | ProjectFiles/NetSolution/CreateReport.cs:396-397 | a one-file family answers every bold/italic request with its only file, as Regular |
| Scenarios.RegularAndBoldFamily | ProjectFiles/NetSolution/CreateReport.cs:440-457 | for a Regular+Bold family, bold gets the Bold file, while bold+italic, italic and plain requests get the Regular file |
| Scenarios.UnknownFamilyServesFirstLoadedFile | ProjectFiles/NetSolution/CreateReport.cs:462-466 | on a catalogue built from scratch, a family no loaded file belongs to (ignoring case), without the null option, gets the file name of the first scanned file that loads, for every style request |
| Scenarios.ScannedFileIsFound | ProjectFiles/NetSolution/CreateReport.cs:417 | the file name of any scanned path is found by the corrected search |
| Scenarios.ScannedFileIsFetchable | ProjectFiles/NetSolution/CreateReport.cs:417 | the file name of any scanned path is fetched by GetFont |
| Scenarios.BuiltCatalogueAnswers | ProjectFiles/NetSolution/CreateReport.cs:360-467 | once one scanned file loads, the built catalogue answers every request without throwing, with null or the file name of a scanned path that loads |
| Scenarios.ResolvedFaceIsFetchable | ProjectFiles/NetSolution/CreateReport.cs:411-467 | every face name the built catalogue gives out can then be fetched by both searches |
| Text.Lower | ProjectFiles/NetSolution/CreateReport.cs:383 | `ToLower` on ASCII (also used at line 438): the length is kept, no upper-case letter is left, and each character is kept or is an upper-case letter turned into its lower-case partner |
| Text.Contains | ProjectFiles/NetSolution/CreateReport.cs:275 | ordinal `string.Contains`: the empty string and every prefix are contained, and nothing longer than the string is |
| Text.ContainsInContext | ProjectFiles/NetSolution/CreateReport.cs:275 | a string built as text, then the part, then text, contains the part |
| Text.ContainsSplits | ProjectFiles/NetSolution/CreateReport.cs:275 | conversely, a string that contains the part is some text, the part, then more text |
| Text.ContainsIgnoreCase | ProjectFiles/NetSolution/CreateReport.cs:417 | `Contains(..., OrdinalIgnoreCase)`: every ordinal match is a match ignoring case, and nothing longer than the string matches |
| Text.ContainsIgnoreCaseSplits | ProjectFiles/NetSolution/CreateReport.cs:417 | a match ignoring case means some window of the string, as long as the part, lower-cases to the lower-cased part |
| Text.ContainsIgnoreCaseInWindow | ProjectFiles/NetSolution/CreateReport.cs:417 | conversely, a window of the string that lower-cases to the lower-cased part makes the search match |
| Text.ContainsIgnoreCaseOfFolded | ProjectFiles/NetSolution/CreateReport.cs:417 | lower-casing either the string or the part does not change the answer |
| Text.LowerIdempotent | ProjectFiles/NetSolution/CreateReport.cs:383 | lower-casing a registered name again changes nothing |
| Text.FileName | ProjectFiles/NetSolution/CreateReport.cs:443 | GetFileName gives the longest ending of the path with no separator of the platform: the separator, if any, sits just before it |
| Text.BackslashSeparatesOnWindowsOnly | ProjectFiles/NetSolution/CreateReport.cs:298-319 | "/p/a\\b.ttf" has file name "a\\b.ttf" on Linux and "b.ttf" on Windows |

## Left out

- The static constructor is left out because it is I/O. It chooses the font
  directory by platform and scans it for `*.ttf` (`Directory.GetFiles`). The
  scanned list is a parameter, and the unsupported-platform exception is not
  modelled.
- `FontDescription.LoadDescription` is binary parsing in a third-party library.
  It is the input map `Parsed`, whose missing keys stand for any exception it
  throws.
- Resolver.GetFont: the model stops at the choice of path. It leaves out
  opening and copying the file, and so also the I/O failures that the source
  turns into the same "No Font File Found" exception.
- `Text.Lower` folds ASCII letters only. `ToLower` uses the current culture's
  full Unicode case mapping, which is not modelled.
- `Text.ContainsIgnoreCase` folds ASCII letters only. OrdinalIgnoreCase uses
  Unicode simple case folding.
- Text.FileName: on Linux it splits on '/' only, and on Windows on '/' and
  '\\', as .NET does. On Windows, .NET also keeps a path's root out of the
  file name, so "C:a.ttf" gives "a.ttf". The model does not treat a drive
  prefix as a root and gives "C:a.ttf". Scanned font paths are absolute, so
  this does not arise for them.
- Null strings are left out. Family names and paths are never null in the
  model, so the `NullReferenceException` that `familyName.ToLower()` would
  throw is not modelled.
- The conversion of the accepted output path to a `ResourceUri` is left out
  (`CreateReport.cs:278`): it resolves project-relative URIs outside the model.
- Logging (`Debug.WriteLine`, `Console.Error.WriteLine`) is left out: it has no
  effect on results.
- Concurrency and the process-wide static state are left out. The catalogue is
  a value passed explicitly.
- `DefaultFontName` ("arial") is a constant that nothing in the resolver reads.
- The `NullIfFontNotFound` property is a parameter.
- Report construction (tables, headers, queries, `RunCreatePDf`, `CreatePDf`)
  is left out. It is calls into the document library and the database, not
  resolver logic.
- Underline and Strikeout styles are left out: `GuessFontStyle` never produces
  them, so tables never hold them.

## Findings

| source | as written | input that shows it | evidently intended | confidence | as-written member | corrected member |
|---|---|---|---|---|---|---|
| ProjectFiles/NetSolution/CreateReport.cs:417 | picks the first scanned path that merely contains the face's file name, ignoring case | scan ["/f/myarial.ttf", "/f/arial.ttf"], face "arial.ttf": reads "/f/myarial.ttf" | read the file whose own file name is the face's | medium, not executed | Resolver.GetFontServesWrongFile | Resolver.GetFontByFileName |
| ProjectFiles/NetSolution/CreateReport.cs:275-276 | accepts any path containing ".pdf" | "report.pdf.txt" is accepted | accept only paths ending in ".pdf", as the message "File extension must be .pdf" says | medium, not executed | ReportOutput.NonPdfExtensionAccepted | ReportOutput.GetPdfFilePath |
