# Geriatric case assistant: the text core in Dafny

This project models the pure text processing of the SZMC geriatrics case
assistant and proves properties of it. The four components are:

- **The clinical field extractor** (`src/populator.js`). It pulls an
  age/sex token and the HPI, medication and lab sections out of free text.
  It then writes the findings into the page's form fields.
- **The prompt builder** (`src/prompt.js`). It fills the three
  placeholders of the geriatric safety-audit prompt and checks that the
  required fields are present.
- **The export text helpers** (`src/exporters.js`):
  - control-character sanitising;
  - HTML escaping;
  - truncation;
  - the slide list of the PowerPoint export;
  - the Word document body and its file name.
- **The file intake** (`src/fileHandler.js`):
  - the table of supported extensions;
  - extension and category lookup;
  - the checks made before a file is read;
  - which PPTX archive entries are slides, and in what order;
  - how the text of PDF pages is joined.

No regular-expression engine is modelled. Each pattern of `PATTERNS` is
written out as the leftmost-first search the JavaScript engine performs.
Each search is a plain recursive function. A lemma then states what it
finds declaratively: the leftmost match, the first alternative, and the
shortest capture. JavaScript values enter through small datatypes:

- `Text` is a string argument or any other value.
- `Field` is an object property that is `undefined`, `null` or a string.
- `Option` stands for `null`.
- `Result` is a value or a thrown error.

Strings are `seq<char>`, and a Dafny `char` is a Unicode scalar value. JavaScript strings are sequences of UTF-16 code units. The two agree on every character of the Basic Multilingual Plane outside the surrogate range; a lone surrogate cannot be stored here at all. A character outside it is one `char` here and two code units in JavaScript, so lengths and cut positions are counted in characters.

Modules, one file each:

- `JsValues`: `jsvalues.dfy`.
- `Strings`: `strings.dfy`. It holds the `\s` set, `trim`, ASCII case, `indexOf`, `join` and counting.
- `StringLists`: `string_lists.dfy`. It defines when one list of names is a subsequence of another.
- `Populator`: `populator.dfy`.
- `PopulatorProperties`: `populator_properties.dfy`. It holds the leftmost-match theorem and worked examples.
- `Prompt`: `prompt.dfy`.
- `Exporters`: `exporters.dfy`.
- `FileHandler`: `file_handler.dfy`.
- `Exchange`: `exchange.dfy`. It shows that the name of a Word export passes the intake's extension checks.

## Model

| member | source | states |
|---|---|---|
| Populator.FindAgeSexSpec | src/populator.js:11 | the ageSex search returns the first position at which the scanner matches; no earlier position matches, and it returns none only when no position matches |
| Populator.AgeSexSound | src/populator.js:11 | what the ageSex scanner returns at a position is a match of the pattern there: 2 or 3 digits, at most one whitespace, then a sex token |
| Populator.AgeSexComplete | src/populator.js:11 | wherever the ageSex pattern can match, the scanner finds a match: trying three digits before two and whitespace before none loses no match |
| Populator.AgeSexStartsWithDigit | src/populator.js:11 | an ageSex match is non-empty and starts with a digit |
| Populator.AgeSexEndsWithLetter | src/populator.js:11 | an ageSex match ends with the last letter of a sex alternative (`e`, `M`, `m`, `F` or `f`) |
| Populator.AgeSexMatchIsTrimmed | src/populator.js:11 | an ageSex match has no whitespace at either end, so the `trim` of `extractValue` leaves it unchanged |
| Populator.FirstTokenAtSpec | src/populator.js:11 | the sex alternatives are tried in their listed order and the first one that occurs wins |
| PopulatorProperties.AgeSexCaptureIsLeftmostMatch | src/populator.js:11 | the ageSex capture is the verbatim text of a match of the pattern with no match starting earlier, and among matches at that start it is the one the engine tries first (three digits before two, a whitespace before none, `male`, `female`, `Male`, `Female` before a single letter); there is no capture exactly when the pattern matches nowhere |
| Populator.AgeSexFirst | src/populator.js:11 | a match the scanner reports at a position is the first shape the backtracking engine tries there: no shape it tries earlier matches |
| PopulatorProperties.AgeSexValueIsLeftmostMatch | src/populator.js:29-39 | the ageSex value `extractValue` returns is the leftmost, engine-first match of the pattern, verbatim |
| PopulatorProperties.AgeSexValueNoneIff | src/populator.js:29-39 | the ageSex value is `null` exactly when the pattern matches nowhere in the text |
| PopulatorProperties.WordBeforeLetter | src/populator.js:11 | on "75 male" the capture is the whole "75 male", not the shorter "75 m" that also fits the pattern |
| PopulatorProperties.ThreeDigitAge | src/populator.js:11 | "101M" yields "101M": three digits are tried before two |
| PopulatorProperties.SpacedWordSex | src/populator.js:11 | "75 male" yields "75 male": `male` is tried before `m`, and the one whitespace is kept |
| PopulatorProperties.LeftmostInsideNumber | src/populator.js:11 | "1234F" yields "234F": without a word boundary the match can start inside a longer number |
| Populator.HeaderAtSpec | src/populator.js:14-20 | at one position the header alternatives are tried in order; the result is the first that matches, case-insensitively, followed by a `:` or whitespace |
| Populator.FindHeaderSpec | src/populator.js:14-20 | the section search starts at the leftmost position where some header matches; no header matches anywhere when it finds none |
| Populator.SepRunSpec | src/populator.js:14-20 | `[:\s]+` takes the whole run of separators: all separators, and no separator right after |
| Populator.CaptureEndSpec | src/populator.js:14-20 | the lazy capture stops at the first position where a line break, optional whitespace and a terminator header follow, or at the end of the text; no earlier position qualifies |
| Populator.MatchAtHeader | src/populator.js:14-20 | once the leftmost header is found, the match uses its first matching alternative, the whole separator run after it, and the shortest capture |
| Populator.MatchSectionSpec | src/populator.js:14-20 | a section pattern matches nowhere exactly when no header matches anywhere; otherwise the match starts at the leftmost header and is the section match there |
| Populator.MatchSectionBounds | src/populator.js:14-20 | the captured range of a section match lies inside the text |
| Populator.CaptureStartsNonWs | src/populator.js:11-20 | a non-empty capture starts with a character that `trim` keeps |
| PopulatorProperties.SectionValue | src/populator.js:29-39 | a section field's value is the trimmed capture, and `null` when the capture is empty |
| PopulatorProperties.HeaderIgnoresPrefix | src/populator.js:14-20 | whether a header matches at a position does not depend on the text before it, so `History` inside "Past Medical History" starts the HPI section |
| PopulatorProperties.FirstHeaderAtStart | src/populator.js:14-20 | a text that starts with the first header and a separator makes that header match at position 0 |
| PopulatorProperties.MatchAtStart | src/populator.js:14-20 | a text that starts with the first header and separators has its capture start right after the separators |
| PopulatorProperties.SectionToEnd | src/populator.js:14-20 | a body without a line break runs to the end of the text; a terminator inside it that does not start a line does not end the section |
| PopulatorProperties.SectionEndsAtTerminatorLine | src/populator.js:14-20 | a line break, any whitespace and a terminator header in any letter case end the section |
| PopulatorProperties.TerminatorLine | src/populator.js:14-20 | a line break, whitespace and a terminator header make the lookahead hold |
| PopulatorProperties.TerminatorsStartWithLetter | src/populator.js:14-20 | every terminator header starts with an ASCII letter, so the lookahead's `\s*` never gives back whitespace |
| Populator.ExtractValue | src/populator.js:29-39 | `null` exactly for input that is not a non-empty string, no match, or an empty capture; otherwise the trimmed capture, which is non-empty and its own trim |
| Populator.ExtractClinicalData | src/populator.js:46-62 | all four fields are `null` for input that is not a non-empty string; otherwise each field is the extraction of its pattern, and every value is null or non-empty and trimmed |
| Populator.SetField | src/populator.js:73-80 | only the element with the given id changes, only when it exists, and only to a non-empty value |
| Populator.Populate | src/populator.js:82-84 | only `age_sex`, `hpi` and `meds` are written, each only when its field was found; `labs` is never written and every other element keeps its value |
| Populator.SmartPopulate | src/populator.js:70-87 | returns the extraction record; on the page only `age_sex`, `hpi` and `meds` change, each to the value `extractValue` finds for its pattern in the text and left as it was when none is found; `labs` and every other element keep their values, and no element is added or removed |
| Prompt.SubstitutionOfDollarFree | src/prompt.js:38-40 | a replacement value without `$` is inserted as it is |
| Prompt.ReplaceAbsent | src/prompt.js:37-40 | replacing a pattern that does not occur changes nothing |
| Prompt.ReplaceAt | src/prompt.js:37-40 | `replace` substitutes at the first occurrence only, with the text before and after it kept |
| Prompt.ReplaceLiteral | src/prompt.js:37-40 | a `$`-free value takes the place of the first occurrence of the pattern |
| Prompt.PlaceholdersOnce | src/prompt.js:9-23 | a template of the default shape holds each placeholder at exactly one position |
| Prompt.PlaceholdersOccurOnce | src/prompt.js:9-23 | the default template holds `{ageSex}`, `{hpi}` and `{meds}` exactly once each, in that order, on the ID, HPI and MEDS/LABS lines |
| Prompt.OrEmpty | src/prompt.js:35 | missing data is treated as an object whose fields are all undefined |
| Prompt.Inserted | src/prompt.js:35 | an undefined field contributes "", a `null` field the text "null", a string itself |
| Prompt.TemplateEmbedsValues | src/prompt.js:37-40 | the three sequential replacements put the values in place of the three placeholders of a template of the default shape |
| Prompt.GeneratePrompt | src/prompt.js:34-41 | a template without placeholders comes back unchanged; with the default template (`template` omitted) and field values free of `$` (the first two also free of `{`), the values ("" for undefined, "null" for null) land on the ID, HPI and MEDS/LABS lines in place of the placeholders |
| Prompt.BlankIff | src/prompt.js:62 | a field is missing exactly when it is absent, `null`, or a whitespace-only string |
| Prompt.MissingFieldsSpec | src/prompt.js:60-65 | the missing names are those whose field is blank, in the order they are checked |
| Prompt.ValidatePromptData | src/prompt.js:48-74 | missing data gives invalid, all three names and "No data provided"; otherwise `missing` lists exactly the blank fields in order, `isValid` holds exactly when it is empty, and the message is chosen accordingly |
| Prompt.ValidIff | src/prompt.js:60-68 | data is valid exactly when all three fields are strings with a non-whitespace character |
| Exporters.StripControlsSpec | src/exporters.js:52 | the filter leaves no character of the class and keeps every other character as often as the input has it |
| Exporters.SanitizeText | src/exporters.js:47-53 | "" for input that is not a non-empty string; otherwise no stripped character remains and every other character keeps its count |
| Exporters.SanitizeShortens | src/exporters.js:52 | sanitising never lengthens a string |
| Exporters.SanitizeChar | src/exporters.js:52 | a single character is dropped exactly when it is one of 0x00-0x08, 0x0B, 0x0C, 0x0E-0x1F, 0x7F |
| Exporters.SanitizeAppend | src/exporters.js:52 | sanitising a concatenation sanitises the parts, so order is kept |
| Exporters.SanitizeKeepsIff | src/exporters.js:52 | a string comes back unchanged exactly when it holds no character of the class |
| Exporters.SanitizeIdempotent | src/exporters.js:47-53 | sanitising twice is sanitising once |
| Exporters.UnescapeEscape | src/exporters.js:64-71 | decoding the five entities undoes the escaping |
| Exporters.EscapeAppend | src/exporters.js:71 | escaping is one pass over the characters: it distributes over concatenation |
| Exporters.EscapeClean | src/exporters.js:71 | escaped text holds no raw `<`, `>`, `"` or `'` |
| Exporters.EscapeLength | src/exporters.js:64-71 | the output length is the input length plus 4 per `&`, 3 per `<` and `>`, 5 per `"` and 4 per `'` |
| Exporters.EscapeOfPlain | src/exporters.js:71 | text without any of the five characters is left alone |
| Exporters.EscapeHtml | src/exporters.js:60-72 | "" for input that is not a non-empty string; otherwise decodable back to the input, free of markup characters, and of the stated length |
| Exporters.TruncateText | src/exporters.js:81-86 | "" for a falsy text; the text itself when it fits; otherwise its first `maxLength - |suffix|` characters (none when that is negative) and the suffix |
| Exporters.TruncateFits | src/exporters.js:81-86 | with a suffix that fits, the result never exceeds the limit |
| Exporters.TruncateIdempotent | src/exporters.js:81-86 | with a suffix that fits, truncating again changes nothing |
| Exporters.CreateSlideData | src/exporters.js:93-136 | fails exactly for missing data or a `null` analysis; otherwise a title slide, two content slides, and one overflow slide exactly when the analysis exceeds 1000 characters; the third slide's text and the overflow text `ai[1000..min(len, 2000)]` |
| Exporters.LongAnalysisLosesCharacters | src/exporters.js:119-131 | for an analysis longer than 1000 characters, the text the slides show skips characters 997 to 999 |
| Exporters.CreateSlideDataContinued | src/exporters.js:93-136 | the slide list with the overflow slide resuming where the third slide stops |
| Exporters.ContinuedAnalysisIsPrefix | src/exporters.js:119-131 | with that continuation, the slides show an unbroken prefix of the analysis |
| Exporters.Embed | src/exporters.js:196-201 | an embedded field holds no markup and no control character, and decodes to the sanitised field |
| Exporters.CountInterleave | src/exporters.js:194-204 | each character occurs in the document as often as in the frame and the fields together |
| Exporters.MarkupFromFrame | src/exporters.js:194-204 | fields free of markup leave the frame's markup as the only markup |
| Exporters.CreateDocHtml | src/exporters.js:188-205 | fails exactly for missing data; otherwise every `<`, `>`, `"` and `'` of the document comes from the fixed frame, however the fields read |
| Exporters.DocHtmlEmbedsFields | src/exporters.js:188-205 | the document is the frame with the five escaped and sanitised fields in their slots |
| Exporters.ExportDoc | src/exporters.js:224-234 | the html is `createDocHTML(data)`; the filename is the given one when truthy, else "Case_" + initials (or "export") + ".doc" |
| FileHandler.ExtensionListsDisjoint | src/fileHandler.js:9-14 | no extension belongs to two categories |
| FileHandler.Flatten | src/fileHandler.js:36 | the flattened list holds exactly the extensions of the listed categories |
| FileHandler.FirstCategory | src/fileHandler.js:46-51 | the loop returns a listed category holding the extension, and none only when no listed category holds it |
| FileHandler.GetFileCategory | src/fileHandler.js:44-52 | the category is the one whose list holds the lower-cased extension, and `null` exactly when none does |
| FileHandler.IsExtensionSupported | src/fileHandler.js:34-37 | supported exactly when some category lists the lower-cased extension |
| FileHandler.SupportedIffCategory | src/fileHandler.js:34-52 | an extension is supported exactly when it has a category |
| FileHandler.LookupIgnoresCase | src/fileHandler.js:35-45 | both lookups give the same answer for extensions equal up to ASCII case |
| FileHandler.SplitSpec | src/fileHandler.js:25 | `split` yields one part more than there are separators, no part holds the separator, and the last part is the text after the last separator |
| FileHandler.SplitJoin | src/fileHandler.js:25 | joining the parts with the separator gives the name back |
| FileHandler.GetFileExtension | src/fileHandler.js:21-27 | "" for a falsy or non-string name and for a name without a dot; otherwise the lower-cased text after the last dot; never holds a dot |
| FileHandler.ExtensionOfName | src/fileHandler.js:21-27 | a stem, a dot and a dot-free extension give that extension lower-cased, whatever the stem holds |
| FileHandler.HandleFilePrecheck | src/fileHandler.js:178-188 | "No file provided" for a missing file; "Unsupported file type: ." and the extension for an unsupported one, before any status; otherwise the status "Reading..." and an extension with a category |
| FileHandler.PrecheckAcceptsIff | src/fileHandler.js:178-188 | a named file passes the checks exactly when its extension has a category |
| FileHandler.SlideMatchAtIff | src/fileHandler.js:69 | the pattern matches at a position exactly when some positive number of digits there is followed by `.xml`: backtracking into `\d+` cannot help |
| FileHandler.SlidePathHasDigits | src/fileHandler.js:69-72 | every kept entry name holds digits, so the comparator never reads a field of `null` |
| FileHandler.SlideNumberOf | src/fileHandler.js:69-72 | `ppt/slides/slide<d>.xml` is kept, and its sort key is the value of `d` |
| FileHandler.SlideKeyOf | src/fileHandler.js:71-72 | the key `parseInt` reads from `ppt/slides/slide<d>.xml` is the decimal value of `d`: the prefix holds no digit |
| FileHandler.NumericOrder | src/fileHandler.js:70-74 | a slide numbered with fewer digits (and no leading zero on the longer one) sorts first, so slide 2 comes before slide 10: the order is numeric, not by text |
| FileHandler.SortByKeySpec | src/fileHandler.js:70-74 | sorting by a numeric key orders the names by key, is a permutation, and keeps the input order of names with equal keys |
| FileHandler.SlideEntries | src/fileHandler.js:68-69 | the kept entries are exactly the slide paths, in archive order |
| FileHandler.SlideOrder | src/fileHandler.js:67-74 | the slide list holds exactly the slide paths, ordered by number, with ties in archive order |
| FileHandler.ExtractPdfText | src/fileHandler.js:103-111 | the result is the page texts, each its items joined by spaces, joined by single spaces and trimmed |
| Exchange.DocNameIsImportable | src/fileHandler.js:21-27 | a name ending in `.doc` has extension "doc" and passes the intake's extension checks as a document; reading the file is not modelled |
| Exchange.DefaultDocNameIsImportable | src/exporters.js:227 | a Word export saved under its default name passes the intake's extension checks as a document |

## Left out

- The DOM and browser APIs:
  - `getElementById`, which is modelled as a map from element ids to values;
  - clipboard access and alerts (`copyToClipboard`, `generateMagicPrompt`);
  - `Blob` (`createDocBlob`);
  - downloads.
- The PowerPoint library (`generatePPT`, `exportPPT`). Slide layout values (positions, fonts, colours) are configuration, not logic. A slide is its type and its texts.
- The reading side of `handleFile`:
  - the switch on the extension and its callbacks;
  - the JSZip, pdf.js, mammoth and Tesseract calls;
  - `DOMParser`, which assembles the PPTX slide text.
  The PDF join takes the pages' item strings as its input.
- `parseInt` beyond 2^53: the slide number is the exact decimal value, where JavaScript would round beyond 2^53.
- Full Unicode case rules:
  - `toLowerCase` is ASCII lower-casing.
  - The `i` flag is ASCII folding. This is exact for the patterns here, since their letters are ASCII and, without the `u` flag, no non-ASCII character folds onto an ASCII one.
- FileHandler.GetFileExtension: lower-cases ASCII letters only, because non-ASCII extensions match no category either way.
- Non-string property values (numbers, objects) in the data objects: a field is undefined, `null` or a string.
- The messages of the errors the engine throws are placeholder texts. An example is destructuring `null` in `createSlideData`. That an error is thrown, and when, is modelled.
- Prompt.GeneratePrompt: its closed form for the default template covers only values without `$` and, for the first two, without `{`. This is because a `$` pattern rewrites the value, and a `{hpi}` inside the age value would be replaced in its place. The general case is `GeneratePrompt` itself, with `$` patterns modelled in `Substitution`.
- Exporters.TruncateText: lengths and the cut position count Unicode scalar values, where JavaScript counts UTF-16 code units. For text outside the Basic Multilingual Plane the cut falls at a different place, and the split surrogate pair that JavaScript can produce has no counterpart.
- Exporters.CreateSlideData: the 400, 400 and 1000 character cuts and the `substring(1000, 2000)` overflow count Unicode scalar values, not UTF-16 code units, for the same reason.
- Exporters.CreateSlideDataContinued: states the count, kinds and short-analysis text only. The overflow text is given by `ContinuedAnalysisIsPrefix`.

## Findings

| source | as written | input that shows it | evidently intended | confidence | as-written member | corrected member |
|---|---|---|---|---|---|---|
| src/exporters.js:119,125-131 | the third slide shows `aiResponse` cut to 997 characters plus "...", but the overflow slide starts at character 1000 | any `aiResponse` longer than 1000 characters: characters 997, 998 and 999 appear on no slide | the overflow slide resumes at character 997, where the third slide's text stops | medium, not executed | Exporters.LongAnalysisLosesCharacters | Exporters.ContinuedAnalysisIsPrefix |
