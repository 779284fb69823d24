# gerpar-scraper in Dafny

A model of the sequential core of gerpar-scraper. The scraper collects the plenary protocols of
the German Bundestag for one legislative period and turns them into JSON debates. The model
covers three parts:

- **Link discovery** (`Scraper`). A browser clicks through the carousel of protocol download
  links. Each page's `href`s are collected into a set, and the set is returned sorted by file
  name, largest first. The browser is replaced by a finite sequence of abstract pages. Each page
  carries its anchors' optional `href`s, the state of its "next" control (absent, enabled,
  disabled) and whether the container element is present. `CrawlRun` is the reference
  definition of what the loop does. The method `FindProtocolUrls` runs the loop with the
  source's variables and is proved to agree with it.
- **Sanitizing and file names** (`Parser`, `Strings`). `remove_dtd_css` makes two cuts: first
  it deletes the stylesheet processing instruction, then the document type declaration.
  `re.sub` is modelled as a left-to-right, non-overlapping replace-all (`Strings.SubAll`). Its
  pattern is a sequence of literal characters plus one non-newline wildcard, the unescaped `.`.
  `str.replace` is the same function with an all-literal pattern. Two file names are modelled:
  the one a download is stored under, and the one a debate is stored under.
- **Records** (`Records`, `Parser`, `Numerals`). These are the three dataclasses and their
  `to_dict` projections. `extract_infos_from_xml` turns per-protocol query results into
  debates. `int(str)` is modelled on the base-10 text `int()` accepts: surrounding ASCII whitespace,
  an optional sign, digits (leading zeros allowed) grouped by single underscores, and at most
  4300 digits, the default of `sys.int_max_str_digits`.

`Wrappers` holds `Option` and `Result`.

In three places the code does something other than what it is evidently meant to do. The
model follows the code. Beside each such definition stands an intended one, with the expected
property proved about it; the rest of the model uses the code's definition.

- **Sanitizing is not idempotent.** Deleting one stylesheet instruction can join the text
  around it into a new one, and a single pass leaves that new one in place
  (`Parser.RemoveDtdCssNotIdempotent`). The function's docstring says the included stylesheet
  and document type declarations are removed;
  `Parser.Sanitized` repeats both passes until none is left, and is proved to leave no
  declaration (`Parser.SanitizedClean`), to be idempotent (`Parser.SanitizedIdempotent`), to
  agree with the code where one pass suffices (`Parser.SanitizedAgrees`) and to clean the text
  above (`Parser.SanitizedRemovesJoinedInstruction`).
- **Link discovery with no "next" control.** When the landing page has no "next" control, the
  loop never runs and nothing is harvested, not even the landing page's own links. A carousel
  of one page is then never read, although its links are protocols of the period like those of
  any other page. `Scraper.IntendedCrawlRun` harvests that page once; under it
  every crawl that finds the container collects the landing page's links
  (`Scraper.IntendedCrawlHarvestsLanding`), and it differs from the code only in this case
  (`Scraper.IntendedCrawlDiffers`).
- **One bad protocol fails the whole batch.** If `int` rejects the sitting-number text of one
  protocol, the batch fails, not just that protocol (`Parser.BadSittingNumberFailsBatch`). The
  same holds for a file the XML processor fails on: `ExtractOne` gives `QueryFailed` and the
  batch stops with that error (`Parser.ExtractAllFirstError`). One malformed protocol should
  not cost the debates of all the others, so `Parser.ExtractEach` extracts each file on its own: a failing file leaves every other file with what a batch of that file
  alone yields (`Parser.ExtractEachIsolates`), and where the code's batch succeeds both give the
  same debates (`Parser.ExtractEachAgrees`).
- **`wait_for_selector` is read as the code's guard reads it.** Its result is taken to be the
  next control of the page reached, or nothing when that page has none. Playwright's timeout
  is not modelled.

## Model

| member | source | states |
|---|---|---|
| Scraper.SplitLink | src/scraper.py:13-14 | `link.split("/")[-1]`, defined by its body; properties in `SplitLinkSuffix`, `SplitLinkNoSlash` and `SplitLinkAfterSlash` |
| Scraper.SplitLinkIsSuffix | src/scraper.py:13-14 | the file name is a suffix of the link |
| Scraper.SplitLinkHasNoSlash | src/scraper.py:13-14 | the file name holds no `/` |
| Scraper.SplitLinkAfterBoundary | src/scraper.py:13-14 | a file name shorter than the link is preceded by `/` |
| Scraper.SplitLinkSuffix | src/scraper.py:13-14 | the file name is a suffix of the link and holds no `/`; it is either the whole link or preceded by `/` |
| Scraper.SplitLinkNoSlash | src/scraper.py:13-14 | a link without `/` is its own file name |
| Scraper.SplitLinkAfterSlash | src/scraper.py:13-14 | the file name of `prefix + "/" + name` is `name` when `name` has no `/` |
| Scraper.LoopRun | src/scraper.py:36-65 | the crawl loop from a given page never reports more clicks than there are pages after the first, nor more harvest passes than pages |
| Scraper.CrawlRun | src/scraper.py:29-65 | the same bounds for the whole crawl, including the two exits before the loop (no container, no "next" control) |
| Scraper.LoopReaches | src/scraper.py:36-65 | pages reached through enabled "next" controls with the container present are clicked through in turn; the loop arrives at page `k` with the flag set when that page's control is disabled |
| Scraper.CrawlReachesPage | src/scraper.py:29-65 | the crawl reaches every page `k` that the clicks before it lead to |
| Scraper.DisabledPageEndsCrawl | src/scraper.py:50-65 | a click that lands on a page with a disabled control (container present) leads to one more harvest pass and no further click: `k + 1` passes, `k` clicks |
| Scraper.ContainerLostEndsCrawl | src/scraper.py:37-41 | when the container is missing after click `k`, the loop stops without harvesting that page: `k` passes, `k` clicks |
| Scraper.NextVanishedEndsCrawl | src/scraper.py:58-62 | when the page reached by click `k` has no "next" control, the loop ends after harvesting the previous pages only |
| Scraper.LoopLastPage | src/scraper.py:50-65 | a loop that stops on the last page stops on a page with a disabled control and the container present, after pages with enabled controls, with passes = clicks + 1 |
| Scraper.LastPageMeansDisabled | src/scraper.py:50-65 | a crawl ends with a final harvest only after at least one click, the last one landing on a page with a disabled control |
| Scraper.LoopCounts | src/scraper.py:36-65 | for the loop from any page: harvest passes = clicks + 1 when the last page was harvested, = clicks otherwise |
| Scraper.HarvestsPerClick | src/scraper.py:29-65 | for the whole crawl: harvest passes = clicks + 1 exactly when it ends on the last page, = clicks otherwise |
| Scraper.PageUrlsExactly | src/scraper.py:45-48 | the links collected from one page are exactly its present `href`s |
| Scraper.LoopHarvestsEntry | src/scraper.py:36-65 | a loop entered on a page with the container harvests that page |
| Scraper.HarvestedUrlsGrow | src/scraper.py:45-48 | the links of every harvested page are among those collected |
| Scraper.IntendedCrawlRun | src/scraper.py:29-48 | the intended crawl, which harvests a landing page without a "next" control once; defined by its body; properties in `IntendedCrawlHarvestsLanding` and `IntendedCrawlDiffers` |
| Scraper.IntendedCrawlHarvestsLanding | src/scraper.py:29-48 | under the intended crawl, every crawl that finds the container collects the landing page's links |
| Scraper.IntendedCrawlDiffers | src/scraper.py:29-36 | with the container and no "next" control on the landing page, the code collects nothing and the intended crawl collects that page's links; otherwise the two crawls coincide |
| Scraper.HarvestedUrlsExactly | src/scraper.py:31-48 | the links collected from the first `h` pages are exactly the present `href`s of those pages |
| Scraper.Harvest | src/scraper.py:42-48 | one harvest pass adds all of the page's present `href`s to the set, and nothing else |
| Scraper.FindProtocolUrls | src/scraper.py:17-72 | the period is always `container[1]`; the urls have no duplicates, are ordered by file name from largest, and are exactly the present `href`s of the harvested pages; with no container or no "next" control the urls are empty; the crawl is cut short exactly when `CrawlRun` runs out of pages |
| Strings.SortDescending | src/scraper.py:68 | `sorted(set, key, reverse=True)`: the result holds each element of the set exactly once, and keys do not increase along it |
| Strings.LargestKeyExists | src/scraper.py:68 | a non-empty set has an element whose key is largest |
| Strings.LexTotal | src/scraper.py:68 | any two keys are comparable under `str` ordering |
| Strings.LexTransitive | src/scraper.py:68 | `str` ordering is transitive |
| Strings.LexAntisymmetric | src/scraper.py:68 | two keys each at most the other are equal |
| Strings.SubAll | src/parser.py:58 | `re.sub` with a one-wildcard pattern, defined by its body; properties in `NoMatchUnchanged`, `DeleteAllShortens`, `DeleteAllUnchangedIff`, `DeleteAllCutsMatches`, `SingleMatch`, `SubAllHead`, `SubAllSkipPrefix` and `SubAllAtMatch` |
| Strings.Replace | src/parser.py:76 | `str.replace`, the replace-all with an all-literal pattern, defined by its body; properties in `FirstMatchAfter` and `TwoMatchesAfter` |
| Strings.NoMatchUnchanged | src/parser.py:58 | text without a match passes through a replace-all unchanged |
| Strings.DeleteAllShortens | src/parser.py:58 | deleting every match never lengthens the text, and strictly shortens it when there is a match |
| Strings.DeleteAllUnchangedIff | src/parser.py:58 | deleting every match leaves the text unchanged exactly when there is no match |
| Strings.SingleMatch | src/parser.py:58 | with a single match, the replace-all puts the replacement in its place and keeps the rest in order |
| Strings.DeleteAllCutsMatches | src/parser.py:58 | deleting every match only ever cuts out whole matches |
| Strings.CuttingShortens | src/parser.py:58 | text obtained by cutting out matches is never longer |
| Strings.SubAllHead | src/parser.py:134 | the first character of a replacement result comes from the replacement text when a match starts the input, and from the input otherwise |
| Strings.SubAllSkipPrefix | src/parser.py:134 | a prefix in which no match starts is copied unchanged |
| Strings.SubAllAtMatch | src/parser.py:134 | a match at the front is replaced and scanning resumes right after it |
| Strings.FirstMatchAfter | src/parser.py:134 | a match preceded by text without the pattern's first character is replaced, the text before it copied |
| Strings.TwoMatchesAfter | src/parser.py:134 | two such matches are both replaced |
| Strings.NoMatchFrom | src/parser.py:58 | no match starts where the pattern's first character no longer occurs |
| Strings.DeleteTwoInTurn | src/parser.py:58 | two deletion passes over text with one match of the first pattern followed by one of the second cut out exactly those two spans |
| Strings.DeleteTwoInTurnLaterFirst | src/parser.py:58 | the same when the match of the second pattern comes first |
| Parser.CssPattern | src/parser.py:12-14 | `CSS_RE`, written out as literal characters and the one unescaped `.`; properties in `DeclarationsMatch` and `PatternsOpen` |
| Parser.DtdPattern | src/parser.py:15 | `DTD_RE`, written out in the same way; properties in `DeclarationsMatch` and `PatternsOpen` |
| Parser.RemoveDtdCss | src/parser.py:56-58 | `remove_dtd_css`, defined by its body; properties in `RemoveDtdCssUnchangedIff`, `RemoveDtdCssOnlyCuts`, `RemoveBothDeclarations` and `RemoveDtdCssNotIdempotent` |
| Parser.WildcardMatches | src/parser.py:12-15 | the `.` in the file names matches any character but a newline |
| Parser.DeclarationsMatch | src/parser.py:12-15 | `CSS_RE` matches the stylesheet instruction as the protocols carry it, and `DTD_RE` the document type declaration |
| Parser.RemoveDtdCssUnchangedIff | src/parser.py:56-58 | the text is returned unchanged exactly when it holds neither a stylesheet instruction nor a document type declaration |
| Parser.RemoveDtdCssOnlyCuts | src/parser.py:56-58 | the result comes from cutting stylesheet matches out of the text, then document type matches out of that; it is never longer than the text |
| Parser.RemoveBothDeclarations | src/parser.py:56-58 | a text with one stylesheet instruction followed later by one document type declaration loses exactly those two spans, and every other character stays in order |
| Parser.RemoveBothDeclarationsDoctypeFirst | src/parser.py:56-58 | the same when the document type declaration comes first |
| Parser.PatternsOpen | src/parser.py:12-15 | `CSS_RE` opens with `<?`, `DTD_RE` with `<!` |
| Parser.InstructionShape | src/parser.py:12-14 | the stylesheet instruction holds no `<` after its first character |
| Parser.InstructionRemoved | src/parser.py:56-58 | the stylesheet instruction on its own is sanitized to nothing |
| Parser.InstructionIsNoDoctype | src/parser.py:15 | `DTD_RE` does not match inside the stylesheet instruction |
| Parser.RemoveDtdCssNotIdempotent | src/parser.py:56-58 | one pass over `"<"` + instruction + instruction-without-`<` leaves an instruction, which a second pass removes |
| Parser.RemoveDtdCssShrinks | src/parser.py:56-58 | a pass that changes the text makes it strictly shorter |
| Parser.Sanitized | src/parser.py:56-58 | the intended sanitizer, repeating both passes until nothing changes; defined by its body; properties in `SanitizedClean`, `SanitizedIdempotent`, `SanitizedAgrees` and `SanitizedRemovesJoinedInstruction` |
| Parser.SanitizedClean | src/parser.py:56-58 | the intended sanitizer leaves neither a stylesheet instruction nor a document type declaration |
| Parser.SanitizedIdempotent | src/parser.py:56-58 | the intended sanitizer is idempotent, and `remove_dtd_css` leaves its result unchanged |
| Parser.SanitizedAgrees | src/parser.py:56-58 | where one pass of `remove_dtd_css` leaves no declaration, the intended sanitizer gives the same text |
| Parser.SanitizedRemovesJoinedInstruction | src/parser.py:56-58 | on the text that one pass leaves an instruction in, the intended sanitizer leaves nothing |
| Parser.XmlFileName | src/parser.py:76 | `split_link(url).replace("-data", "")`, defined by its body; properties in `XmlFileNameIsPlain`, `DataSuffixDropped` and `XmlFileNameOfDownloadLink` |
| Parser.XmlFileNameIsPlain | src/parser.py:76 | the name a download is stored under holds no `/` |
| Parser.DataSuffixDropped | src/parser.py:76 | `.replace("-data", "")` turns `stem-data.xml` into `stem.xml` when `stem` has no `-` |
| Parser.XmlFileNameOfDownloadLink | src/parser.py:76 | the link `prefix/stem-data.xml` is stored as `stem.xml` when `stem` has neither `/` nor `-` |
| Parser.JsonFileName | src/parser.py:134 | `xml_file.replace("xml", "json")`, defined by its body; properties in `JsonFileNameHasNoXml` and `JsonFileNameRewritesDirectories` |
| Parser.JsonFileNameHasNoXml | src/parser.py:134 | the debate's file name holds no `xml` |
| Parser.JsonFileNameRewritesDirectories | src/parser.py:134 | every `xml` is replaced, directories included: `d/xml/n.xml` becomes `d/json/n.json` |
| Parser.SpeechXpathBuilder | src/parser.py:84-89 | the query is the fixed prefix, the configured path, then the fixed suffix |
| Parser.SpeechXpathBuilderInjective | src/parser.py:84-89 | different configured paths give different queries |
| Parser.SpeechOf | src/parser.py:114-124 | the speech built from one speech map, defined by its body; properties in `ExtractOneFields` and `SpeechWithoutIdOrParty` |
| Parser.DebateOf | src/parser.py:127-132 | the debate built from one protocol's query results, or the text `int` rejects; defined by its body; properties in `ExtractOneFields` and `ExtractOneFails` |
| Parser.SpeechWithoutIdOrParty | src/parser.py:114-124 | a missing id is rendered as the text `None`; a missing party stays `None`, a present role is kept |
| Parser.ExtractOne | src/parser.py:105-134 | a debate for a file is stored under the file's JSON name and carries the given period; an error names the file |
| Parser.ExtractAll | src/parser.py:105-134 | the loop over the files, in order, stopping at the first error; defined by its body; properties in `ExtractAllOk`, `ExtractAllFirstError` and `BadSittingNumberFailsBatch`, and `ExtractInfosFromXml` is proved equal to it |
| Parser.ExtractOneFields | src/parser.py:108-134 | date and sitting number are `None` exactly when their query found nothing; a sitting number is `int` of its text; one speech per speech map, in order; its id, text, forename and surname are the map's entries rendered by `str` (`"None"` when missing; surname from the misspelled key `surename`); party and role are the map's entries, `None` exactly when the map lacks them |
| Parser.ExtractOneFails | src/parser.py:106-130 | a protocol fails exactly when it cannot be queried or `int` rejects its sitting number |
| Parser.BuildSpeeches | src/parser.py:112-125 | the inner loop yields one speech per speech map, in query order |
| Parser.ExtractInfosFromXml | src/parser.py:92-136 | the loop computes `ExtractAll`; on success there is one pair per file, in file order, each named by the file's JSON name and carrying the period |
| Parser.ExtractAllOk | src/parser.py:105-134 | the batch succeeds exactly when every file does, and then holds each file's pair in file order |
| Parser.ExtractAllFirstError | src/parser.py:105-134 | a failed batch reports the error of the first file that fails, all earlier files having succeeded |
| Parser.ExtractEach | src/parser.py:105-134 | the intended per-file extraction, defined by its body; properties in `ExtractEachIsolates` and `ExtractEachAgrees` |
| Parser.ExtractEachIsolates | src/parser.py:105-134 | a failing file fails the code's batch; the intended per-file extraction fails that file only, and gives every other file what a batch of that file alone gives |
| Parser.ExtractEachAgrees | src/parser.py:105-134 | the code's batch succeeds exactly when every per-file result does, with the same pairs in order; a failed batch's error is the first failing per-file result |
| Parser.BadSittingNumberFailsBatch | src/parser.py:109-130 | a sitting number that `int` rejects fails the whole batch |
| Records.PlenarySpeaker.ToDict | src/parser.py:35 | the speaker's `__dict__` has the keys `forename`, `surname`, `party`, `role` in that order |
| Records.PlenarySpeech.ToDict | src/parser.py:32-37 | the keys are `id`, `speaker`, `text` |
| Records.PlenaryDebate.ToDict | src/parser.py:47-53 | the keys are `date`, `period`, `number`, `speeches`; the speeches list has one entry per speech, in order, each the speech's own projection |
| Records.SpeakerRoundTrip | src/parser.py:18-23 | a speaker is recovered from its dictionary |
| Records.SpeechRoundTrip | src/parser.py:26-37 | a speech is recovered from its dictionary |
| Records.SpeechesRoundTrip | src/parser.py:52 | the speech list is recovered from its projection, in order |
| Records.DebateFields | src/parser.py:47-53 | a debate's dictionary holds its date, period and sitting number under their keys |
| Records.DebateRoundTrip | src/parser.py:40-53 | a debate is recovered from its dictionary: the projection loses nothing |
| Numerals.ParseInt | src/parser.py:130 | `int(text)`, with `None` for `ValueError`; defined by its body; properties in `ParseIntRoundTrip`, `GroupingIgnored`, `AcceptedShape`, `ForeignCharacterRejected`, `NoDigitNotAnInt` and `TooManyDigitsRejected` |
| Numerals.IntToDecimal | src/parser.py:130 | `str(n)`, the decimal text that `int` reads back; property in `ParseIntRoundTrip` |
| Numerals.TrimStart | src/parser.py:130 | `int` ignores leading whitespace (space, tab, line feed, vertical tab, form feed, carriage return): only whitespace is dropped, up to the first other character |
| Numerals.TrimEnd | src/parser.py:130 | `int` ignores trailing whitespace in the same way |
| Numerals.DropUnderscores | src/parser.py:130 | removing the underscores from text of digits and underscores leaves only digits, and digits alone are untouched; that every digit is kept, in order, is `DropUnderscoresAppend` with `DropUnderscore` |
| Numerals.DropUnderscoresAppend | src/parser.py:130 | dropping underscores works piecewise: the digits of `a + b` are those of `a` followed by those of `b` |
| Numerals.DropUnderscore | src/parser.py:130 | a lone underscore leaves nothing; with the two rows above this pins the function to keeping every digit in order |
| Numerals.GroupingIgnored | src/parser.py:130 | a grouping underscore changes nothing: `int(a + "_" + b) == int(a + b)` for well-grouped text |
| Numerals.AcceptedShape | src/parser.py:130 | whatever `int` accepts is, once stripped, non-empty, ends in a digit, is a numeral with single underscores after an optional sign, and holds no other character |
| Numerals.ForeignCharacterRejected | src/parser.py:130 | text whose stripped form holds any other character (or a sign anywhere but first) is refused |
| Numerals.UnpaddedForeignRejected | src/parser.py:130 | the same for text without surrounding whitespace |
| Numerals.LetterRejected | src/parser.py:130 | `"12a"` is refused |
| Numerals.PointRejected | src/parser.py:130 | `"1.5"` is refused |
| Numerals.InnerSpaceRejected | src/parser.py:130 | `"1 2"` is refused |
| Numerals.DecimalValue | src/parser.py:130 | the decimal digits of `n` have the value `n` |
| Numerals.ParseDecimal | src/parser.py:130 | the digit parser reads the decimal digits of `n` back as `n` |
| Numerals.ParseNonNegative | src/parser.py:130 | `int` of the decimal text of `n >= 0` is `n`, for texts within the digit limit |
| Numerals.ParseNegative | src/parser.py:130 | `int` of `-` followed by the decimal text of `m > 0` is `-m`, for texts within the digit limit |
| Numerals.ParseIntRoundTrip | src/parser.py:130 | `int(str(n)) == n` for every integer of at most 4300 digits, which are the ones `str` converts |
| Numerals.TooManyDigitsRejected | src/parser.py:130 | a run of more than 4300 digits is refused by `int`, leading zeros included |
| Numerals.StripUnpadded | src/parser.py:130 | text without leading or trailing whitespace is not stripped |
| Numerals.NoDigitNotAnInt | src/parser.py:130 | text without a digit is not an integer |

## Left out

- The browser is left out: launching it, `goto`, `query_selector`, `click`, `wait_for_selector`, `is_disabled` and closing it. The abstract page sequence stands in for these calls.
- The 0.75-second sleep after each click is a timing workaround and is not modelled.
- `print` output is not modelled.
- The `asyncio.TaskGroup` fan-out in `find_all_links`, `save_xml_files` and `save_debates_as_json` is left out, because the concurrency is what those functions do. So are asynchronous file writing and `json.dumps` encoding.
- The XML parser and the XPath processor are replaced by a `query` function. It maps each file to its date, sitting-number text and speech maps, or to a failure. XPath semantics are left out, and so is how multi-valued results are rendered.
- `SPEECH_XPATH` is imported from `src/config.py`, but its value is not part of this model. `SpeechXpathBuilder` therefore takes the path as a parameter.
- Scraper.FindProtocolUrls: the crawl runs over a finite page sequence. A click past the last modelled page ends in `OutOfPages` and is not followed further. The code itself would keep clicking for as long as the site shows an enabled "next" control.
- Scraper.FindProtocolUrls: a disabled control on the landing page is never checked, because the code calls `is_disabled` only after a click. The model treats that control as clicked; Playwright's `click` would instead wait for it to become enabled, or time out.
- Strings.SortDescending: links whose file names are equal may come out in any order. The source sorts a set, whose iteration order is unspecified.
- Numerals.ParseInt: only ASCII digits and ASCII whitespace are accepted. Python's `int` also accepts other Unicode digits and spaces.
- Numerals.ParseInt: the digit limit is the default 4300. `sys.set_int_max_str_digits` and the `PYTHONINTMAXSTRDIGITS` environment variable can change or remove it; the model does not follow them.
- Numerals.IntToDecimal: the text is defined for numbers beyond the digit limit as well, where `str` raises; the round-trip lemmas are stated within the limit only.
- Strings.SubAll: only patterns of literal characters and the non-newline wildcard are modelled, which are all the two expressions use.
