/** The extraction side: sanitizing the downloaded protocol markup, the speech query, the
    file names, and turning the query results of each protocol into a `PlenaryDebate`. The
    XML parser and the XPath processor are replaced by their results. */
module Parser {
  import opened Wrappers
  import opened Strings
  import opened Numerals
  import opened Records
  import Scraper

  // ---------------------------------------------------------------------------------------
  // Sanitizer
  // ---------------------------------------------------------------------------------------

  // The two declarations are written in short pieces so that the verifier can see their
  // characters; `.` in each file name is the one unescaped regular-expression character.

  const StylesheetOpen: string := "?xml-stylesheet href=\""
  const ProtocolName: string := "dbtplenarprotokoll"
  const StylesheetType: string := "css\" type=\"text/css\""
  const StylesheetCharset: string := " charset=\"UTF-8\"?>"
  const StylesheetBefore: string := "<" + StylesheetOpen + ProtocolName
  const StylesheetAfter: string := StylesheetType + StylesheetCharset
  const DoctypeBefore: string := "<" + "!DOCTYPE dbtplenarprotokoll" + " SYSTEM \"dbtplenarprotokoll"
  const DoctypeAfter: string := "dtd\">"

  /** `CSS_RE`: the stylesheet processing instruction. */
  const CssPattern: Pattern := Literal(StylesheetBefore) + [AnyButNewline] + Literal(StylesheetAfter)

  /** `DTD_RE`: the document type declaration. */
  const DtdPattern: Pattern := Literal(DoctypeBefore) + [AnyButNewline] + Literal(DoctypeAfter)

  /** The stylesheet instruction as the protocols carry it. */
  const StylesheetInstruction: string := StylesheetBefore + "." + StylesheetAfter

  /** The stylesheet instruction without its opening `<`. */
  const StylesheetRest: string := StylesheetOpen + ProtocolName + "." + StylesheetAfter

  /** The document type declaration as the protocols carry it. */
  const DoctypeDeclaration: string := DoctypeBefore + "." + DoctypeAfter

  /** `remove_dtd_css`: every stylesheet instruction is deleted, then every document type
      declaration in what is left. */
  function RemoveDtdCss(xmlText: string): string
  {
    SubAll(DtdPattern, SubAll(CssPattern, xmlText, []), [])
  }

  /** A text of the shape `before`, any non-newline character, `after` matches the pattern
      with `.` between the two literal parts. */
  lemma WildcardMatches(before: string, c: char, after: string)
    requires c != '\n'
    ensures MatchesAt(Literal(before) + [AnyButNewline] + Literal(after), before + [c] + after, 0)
  {
    var p := Literal(before) + [AnyButNewline] + Literal(after);
    var s := before + [c] + after;
    forall k | 0 <= k < |p| ensures ElemMatches(p[k], s[k]) {
      if k < |before| {
        assert p[k] == Lit(before[k]) && s[k] == before[k];
      } else if k == |before| {
        assert p[k] == AnyButNewline && s[k] == c;
      } else {
        var m := k - |before| - 1;
        assert p[k] == Literal(after)[m] == Lit(after[m]);
        assert s[k] == after[m];
      }
    }
  }

  /** The two declarations as the protocols carry them are matched by the two patterns. */
  lemma DeclarationsMatch()
    ensures |StylesheetInstruction| == |CssPattern| && MatchesAt(CssPattern, StylesheetInstruction, 0)
    ensures |DoctypeDeclaration| == |DtdPattern| && MatchesAt(DtdPattern, DoctypeDeclaration, 0)
  {
    WildcardMatches(StylesheetBefore, '.', StylesheetAfter);
    WildcardMatches(DoctypeBefore, '.', DoctypeAfter);
  }

  /** Text holding neither declaration passes through unchanged, and only such text does. */
  lemma RemoveDtdCssUnchangedIff(s: string)
    ensures RemoveDtdCss(s) == s <==> NoMatch(CssPattern, s) && NoMatch(DtdPattern, s)
  {
    var t := SubAll(CssPattern, s, []);
    DeleteAllShortens(CssPattern, s);
    DeleteAllShortens(DtdPattern, t);
    if NoMatch(CssPattern, s) {
      NoMatchUnchanged(CssPattern, s, []);
      DeleteAllUnchangedIff(DtdPattern, s);
    }
  }

  /** The result is the text with some stylesheet instructions cut out, and then some document
      type declarations cut out of what remains; so it is never longer than the text. */
  lemma RemoveDtdCssOnlyCuts(s: string)
    ensures ObtainedByCutting(CssPattern, s, SubAll(CssPattern, s, []))
    ensures ObtainedByCutting(DtdPattern, SubAll(CssPattern, s, []), RemoveDtdCss(s))
    ensures |RemoveDtdCss(s)| <= |s|
  {
    var t := SubAll(CssPattern, s, []);
    DeleteAllCutsMatches(CssPattern, s);
    DeleteAllCutsMatches(DtdPattern, t);
    CuttingShortens(CssPattern, s, t);
    CuttingShortens(DtdPattern, t, RemoveDtdCss(s));
  }

  /** With one stylesheet instruction `x` followed later by one document type declaration `y`,
      and no other match of either pattern (also none formed once `x` is gone), exactly those
      two spans are cut out and every other character is kept in order. */
  lemma RemoveBothDeclarations(a: string, x: string, b: string, y: string, c: string)
    requires |x| == |CssPattern| && MatchesAt(CssPattern, x, 0)
    requires |y| == |DtdPattern| && MatchesAt(DtdPattern, y, 0)
    requires NoMatchExcept(CssPattern, a + x + b + y + c, |a|)
    requires NoMatchExcept(DtdPattern, a + b + y + c, |a + b|)
    ensures RemoveDtdCss(a + x + b + y + c) == a + b + c
  {
    DeleteTwoInTurn(CssPattern, DtdPattern, a, x, b, y, c);
  }

  /** The same when the document type declaration comes first. */
  lemma RemoveBothDeclarationsDoctypeFirst(a: string, y: string, b: string, x: string, c: string)
    requires |x| == |CssPattern| && MatchesAt(CssPattern, x, 0)
    requires |y| == |DtdPattern| && MatchesAt(DtdPattern, y, 0)
    requires NoMatchExcept(CssPattern, a + y + b + x + c, |a + y + b|)
    requires NoMatchExcept(DtdPattern, a + y + b + c, |a|)
    ensures RemoveDtdCss(a + y + b + x + c) == a + b + c
  {
    DeleteTwoInTurnLaterFirst(CssPattern, DtdPattern, a, y, b, x, c);
  }

  /** The two patterns open with `<?` and `<!`. */
  lemma PatternsOpen()
    ensures CssPattern[0] == Lit('<') && CssPattern[1] == Lit('?')
    ensures DtdPattern[0] == Lit('<') && DtdPattern[1] == Lit('!')
  {
    assert StylesheetBefore[0] == '<' && StylesheetBefore[1] == '?';
    assert DoctypeBefore[0] == '<' && DoctypeBefore[1] == '!';
  }

  lemma OpenHasNoAngle() ensures StylesheetOpen[0] == '?' && '<' !in StylesheetOpen {}
  lemma NameHasNoAngle() ensures '<' !in ProtocolName {}
  lemma TypeHasNoAngle() ensures '<' !in StylesheetType {}
  lemma CharsetHasNoAngle() ensures '<' !in StylesheetCharset {}

  /** The stylesheet instruction opens with `<?` and holds no other `<`. */
  lemma InstructionShape()
    ensures StylesheetInstruction == "<" + StylesheetRest
    ensures StylesheetRest[0] == '?'
    ensures '<' !in StylesheetRest
  {
    OpenHasNoAngle();
    NameHasNoAngle();
    TypeHasNoAngle();
    CharsetHasNoAngle();
  }

  /** The instruction on its own is removed completely. */
  lemma InstructionRemoved()
    ensures RemoveDtdCss(StylesheetInstruction) == []
  {
    DeclarationsMatch();
    SubAllAtMatch(CssPattern, StylesheetInstruction, [], []);
    assert StylesheetInstruction + [] == StylesheetInstruction;
  }

  /** The stylesheet instruction matches no document type declaration. */
  lemma InstructionIsNoDoctype()
    ensures SubAll(DtdPattern, StylesheetInstruction, []) == StylesheetInstruction
  {
    var x := StylesheetInstruction;
    PatternsOpen();
    InstructionShape();
    assert x[1..] == StylesheetRest;
    NoMatchFrom(DtdPattern, x, '<', 1);
    assert x[1] == '?';
    assert !ElemMatches(DtdPattern[1], x[0 + 1]);
    NoMatchUnchanged(DtdPattern, x, []);
  }

  /** Sanitizing is not idempotent: cutting out a stylesheet instruction can join the text
      around it into a new one, which only a second pass removes. */
  lemma RemoveDtdCssNotIdempotent()
    ensures var s := "<" + StylesheetInstruction + StylesheetRest;
      RemoveDtdCss(s) == StylesheetInstruction && RemoveDtdCss(RemoveDtdCss(s)) == []
  {
    var x := StylesheetInstruction;
    var rest := StylesheetRest;
    var s := "<" + x + rest;
    DeclarationsMatch();
    PatternsOpen();
    InstructionShape();
    assert s == "<" + "<" + (rest + rest);
    assert s[2..] == rest + rest;
    NoMatchFrom(CssPattern, s, '<', 2);
    assert s[1] == '<';
    assert !ElemMatches(CssPattern[1], s[0 + 1]);
    SingleMatch(CssPattern, "<", x, rest, []);
    assert "<" + [] + rest == x;
    InstructionIsNoDoctype();
    InstructionRemoved();
  }

  /** A pass that changes the text makes it strictly shorter. */
  lemma RemoveDtdCssShrinks(s: string)
    ensures RemoveDtdCss(s) == s || |RemoveDtdCss(s)| < |s|
  {
    var t := SubAll(CssPattern, s, []);
    PatternsOpen();
    RemoveDtdCssUnchangedIff(s);
    DeleteAllShortens(CssPattern, s);
    DeleteAllShortens(DtdPattern, t);
    if NoMatch(CssPattern, s) {
      NoMatchUnchanged(CssPattern, s, []);
    }
  }

  /** The sanitizer as its docstring describes it ("removes the included css and dtd"), for
      comparison with `RemoveDtdCss`: the two passes are repeated until neither declaration is
      left. */
  function Sanitized(xmlText: string): string
    decreases |xmlText|
  {
    var t := RemoveDtdCss(xmlText);
    RemoveDtdCssShrinks(xmlText);
    if t == xmlText then xmlText else Sanitized(t)
  }

  /** What the repeated sanitizer leaves holds neither declaration. */
  lemma {:induction false} SanitizedClean(s: string)
    ensures NoMatch(CssPattern, Sanitized(s)) && NoMatch(DtdPattern, Sanitized(s))
    decreases |s|
  {
    var t := RemoveDtdCss(s);
    RemoveDtdCssShrinks(s);
    if t == s {
      RemoveDtdCssUnchangedIff(s);
    } else {
      SanitizedClean(t);
    }
  }

  /** The repeated sanitizer is idempotent, and one more pass of `remove_dtd_css` leaves its
      result alone. */
  lemma SanitizedIdempotent(s: string)
    ensures RemoveDtdCss(Sanitized(s)) == Sanitized(s)
    ensures Sanitized(Sanitized(s)) == Sanitized(s)
  {
    SanitizedClean(s);
    RemoveDtdCssUnchangedIff(Sanitized(s));
  }

  /** Where one pass already leaves no declaration, the code and the repeated sanitizer agree. */
  lemma SanitizedAgrees(s: string)
    requires NoMatch(CssPattern, RemoveDtdCss(s)) && NoMatch(DtdPattern, RemoveDtdCss(s))
    ensures Sanitized(s) == RemoveDtdCss(s)
  {
    var t := RemoveDtdCss(s);
    RemoveDtdCssUnchangedIff(t);
    if t != s {
      RemoveDtdCssShrinks(s);
      assert Sanitized(s) == Sanitized(t);
    }
  }

  /** On the text that one pass leaves a stylesheet instruction in, the repeated sanitizer
      removes that one as well. */
  lemma SanitizedRemovesJoinedInstruction()
    ensures Sanitized("<" + StylesheetInstruction + StylesheetRest) == []
  {
    var s := "<" + StylesheetInstruction + StylesheetRest;
    RemoveDtdCssNotIdempotent();
    var t := RemoveDtdCss(s);
    RemoveDtdCssShrinks(s);
    DeclarationsMatch();
    assert t != s by {
      assert |t| == |StylesheetInstruction| < |s|;
    }
    assert RemoveDtdCss(t) == [];
    assert t != [];
    assert Sanitized(t) == Sanitized([]);
    assert RemoveDtdCss([]) == [];
  }

  // ---------------------------------------------------------------------------------------
  // File names
  // ---------------------------------------------------------------------------------------

  /** The name under which a downloaded protocol is stored: its link's file name without
      `-data`. */
  function XmlFileName(url: string): string
  {
    Replace(Scraper.SplitLink(url), "-data", "")
  }

  /** The name under which a debate is stored: the XML path with every `xml` replaced by `json`. */
  function JsonFileName(xmlFile: string): string
  {
    Replace(xmlFile, "xml", "json")
  }

  /** Directories are renamed as well: `d/xml/n.xml` is stored as `d/json/n.json`. */
  lemma JsonFileNameRewritesDirectories(d: string, n: string)
    requires 'x' !in d && 'x' !in n
    ensures JsonFileName(d + "/xml/" + n + ".xml") == d + "/json/" + n + ".json"
  {
    var p := Literal("xml");
    assert p[0] == Lit('x') && MatchesAt(p, "xml", 0);
    var a := d + "/";
    var b := "/" + n + ".";
    assert d + "/xml/" + n + ".xml" == a + "xml" + b + "xml";
    TwoMatchesAfter(p, a, "xml", b, "json", 'x');
    assert a + "json" + b + "json" == d + "/json/" + n + ".json";
  }

  /** When no `xml` starts at the front, none starts at the front of the result either: the
      kept first character is followed by what the rest turns into. */
  lemma NoXmlAfterKeptChar(s: string)
    requires |s| > 0 && !MatchesAt(Literal("xml"), s, 0)
    ensures !MatchesAt(Literal("xml"), [s[0]] + SubAll(Literal("xml"), s[1..], "json"), 0)
  {
    var p := Literal("xml");
    assert p[0] == Lit('x') && p[1] == Lit('m') && p[2] == Lit('l');
    var t := SubAll(p, s[1..], "json");
    var r := [s[0]] + t;
    if s[0] != 'x' {
      assert !ElemMatches(p[0], r[0 + 0]);
    } else if |s| == 1 {
      assert |r| == 1;
    } else if s[1] != 'm' {
      SubAllHead(p, s[1..], "json");
      assert !ElemMatches(p[1], r[0 + 1]);
    } else if |s| == 2 {
      assert s[1..][1..] == [];
      assert !MatchesAt(p, s[1..], 0);
      assert |r| == 2;
    } else {
      assert s[2] != 'l';
      assert !MatchesAt(p, s[1..], 0);
      assert s[1..][1..] == s[2..];
      var u := SubAll(p, s[2..], "json");
      assert t == [s[1]] + u;
      SubAllHead(p, s[2..], "json");
      assert !ElemMatches(p[2], r[0 + 2]);
    }
  }

  lemma {:induction false} JsonNamesHaveNoXmlFrom(s: string)
    ensures NoMatch(Literal("xml"), SubAll(Literal("xml"), s, "json"))
    decreases |s|
  {
    var p := Literal("xml");
    assert p[0] == Lit('x') && p[1] == Lit('m') && p[2] == Lit('l');
    var r := SubAll(p, s, "json");
    if |s| == 0 {
      assert r == [];
      NoMatchFrom(p, r, 'x', 0);
    } else if MatchesAt(p, s, 0) {
      var t := SubAll(p, s[|p|..], "json");
      JsonNamesHaveNoXmlFrom(s[|p|..]);
      assert r == "json" + t;
      forall i: nat ensures !MatchesAt(p, r, i) {
        if i < 4 {
          assert r[i] == "json"[i];
          assert !ElemMatches(p[0], r[i + 0]);
        } else {
          MatchesAtShift(p, "json", t, i - 4);
        }
      }
    } else {
      var t := SubAll(p, s[1..], "json");
      JsonNamesHaveNoXmlFrom(s[1..]);
      assert r == [s[0]] + t;
      forall i: nat ensures !MatchesAt(p, r, i) {
        if i == 0 {
          NoXmlAfterKeptChar(s);
        } else {
          MatchesAtShift(p, [s[0]], t, i - 1);
        }
      }
    }
  }

  /** A JSON file name holds no `xml`: every occurrence has been replaced. */
  lemma JsonFileNameHasNoXml(xmlFile: string)
    ensures NoMatch(Literal("xml"), JsonFileName(xmlFile))
  {
    JsonNamesHaveNoXmlFrom(xmlFile);
  }

  lemma {:induction false} DeleteAllKeepsOut(p: Pattern, s: string, c: char)
    requires |p| > 0
    requires forall k :: 0 <= k < |s| ==> s[k] != c
    ensures forall k :: 0 <= k < |SubAll(p, s, [])| ==> SubAll(p, s, [])[k] != c
    decreases |s|
  {
    if |s| > 0 {
      if MatchesAt(p, s, 0) {
        DeleteAllKeepsOut(p, s[|p|..], c);
      } else {
        DeleteAllKeepsOut(p, s[1..], c);
      }
    }
  }

  /** A stored protocol name is a plain file name: it holds no `/`. */
  lemma XmlFileNameIsPlain(url: string)
    ensures Scraper.NoSlash(XmlFileName(url))
  {
    Scraper.SplitLinkSuffix(url);
    DeleteAllKeepsOut(Literal("-data"), Scraper.SplitLink(url), '/');
  }

  lemma DataSuffixDropped(stem: string)
    requires '-' !in stem
    ensures Replace(stem + "-data.xml", "-data", "") == stem + ".xml"
  {
    var p := Literal("-data");
    assert p[0] == Lit('-') && MatchesAt(p, "-data", 0);
    assert stem + "-data.xml" == stem + "-data" + ".xml";
    FirstMatchAfter(p, stem, "-data", ".xml", [], '-');
    assert '-' !in ".xml";
    NoMatchFrom(p, ".xml", '-', 0);
    NoMatchUnchanged(p, ".xml", []);
    assert stem + [] + ".xml" == stem + ".xml";
  }

  /** A download link `prefix/stem-data.xml` is stored as `stem.xml`. */
  lemma XmlFileNameOfDownloadLink(prefix: string, stem: string)
    requires '/' !in stem && '-' !in stem
    ensures XmlFileName(prefix + "/" + stem + "-data.xml") == stem + ".xml"
  {
    var name := stem + "-data.xml";
    assert '/' !in "-data.xml";
    assert '/' !in name;
    assert Scraper.NoSlash(name);
    assert prefix + "/" + stem + "-data.xml" == prefix + "/" + name;
    Scraper.SplitLinkAfterSlash(prefix, name);
    DataSuffixDropped(stem);
  }

  // ---------------------------------------------------------------------------------------
  // The speech query
  // ---------------------------------------------------------------------------------------

  const SpeechXpathPrefix: string :=
    "for $speech in //rede return map {'id': $speech/@id/data(.), 'speech': $speech"

  const SpeechXpathSuffix: string :=
    " => string-join('\n'), 'role': $speech//name//rolle_kurz/text() => head(), "
    + "'forename': $speech//name/vorname/text() => distinct-values(), "
    + "'surename': $speech//name/nachname/text() => distinct-values(), "
    + "'party': $speech//name/fraktion/text() => distinct-values()}"

  /** `speech_xpath_builder`: the configured path to the spoken text, placed into the query
      that yields one map per speech. */
  function SpeechXpathBuilder(speechXpath: string): (q: string)
    ensures |q| == |SpeechXpathPrefix| + |speechXpath| + |SpeechXpathSuffix|
    ensures q[..|SpeechXpathPrefix|] == SpeechXpathPrefix
    ensures q[|SpeechXpathPrefix|..|q| - |SpeechXpathSuffix|] == speechXpath
    ensures q[|q| - |SpeechXpathSuffix|..] == SpeechXpathSuffix
  {
    SpeechXpathPrefix + speechXpath + SpeechXpathSuffix
  }

  /** Different configured paths give different queries. */
  lemma SpeechXpathBuilderInjective(a: string, b: string)
    requires SpeechXpathBuilder(a) == SpeechXpathBuilder(b)
    ensures a == b
  {
    var qa := SpeechXpathBuilder(a);
    assert |a| == |b|;
    assert a == qa[|SpeechXpathPrefix|..|qa| - |SpeechXpathSuffix|];
  }

  // ---------------------------------------------------------------------------------------
  // Extraction
  // ---------------------------------------------------------------------------------------

  /** One map of the speech query, each value rendered as text; a key that is missing stands
      for a `get` that returned `None`. */
  type SpeechRow = map<string, string>

  /** What the XPath processor yields for one protocol: the date and the sitting number (each
      `None` when the query finds nothing) and the speech maps in document order. */
  datatype DocQuery = DocQuery(date: Option<string>, number: Option<string>, speeches: seq<SpeechRow>)

  /** Why extraction stops: the XML processor failed on a file, or `int` rejected its
      sitting number. */
  datatype ExtractError = QueryFailed(file: string) | NotAnInteger(file: string, text: string)

  function Get(row: SpeechRow, key: string): Option<string>
  {
    if key in row then Some(row[key]) else None
  }

  /** `x.__str__()`, which yields `"None"` for a missing value. */
  function Rendered(o: Option<string>): string
  {
    match o
    case None => "None"
    case Some(s) => s
  }

  /** The speech built from one map of the speech query. */
  function SpeechOf(row: SpeechRow): PlenarySpeech
  {
    PlenarySpeech(
      Rendered(Get(row, "id")),
      PlenarySpeaker(Rendered(Get(row, "forename")), Rendered(Get(row, "surename")),
                     Get(row, "party"), Get(row, "role")),
      Rendered(Get(row, "speech")))
  }

  function SpeechesOf(rows: seq<SpeechRow>): seq<PlenarySpeech>
  {
    seq(|rows|, k requires 0 <= k < |rows| => SpeechOf(rows[k]))
  }

  /** The debate built from one protocol's query results, or the text `int` rejected. */
  function DebateOf(q: DocQuery, period: string): Result<PlenaryDebate, string>
  {
    match q.number
    case None => Ok(PlenaryDebate(q.date, period, None, SpeechesOf(q.speeches)))
    case Some(text) =>
      match ParseInt(text)
      case None => Err(text)
      case Some(n) => Ok(PlenaryDebate(q.date, period, Some(n), SpeechesOf(q.speeches)))
  }

  /** One iteration of the loop over the files: `query` stands for parsing the file and
      evaluating the three queries on it. */
  function ExtractOne(xmlFile: string, period: string, query: string -> Option<DocQuery>)
    : (r: Result<(string, PlenaryDebate), ExtractError>)
    ensures r.Ok? ==> r.value.0 == JsonFileName(xmlFile) && r.value.1.period == period
    ensures r.Err? ==> r.error.file == xmlFile
  {
    match query(xmlFile)
    case None => Err(QueryFailed(xmlFile))
    case Some(q) =>
      match DebateOf(q, period)
      case Err(text) => Err(NotAnInteger(xmlFile, text))
      case Ok(d) => Ok((JsonFileName(xmlFile), d))
  }

  /** The files in order; the first failure aborts the whole batch. */
  function ExtractAll(xmlFiles: seq<string>, period: string, query: string -> Option<DocQuery>)
    : Result<seq<(string, PlenaryDebate)>, ExtractError>
    decreases |xmlFiles|
  {
    if |xmlFiles| == 0 then Ok([])
    else
      match ExtractOne(xmlFiles[0], period, query)
      case Err(e) => Err(e)
      case Ok(pair) => Prepend([pair], ExtractAll(xmlFiles[1..], period, query))
  }

  /** `ds` put in front of the pairs a successful batch continues with; an error stays. */
  function Prepend(ds: seq<(string, PlenaryDebate)>, r: Result<seq<(string, PlenaryDebate)>, ExtractError>)
    : Result<seq<(string, PlenaryDebate)>, ExtractError>
  {
    match r
    case Err(e) => Err(e)
    case Ok(rest) => Ok(ds + rest)
  }

  lemma PrependNothing(r: Result<seq<(string, PlenaryDebate)>, ExtractError>)
    ensures Prepend([], r) == r
  {
    if r.Ok? {
      assert [] + r.value == r.value;
    }
  }

  lemma PrependStep(ds: seq<(string, PlenaryDebate)>, d: (string, PlenaryDebate),
                    r: Result<seq<(string, PlenaryDebate)>, ExtractError>)
    ensures Prepend(ds, Prepend([d], r)) == Prepend(ds + [d], r)
  {
    if r.Ok? {
      assert ds + ([d] + r.value) == ds + [d] + r.value;
    }
  }

  /** The inner loop: one speech per speech map, in query order. */
  method BuildSpeeches(speeches: seq<SpeechRow>) returns (speechesList: seq<PlenarySpeech>)
    ensures speechesList == SpeechesOf(speeches)
  {
    speechesList := [];
    var j := 0;
    while j < |speeches|
      invariant 0 <= j <= |speeches|
      invariant |speechesList| == j
      invariant forall k :: 0 <= k < j ==> speechesList[k] == SpeechOf(speeches[k])
    {
      speechesList := speechesList + [SpeechOf(speeches[j])];
      j := j + 1;
    }
  }

  /** `extract_infos_from_xml`. */
  method ExtractInfosFromXml(xmlFiles: seq<string>, period: string, query: string -> Option<DocQuery>)
    returns (r: Result<seq<(string, PlenaryDebate)>, ExtractError>)
    ensures r == ExtractAll(xmlFiles, period, query)
    ensures r.Ok? ==> |r.value| == |xmlFiles|
    ensures r.Ok? ==> forall k :: 0 <= k < |xmlFiles| ==>
      r.value[k].0 == JsonFileName(xmlFiles[k]) && r.value[k].1.period == period
  {
    var debates: seq<(string, PlenaryDebate)> := [];
    var i := 0;
    assert xmlFiles[0..] == xmlFiles;
    PrependNothing(ExtractAll(xmlFiles, period, query));
    while i < |xmlFiles|
      invariant 0 <= i <= |xmlFiles|
      invariant ExtractAll(xmlFiles, period, query) == Prepend(debates, ExtractAll(xmlFiles[i..], period, query))
    {
      var xmlFile := xmlFiles[i];
      assert xmlFiles[i..][0] == xmlFile && xmlFiles[i..][1..] == xmlFiles[i + 1..];
      var doc := query(xmlFile);
      if doc.None? {
        return Err(QueryFailed(xmlFile));
      }
      var speechesList := BuildSpeeches(doc.value.speeches);
      var number: Option<int> := None;
      if doc.value.number.Some? {
        var parsed := ParseInt(doc.value.number.value);
        if parsed.None? {
          return Err(NotAnInteger(xmlFile, doc.value.number.value));
        }
        number := Some(parsed.value);
      }
      var debate := PlenaryDebate(doc.value.date, period, number, speechesList);
      assert ExtractOne(xmlFile, period, query) == Ok((JsonFileName(xmlFile), debate));
      PrependStep(debates, (JsonFileName(xmlFile), debate), ExtractAll(xmlFiles[i + 1..], period, query));
      debates := debates + [(JsonFileName(xmlFile), debate)];
      i := i + 1;
    }
    assert xmlFiles[i..] == [];
    assert debates + [] == debates;
    r := Ok(debates);
    ExtractAllOk(xmlFiles, period, query);
  }

  /** The batch succeeds exactly when every file does, and then holds one pair per file, in
      file order. */
  lemma {:induction false} ExtractAllOk(xmlFiles: seq<string>, period: string, query: string -> Option<DocQuery>)
    ensures ExtractAll(xmlFiles, period, query).Ok? <==>
      forall k :: 0 <= k < |xmlFiles| ==> ExtractOne(xmlFiles[k], period, query).Ok?
    ensures ExtractAll(xmlFiles, period, query).Ok? ==>
      var ds := ExtractAll(xmlFiles, period, query).value;
      |ds| == |xmlFiles| && forall k :: 0 <= k < |xmlFiles| ==> ds[k] == ExtractOne(xmlFiles[k], period, query).value
    decreases |xmlFiles|
  {
    if |xmlFiles| > 0 {
      var tail := xmlFiles[1..];
      ExtractAllOk(tail, period, query);
      assert forall k :: 0 < k < |xmlFiles| ==> xmlFiles[k] == tail[k - 1];
    }
  }

  /** A failed batch reports the first file that failed, with that file's error. */
  lemma {:induction false} ExtractAllFirstError(xmlFiles: seq<string>, period: string, query: string -> Option<DocQuery>)
    requires ExtractAll(xmlFiles, period, query).Err?
    ensures exists k :: (0 <= k < |xmlFiles|
      && (forall j :: 0 <= j < k ==> ExtractOne(xmlFiles[j], period, query).Ok?)
      && ExtractOne(xmlFiles[k], period, query) == Err(ExtractAll(xmlFiles, period, query).error))
    decreases |xmlFiles|
  {
    if ExtractOne(xmlFiles[0], period, query).Ok? {
      var tail := xmlFiles[1..];
      ExtractAllFirstError(tail, period, query);
      var k :| 0 <= k < |tail|
        && (forall j :: 0 <= j < k ==> ExtractOne(tail[j], period, query).Ok?)
        && ExtractOne(tail[k], period, query) == Err(ExtractAll(tail, period, query).error);
      assert forall j :: 0 < j <= k ==> xmlFiles[j] == tail[j - 1];
      assert ExtractOne(xmlFiles[k + 1], period, query) == Err(ExtractAll(xmlFiles, period, query).error);
    } else {
      assert ExtractOne(xmlFiles[0], period, query) == Err(ExtractAll(xmlFiles, period, query).error);
    }
  }

  /** One protocol whose sitting number `int` rejects fails the whole batch. */
  lemma BadSittingNumberFailsBatch(xmlFiles: seq<string>, period: string, query: string -> Option<DocQuery>, k: nat)
    requires k < |xmlFiles| && query(xmlFiles[k]).Some?
    requires query(xmlFiles[k]).value.number.Some?
    requires ParseInt(query(xmlFiles[k]).value.number.value) == None
    ensures ExtractAll(xmlFiles, period, query).Err?
  {
    ExtractAllOk(xmlFiles, period, query);
  }

  /** What one protocol yields: the debate carries the given period, the date and the sitting
      number are `None` exactly when their query found nothing, a sitting number is the value
      of its text, there is one speech per speech map in query order, each speech's id, text,
      forename and surname are the rendered map entries, and the speaker's party and role are
      the map's entries, `None` exactly when the map lacks them. */
  lemma ExtractOneFields(xmlFile: string, period: string, query: string -> Option<DocQuery>)
    requires query(xmlFile).Some? && ExtractOne(xmlFile, period, query).Ok?
    ensures var q := query(xmlFile).value;
      var (name, d) := ExtractOne(xmlFile, period, query).value;
      && name == JsonFileName(xmlFile)
      && d.period == period
      && (d.date == None <==> q.date == None) && (q.date.Some? ==> d.date == q.date)
      && (d.number == None <==> q.number == None)
      && (q.number.Some? ==> d.number == ParseInt(q.number.value))
      && |d.speeches| == |q.speeches|
      && forall k :: 0 <= k < |q.speeches| ==>
        && d.speeches[k].speechId == Rendered(Get(q.speeches[k], "id"))
        && d.speeches[k].text == Rendered(Get(q.speeches[k], "speech"))
        && d.speeches[k].speaker.forename == Rendered(Get(q.speeches[k], "forename"))
        && d.speeches[k].speaker.surname == Rendered(Get(q.speeches[k], "surename"))
        && d.speeches[k].speaker.party == Get(q.speeches[k], "party")
        && d.speeches[k].speaker.role == Get(q.speeches[k], "role")
        && (d.speeches[k].speaker.party == None <==> "party" !in q.speeches[k])
        && (d.speeches[k].speaker.role == None <==> "role" !in q.speeches[k])
  {
  }

  /** A speech map without an id or a party: the id is rendered as `"None"`, the party stays
      `None`. */
  lemma SpeechWithoutIdOrParty()
    ensures SpeechOf(map["forename" := "Anna", "surename" := "Muster", "role" := "Bundesministerin",
                         "speech" := "Frau Präsidentin!"])
      == PlenarySpeech("None", PlenarySpeaker("Anna", "Muster", None, Some("Bundesministerin")),
                       "Frau Präsidentin!")
  {
  }

  /** A protocol fails exactly when the processor fails on it or `int` rejects its sitting
      number. */
  lemma ExtractOneFails(xmlFile: string, period: string, query: string -> Option<DocQuery>)
    ensures ExtractOne(xmlFile, period, query).Err? <==>
      query(xmlFile).None?
      || (query(xmlFile).value.number.Some? && ParseInt(query(xmlFile).value.number.value).None?)
  {
    match query(xmlFile)
    case None =>
    case Some(q) =>
      match q.number
      case None =>
      case Some(text) =>
        assert DebateOf(q, period).Err? <==> ParseInt(text).None?;
  }

  /** Per-document extraction, for comparison with `ExtractAll`: each file gets its own result,
      so that one malformed protocol does not cost the debates of all the others. */
  function ExtractEach(xmlFiles: seq<string>, period: string, query: string -> Option<DocQuery>)
    : seq<Result<(string, PlenaryDebate), ExtractError>>
  {
    seq(|xmlFiles|, k requires 0 <= k < |xmlFiles| => ExtractOne(xmlFiles[k], period, query))
  }

  /** Under per-document extraction, a file that fails makes the code's batch fail, while every
      other file still yields exactly what a batch of that file alone yields. */
  lemma ExtractEachIsolates(xmlFiles: seq<string>, period: string, query: string -> Option<DocQuery>, bad: nat)
    requires bad < |xmlFiles| && ExtractOne(xmlFiles[bad], period, query).Err?
    ensures ExtractAll(xmlFiles, period, query).Err?
    ensures var rs := ExtractEach(xmlFiles, period, query);
      && |rs| == |xmlFiles| && rs[bad].Err?
      && forall k :: 0 <= k < |xmlFiles| && ExtractAll([xmlFiles[k]], period, query).Ok? ==>
        rs[k].Ok? && [rs[k].value] == ExtractAll([xmlFiles[k]], period, query).value
  {
    ExtractAllOk(xmlFiles, period, query);
    forall k | 0 <= k < |xmlFiles| && ExtractAll([xmlFiles[k]], period, query).Ok?
      ensures ExtractEach(xmlFiles, period, query)[k].Ok?
      ensures [ExtractEach(xmlFiles, period, query)[k].value] == ExtractAll([xmlFiles[k]], period, query).value
    {
      ExtractAllOk([xmlFiles[k]], period, query);
    }
  }

  /** Where the code's batch succeeds, per-document extraction gives the same pairs, each one
      successful; where it fails, its error is the first failing per-document result. */
  lemma ExtractEachAgrees(xmlFiles: seq<string>, period: string, query: string -> Option<DocQuery>)
    ensures var rs := ExtractEach(xmlFiles, period, query);
      var all := ExtractAll(xmlFiles, period, query);
      && (all.Ok? <==> forall k :: 0 <= k < |rs| ==> rs[k].Ok?)
      && (all.Ok? ==> |all.value| == |rs| && forall k :: 0 <= k < |rs| ==> rs[k] == Ok(all.value[k]))
      && (all.Err? ==> exists k :: (0 <= k < |rs| && (forall j :: 0 <= j < k ==> rs[j].Ok?)
                                   && rs[k] == Err(all.error)))
  {
    var rs := ExtractEach(xmlFiles, period, query);
    assert forall k :: 0 <= k < |rs| ==> rs[k] == ExtractOne(xmlFiles[k], period, query);
    ExtractAllOk(xmlFiles, period, query);
    if ExtractAll(xmlFiles, period, query).Err? {
      ExtractAllFirstError(xmlFiles, period, query);
      var k :| 0 <= k < |xmlFiles|
        && (forall j :: 0 <= j < k ==> ExtractOne(xmlFiles[j], period, query).Ok?)
        && ExtractOne(xmlFiles[k], period, query) == Err(ExtractAll(xmlFiles, period, query).error);
      assert rs[k] == Err(ExtractAll(xmlFiles, period, query).error);
    }
  }
}
