/** The export helpers (src/exporters.js): the control-character filter
    `sanitizeText`, the entity escaper `escapeHtml`, `truncateText`, the
    slide list of `createSlideData`, the document body of `createDocHTML`
    and the file name `exportDOC` picks. */
module Exporters {
  import opened JsValues
  import opened Strings

  // ---------------------------------------------------------------------
  // sanitizeText
  // ---------------------------------------------------------------------

  /** The class `[\x00-\x08\x0B\x0C\x0E-\x1F\x7F]`: the C0 controls other
      than tab, line feed and carriage return, and DEL. */
  predicate IsStripped(c: char) {
    c <= '\U{0008}' || c == '\U{000B}' || c == '\U{000C}' || '\U{000E}' <= c <= '\U{001F}' || c == '\U{007F}'
  }

  predicate NoStripped(s: string) {
    forall i :: 0 <= i < |s| ==> !IsStripped(s[i])
  }

  /** The global `replace` of that class by the empty string. */
  function StripControls(s: string): string
  {
    if |s| == 0 then ""
    else (if IsStripped(s[0]) then "" else [s[0]]) + StripControls(s[1..])
  }

  /** What is left is free of the class and keeps every other character
      as often as `s` has it. */
  lemma {:induction false} StripControlsSpec(s: string)
    ensures NoStripped(StripControls(s))
    ensures forall c :: !IsStripped(c) ==> Count(c, StripControls(s)) == Count(c, s)
    decreases |s|
  {
    if |s| > 0 {
      StripControlsSpec(s[1..]);
      var rest := StripControls(s[1..]);
      assert s == [s[0]] + s[1..];
      if IsStripped(s[0]) {
        assert StripControls(s) == rest;
      } else {
        assert StripControls(s) == [s[0]] + rest;
        assert StripControls(s)[1..] == rest;
      }
    }
  }

  lemma {:induction false} StripControlsAppend(a: string, b: string)
    ensures StripControls(a + b) == StripControls(a) + StripControls(b)
    decreases |a|
  {
    if |a| == 0 {
      assert a + b == b;
    } else {
      assert (a + b)[1..] == a[1..] + b;
      StripControlsAppend(a[1..], b);
    }
  }

  lemma {:induction false} StripControlsOfClean(s: string)
    requires NoStripped(s)
    ensures StripControls(s) == s
    decreases |s|
  {
    if |s| > 0 {
      StripControlsOfClean(s[1..]);
      assert s == [s[0]] + s[1..];
    }
  }

  /** `sanitizeText(text)`. */
  function SanitizeText(text: Text): (r: string)
    ensures !IsNonEmptyString(text) ==> r == ""
    ensures NoStripped(r)
    ensures text.TStr? ==> forall c :: !IsStripped(c) ==> Count(c, r) == Count(c, text.s)
  {
    if !IsNonEmptyString(text) then ""
    else
      StripControlsSpec(text.s);
      StripControls(text.s)
  }

  lemma {:induction false} StripControlsShortens(s: string)
    ensures |StripControls(s)| <= |s|
    decreases |s|
  {
    if |s| > 0 {
      StripControlsShortens(s[1..]);
    }
  }

  /** Sanitizing never lengthens a string. */
  lemma SanitizeShortens(s: string)
    ensures |SanitizeText(TStr(s))| <= |s|
  {
    StripControlsShortens(s);
  }

  /** A single character is dropped exactly when it is in the class; with
      `SanitizeAppend` this fixes the result on every string, order
      included. */
  lemma SanitizeChar(c: char)
    ensures SanitizeText(TStr([c])) == if IsStripped(c) then "" else [c]
  {
    assert [c][1..] == [];
    assert StripControls([c]) == (if IsStripped(c) then "" else [c]) + StripControls([]);
  }

  /** A string passes through unchanged exactly when it holds no character
      of the class. */
  lemma SanitizeKeepsIff(s: string)
    ensures SanitizeText(TStr(s)) == s <==> NoStripped(s)
  {
    if NoStripped(s) && s != [] {
      StripControlsOfClean(s);
    }
  }

  /** Sanitizing twice is sanitizing once. */
  lemma SanitizeIdempotent(t: Text)
    ensures SanitizeText(TStr(SanitizeText(t))) == SanitizeText(t)
  {
    SanitizeKeepsIff(SanitizeText(t));
  }

  /** Sanitizing a concatenation sanitizes the parts. */
  lemma SanitizeAppend(a: string, b: string)
    ensures SanitizeText(TStr(a + b)) == SanitizeText(TStr(a)) + SanitizeText(TStr(b))
  {
    StripControlsAppend(a, b);
    if a == [] {
      assert a + b == b;
    }
    if b == [] {
      assert a + b == a;
    }
  }

  // ---------------------------------------------------------------------
  // escapeHtml
  // ---------------------------------------------------------------------

  /** The five characters `escapeHtml` replaces. */
  predicate IsSpecial(c: char) {
    c == '&' || c == '<' || c == '>' || c == '"' || c == '\''
  }

  /** `escapeMap[char]` for the five special characters; every other
      character stands for itself. */
  function EntityOf(c: char): string
  {
    match c
    case '&' => "&amp;"
    case '<' => "&lt;"
    case '>' => "&gt;"
    case '"' => "&quot;"
    case '\'' => "&#39;"
    case _ => [c]
  }

  /** The global `replace` of `[&<>"']` through the entity map. */
  function Escape(s: string): string
  {
    if |s| == 0 then "" else EntityOf(s[0]) + Escape(s[1..])
  }

  /** Decoding of the five entities; an ampersand that starts none of them
      stands for itself. */
  function Unescape(s: string): string
    decreases |s|
  {
    if |s| == 0 then ""
    else if s[0] != '&' then [s[0]] + Unescape(s[1..])
    else if |s| >= 5 && s[1] == 'a' && s[2] == 'm' && s[3] == 'p' && s[4] == ';' then "&" + Unescape(s[5..])
    else if |s| >= 4 && s[1] == 'l' && s[2] == 't' && s[3] == ';' then "<" + Unescape(s[4..])
    else if |s| >= 4 && s[1] == 'g' && s[2] == 't' && s[3] == ';' then ">" + Unescape(s[4..])
    else if |s| >= 6 && s[1] == 'q' && s[2] == 'u' && s[3] == 'o' && s[4] == 't' && s[5] == ';' then "\"" + Unescape(s[6..])
    else if |s| >= 5 && s[1] == '#' && s[2] == '3' && s[3] == '9' && s[4] == ';' then "'" + Unescape(s[5..])
    else "&" + Unescape(s[1..])
  }

  lemma UnescapeEntity(c: char, rest: string)
    ensures Unescape(EntityOf(c) + rest) == [c] + Unescape(rest)
  {
    var s := EntityOf(c) + rest;
    assert s[|EntityOf(c)|..] == rest;
  }

  /** Decoding undoes escaping. */
  lemma {:induction false} UnescapeEscape(s: string)
    ensures Unescape(Escape(s)) == s
    decreases |s|
  {
    if |s| > 0 {
      UnescapeEntity(s[0], Escape(s[1..]));
      UnescapeEscape(s[1..]);
      assert s == [s[0]] + s[1..];
    }
  }

  lemma {:induction false} EscapeAppend(a: string, b: string)
    ensures Escape(a + b) == Escape(a) + Escape(b)
    decreases |a|
  {
    if |a| == 0 {
      assert a + b == b;
    } else {
      assert (a + b)[1..] == a[1..] + b;
      EscapeAppend(a[1..], b);
    }
  }

  /** Markup characters that could open a tag or close an attribute. */
  predicate IsMarkup(c: char) {
    c == '<' || c == '>' || c == '"' || c == '\''
  }

  predicate NoMarkup(s: string) {
    forall m :: IsMarkup(m) ==> m !in s
  }

  lemma EntityClean(c: char)
    ensures NoMarkup(EntityOf(c))
    ensures !IsStripped(c) ==> NoStripped(EntityOf(c))
  {
  }

  /** Escaped text holds no markup character and no stripped control
      character that the input did not have. */
  lemma {:induction false} EscapeClean(s: string)
    ensures NoMarkup(Escape(s))
    ensures NoStripped(s) ==> NoStripped(Escape(s))
    decreases |s|
  {
    if |s| > 0 {
      EscapeClean(s[1..]);
      EntityClean(s[0]);
      var e, rest := EntityOf(s[0]), Escape(s[1..]);
      assert Escape(s) == e + rest;
      assert forall m :: m in e + rest <==> m in e || m in rest;
      if NoStripped(s) {
        assert NoStripped(s[1..]);
      }
    }
  }

  /** Each `&` grows by four characters, `<` and `>` by three, `"` by
      five and `'` by four. */
  lemma {:induction false} EscapeLength(s: string)
    ensures |Escape(s)| == |s| + 4 * Count('&', s) + 3 * Count('<', s) + 3 * Count('>', s)
                                + 5 * Count('"', s) + 4 * Count('\'', s)
    decreases |s|
  {
    if |s| > 0 {
      EscapeLength(s[1..]);
      assert |Escape(s)| == |EntityOf(s[0])| + |Escape(s[1..])|;
    }
  }

  /** Text without special characters is left alone. */
  lemma {:induction false} EscapeOfPlain(s: string)
    requires forall i :: 0 <= i < |s| ==> !IsSpecial(s[i])
    ensures Escape(s) == s
    decreases |s|
  {
    if |s| > 0 {
      EscapeOfPlain(s[1..]);
      assert s == [s[0]] + s[1..];
    }
  }

  /** `escapeHtml(text)`. */
  function EscapeHtml(text: Text): (r: string)
    ensures !IsNonEmptyString(text) ==> r == ""
    ensures text.TStr? ==> Unescape(r) == text.s
    ensures NoMarkup(r)
    ensures text.TStr? ==>
      |r| == |text.s| + 4 * Count('&', text.s) + 3 * Count('<', text.s)
             + 3 * Count('>', text.s) + 5 * Count('"', text.s) + 4 * Count('\'', text.s)
  {
    if !IsNonEmptyString(text) then ""
    else
      UnescapeEscape(text.s);
      EscapeClean(text.s);
      EscapeLength(text.s);
      Escape(text.s)
  }

  // ---------------------------------------------------------------------
  // truncateText
  // ---------------------------------------------------------------------

  /** The default suffix of `truncateText`. */
  const Ellipsis: string := "..."

  function Max(a: int, b: int): int {
    if a < b then b else a
  }

  /** `truncateText(text, maxLength, suffix)`. `substring(0, end)` clamps
      a negative end to 0; the end can never exceed the length here. */
  function TruncateText(text: Field, maxLength: int, suffix: string): (r: string)
    ensures !Truthy(text) ==> r == ""
    ensures Truthy(text) && |text.s| <= maxLength ==> r == text.s
    ensures Truthy(text) && |text.s| > maxLength ==>
      && |r| == Max(maxLength, |suffix|)
      && |r| - |suffix| < |text.s|
      && r == text.s[..|r| - |suffix|] + suffix
  {
    if !Truthy(text) then ""
    else if |text.s| <= maxLength then text.s
    else text.s[..if maxLength - |suffix| < 0 then 0 else maxLength - |suffix|] + suffix
  }

  /** With a suffix that fits, the result never exceeds the limit. */
  lemma TruncateFits(text: Field, maxLength: int, suffix: string)
    requires |suffix| <= maxLength
    ensures |TruncateText(text, maxLength, suffix)| <= maxLength
  {
  }

  /** With a suffix that fits, truncating a truncated text changes nothing. */
  lemma TruncateIdempotent(text: Field, maxLength: int, suffix: string)
    requires |suffix| <= maxLength
    ensures TruncateText(Value(TruncateText(text, maxLength, suffix)), maxLength, suffix)
         == TruncateText(text, maxLength, suffix)
  {
  }

  // ---------------------------------------------------------------------
  // createSlideData
  // ---------------------------------------------------------------------

  /** The case fields the exporters read from their `data` object. */
  datatype CaseData = CaseData(ageSex: Field, initials: Field, hpi: Field, meds: Field, aiResponse: Field)

  /** `PPT_CONFIG.maxTextPerSlide`, `maxHpiLength`, `maxMedsLength`. */
  const MaxTextPerSlide: nat := 1000
  const MaxHpiLength: nat := 400
  const MaxMedsLength: nat := 400

  datatype SlideKind = TitleSlide | ContentSlide | OverflowSlide

  /** A slide definition: its `type` and the texts of its elements, in
      order (positions, fonts and colours are layout). */
  datatype Slide = Slide(kind: SlideKind, texts: seq<string>)

  function Min(a: int, b: int): int {
    if a < b then a else b
  }

  /** The analysis text, after the destructuring default; `None` when it
      is `null`, whose `.length` throws. */
  function AnalysisText(d: CaseData): Option<string>
  {
    match DefaultEmpty(d.aiResponse)
    case Value(s) => Some(s)
    case _ => None
  }

  /** The three slides every deck has: title, clinical context, and the
      analysis cut to one slide's worth. */
  function BaseSlides(d: CaseData, ai: string): seq<Slide>
  {
    [
      Slide(TitleSlide, ["Geriatric Case", Interpolate(DefaultEmpty(d.ageSex)) + " - " + Interpolate(DefaultEmpty(d.initials))]),
      Slide(ContentSlide, [
        "Clinical Context",
        "HPI: " + TruncateText(DefaultEmpty(d.hpi), MaxHpiLength, Ellipsis),
        "MEDS: " + TruncateText(DefaultEmpty(d.meds), MaxMedsLength, Ellipsis)]),
      Slide(ContentSlide, ["Analysis & Plan", TruncateText(Value(ai), MaxTextPerSlide, Ellipsis)])
    ]
  }

  /** The overflow slide, holding `ai[from..from + MaxTextPerSlide]` as
      `substring` clamps it. */
  function Continuation(ai: string, from: nat): Slide
    requires from <= |ai|
  {
    Slide(OverflowSlide, ["Plan (Cont.)", ai[from..Min(|ai|, from + MaxTextPerSlide)]])
  }

  /** `createSlideData(data)`, with `None` for a `null` or `undefined`
      argument, which cannot be destructured. */
  function CreateSlideData(data: Option<CaseData>): (r: Result<seq<Slide>>)
    ensures r.Success? <==> data.Some? && AnalysisText(data.value).Some?
    ensures r.Success? ==>
      var ai := AnalysisText(data.value).value;
      && |r.value| == (if |ai| > MaxTextPerSlide then 4 else 3)
      && r.value[0].kind == TitleSlide
      && r.value[1].kind == ContentSlide && r.value[2].kind == ContentSlide
      && (forall i :: 0 <= i < |r.value| ==> (r.value[i].kind == OverflowSlide <==> i == 3))
      && |r.value[2].texts| == 2
      && (|ai| <= MaxTextPerSlide ==> r.value[2].texts[1] == ai)
      && (|ai| > MaxTextPerSlide ==>
            r.value[2].texts[1] == ai[..MaxTextPerSlide - |Ellipsis|] + Ellipsis
            && |r.value[3].texts| == 2
            && r.value[3].texts[1] == ai[MaxTextPerSlide..Min(|ai|, 2 * MaxTextPerSlide)])
  {
    if data.None? then Failure("Cannot destructure the case data")
    else
      match AnalysisText(data.value)
      case None => Failure("Cannot read the length of a null analysis")
      case Some(ai) =>
        var slides := BaseSlides(data.value, ai);
        if |ai| > MaxTextPerSlide then Success(slides + [Continuation(ai, MaxTextPerSlide)])
        else Success(slides)
  }

  /** The analysis a reader of a four-slide deck sees: the third slide's
      text without its ellipsis, then the overflow slide's text. */
  function VisibleAnalysis(slides: seq<Slide>): string
    requires |slides| == 4 && |slides[2].texts| == 2 && |slides[3].texts| == 2
    requires |slides[2].texts[1]| >= |Ellipsis|
  {
    slides[2].texts[1][..|slides[2].texts[1]| - |Ellipsis|] + slides[3].texts[1]
  }

  /** As written, the third slide stops three characters before the cut
      (to make room for the ellipsis) but the overflow slide resumes at the
      cut, so characters 997 to 999 of a long analysis appear on no slide. */
  lemma LongAnalysisLosesCharacters(d: CaseData)
    requires AnalysisText(d).Some? && |AnalysisText(d).value| > MaxTextPerSlide
    ensures var ai := AnalysisText(d).value;
      var slides := CreateSlideData(Some(d)).value;
      && VisibleAnalysis(slides) == ai[..MaxTextPerSlide - |Ellipsis|] + ai[MaxTextPerSlide..Min(|ai|, 2 * MaxTextPerSlide)]
      && |VisibleAnalysis(slides)| == Min(|ai|, 2 * MaxTextPerSlide) - |Ellipsis|
  {
  }

  /** `createSlideData` with the overflow slide resuming where the third
      slide's text stops. */
  function CreateSlideDataContinued(data: Option<CaseData>): (r: Result<seq<Slide>>)
    ensures r.Success? <==> data.Some? && AnalysisText(data.value).Some?
    ensures r.Success? ==>
      var ai := AnalysisText(data.value).value;
      && |r.value| == (if |ai| > MaxTextPerSlide then 4 else 3)
      && (forall i :: 0 <= i < |r.value| ==> (r.value[i].kind == OverflowSlide <==> i == 3))
      && |r.value[2].texts| == 2
      && (|ai| <= MaxTextPerSlide ==> r.value[2].texts[1] == ai)
  {
    if data.None? then Failure("Cannot destructure the case data")
    else
      match AnalysisText(data.value)
      case None => Failure("Cannot read the length of a null analysis")
      case Some(ai) =>
        var slides := BaseSlides(data.value, ai);
        if |ai| > MaxTextPerSlide then Success(slides + [Continuation(ai, MaxTextPerSlide - |Ellipsis|)])
        else Success(slides)
  }

  /** With the continuation fixed, the two slides show an unbroken prefix
      of the analysis. */
  lemma ContinuedAnalysisIsPrefix(d: CaseData)
    requires AnalysisText(d).Some? && |AnalysisText(d).value| > MaxTextPerSlide
    ensures var ai := AnalysisText(d).value;
      var slides := CreateSlideDataContinued(Some(d)).value;
      VisibleAnalysis(slides) == ai[..Min(|ai|, 2 * MaxTextPerSlide - |Ellipsis|)]
  {
    var ai := AnalysisText(d).value;
    var cut := MaxTextPerSlide - |Ellipsis|;
    assert ai[..Min(|ai|, cut + MaxTextPerSlide)] == ai[..cut] + ai[cut..Min(|ai|, cut + MaxTextPerSlide)];
  }

  // ---------------------------------------------------------------------
  // createDocHTML and exportDOC
  // ---------------------------------------------------------------------

  /** The fixed text of the document around the five fields: the opening
      `html`/`head`/`body` with the Office namespaces, the report heading
      and the field labels, and the closing tags. */
  const DocStart: string :=
    "<html xmlns:o='urn:schemas-microsoft-com:office:office' xmlns:w='urn:schemas-microsoft-com:office:word' "
    + "xmlns='http://www.w3.org/TR/REC-html40'><head><meta charset='utf-8'><title>Case</title></head><body>"
    + "\n    <h1 style=\"color:#2c3e50\">Geriatric Case Report</h1>\n    <p><strong>ID:</strong> "
  const DocInitials: string := " ("
  const DocHpi: string := ")</p>\n    <h3>HPI</h3><p>"
  const DocMeds: string := "</p>\n    <h3>Meds/Labs</h3><p>"
  const DocAnalysis: string :=
    "</p>\n    <hr>\n    <h3>Analysis & Plan</h3>\n    <div style=\"font-family: Arial; white-space: pre-wrap;\">"
  const DocEnd: string := "</div>\n  </body></html>"

  const DocFrame: seq<string> := [DocStart, DocInitials, DocHpi, DocMeds, DocAnalysis, DocEnd]

  /** `frame[0] + fields[0] + frame[1] + … + fields[n-1] + frame[n]`: the
      template literal with its substitutions. */
  function Interleave(frame: seq<string>, fields: seq<string>): string
    requires |frame| == |fields| + 1
  {
    if |fields| == 0 then frame[0]
    else frame[0] + fields[0] + Interleave(frame[1..], fields[1..])
  }

  /** How often `c` occurs in all of `parts` together. */
  function CountAll(c: char, parts: seq<string>): nat
  {
    if |parts| == 0 then 0 else Count(c, parts[0]) + CountAll(c, parts[1..])
  }

  lemma {:induction false} CountInterleave(c: char, frame: seq<string>, fields: seq<string>)
    requires |frame| == |fields| + 1
    ensures Count(c, Interleave(frame, fields)) == CountAll(c, frame) + CountAll(c, fields)
    decreases |fields|
  {
    if |fields| > 0 {
      CountInterleave(c, frame[1..], fields[1..]);
      CountAppend(c, frame[0] + fields[0], Interleave(frame[1..], fields[1..]));
      CountAppend(c, frame[0], fields[0]);
    }
  }

  /** One field as the document shows it: `escapeHtml(sanitizeText(f))`
      after the destructuring default. */
  function Embed(f: Field): (r: string)
    ensures NoMarkup(r)
    ensures NoStripped(r)
    ensures Unescape(r) == SanitizeText(AsText(f))
  {
    var clean := SanitizeText(AsText(DefaultEmpty(f)));
    EscapeClean(clean);
    EscapeHtml(TStr(clean))
  }

  lemma AllClean(a: string, b: string, c: string, e: string, f: string)
    requires NoMarkup(a) && NoMarkup(b) && NoMarkup(c) && NoMarkup(e) && NoMarkup(f)
    ensures forall i :: 0 <= i < 5 ==> NoMarkup([a, b, c, e, f][i])
  {
  }

  /** The five fields of the document in their order, each free of markup. */
  function EmbeddedFields(d: CaseData): (r: seq<string>)
    ensures |r| == 5
    ensures forall i :: 0 <= i < |r| ==> NoMarkup(r[i])
  {
    var a, b, c, e, f := Embed(d.ageSex), Embed(d.initials), Embed(d.hpi), Embed(d.meds), Embed(d.aiResponse);
    AllClean(a, b, c, e, f);
    [a, b, c, e, f]
  }

  lemma {:induction false} CountAllOfClean(m: char, parts: seq<string>)
    requires forall i :: 0 <= i < |parts| ==> m !in parts[i]
    ensures CountAll(m, parts) == 0
    decreases |parts|
  {
    if |parts| > 0 {
      CountAllOfClean(m, parts[1..]);
    }
  }

  /** Fields free of markup leave the frame's markup as the only markup. */
  lemma MarkupFromFrame(frame: seq<string>, fields: seq<string>)
    requires |frame| == |fields| + 1
    requires forall i :: 0 <= i < |fields| ==> NoMarkup(fields[i])
    ensures forall m :: IsMarkup(m) ==> Count(m, Interleave(frame, fields)) == CountAll(m, frame)
  {
    forall m | IsMarkup(m)
      ensures Count(m, Interleave(frame, fields)) == CountAll(m, frame)
    {
      CountInterleave(m, frame, fields);
      CountAllOfClean(m, fields);
    }
  }

  /** `createDocHTML(data)`, with `None` for an argument that cannot be
      destructured. Every markup character of the document comes from the
      fixed frame, however the fields read. */
  function CreateDocHtml(data: Option<CaseData>): (r: Result<string>)
    ensures r.Success? <==> data.Some?
    ensures r.Success? ==> forall m :: IsMarkup(m) ==> Count(m, r.value) == CountAll(m, DocFrame)
  {
    if data.None? then Failure("Cannot destructure the case data")
    else
      var fields := EmbeddedFields(data.value);
      assert |DocFrame| == 6;
      MarkupFromFrame(DocFrame, fields);
      Success(Interleave(DocFrame, fields))
  }

  lemma InterleaveStep(p: seq<string>, f: seq<string>, a: string, b: string)
    requires |p| == |f| + 1
    ensures Interleave([a] + p, [b] + f) == a + (b + Interleave(p, f))
  {
    assert ([a] + p)[1..] == p;
    assert ([b] + f)[1..] == f;
  }

  lemma InterleaveFive(p: seq<string>, f: seq<string>)
    requires |p| == 6 && |f| == 5
    ensures Interleave(p, f) == p[0] + (f[0] + (p[1] + (f[1] + (p[2] + (f[2] + (p[3] + (f[3] + (p[4] + (f[4] + p[5])))))))))
  {
    assert p == [p[0]] + ([p[1]] + ([p[2]] + ([p[3]] + ([p[4]] + [p[5]]))));
    assert f == [f[0]] + ([f[1]] + ([f[2]] + ([f[3]] + [f[4]])));
    InterleaveStep([p[5]], [], p[4], f[4]);
    InterleaveStep([p[4]] + [p[5]], [f[4]], p[3], f[3]);
    InterleaveStep([p[3]] + ([p[4]] + [p[5]]), [f[3]] + [f[4]], p[2], f[2]);
    InterleaveStep([p[2]] + ([p[3]] + ([p[4]] + [p[5]])), [f[2]] + ([f[3]] + [f[4]]), p[1], f[1]);
    InterleaveStep([p[1]] + ([p[2]] + ([p[3]] + ([p[4]] + [p[5]]))), [f[1]] + ([f[2]] + ([f[3]] + [f[4]])), p[0], f[0]);
  }

  /** The document shows each field, escaped, in its slot of the frame. */
  lemma DocHtmlEmbedsFields(d: CaseData)
    ensures CreateDocHtml(Some(d)).value ==
      DocStart + (Embed(d.ageSex) + (DocInitials + (Embed(d.initials) + (DocHpi + (Embed(d.hpi)
      + (DocMeds + (Embed(d.meds) + (DocAnalysis + (Embed(d.aiResponse) + DocEnd)))))))))
  {
    InterleaveFive(DocFrame, EmbeddedFields(d));
  }

  /** The result of `exportDOC` without its Blob. */
  datatype DocExport = DocExport(html: string, filename: string)

  /** `exportDOC(data, filename)`. */
  function ExportDoc(data: Option<CaseData>, filename: Field): (r: Result<DocExport>)
    ensures r.Success? <==> data.Some?
    ensures r.Success? ==> r.value.html == CreateDocHtml(data).value
    ensures r.Success? && Truthy(filename) ==> r.value.filename == filename.s
    ensures r.Success? && !Truthy(filename) ==>
      r.value.filename == "Case_" + (if Truthy(data.value.initials) then data.value.initials.s else "export") + ".doc"
  {
    match CreateDocHtml(data)
    case Failure(e) => Failure(e)
    case Success(html) =>
      var initials := if Truthy(data.value.initials) then data.value.initials.s else "export";
      Success(DocExport(html, if Truthy(filename) then filename.s else "Case_" + initials + ".doc"))
  }
}
