/** The prompt builder (src/prompt.js): the default template, the three
    sequential placeholder replacements of `generatePrompt`, and the
    required-field check of `validatePromptData`. */
module Prompt {
  import opened JsValues
  import opened Strings
  import opened StringLists

  // ---------------------------------------------------------------------
  // String.prototype.replace with a string pattern
  // ---------------------------------------------------------------------

  /** The replacement text of `replace` (GetSubstitution of ECMA-262, section
      22.1.3.19.1, for a match without capture groups): `$$` is a dollar
      sign, `$&` the matched text, `` $` `` the text before the match, `$'`
      the text after it; every other `$` stands for itself. */
  function Substitution(v: string, matched: string, before: string, after: string): string
    decreases |v|
  {
    if |v| == 0 then ""
    else if v[0] == '$' && |v| >= 2 && v[1] == '$' then "$" + Substitution(v[2..], matched, before, after)
    else if v[0] == '$' && |v| >= 2 && v[1] == '&' then matched + Substitution(v[2..], matched, before, after)
    else if v[0] == '$' && |v| >= 2 && v[1] == '`' then before + Substitution(v[2..], matched, before, after)
    else if v[0] == '$' && |v| >= 2 && v[1] == '\'' then after + Substitution(v[2..], matched, before, after)
    else [v[0]] + Substitution(v[1..], matched, before, after)
  }

  /** A replacement text without `$` is inserted as it is. */
  lemma {:induction false} SubstitutionOfDollarFree(v: string, matched: string, before: string, after: string)
    requires '$' !in v
    ensures Substitution(v, matched, before, after) == v
    decreases |v|
  {
    if |v| > 0 {
      assert v == [v[0]] + v[1..];
      SubstitutionOfDollarFree(v[1..], matched, before, after);
    }
  }

  /** `s.replace(w, v)`: only the first occurrence of `w` is replaced. */
  function Replace(s: string, w: string, v: string): string
  {
    match IndexOf(s, w)
    case None => s
    case Some(i) =>
      assert i + |w| <= |s| by { OccursAtIff(s, w, i); }
      s[..i] + Substitution(v, w, s[..i], s[i + |w|..]) + s[i + |w|..]
  }

  /** Replacing a pattern that does not occur changes nothing. */
  lemma ReplaceAbsent(s: string, w: string, v: string)
    requires forall j :: !OccursAt(s, w, j)
    ensures Replace(s, w, v) == s
  {
  }

  /** When the first occurrence of `w` in `a + w + b` is the one after `a`,
      `replace` puts the substitution between `a` and `b`. */
  lemma ReplaceAt(a: string, w: string, b: string, v: string)
    requires forall j :: 0 <= j < |a| ==> !OccursAt(a + w + b, w, j)
    ensures Replace(a + w + b, w, v) == a + Substitution(v, w, a, b) + b
  {
    var s := a + w + b;
    OccursAtIff(s, w, |a|);
    assert s[|a|..|a| + |w|] == w;
    var i := IndexOf(s, w).value;
    assert i == |a|;
    assert s[..i] == a;
    assert s[i + |w|..] == b;
  }

  /** A pattern that starts with a character missing from `a` cannot occur
      at any position inside `a`. */
  lemma NotBefore(a: string, w: string, b: string)
    requires |w| > 0 && w[0] !in a
    ensures forall j :: 0 <= j < |a| ==> !OccursAt(a + w + b, w, j)
  {
    forall j | 0 <= j < |a|
      ensures !OccursAt(a + w + b, w, j)
    {
      assert (a + w + b)[j..][0] == a[j];
    }
  }

  /** `replace` with a `$`-free value puts the value in place of the first
      occurrence of the pattern, when that occurrence follows a text
      without the pattern's first character. */
  lemma ReplaceLiteral(a: string, w: string, b: string, v: string)
    requires |w| > 0 && w[0] !in a && '$' !in v
    ensures Replace(a + w + b, w, v) == a + v + b
  {
    NotBefore(a, w, b);
    ReplaceAt(a, w, b, v);
    SubstitutionOfDollarFree(v, w, a, b);
  }

  // ---------------------------------------------------------------------
  // PROMPT_TEMPLATE
  // ---------------------------------------------------------------------

  /** The text of the default template before the first placeholder, in
      pieces of at most one line. */
  const RoleLine: string := "Act as a Senior Geriatrician.\n"
  const TaskStart: string := "I will provide clinical data. "
  const TaskMiddle: string := "Please output a response with "
  const TaskEnd: string := "TWO SECTIONS:\n\n"
  const AuditHeading: string := "SECTION 1: SAFETY AUDIT (Strict)\n"
  const AuditInteractions: string := "- Flag Drug Interactions.\n"
  const AuditBeers: string := "- Flag Beers Criteria.\n\n"
  const SummaryHeadingStart: string := "SECTION 2: CLINICAL SUMMARY "
  const SummaryHeadingEnd: string := "(Professional)\n"
  const SummaryStyle: string := "- Case Presentation style.\n"
  const SummaryPlan: string := "- Assessment & Plan.\n\n"
  const DataLines: string := "DATA:\nID: "

  const Intro: string :=
    RoleLine + TaskStart + TaskMiddle + TaskEnd
    + AuditHeading + AuditInteractions + AuditBeers
    + SummaryHeadingStart + SummaryHeadingEnd + SummaryStyle + SummaryPlan
    + DataLines

  const HpiLine: string := "\nHPI: "
  const MedsLine: string := "\nMEDS/LABS: "

  const AgeSexKey: string := "{ageSex}"
  const HpiKey: string := "{hpi}"
  const MedsKey: string := "{meds}"

  /** A template of the default shape: fixed text, then the three
      placeholders in order, each after its own line of fixed text. */
  function Template(intro: string, hl: string, ml: string): string
  {
    intro + AgeSexKey + hl + HpiKey + ml + MedsKey
  }

  /** `PROMPT_TEMPLATE`. */
  const PromptTemplate: string := Template(Intro, HpiLine, MedsLine)

  // One lemma per piece keeps each proof about a literal small.
  lemma RoleLineHasNoBrace() ensures '{' !in RoleLine {}
  lemma TaskStartHasNoBrace() ensures '{' !in TaskStart {}
  lemma TaskMiddleHasNoBrace() ensures '{' !in TaskMiddle {}
  lemma TaskEndHasNoBrace() ensures '{' !in TaskEnd {}
  lemma AuditHeadingHasNoBrace() ensures '{' !in AuditHeading {}
  lemma AuditInteractionsHasNoBrace() ensures '{' !in AuditInteractions {}
  lemma AuditBeersHasNoBrace() ensures '{' !in AuditBeers {}
  lemma SummaryHeadingStartHasNoBrace() ensures '{' !in SummaryHeadingStart {}
  lemma SummaryHeadingEndHasNoBrace() ensures '{' !in SummaryHeadingEnd {}
  lemma SummaryStyleHasNoBrace() ensures '{' !in SummaryStyle {}
  lemma SummaryPlanHasNoBrace() ensures '{' !in SummaryPlan {}
  lemma DataLinesHasNoBrace() ensures '{' !in DataLines {}
  lemma HpiLineHasNoBrace() ensures '{' !in HpiLine {}
  lemma MedsLineHasNoBrace() ensures '{' !in MedsLine {}

  /** The fixed text of the default template has no `{`. */
  lemma FixedTextHasNoBrace()
    ensures '{' !in Intro && '{' !in HpiLine && '{' !in MedsLine
  {
    RoleLineHasNoBrace();
    TaskStartHasNoBrace();
    TaskMiddleHasNoBrace();
    TaskEndHasNoBrace();
    AuditHeadingHasNoBrace();
    AuditInteractionsHasNoBrace();
    AuditBeersHasNoBrace();
    SummaryHeadingStartHasNoBrace();
    SummaryHeadingEndHasNoBrace();
    SummaryStyleHasNoBrace();
    SummaryPlanHasNoBrace();
    DataLinesHasNoBrace();
    HpiLineHasNoBrace();
    MedsLineHasNoBrace();
  }

  /** A pattern occurs at `|a|` in `a + w + b`. */
  lemma OccursAfter(a: string, w: string, b: string)
    ensures OccursAt(a + w + b, w, |a|)
  {
    OccursAtIff(a + w + b, w, |a|);
    assert (a + w + b)[|a|..|a| + |w|] == w;
  }

  /** Where `{` can be in a template of the default shape, and the letter
      after it there. */
  lemma BracesOfTemplate(intro: string, hl: string, ml: string, j: int)
    requires '{' !in intro && '{' !in hl && '{' !in ml
    requires 0 <= j < |Template(intro, hl, ml)| && Template(intro, hl, ml)[j] == '{'
    ensures var p1 := |intro|;
      var p2 := p1 + |AgeSexKey| + |hl|;
      var p3 := p2 + |HpiKey| + |ml|;
      && (j == p1 || j == p2 || j == p3)
      && (j == p1 ==> Template(intro, hl, ml)[j + 1] == 'a')
      && (j == p2 ==> Template(intro, hl, ml)[j + 1] == 'h')
      && (j == p3 ==> Template(intro, hl, ml)[j + 1] == 'm')
  {
    var t := Template(intro, hl, ml);
    var a := |intro|;
    var b := a + |AgeSexKey|;
    var c := b + |hl|;
    var d := c + |HpiKey|;
    var e := d + |ml|;
    assert forall i :: 0 <= i < a ==> t[i] == intro[i];
    assert forall i :: a <= i < b ==> t[i] == AgeSexKey[i - a];
    assert forall i :: b <= i < c ==> t[i] == hl[i - b];
    assert forall i :: c <= i < d ==> t[i] == HpiKey[i - c];
    assert forall i :: d <= i < e ==> t[i] == ml[i - d];
    assert forall i :: e <= i < |t| ==> t[i] == MedsKey[i - e];
  }

  /** An occurrence of a placeholder in a template of the default shape is
      that placeholder's own place. */
  lemma OccurrenceIsPlaceholder(intro: string, hl: string, ml: string, w: string, j: int)
    requires '{' !in intro && '{' !in hl && '{' !in ml
    requires w == AgeSexKey || w == HpiKey || w == MedsKey
    requires OccursAt(Template(intro, hl, ml), w, j)
    ensures var p1 := |intro|;
      var p2 := p1 + |AgeSexKey| + |hl|;
      var p3 := p2 + |HpiKey| + |ml|;
      || (j == p1 && w == AgeSexKey)
      || (j == p2 && w == HpiKey)
      || (j == p3 && w == MedsKey)
  {
    var t := Template(intro, hl, ml);
    OccursAtIff(t, w, j);
    assert t[j..j + |w|] == w;
    assert t[j] == w[0] == '{';
    BracesOfTemplate(intro, hl, ml, j);
    assert t[j + 1] == w[1];
  }

  /** A template of the default shape holds each placeholder exactly once:
      an occurrence starts with `{`, and of the three `{` of the template
      only one begins each placeholder. */
  lemma PlaceholdersOnce(intro: string, hl: string, ml: string)
    requires '{' !in intro && '{' !in hl && '{' !in ml
    ensures var t := Template(intro, hl, ml);
      var p1 := |intro|;
      var p2 := p1 + |AgeSexKey| + |hl|;
      var p3 := p2 + |HpiKey| + |ml|;
      && (forall j :: OccursAt(t, AgeSexKey, j) <==> j == p1)
      && (forall j :: OccursAt(t, HpiKey, j) <==> j == p2)
      && (forall j :: OccursAt(t, MedsKey, j) <==> j == p3)
  {
    var t := Template(intro, hl, ml);
    assert t == intro + AgeSexKey + (hl + HpiKey + ml + MedsKey);
    OccursAfter(intro, AgeSexKey, hl + HpiKey + ml + MedsKey);
    assert t == (intro + AgeSexKey + hl) + HpiKey + (ml + MedsKey);
    OccursAfter(intro + AgeSexKey + hl, HpiKey, ml + MedsKey);
    assert t == (intro + AgeSexKey + hl + HpiKey + ml) + MedsKey + [];
    OccursAfter(intro + AgeSexKey + hl + HpiKey + ml, MedsKey, []);
    forall j, w | (w == AgeSexKey || w == HpiKey || w == MedsKey) && OccursAt(t, w, j)
      ensures var p1 := |intro|;
        var p2 := p1 + |AgeSexKey| + |hl|;
        var p3 := p2 + |HpiKey| + |ml|;
        || (j == p1 && w == AgeSexKey)
        || (j == p2 && w == HpiKey)
        || (j == p3 && w == MedsKey)
    {
      OccurrenceIsPlaceholder(intro, hl, ml, w, j);
    }
  }

  /** `PROMPT_TEMPLATE` holds each of `{ageSex}`, `{hpi}` and `{meds}`
      exactly once, in that order. */
  lemma PlaceholdersOccurOnce()
    ensures forall j :: OccursAt(PromptTemplate, AgeSexKey, j) <==> j == |Intro|
    ensures forall j :: OccursAt(PromptTemplate, HpiKey, j) <==> j == |Intro| + |AgeSexKey| + |HpiLine|
    ensures forall j :: OccursAt(PromptTemplate, MedsKey, j) <==>
      j == |Intro| + |AgeSexKey| + |HpiLine| + |HpiKey| + |MedsLine|
  {
    FixedTextHasNoBrace();
    PlaceholdersOnce(Intro, HpiLine, MedsLine);
  }

  // ---------------------------------------------------------------------
  // generatePrompt
  // ---------------------------------------------------------------------

  /** The data object passed to `generatePrompt` and `validatePromptData`. */
  datatype PromptData = PromptData(ageSex: Field, hpi: Field, meds: Field)

  /** `data || {}`: a missing data object has every field undefined. */
  function OrEmpty(data: Option<PromptData>): (d: PromptData)
    ensures data.Some? ==> d == data.value
    ensures data.None? ==> d.ageSex.Undefined? && d.hpi.Undefined? && d.meds.Undefined?
  {
    if data.Some? then data.value else PromptData(Undefined, Undefined, Undefined)
  }

  /** The text a field contributes: `undefined` defaults to "", `null`
      stays and is converted to the text "null". */
  function Inserted(f: Field): (r: string)
    ensures f.Undefined? ==> r == ""
    ensures f.Null? ==> r == "null"
    ensures f.Value? ==> r == f.s
  {
    Interpolate(DefaultEmpty(f))
  }

  /** In a template of the default shape, values that hold neither `{`
      nor `$` (the last may hold `{`) take the places of the placeholders. */
  lemma TemplateEmbedsValues(intro: string, hl: string, ml: string, a: string, h: string, m: string)
    requires '{' !in intro && '{' !in hl && '{' !in ml
    requires '{' !in a && '$' !in a && '{' !in h && '$' !in h && '$' !in m
    ensures Replace(Replace(Replace(Template(intro, hl, ml), AgeSexKey, a), HpiKey, h), MedsKey, m)
      == intro + a + hl + h + ml + m
  {
    assert Template(intro, hl, ml) == intro + AgeSexKey + (hl + HpiKey + ml + MedsKey);
    ReplaceLiteral(intro, AgeSexKey, hl + HpiKey + ml + MedsKey, a);
    var s1 := intro + a + (hl + HpiKey + ml + MedsKey);
    assert s1 == (intro + a + hl) + HpiKey + (ml + MedsKey);
    ReplaceLiteral(intro + a + hl, HpiKey, ml + MedsKey, h);
    var s2 := (intro + a + hl) + h + (ml + MedsKey);
    assert s2 == (intro + a + hl + h + ml) + MedsKey + [];
    ReplaceLiteral(intro + a + hl + h + ml, MedsKey, [], m);
    assert intro + a + hl + h + ml + m + [] == intro + a + hl + h + ml + m;
  }

  /** `generatePrompt(data, template)`, with `None` for an omitted template:
      `{ageSex}`, then `{hpi}`, then `{meds}` replaced, each only at its
      first occurrence in the text produced so far. A template without
      placeholders comes back unchanged; with the default template, field
      values that hold neither `{` nor `$` (the last may hold `{`) land on
      the ID, HPI and MEDS/LABS lines in place of the placeholders. */
  function GeneratePrompt(data: Option<PromptData>, template: Option<string>): (r: string)
    ensures template.Some? && (forall j :: !OccursAt(template.value, AgeSexKey, j)
                                && !OccursAt(template.value, HpiKey, j) && !OccursAt(template.value, MedsKey, j))
      ==> r == template.value
    ensures var d := OrEmpty(data);
      template.None?
      && '{' !in Inserted(d.ageSex) && '$' !in Inserted(d.ageSex)
      && '{' !in Inserted(d.hpi) && '$' !in Inserted(d.hpi)
      && '$' !in Inserted(d.meds)
      ==> r == Intro + Inserted(d.ageSex) + HpiLine + Inserted(d.hpi) + MedsLine + Inserted(d.meds)
  {
    var d := OrEmpty(data);
    var t := if template.Some? then template.value else PromptTemplate;
    var a, h, m := Inserted(d.ageSex), Inserted(d.hpi), Inserted(d.meds);
    if template.None? && '{' !in a && '$' !in a && '{' !in h && '$' !in h && '$' !in m then
      FixedTextHasNoBrace();
      TemplateEmbedsValues(Intro, HpiLine, MedsLine, a, h, m);
      Replace(Replace(Replace(t, AgeSexKey, a), HpiKey, h), MedsKey, m)
    else
      Replace(Replace(Replace(t, AgeSexKey, a), HpiKey, h), MedsKey, m)
  }

  // ---------------------------------------------------------------------
  // validatePromptData
  // ---------------------------------------------------------------------

  /** `requiredFields`, in the order they are checked. */
  const RequiredFields: seq<string> := ["ageSex", "hpi", "meds"]

  /** `data[field]` for a required field name. */
  function FieldOf(d: PromptData, name: string): Field
  {
    if name == "ageSex" then d.ageSex
    else if name == "hpi" then d.hpi
    else if name == "meds" then d.meds
    else Undefined
  }

  /** `!value || (typeof value === 'string' && value.trim() === '')`. */
  predicate Blank(f: Field) {
    !Truthy(f) || (f.Value? && Trim(f.s) == "")
  }

  /** A field is blank exactly when it is absent, `null`, or a string of
      whitespace only (the empty string included). */
  lemma BlankIff(f: Field)
    ensures Blank(f) <==> f.Undefined? || f.Null? || (f.Value? && AllWs(f.s))
  {
    if f.Value? {
      TrimEmptyIff(f.s);
    }
  }

  /** The names in `names` whose field is blank, in order. */
  function MissingFields(d: PromptData, names: seq<string>): seq<string>
  {
    if |names| == 0 then []
    else (if Blank(FieldOf(d, names[0])) then [names[0]] else []) + MissingFields(d, names[1..])
  }

  lemma {:induction false} MissingFieldsSpec(d: PromptData, names: seq<string>)
    ensures IsSubsequence(MissingFields(d, names), names)
    ensures forall n :: n in MissingFields(d, names) <==> n in names && Blank(FieldOf(d, n))
    decreases |names|
  {
    if |names| > 0 {
      MissingFieldsSpec(d, names[1..]);
      var rest := MissingFields(d, names[1..]);
      if Blank(FieldOf(d, names[0])) {
        assert MissingFields(d, names) == [names[0]] + rest;
        assert MissingFields(d, names)[1..] == rest;
      } else {
        assert MissingFields(d, names) == rest;
        SubsequenceCons(rest, names[0], names[1..]);
      }
      assert names == [names[0]] + names[1..];
    }
  }

  /** The object `validatePromptData` returns. */
  datatype Validation = Validation(isValid: bool, missing: seq<string>, message: string)

  /** `validatePromptData(data)`, with `None` for a falsy data object. */
  function ValidatePromptData(data: Option<PromptData>): (r: Validation)
    ensures data.None? ==> r == Validation(false, RequiredFields, "No data provided")
    ensures data.Some? ==> IsSubsequence(r.missing, RequiredFields)
    ensures data.Some? ==> forall n :: n in r.missing <==> n in RequiredFields && Blank(FieldOf(data.value, n))
    ensures r.isValid <==> data.Some? && r.missing == []
    ensures data.Some? && r.missing == [] ==> r.message == "All fields present"
    ensures data.Some? && r.missing != [] ==> r.message == "Missing required fields: " + Join(r.missing, ", ")
  {
    if data.None? then Validation(false, RequiredFields, "No data provided")
    else
      var missing := MissingFields(data.value, RequiredFields);
      MissingFieldsSpec(data.value, RequiredFields);
      Validation(
        |missing| == 0,
        missing,
        if |missing| > 0 then "Missing required fields: " + Join(missing, ", ") else "All fields present")
  }

  /** Data passes validation exactly when all three fields hold a string
      with a character other than whitespace. */
  lemma ValidIff(d: PromptData)
    ensures ValidatePromptData(Some(d)).isValid <==>
      forall n :: n in RequiredFields ==> FieldOf(d, n).Value? && !AllWs(FieldOf(d, n).s)
  {
    var r := ValidatePromptData(Some(d));
    forall n | n in RequiredFields
      ensures Blank(FieldOf(d, n)) <==> !(FieldOf(d, n).Value? && !AllWs(FieldOf(d, n).s))
    {
      BlankIff(FieldOf(d, n));
    }
    if !r.isValid {
      assert r.missing[0] in r.missing;
    }
  }
}
