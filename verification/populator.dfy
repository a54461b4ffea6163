/** Extraction of the clinical fields `ageSex`, `hpi`, `meds` and `labs`
    from free text (src/populator.js). Each regular expression of
    `PATTERNS` is written out as the leftmost-first search the JavaScript
    engine performs for it; no regular-expression engine is modelled.
    The searches are plain recursive functions; what they compute is
    stated by the lemma that follows each of them. */
module Populator {
  import opened JsValues
  import opened Strings

  // ---------------------------------------------------------------------
  // ageSex: /(\d{2,3}\s?(?:male|female|Male|Female|[MmFf]))/
  // ---------------------------------------------------------------------

  /** The sex alternatives in the order the pattern tries them; the class
      `[MmFf]` is last and matches a single character. */
  const SexTokens: seq<string> := ["male", "female", "Male", "Female", "M", "m", "F", "f"]

  /** The index of the first of `alts[from..]` that occurs at `q`. */
  function FirstTokenAt(t: string, q: nat, alts: seq<string>, from: nat): Option<nat>
    requires from <= |alts|
    decreases |alts| - from
  {
    if from == |alts| then None
    else if OccursAt(t, alts[from], q) then Some(from)
    else FirstTokenAt(t, q, alts, from + 1)
  }

  lemma {:induction false} FirstTokenAtSpec(t: string, q: nat, alts: seq<string>, from: nat)
    requires from <= |alts|
    ensures var r := FirstTokenAt(t, q, alts, from);
      && (r.Some? ==> from <= r.value < |alts| && OccursAt(t, alts[r.value], q))
      && (r.Some? ==> forall j :: from <= j < r.value ==> !OccursAt(t, alts[j], q))
      && (r.None? ==> forall j :: from <= j < |alts| ==> !OccursAt(t, alts[j], q))
    decreases |alts| - from
  {
    if from < |alts| && !OccursAt(t, alts[from], q) {
      FirstTokenAtSpec(t, q, alts, from + 1);
    }
  }

  /** The end of the first sex token, in pattern order, that occurs at `q`. */
  function SexAt(t: string, q: nat): Option<nat>
  {
    match FirstTokenAt(t, q, SexTokens, 0)
    case Some(k) => Some(q + |SexTokens[k]|)
    case None => None
  }

  /** `\s?` then a sex token, after digits ending at `q`: greedy, so one
      whitespace character is tried before none. */
  function AfterDigits(t: string, q: nat): Option<nat>
    requires q <= |t|
  {
    var withWs := if q < |t| && IsWs(t[q]) then SexAt(t, q + 1) else None;
    if withWs.Some? then withWs else SexAt(t, q)
  }

  /** The match of the ageSex pattern that starts at `p`, if any, as its end
      index: three digits are tried before two, one whitespace before none,
      and the sex tokens in their listed order. */
  function AgeSexAt(t: string, p: nat): Option<nat>
    requires p <= |t|
  {
    var three := if p + 3 <= |t| && AllDigits(t[p..p + 3]) then AfterDigits(t, p + 3) else None;
    if three.Some? then three
    else if p + 2 <= |t| && AllDigits(t[p..p + 2]) then AfterDigits(t, p + 2)
    else None
  }

  /** The shape the pattern accepts: `d` digits (2 or 3), `w` whitespace
      characters (0 or 1), then sex token number `k`, spanning `t[p..e]`. */
  ghost predicate AgeSexShape(t: string, p: nat, e: nat, d: nat, w: nat, k: nat) {
    && 2 <= d <= 3 && w <= 1 && k < |SexTokens|
    && e == p + d + w + |SexTokens[k]| <= |t|
    && AllDigits(t[p..p + d])
    && (w == 1 ==> IsWs(t[p + d]))
    && OccursAt(t, SexTokens[k], p + d + w)
  }

  /** `t[p..e]` is a match of the ageSex pattern. */
  ghost predicate AgeSexMatch(t: string, p: nat, e: nat) {
    exists d, w, k :: AgeSexShape(t, p, e, d, w, k)
  }

  /** A sex token found at `p + d + w` completes a match of the pattern. */
  lemma SexAtSound(t: string, p: nat, d: nat, w: nat, e: nat)
    requires 2 <= d <= 3 && w <= 1 && p + d + w <= |t| && AllDigits(t[p..p + d])
    requires w == 1 ==> IsWs(t[p + d])
    requires SexAt(t, p + d + w) == Some(e)
    ensures AgeSexMatch(t, p, e)
  {
    var q := p + d + w;
    FirstTokenAtSpec(t, q, SexTokens, 0);
    var k := FirstTokenAt(t, q, SexTokens, 0).value;
    assert AgeSexShape(t, p, e, d, w, k);
  }

  /** The greedy `\s?`: the sex token after one whitespace character when
      there is one, otherwise the token right after the digits. */
  lemma AfterDigitsCases(t: string, q: nat)
    requires q <= |t|
    ensures || (q < |t| && IsWs(t[q]) && AfterDigits(t, q) == SexAt(t, q + 1))
            || AfterDigits(t, q) == SexAt(t, q)
  {
  }

  lemma AfterDigitsSound(t: string, p: nat, d: nat)
    requires 2 <= d <= 3 && p + d <= |t| && AllDigits(t[p..p + d])
    requires AfterDigits(t, p + d).Some?
    ensures AgeSexMatch(t, p, AfterDigits(t, p + d).value)
  {
    var q := p + d;
    var e := AfterDigits(t, q).value;
    AfterDigitsCases(t, q);
    if q < |t| && IsWs(t[q]) && AfterDigits(t, q) == SexAt(t, q + 1) {
      SexAtSound(t, p, d, 1, e);
    } else {
      SexAtSound(t, p, d, 0, e);
    }
  }

  /** What the scanner returns at `p` is a match of the pattern there. */
  lemma AgeSexSound(t: string, p: nat)
    requires p <= |t| && AgeSexAt(t, p).Some?
    ensures AgeSexMatch(t, p, AgeSexAt(t, p).value)
  {
    if p + 3 <= |t| && AllDigits(t[p..p + 3]) && AfterDigits(t, p + 3).Some? {
      AfterDigitsSound(t, p, 3);
    } else {
      AfterDigitsSound(t, p, 2);
    }
  }

  lemma AfterDigitsComplete(t: string, p: nat, e: nat, d: nat, w: nat, k: nat)
    requires AgeSexShape(t, p, e, d, w, k)
    ensures AfterDigits(t, p + d).Some?
  {
    FirstTokenAtSpec(t, p + d + w, SexTokens, 0);
  }

  /** A match with `d` digits means the scanner's try with `d` digits succeeds. */
  lemma ShapeTakesDigits(t: string, p: nat, e: nat, d: nat, w: nat, k: nat)
    ensures AgeSexShape(t, p, e, d, w, k) ==>
      p + d <= |t| && AllDigits(t[p..p + d]) && AfterDigits(t, p + d).Some?
  {
    if AgeSexShape(t, p, e, d, w, k) {
      AfterDigitsComplete(t, p, e, d, w, k);
    }
  }

  lemma AgeSexAtCases(t: string, p: nat, d: nat)
    requires 2 <= d <= 3 && p + d <= |t| && AllDigits(t[p..p + d])
    requires AfterDigits(t, p + d).Some?
    ensures AgeSexAt(t, p).Some?
  {
  }

  /** If the pattern can match at `p` at all, the scanner finds a match there. */
  lemma AgeSexComplete(t: string, p: nat, e: nat)
    requires AgeSexMatch(t, p, e)
    ensures AgeSexAt(t, p).Some?
  {
    var d, w, k :| AgeSexShape(t, p, e, d, w, k);
    AfterDigitsComplete(t, p, e, d, w, k);
    AgeSexAtCases(t, p, d);
  }

  /** Shape `(d', w', k')` is tried before shape `(d, w, k)`: three digits
      before two, then one whitespace character before none, then the
      alternatives in their listed order. */
  predicate TriedBefore(d': nat, w': nat, k': nat, d: nat, w: nat, k: nat) {
    d' > d || (d' == d && w' > w) || (d' == d && w' == w && k' < k)
  }

  /** `t[p..e]` is the match the backtracking engine reports at `p`: a
      match of the pattern whose shape is tried before the shape of every
      other match at `p`. */
  ghost predicate FirstAgeSexMatch(t: string, p: nat, e: nat) {
    exists d: nat, w: nat, k: nat ::
      && AgeSexShape(t, p, e, d, w, k)
      && forall d': nat, w': nat, k': nat, e': nat :: TriedBefore(d', w', k', d, w, k) ==> !AgeSexShape(t, p, e', d', w', k')
  }

  /** The sex token the scanner takes at `p + d + w` is the first
      alternative that occurs there. */
  lemma SexFirst(t: string, p: nat, d: nat, w: nat, e: nat) returns (k: nat)
    requires 2 <= d <= 3 && w <= 1 && p + d + w <= |t| && AllDigits(t[p..p + d])
    requires w == 1 ==> IsWs(t[p + d])
    requires SexAt(t, p + d + w) == Some(e)
    ensures AgeSexShape(t, p, e, d, w, k)
    ensures forall k': nat, e': nat :: k' < k ==> !AgeSexShape(t, p, e', d, w, k')
  {
    FirstTokenAtSpec(t, p + d + w, SexTokens, 0);
    k := FirstTokenAt(t, p + d + w, SexTokens, 0).value;
  }

  /** After `d` digits, the scanner takes the first shape in the engine's
      order: whitespace before none, then the first alternative. */
  lemma AfterDigitsFirst(t: string, p: nat, d: nat, e: nat) returns (w: nat, k: nat)
    requires 2 <= d <= 3 && p + d <= |t| && AllDigits(t[p..p + d])
    requires AfterDigits(t, p + d) == Some(e)
    ensures AgeSexShape(t, p, e, d, w, k)
    ensures forall w': nat, k': nat, e': nat :: TriedBefore(d, w', k', d, w, k) ==> !AgeSexShape(t, p, e', d, w', k')
  {
    var q := p + d;
    AfterDigitsCases(t, q);
    if q < |t| && IsWs(t[q]) && AfterDigits(t, q) == SexAt(t, q + 1) {
      w := 1;
      k := SexFirst(t, p, d, 1, e);
    } else {
      w := 0;
      k := SexFirst(t, p, d, 0, e);
      forall k': nat, e': nat
        ensures !AgeSexShape(t, p, e', d, 1, k')
      {
        WsShapeTakesWs(t, p, e', d, k');
      }
    }
  }

  /** A match with whitespace after the digits means the scanner's try
      with whitespace succeeds. */
  lemma WsShapeTakesWs(t: string, p: nat, e: nat, d: nat, k: nat)
    ensures AgeSexShape(t, p, e, d, 1, k) ==>
      && p + d < |t| && IsWs(t[p + d])
      && AfterDigits(t, p + d) == SexAt(t, p + d + 1)
  {
    if AgeSexShape(t, p, e, d, 1, k) {
      FirstTokenAtSpec(t, p + d + 1, SexTokens, 0);
    }
  }

  /** When no shape with more than `d` digits matches at `p`, the scanner's
      try with `d` digits gives the first shape in the engine's order. */
  lemma FirstWithDigits(t: string, p: nat, d: nat, e: nat)
    requires 2 <= d <= 3 && p + d <= |t| && AllDigits(t[p..p + d])
    requires AfterDigits(t, p + d) == Some(e)
    requires forall d': nat, w': nat, k': nat, e': nat :: d' > d ==> !AgeSexShape(t, p, e', d', w', k')
    ensures FirstAgeSexMatch(t, p, e)
  {
    var w, k := AfterDigitsFirst(t, p, d, e);
    assert forall d': nat, w': nat, k': nat, e': nat ::
      TriedBefore(d', w', k', d, w, k) ==> !AgeSexShape(t, p, e', d', w', k');
  }

  /** What the scanner returns at `p` is the match of the first shape, in
      the engine's order, that matches there. */
  lemma AgeSexFirst(t: string, p: nat)
    requires p <= |t| && AgeSexAt(t, p).Some?
    ensures FirstAgeSexMatch(t, p, AgeSexAt(t, p).value)
  {
    var e := AgeSexAt(t, p).value;
    if p + 3 <= |t| && AllDigits(t[p..p + 3]) && AfterDigits(t, p + 3).Some? {
      FirstWithDigits(t, p, 3, e);
    } else {
      forall d': nat, w': nat, k': nat, e': nat | d' > 2
        ensures !AgeSexShape(t, p, e', d', w', k')
      {
        ShapeTakesDigits(t, p, e', d', w', k');
      }
      FirstWithDigits(t, p, 2, e);
    }
  }

  /** A match of the ageSex pattern is non-empty and starts with a digit. */
  lemma AgeSexStartsWithDigit(t: string, p: nat, e: nat)
    requires AgeSexMatch(t, p, e)
    ensures p < e <= |t| && IsDigit(t[p])
  {
    var d, w, k :| AgeSexShape(t, p, e, d, w, k);
    assert t[p..p + d][0] == t[p];
  }

  /** A match ends with the last letter of a sex alternative. */
  lemma AgeSexEndsWithLetter(t: string, p: nat, e: nat)
    requires AgeSexMatch(t, p, e)
    ensures p < e <= |t| && t[e - 1] in "eMmFf"
  {
    var d: nat, w: nat, k: nat :| AgeSexShape(t, p, e, d, w, k);
    var tok := SexTokens[k];
    OccursAtIff(t, tok, p + d + w);
    assert t[e - 1] == t[p + d + w..e][|tok| - 1];
    SexTokenLastLetter(k);
  }

  lemma SexTokenLastLetter(k: nat)
    requires k < |SexTokens|
    ensures |SexTokens[k]| > 0 && SexTokens[k][|SexTokens[k]| - 1] in "eMmFf"
  {
  }

  /** A match has no whitespace at either end: it starts with a digit and
      ends with a letter, so trimming leaves it as it is. */
  lemma AgeSexMatchIsTrimmed(t: string, p: nat, e: nat)
    requires AgeSexMatch(t, p, e)
    ensures p < e <= |t| && IsTrimmed(t[p..e])
  {
    AgeSexStartsWithDigit(t, p, e);
    AgeSexEndsWithLetter(t, p, e);
    assert t[p..e][0] == t[p] && t[p..e][e - p - 1] == t[e - 1];
  }

  /** A character range of the text. */
  datatype Span = Span(start: nat, end: nat)

  /** The leftmost position at or after `p` where the ageSex pattern matches. */
  function FindAgeSex(t: string, p: nat): Option<Span>
    requires p <= |t|
    decreases |t| - p
  {
    match AgeSexAt(t, p)
    case Some(e) => Some(Span(p, e))
    case None => if p == |t| then None else FindAgeSex(t, p + 1)
  }

  lemma {:induction false} FindAgeSexFound(t: string, p: nat)
    requires p <= |t|
    ensures var r := FindAgeSex(t, p);
      r.Some? ==> p <= r.value.start <= |t| && AgeSexAt(t, r.value.start) == Some(r.value.end)
    decreases |t| - p
  {
    if AgeSexAt(t, p).None? && p < |t| {
      FindAgeSexFound(t, p + 1);
    }
  }

  lemma {:induction false} FindAgeSexNoneBefore(t: string, p: nat)
    requires p <= |t|
    ensures var r := FindAgeSex(t, p);
      r.Some? ==> forall q :: p <= q < r.value.start && q <= |t| ==> AgeSexAt(t, q).None?
    decreases |t| - p
  {
    if AgeSexAt(t, p).None? && p < |t| {
      FindAgeSexNoneBefore(t, p + 1);
    }
  }

  lemma {:induction false} FindAgeSexNone(t: string, p: nat)
    requires p <= |t|
    ensures var r := FindAgeSex(t, p);
      r.None? ==> forall q :: p <= q <= |t| ==> AgeSexAt(t, q).None?
    decreases |t| - p
  {
    if AgeSexAt(t, p).None? && p < |t| {
      FindAgeSexNone(t, p + 1);
    }
  }

  /** The search returns the first start at or after `p` where the scanner
      matches, and nothing when it matches nowhere from `p` on. */
  lemma FindAgeSexSpec(t: string, p: nat)
    requires p <= |t|
    ensures var r := FindAgeSex(t, p);
      && (r.Some? ==> p <= r.value.start <= |t| && AgeSexAt(t, r.value.start) == Some(r.value.end))
      && (r.Some? ==> forall q :: p <= q < r.value.start ==> AgeSexAt(t, q).None?)
      && (r.None? ==> forall q :: p <= q <= |t| ==> AgeSexAt(t, q).None?)
  {
    FindAgeSexFound(t, p);
    FindAgeSexNoneBefore(t, p);
    FindAgeSexNone(t, p);
  }

  // ---------------------------------------------------------------------
  // hpi, meds, labs:
  //   /(?:H1|H2|...)[:\s]+([\s\S]*?)(?=\n\s*(?:T1|T2|...)|$)/i
  // ---------------------------------------------------------------------

  /** A section pattern: header alternatives in the order they are tried,
      and the headers that end the section. */
  datatype Section = Section(headers: seq<string>, terminators: seq<string>)

  const HpiSection: Section := Section(
    ["HPI", "History of Present Illness", "History"],
    ["PMH", "Past Medical History", "Meds", "Medications", "Assessment", "Physical Exam"])

  const MedsSection: Section := Section(
    ["Meds", "Medications", "Current Medications", "Home Medications"],
    ["Labs", "Laboratory", "Plan", "Assessment", "Allergies"])

  const LabsSection: Section := Section(
    ["Labs", "Laboratory", "Lab Results"],
    ["Plan", "Assessment", "Imaging"])

  /** The class `[:\s]`. */
  predicate IsSep(c: char) {
    c == ':' || IsWs(c)
  }

  /** Header `h` occurs, up to case, at `p` and at least one separator
      follows it. The greedy `[:\s]+` takes the whole run of separators and
      never gives any back, because the lazy capture after it always
      succeeds at the end of the text. */
  predicate HeaderMatchesAt(t: string, h: string, p: int) {
    OccursFoldedAt(t, h, p) && p + |h| < |t| && IsSep(t[p + |h|])
  }

  ghost predicate SomeHeaderAt(t: string, headers: seq<string>, p: int) {
    exists k :: 0 <= k < |headers| && HeaderMatchesAt(t, headers[k], p)
  }

  /** The index of the first of `headers[from..]` that matches at `p`. */
  function HeaderAt(t: string, headers: seq<string>, p: nat, from: nat): Option<nat>
    requires from <= |headers|
    decreases |headers| - from
  {
    if from == |headers| then None
    else if HeaderMatchesAt(t, headers[from], p) then Some(from)
    else HeaderAt(t, headers, p, from + 1)
  }

  lemma {:induction false} HeaderAtSpec(t: string, headers: seq<string>, p: nat, from: nat)
    requires from <= |headers|
    ensures var r := HeaderAt(t, headers, p, from);
      && (r.Some? ==> from <= r.value < |headers| && HeaderMatchesAt(t, headers[r.value], p))
      && (r.Some? ==> forall j :: from <= j < r.value ==> !HeaderMatchesAt(t, headers[j], p))
      && (r.None? ==> forall j :: from <= j < |headers| ==> !HeaderMatchesAt(t, headers[j], p))
    decreases |headers| - from
  {
    if from < |headers| && !HeaderMatchesAt(t, headers[from], p) {
      HeaderAtSpec(t, headers, p, from + 1);
    }
  }

  /** Length of the run of separators that starts at `i`. */
  function SepRun(t: string, i: nat): nat
    requires i <= |t|
    decreases |t| - i
  {
    if i < |t| && IsSep(t[i]) then 1 + SepRun(t, i + 1) else 0
  }

  lemma {:induction false} SepRunSpec(t: string, i: nat)
    requires i <= |t|
    ensures i + SepRun(t, i) <= |t|
    ensures forall k :: i <= k < i + SepRun(t, i) ==> IsSep(t[k])
    ensures i + SepRun(t, i) == |t| || !IsSep(t[i + SepRun(t, i)])
    decreases |t| - i
  {
    if i < |t| && IsSep(t[i]) {
      SepRunSpec(t, i + 1);
    }
  }

  /** One of `alts[from..]` occurs, up to case, at `j`. */
  predicate AnyFoldedAt(t: string, alts: seq<string>, j: int, from: nat)
    requires from <= |alts|
    decreases |alts| - from
  {
    from < |alts| && (OccursFoldedAt(t, alts[from], j) || AnyFoldedAt(t, alts, j, from + 1))
  }

  /** The lookahead `\n\s*(?:T1|T2|...)` holds at `e`: a newline, any
      whitespace, then a terminator header up to case. The whitespace run is
      taken whole because every terminator starts with a letter. */
  predicate TerminatesAt(t: string, terminators: seq<string>, e: int) {
    && 0 <= e < |t| && t[e] == '\n'
    && AnyFoldedAt(t, terminators, e + 1 + WsRun(t, e + 1), 0)
  }

  /** The lazy `([\s\S]*?)` started at `e`: it stops at the first position
      where the lookahead holds, either a terminator line or the end of the
      text (`$` without the `m` flag). */
  function CaptureEnd(t: string, terminators: seq<string>, e: nat): nat
    requires e <= |t|
    decreases |t| - e
  {
    if e == |t| || TerminatesAt(t, terminators, e) then e
    else CaptureEnd(t, terminators, e + 1)
  }

  lemma {:induction false} CaptureEndSpec(t: string, terminators: seq<string>, e: nat)
    requires e <= |t|
    ensures var r := CaptureEnd(t, terminators, e);
      && e <= r <= |t|
      && (r == |t| || TerminatesAt(t, terminators, r))
      && (forall x :: e <= x < r ==> !TerminatesAt(t, terminators, x))
    decreases |t| - e
  {
    if e < |t| && !TerminatesAt(t, terminators, e) {
      CaptureEndSpec(t, terminators, e + 1);
    }
  }

  /** The leftmost position at or after `p` where some header matches. */
  function FindHeader(t: string, headers: seq<string>, p: nat): Option<nat>
    requires p <= |t|
    decreases |t| - p
  {
    if p == |t| then None
    else if HeaderAt(t, headers, p, 0).Some? then Some(p)
    else FindHeader(t, headers, p + 1)
  }

  /** No header matches at the end of the text: a separator must follow it. */
  lemma NoHeaderFrom(t: string, headers: seq<string>, q: int)
    requires q >= |t|
    ensures !SomeHeaderAt(t, headers, q)
  {
  }

  lemma {:induction false} FindHeaderSpec(t: string, headers: seq<string>, p: nat)
    requires p <= |t|
    ensures var r := FindHeader(t, headers, p);
      && (r.Some? ==> p <= r.value < |t| && HeaderAt(t, headers, r.value, 0).Some?)
      && (r.Some? ==> forall q :: p <= q < r.value ==> !SomeHeaderAt(t, headers, q))
      && (r.None? ==> forall q :: p <= q ==> !SomeHeaderAt(t, headers, q))
    decreases |t| - p
  {
    if p == |t| {
      forall q | p <= q
        ensures !SomeHeaderAt(t, headers, q)
      {
        NoHeaderFrom(t, headers, q);
      }
    } else {
      HeaderAtSpec(t, headers, p, 0);
      if HeaderAt(t, headers, p, 0).None? {
        FindHeaderSpec(t, headers, p + 1);
      }
    }
  }

  /** A match of a section pattern: where the header starts, which
      alternative matched, and the captured range. */
  datatype SectionMatch = SectionMatch(pos: nat, alt: nat, start: nat, end: nat)

  /** The search a section pattern performs: the leftmost header, its first
      matching alternative, the whole run of separators after it, and the
      shortest capture that ends at a terminator line or at the end of the
      text. */
  function MatchSection(t: string, sec: Section): Option<SectionMatch>
  {
    match FindHeader(t, sec.headers, 0)
    case None => None
    case Some(p) =>
      FindHeaderSpec(t, sec.headers, 0);
      HeaderAtSpec(t, sec.headers, p, 0);
      var k := HeaderAt(t, sec.headers, p, 0).value;
      var h := p + |sec.headers[k]|;
      SepRunSpec(t, h);
      var s := h + SepRun(t, h);
      Some(SectionMatch(p, k, s, CaptureEnd(t, sec.terminators, s)))
  }

  /** `m` is the match a section pattern makes in `t` once its header is
      found: the first alternative that matches at `m.pos`, the whole
      separator run after it, and a capture that ends at the first
      terminator line, or at the end of the text. */
  ghost predicate IsSectionMatch(t: string, sec: Section, m: SectionMatch) {
    && m.alt < |sec.headers|
    && HeaderMatchesAt(t, sec.headers[m.alt], m.pos)
    && (forall j :: 0 <= j < m.alt ==> !HeaderMatchesAt(t, sec.headers[j], m.pos))
    && m.pos + |sec.headers[m.alt]| < m.start <= m.end <= |t|
    && (forall x :: m.pos + |sec.headers[m.alt]| <= x < m.start ==> IsSep(t[x]))
    && (m.start == |t| || !IsSep(t[m.start]))
    && (m.end == |t| || TerminatesAt(t, sec.terminators, m.end))
    && (forall x :: m.start <= x < m.end ==> !TerminatesAt(t, sec.terminators, x))
  }

  lemma MatchAtHeader(t: string, sec: Section, p: nat)
    requires FindHeader(t, sec.headers, 0) == Some(p)
    ensures MatchSection(t, sec).Some? && MatchSection(t, sec).value.pos == p
    ensures IsSectionMatch(t, sec, MatchSection(t, sec).value)
  {
    FindHeaderSpec(t, sec.headers, 0);
    HeaderAtSpec(t, sec.headers, p, 0);
    var k := HeaderAt(t, sec.headers, p, 0).value;
    var h := p + |sec.headers[k]|;
    SepRunSpec(t, h);
    CaptureEndSpec(t, sec.terminators, h + SepRun(t, h));
  }

  /** `text.match(pattern)` for a section pattern, stated declaratively: no
      match exactly when no header matches anywhere; otherwise the match
      starts at the leftmost header position and is the section match
      there. */
  lemma MatchSectionSpec(t: string, sec: Section)
    ensures var r := MatchSection(t, sec);
      && (r.None? <==> forall q :: !SomeHeaderAt(t, sec.headers, q))
      && (r.Some? ==> forall q :: 0 <= q < r.value.pos ==> !SomeHeaderAt(t, sec.headers, q))
      && (r.Some? ==> IsSectionMatch(t, sec, r.value))
  {
    FindHeaderSpec(t, sec.headers, 0);
    match FindHeader(t, sec.headers, 0)
    case None =>
    case Some(p) =>
      MatchAtHeader(t, sec, p);
      HeaderAtSpec(t, sec.headers, p, 0);
      assert SomeHeaderAt(t, sec.headers, p);
  }

  // ---------------------------------------------------------------------
  // PATTERNS and extractValue
  // ---------------------------------------------------------------------

  /** The four entries of `PATTERNS`. */
  datatype Pattern = AgeSex | Hpi | Meds | Labs

  function SectionOf(p: Pattern): Section
    requires !p.AgeSex?
  {
    match p
    case Hpi => HpiSection
    case Meds => MedsSection
    case Labs => LabsSection
  }

  /** The captured range of a section match lies inside the text. */
  lemma MatchSectionBounds(t: string, sec: Section)
    ensures var r := MatchSection(t, sec);
      r.Some? ==> r.value.start <= r.value.end <= |t|
  {
    match FindHeader(t, sec.headers, 0)
    case None =>
    case Some(p) =>
      FindHeaderSpec(t, sec.headers, 0);
      HeaderAtSpec(t, sec.headers, p, 0);
      var k := HeaderAt(t, sec.headers, p, 0).value;
      var h := p + |sec.headers[k]|;
      SepRunSpec(t, h);
      CaptureEndSpec(t, sec.terminators, h + SepRun(t, h));
  }

  /** Capture group 1 of `text.match(PATTERNS[p])`, `None` when there is no
      match. */
  function Capture(p: Pattern, t: string): Option<string>
  {
    if p.AgeSex? then
      match FindAgeSex(t, 0)
      case Some(m) =>
        FindAgeSexSpec(t, 0);
        AgeSexSound(t, m.start);
        AgeSexStartsWithDigit(t, m.start, m.end);
        Some(t[m.start..m.end])
      case None => None
    else
      match MatchSection(t, SectionOf(p))
      case Some(m) =>
        MatchSectionBounds(t, SectionOf(p));
        Some(t[m.start..m.end])
      case None => None
  }

  /** A non-empty capture always starts with a character that `trim` keeps:
      a digit for ageSex, a character outside `[:\s]` for the sections. */
  lemma CaptureStartsNonWs(p: Pattern, t: string)
    requires Capture(p, t).Some? && Capture(p, t).value != ""
    ensures !IsWs(Capture(p, t).value[0])
  {
    if p.AgeSex? {
      FindAgeSexSpec(t, 0);
      var m := FindAgeSex(t, 0).value;
      AgeSexSound(t, m.start);
      AgeSexStartsWithDigit(t, m.start, m.end);
    } else {
      MatchSectionSpec(t, SectionOf(p));
    }
  }

  /** `extractValue(text, PATTERNS[p])`: `null` for an input that is not a
      non-empty string, for no match and for an empty capture; otherwise
      the capture trimmed, which is never empty. */
  function ExtractValue(text: Text, p: Pattern): (r: Option<string>)
    ensures !IsNonEmptyString(text) ==> r.None?
    ensures r.Some? <==> IsNonEmptyString(text) && Capture(p, text.s).Some? && Capture(p, text.s).value != ""
    ensures r.Some? ==> r.value == Trim(Capture(p, text.s).value)
    ensures r.Some? ==> |r.value| > 0 && Trim(r.value) == r.value
  {
    if !IsNonEmptyString(text) then None
    else
      match Capture(p, text.s)
      case None => None
      case Some(c) =>
        if c == "" then None
        else
          CaptureStartsNonWs(p, text.s);
          TrimNonEmpty(c);
          TrimIdempotent(c);
          Some(Trim(c))
  }

  // ---------------------------------------------------------------------
  // extractClinicalData and smartPopulate
  // ---------------------------------------------------------------------

  /** The object `extractClinicalData` returns; `None` is `null`. */
  datatype ClinicalRecord = ClinicalRecord(
    ageSex: Option<string>,
    hpi: Option<string>,
    meds: Option<string>,
    labs: Option<string>)

  const EmptyRecord := ClinicalRecord(None, None, None, None)

  /** A field is null or a non-empty string equal to its own trim. */
  predicate WellFormedValue(v: Option<string>) {
    v.Some? ==> |v.value| > 0 && Trim(v.value) == v.value
  }

  predicate WellFormed(r: ClinicalRecord) {
    WellFormedValue(r.ageSex) && WellFormedValue(r.hpi) && WellFormedValue(r.meds) && WellFormedValue(r.labs)
  }

  /** `extractClinicalData(text)`: all four fields `null` for an input that
      is not a non-empty string, otherwise one `extractValue` per pattern. */
  function ExtractClinicalData(text: Text): (r: ClinicalRecord)
    ensures !IsNonEmptyString(text) ==> r == EmptyRecord
    ensures r.ageSex == ExtractValue(text, AgeSex) && r.hpi == ExtractValue(text, Hpi)
    ensures r.meds == ExtractValue(text, Meds) && r.labs == ExtractValue(text, Labs)
    ensures WellFormed(r)
  {
    if !IsNonEmptyString(text) then EmptyRecord
    else ClinicalRecord(
      ExtractValue(text, AgeSex), ExtractValue(text, Hpi),
      ExtractValue(text, Meds), ExtractValue(text, Labs))
  }

  /** The page's form elements, by id, with their current values. */
  type Elements = map<string, string>

  /** `setField(id, value)`: writes a truthy value into an element that exists. */
  function SetField(dom: Elements, id: string, v: Option<string>): (r: Elements)
    ensures r.Keys == dom.Keys
    ensures forall x :: x in dom && x != id ==> r[x] == dom[x]
    ensures id in dom ==> r[id] == (if v.Some? && |v.value| > 0 then v.value else dom[id])
  {
    if v.Some? && |v.value| > 0 && id in dom then dom[id := v.value] else dom
  }

  /** Three writes to distinct elements: each written element holds its
      value when there is one, and every other element is untouched. */
  lemma ThreeWrites(dom: Elements, a: string, b: string, c: string,
                    va: Option<string>, vb: Option<string>, vc: Option<string>)
    requires a != b && a != c && b != c
    requires WellFormedValue(va) && WellFormedValue(vb) && WellFormedValue(vc)
    ensures var r := SetField(SetField(SetField(dom, a, va), b, vb), c, vc);
      && r.Keys == dom.Keys
      && (forall id :: id in dom && id != a && id != b && id != c ==> r[id] == dom[id])
      && (a in dom ==> r[a] == (if va.Some? then va.value else dom[a]))
      && (b in dom ==> r[b] == (if vb.Some? then vb.value else dom[b]))
      && (c in dom ==> r[c] == (if vc.Some? then vc.value else dom[c]))
  {
  }

  /** The three writes of `smartPopulate`, in its order: only the elements
      `age_sex`, `hpi` and `meds` are written, each only when its field was
      found; `labs` is extracted but never written. */
  function Populate(data: ClinicalRecord, dom: Elements): (r: Elements)
    requires WellFormed(data)
    ensures r.Keys == dom.Keys
    ensures forall id :: id in dom && id != "age_sex" && id != "hpi" && id != "meds" ==> r[id] == dom[id]
    ensures "age_sex" in dom ==> r["age_sex"] == (if data.ageSex.Some? then data.ageSex.value else dom["age_sex"])
    ensures "hpi" in dom ==> r["hpi"] == (if data.hpi.Some? then data.hpi.value else dom["hpi"])
    ensures "meds" in dom ==> r["meds"] == (if data.meds.Some? then data.meds.value else dom["meds"])
  {
    assert "age_sex" != "hpi" && "age_sex" != "meds" && "hpi" != "meds" by {
      assert |"age_sex"| == 7 && |"hpi"| == 3 && "hpi"[0] != "meds"[0];
    }
    ThreeWrites(dom, "age_sex", "hpi", "meds", data.ageSex, data.hpi, data.meds);
    SetField(SetField(SetField(dom, "age_sex", data.ageSex), "hpi", data.hpi), "meds", data.meds)
  }

  /** `smartPopulate(text, getElementById)`: the extraction record, and the
      elements after the writes. Only `age_sex`, `hpi` and `meds` change,
      each to the value extracted for it when there is one; `labs` and
      every other element keep their values. */
  function SmartPopulate(text: Text, dom: Elements): (r: (ClinicalRecord, Elements))
    ensures r.0 == ExtractClinicalData(text)
    ensures r.1.Keys == dom.Keys
    ensures forall id :: id in dom && id != "age_sex" && id != "hpi" && id != "meds" ==> r.1[id] == dom[id]
    ensures "age_sex" in dom ==>
      r.1["age_sex"] == (if ExtractValue(text, AgeSex).Some? then ExtractValue(text, AgeSex).value else dom["age_sex"])
    ensures "hpi" in dom ==>
      r.1["hpi"] == (if ExtractValue(text, Hpi).Some? then ExtractValue(text, Hpi).value else dom["hpi"])
    ensures "meds" in dom ==>
      r.1["meds"] == (if ExtractValue(text, Meds).Some? then ExtractValue(text, Meds).value else dom["meds"])
  {
    var data := ExtractClinicalData(text);
    (data, Populate(data, dom))
  }
}
