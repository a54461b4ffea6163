/** Properties of the clinical field extractor: the ageSex capture is the
    leftmost match of its pattern, and worked examples of the section rules
    (first header wins, a terminator counts only at the start of a line,
    headers have no word boundaries). */
module PopulatorProperties {
  import opened JsValues
  import opened Strings
  import opened Populator

  /** `t[p..e]` is the match the engine reports: no match starts before
      `p`, and at `p` it is the match of the first shape in the engine's
      order (three digits before two, whitespace before none, the
      alternatives as listed). */
  ghost predicate LeftmostAgeSex(t: string, p: nat, e: nat) {
    && p <= e <= |t|
    && FirstAgeSexMatch(t, p, e)
    && forall q: nat, e': nat :: q < p ==> !AgeSexMatch(t, q, e')
  }

  /** The ageSex capture is the verbatim text of the leftmost match of
      `\d{2,3}\s?(male|female|Male|Female|[MmFf])`, and there is no capture
      exactly when the pattern matches nowhere. */
  lemma AgeSexCaptureIsLeftmostMatch(t: string)
    ensures Capture(AgeSex, t).None? <==> forall p: nat, e: nat :: !AgeSexMatch(t, p, e)
    ensures Capture(AgeSex, t).Some? ==>
      exists p: nat, e: nat :: LeftmostAgeSex(t, p, e) && Capture(AgeSex, t).value == t[p..e]
  {
    FindAgeSexSpec(t, 0);
    match FindAgeSex(t, 0)
    case Some(m) =>
      AgeSexSound(t, m.start);
      AgeSexFirst(t, m.start);
      forall q: nat, e': nat | q < m.start
        ensures !AgeSexMatch(t, q, e')
      {
        if AgeSexMatch(t, q, e') {
          AgeSexComplete(t, q, e');
        }
      }
      assert LeftmostAgeSex(t, m.start, m.end);
    case None =>
      forall p: nat, e: nat
        ensures !AgeSexMatch(t, p, e)
      {
        if AgeSexMatch(t, p, e) {
          AgeSexStartsWithDigit(t, p, e);
          AgeSexComplete(t, p, e);
        }
      }
  }

  /** A sex letter on its own at the end of the text ends a sex token:
      the words are too long to fit there. */
  lemma SexLetterAtEnd(t: string, q: nat)
    requires q + 1 == |t| && t[q] in "MmFf"
    ensures SexAt(t, q) == Some(|t|)
  {
    FirstTokenAtSpec(t, q, SexTokens, 0);
    assert t[q..] == [t[q]];
    var k :| 4 <= k < 8 && SexTokens[k] == [t[q]];
    assert OccursAt(t, SexTokens[k], q);
  }

  /** The word `male` is the first sex alternative, so it wins wherever it occurs. */
  lemma MaleWordAt(t: string, q: nat)
    requires q + 4 <= |t| && t[q..q + 4] == "male"
    ensures SexAt(t, q) == Some(q + 4)
  {
    OccursAtIff(t, SexTokens[0], q);
  }

  /** Every sex alternative starts with a letter, so none starts at a digit. */
  lemma NoSexAtDigit(t: string, q: nat)
    requires q < |t| && IsDigit(t[q])
    ensures SexAt(t, q).None?
  {
    FirstTokenAtSpec(t, q, SexTokens, 0);
    assert t[q..][0] == t[q];
    assert forall w: string :: 0 < |w| && OccursAt(t, w, q) ==> w[0] == t[q];
  }

  /** A capture with no whitespace at either end is the value as it is. */
  lemma TrimmedCaptureValue(t: string, p: Pattern, c: string)
    requires Capture(p, t) == Some(c) && c != "" && IsTrimmed(c)
    ensures ExtractValue(TStr(t), p) == Some(c)
  {
    TrimOfTrimmed(c);
  }

  lemma AgeSexCapture(t: string, p: nat, e: nat)
    requires p <= e <= |t| && FindAgeSex(t, 0) == Some(Span(p, e))
    ensures Capture(AgeSex, t) == Some(t[p..e])
  {
  }

  /** When the ageSex search finds `t[p..e]`, that text is the value:
      a match has no whitespace at either end for `trim` to remove. */
  lemma AgeSexValue(t: string, p: nat, e: nat)
    requires p <= e <= |t| && FindAgeSex(t, 0) == Some(Span(p, e))
    ensures ExtractValue(TStr(t), AgeSex) == Some(t[p..e])
  {
    FindAgeSexSpec(t, 0);
    AgeSexSound(t, p);
    AgeSexMatchIsTrimmed(t, p, e);
    AgeSexCapture(t, p, e);
    TrimmedCaptureValue(t, AgeSex, t[p..e]);
  }

  /** The ageSex value `extractClinicalData` reports is the leftmost match
      of the pattern, verbatim: the capture is that match and `trim`
      leaves it as it is. */
  lemma AgeSexValueIsLeftmostMatch(t: string)
    ensures ExtractValue(TStr(t), AgeSex).Some? ==>
      exists p: nat, e: nat :: LeftmostAgeSex(t, p, e) && ExtractValue(TStr(t), AgeSex).value == t[p..e]
  {
    AgeSexCaptureIsLeftmostMatch(t);
    if Capture(AgeSex, t).Some? {
      var p: nat, e: nat :| LeftmostAgeSex(t, p, e) && Capture(AgeSex, t).value == t[p..e];
      AgeSexMatchIsTrimmed(t, p, e);
      TrimmedCaptureValue(t, AgeSex, t[p..e]);
    }
  }

  /** There is no ageSex value exactly when the pattern matches nowhere. */
  lemma AgeSexValueNoneIff(t: string)
    ensures ExtractValue(TStr(t), AgeSex).None? <==> forall p: nat, e: nat :: !AgeSexMatch(t, p, e)
  {
    AgeSexCaptureIsLeftmostMatch(t);
    if Capture(AgeSex, t).Some? {
      var p: nat, e: nat :| LeftmostAgeSex(t, p, e) && Capture(AgeSex, t).value == t[p..e];
      AgeSexMatchIsTrimmed(t, p, e);
      TrimmedCaptureValue(t, AgeSex, t[p..e]);
    }
  }

  /** Three digits are tried before two: "101M" keeps all of its digits. */
  lemma ThreeDigitAge()
    ensures ExtractValue(TStr("101M"), AgeSex) == Some("101M")
  {
    var t := "101M";
    assert AgeSexAt(t, 0) == Some(4) by {
      assert t[0..3] == "101";
      SexLetterAtEnd(t, 3);
    }
    assert FindAgeSex(t, 0) == Some(Span(0, 4));
    assert t[0..4] == t;
    AgeSexValue(t, 0, 4);
  }

  /** The word `male` is tried before the single letter `m`, and the one
      whitespace character between age and sex is kept verbatim. */
  lemma SpacedWordSex()
    ensures ExtractValue(TStr("75 male"), AgeSex) == Some("75 male")
  {
    var t := "75 male";
    assert AgeSexAt(t, 0) == Some(7) by {
      assert t[0..3] == "75 ";
      assert t[0..2] == "75";
      assert t[3..7] == "male";
      MaleWordAt(t, 3);
    }
    assert FindAgeSex(t, 0) == Some(Span(0, 7));
    assert t[0..7] == t;
    AgeSexValue(t, 0, 7);
  }

  /** At one start the engine prefers the word: in "75 male" the match
      "75 m", which ends at the single letter, is not the one reported. */
  lemma WordBeforeLetter()
    ensures !LeftmostAgeSex("75 male", 0, 4)
  {
    var t := "75 male";
    assert t[0..2] == "75" && t[3..7] == "male";
    OccursAtIff(t, SexTokens[0], 3);
    assert AgeSexShape(t, 0, 7, 2, 1, 0);
    forall d: nat, w: nat, k: nat | AgeSexShape(t, 0, 4, d, w, k)
      ensures TriedBefore(2, 1, 0, d, w, k)
    {
      assert d == 2 by {
        assert t[0..3][2] == ' ';
      }
    }
  }

  /** Without a leading word boundary the match may begin inside a longer
      number: in "1234F" it starts at the second digit. */
  lemma LeftmostInsideNumber()
    ensures ExtractValue(TStr("1234F"), AgeSex) == Some("234F")
  {
    var t := "1234F";
    assert AgeSexAt(t, 0).None? by {
      assert t[0..3] == "123" && t[0..2] == "12";
      NoSexAtDigit(t, 3);
      NoSexAtDigit(t, 2);
    }
    assert AgeSexAt(t, 1) == Some(5) by {
      assert t[1..4] == "234";
      SexLetterAtEnd(t, 4);
    }
    assert FindAgeSex(t, 0) == Some(Span(1, 5));
    assert t[1..5] == "234F";
    AgeSexValue(t, 1, 5);
  }

  /** The value of a section field is the trimmed capture of the section
      match, and `null` when that capture is empty. */
  lemma SectionValue(t: string, p: Pattern, m: SectionMatch)
    requires !p.AgeSex? && MatchSection(t, SectionOf(p)) == Some(m)
    ensures m.start <= m.end <= |t|
    ensures ExtractValue(TStr(t), p) == if m.start == m.end then None else Some(Trim(t[m.start..m.end]))
  {
    MatchSectionBounds(t, SectionOf(p));
  }

  lemma {:induction false} StartsWithFoldedPrefix(w: string, x: string)
    ensures StartsWithFolded(w + x, w)
    decreases |w|
  {
    if |w| > 0 {
      assert (w + x)[1..] == w[1..] + x;
      StartsWithFoldedPrefix(w[1..], x);
    }
  }

  /** Headers have no word boundaries: whether a header matches at a
      position does not depend on any of the text before it, so `History`
      inside "Past Medical History:" starts the HPI section as readily as
      at the start of a line. */
  lemma HeaderIgnoresPrefix(a: string, s: string, h: string, i: nat)
    requires i <= |s|
    ensures HeaderMatchesAt(a + s, h, |a| + i) <==> HeaderMatchesAt(s, h, i)
  {
    assert (a + s)[|a| + i..] == s[i..];
    if i + |h| < |s| {
      assert (a + s)[|a| + i + |h|] == s[i + |h|];
    }
  }

  /** The separator run after a header is exactly the separators written
      there when the body does not start with one. */
  lemma SepRunOver(t: string, i: nat, seps: string)
    requires i + |seps| <= |t| && t[i..i + |seps|] == seps
    requires forall k :: 0 <= k < |seps| ==> IsSep(seps[k])
    requires i + |seps| == |t| || !IsSep(t[i + |seps|])
    ensures SepRun(t, i) == |seps|
  {
    SepRunSpec(t, i);
    assert forall k :: i <= k < i + |seps| ==> t[k] == seps[k - i];
  }

  /** The first header of the section, written at the start of the text and
      followed by separators, is where the match starts. */
  lemma FirstHeaderAtStart(t: string, sec: Section, x: string)
    requires |sec.headers| > 0 && t == sec.headers[0] + x && |x| > 0 && IsSep(x[0])
    ensures HeaderAt(t, sec.headers, 0, 0) == Some(0)
    ensures FindHeader(t, sec.headers, 0) == Some(0)
  {
    StartsWithFoldedPrefix(sec.headers[0], x);
    assert t[0..] == t;
    assert t[|sec.headers[0]|] == x[0];
  }

  /** A text that starts with the section's first header and separators
      matches there, and the capture starts right after the separators. */
  lemma MatchAtStart(t: string, sec: Section, seps: string, x: string)
    requires |sec.headers| > 0 && t == sec.headers[0] + seps + x
    requires |seps| > 0 && forall k :: 0 <= k < |seps| ==> IsSep(seps[k])
    requires x == [] || !IsSep(x[0])
    ensures var s := |sec.headers[0]| + |seps|;
      MatchSection(t, sec) == Some(SectionMatch(0, 0, s, CaptureEnd(t, sec.terminators, s)))
  {
    var h := sec.headers[0];
    assert t == h + (seps + x);
    FirstHeaderAtStart(t, sec, seps + x);
    var s := |h| + |seps|;
    assert t[|h|..s] == seps;
    if s < |t| {
      assert t[s] == x[0];
    }
    SepRunOver(t, |h|, seps);
  }

  /** A capture that starts at `s` runs over a body without line breaks up
      to where the lookahead holds next. */
  lemma CaptureOverBody(t: string, terms: seq<string>, s: nat, body: string)
    requires s + |body| <= |t| && t[s..s + |body|] == body && '\n' !in body
    requires s + |body| == |t| || TerminatesAt(t, terms, s + |body|)
    ensures CaptureEnd(t, terms, s) == s + |body|
  {
    CaptureEndSpec(t, terms, s);
    assert forall k :: s <= k < s + |body| ==> t[k] == body[k - s];
  }

  /** A text made of the first header, separators, a body without line
      breaks and a tail that is empty or makes the lookahead hold: the
      capture is exactly the body. */
  lemma SectionBodyMatch(sec: Section, seps: string, body: string, tail: string)
    requires |sec.headers| > 0
    requires |seps| > 0 && forall k :: 0 <= k < |seps| ==> IsSep(seps[k])
    requires (|body| > 0 && !IsSep(body[0])) || (body == [] && tail == [])
    requires '\n' !in body
    requires tail == [] || TerminatesAt(sec.headers[0] + seps + body + tail, sec.terminators, |sec.headers[0]| + |seps| + |body|)
    ensures var s := |sec.headers[0]| + |seps|;
      MatchSection(sec.headers[0] + seps + body + tail, sec) == Some(SectionMatch(0, 0, s, s + |body|))
  {
    var t := sec.headers[0] + seps + body + tail;
    var s := |sec.headers[0]| + |seps|;
    assert t == sec.headers[0] + seps + (body + tail);
    MatchAtStart(t, sec, seps, body + tail);
    assert t[s..s + |body|] == body;
    CaptureOverBody(t, sec.terminators, s, body);
  }

  /** A section whose body runs to the end of the text without a line
      break: the value is the trimmed body, `null` when there is none.
      Two consequences of the pattern follow. A terminator header inside
      the body that does not start a line does not end the section
      ("Meds: A Labs: B" gives "A Labs: B"). And the separators after the
      header include line breaks, so a terminator on the very next line is
      swallowed into the value ("HPI:\nPMH: x" gives "PMH: x"). */
  lemma SectionToEnd(p: Pattern, seps: string, body: string)
    requires !p.AgeSex?
    requires |seps| > 0 && forall k :: 0 <= k < |seps| ==> IsSep(seps[k])
    requires body == [] || !IsSep(body[0])
    requires '\n' !in body
    ensures ExtractValue(TStr(SectionOf(p).headers[0] + seps + body), p)
      == if body == [] then None else Some(Trim(body))
  {
    var sec := SectionOf(p);
    var t := sec.headers[0] + seps + body;
    var s := |sec.headers[0]| + |seps|;
    assert t == sec.headers[0] + seps + body + [];
    SectionBodyMatch(sec, seps, body, []);
    SectionValue(t, p, SectionMatch(0, 0, s, s + |body|));
    assert t[s..s + |body|] == body;
  }

  /** A section ends at a line break followed by optional whitespace and a
      terminator header, in any letter case: "Meds: A\nLabs: B" gives "A". */
  lemma SectionEndsAtTerminatorLine(p: Pattern, seps: string, body: string, ws: string, j: nat, rest: string)
    requires !p.AgeSex?
    requires |seps| > 0 && forall k :: 0 <= k < |seps| ==> IsSep(seps[k])
    requires |body| > 0 && !IsSep(body[0]) && '\n' !in body
    requires AllWs(ws) && j < |SectionOf(p).terminators|
    ensures ExtractValue(TStr(SectionOf(p).headers[0] + seps + body + "\n" + ws + SectionOf(p).terminators[j] + rest), p)
      == Some(Trim(body))
  {
    var sec := SectionOf(p);
    var tail := "\n" + ws + sec.terminators[j] + rest;
    var t := sec.headers[0] + seps + body + tail;
    var s := |sec.headers[0]| + |seps|;
    var e := s + |body|;
    assert t == sec.headers[0] + seps + body + "\n" + ws + sec.terminators[j] + rest;
    assert t[e..] == tail;
    TerminatorsStartWithLetter(p, j);
    TerminatorLine(t, sec.terminators, e, ws, j, rest);
    SectionBodyMatch(sec, seps, body, tail);
    SectionValue(t, p, SectionMatch(0, 0, s, e));
    assert t[s..e] == body;
  }

  /** A line break, whitespace and a terminator header make the lookahead
      hold at the line break. */
  lemma TerminatorLine(t: string, terms: seq<string>, e: nat, ws: string, j: nat, rest: string)
    requires j < |terms| && |terms[j]| > 0 && !IsWs(terms[j][0]) && AllWs(ws)
    requires e <= |t| && t[e..] == "\n" + ws + terms[j] + rest
    ensures TerminatesAt(t, terms, e)
  {
    var term := terms[j];
    var v := ws + term + rest;
    assert t[e..] == "\n" + v;
    assert t[e] == '\n';
    var w := e + 1;
    assert t[w..] == v;
    assert t[w..w + |ws|] == v[..|ws|] == ws;
    assert t[w + |ws|] == v[|ws|] == term[0];
    WsRunOver(t, w, ws);
    assert t[w + |ws|..] == v[|ws|..] == term + rest;
    StartsWithFoldedPrefix(term, rest);
    AnyFoldedAtOf(t, terms, w + |ws|, j, 0);
  }

  /** Every terminator header starts with an ASCII letter, so the `\s*` of
      the lookahead never gives back whitespace. */
  lemma TerminatorsStartWithLetter(p: Pattern, j: nat)
    requires !p.AgeSex? && j < |SectionOf(p).terminators|
    ensures |SectionOf(p).terminators[j]| > 0
    ensures 'A' <= SectionOf(p).terminators[j][0] <= 'Z'
  {
  }

  lemma WsRunOver(t: string, i: nat, ws: string)
    requires i + |ws| < |t| && t[i..i + |ws|] == ws && AllWs(ws) && !IsWs(t[i + |ws|])
    ensures WsRun(t, i) == |ws|
  {
    WsRunSpec(t, i);
    assert forall k :: i <= k < i + |ws| ==> t[k] == ws[k - i];
  }

  lemma {:induction false} AnyFoldedAtOf(t: string, alts: seq<string>, i: nat, j: nat, from: nat)
    requires from <= j < |alts| && i <= |t| && StartsWithFolded(t[i..], alts[j])
    ensures AnyFoldedAt(t, alts, i, from)
    decreases j - from
  {
    if from < j {
      AnyFoldedAtOf(t, alts, i, j, from + 1);
    }
  }
}
