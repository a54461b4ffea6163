/** Character classes and string primitives with the meaning JavaScript
    gives them: the `\s` class, `String.prototype.trim`, ASCII case,
    `indexOf`, `Array.prototype.join`. */
module Strings {
  import opened JsValues

  /** JavaScript's WhiteSpace and LineTerminator code points: the set that
      the regular-expression class `\s` matches and that `trim` removes. */
  predicate IsWs(c: char) {
    if c <= ' ' then c == ' ' || '\t' <= c <= '\r'
    else if c < '\U{00A0}' then false
    else
      || c == '\U{00A0}' || c == '\U{1680}' || '\U{2000}' <= c <= '\U{200A}'
      || c == '\U{2028}' || c == '\U{2029}' || c == '\U{202F}' || c == '\U{205F}'
      || c == '\U{3000}' || c == '\U{FEFF}'
  }

  /** The regular-expression class `\d`. */
  predicate IsDigit(c: char) {
    '0' <= c <= '9'
  }

  /** Every character is a decimal digit. */
  predicate AllDigits(s: string) {
    forall i :: 0 <= i < |s| ==> IsDigit(s[i])
  }

  predicate AllWs(s: string) {
    forall i :: 0 <= i < |s| ==> IsWs(s[i])
  }

  /** ASCII lower-casing; every other character is left alone. */
  function LowerChar(c: char): (r: char)
    ensures !('A' <= r <= 'Z')
    ensures !('A' <= c <= 'Z') ==> r == c
  {
    if 'A' <= c <= 'Z' then (c as int + 32) as char else c
  }

  /** `String.prototype.toLowerCase`, restricted to ASCII letters. */
  function Lower(s: string): (r: string)
    ensures |r| == |s|
    ensures forall i :: 0 <= i < |s| ==> r[i] == LowerChar(s[i])
  {
    seq(|s|, i requires 0 <= i < |s| => LowerChar(s[i]))
  }

  /** `s` begins with `w`. */
  predicate StartsWith(s: string, w: string) {
    |w| <= |s| && (|w| == 0 || (s[0] == w[0] && StartsWith(s[1..], w[1..])))
  }

  /** `s` begins with `w` up to ASCII case: how a literal of a regular
      expression with the `i` flag matches. */
  predicate StartsWithFolded(s: string, w: string) {
    |w| <= |s| && (|w| == 0 || (LowerChar(s[0]) == LowerChar(w[0]) && StartsWithFolded(s[1..], w[1..])))
  }

  lemma {:induction false} StartsWithIff(s: string, w: string)
    ensures StartsWith(s, w) <==> |w| <= |s| && s[..|w|] == w
    decreases |w|
  {
    if |w| > 0 && |w| <= |s| {
      StartsWithIff(s[1..], w[1..]);
      assert s[..|w|] == [s[0]] + s[1..][..|w| - 1];
      assert w == [w[0]] + w[1..];
    }
  }

  /** `w` occurs in `s` at index `i`. */
  predicate OccursAt(s: string, w: string, i: int) {
    0 <= i <= |s| && StartsWith(s[i..], w)
  }

  lemma OccursAtIff(s: string, w: string, i: int)
    ensures OccursAt(s, w, i) <==> 0 <= i && i + |w| <= |s| && s[i..i + |w|] == w
  {
    if 0 <= i <= |s| {
      StartsWithIff(s[i..], w);
      if i + |w| <= |s| {
        assert s[i..][..|w|] == s[i..i + |w|];
      }
    }
  }

  /** `w` occurs in `s` at index `i` up to ASCII case. */
  predicate OccursFoldedAt(s: string, w: string, i: int) {
    0 <= i <= |s| && StartsWithFolded(s[i..], w)
  }

  /** Length of the run of whitespace that starts at `i`: what a greedy
      `\s*` consumes there. */
  function WsRun(s: string, i: nat): nat
    requires i <= |s|
    decreases |s| - i
  {
    if i < |s| && IsWs(s[i]) then 1 + WsRun(s, i + 1) else 0
  }

  /** `WsRun` is the whole run: whitespace up to it, and none right after. */
  lemma {:induction false} WsRunSpec(s: string, i: nat)
    requires i <= |s|
    ensures i + WsRun(s, i) <= |s|
    ensures forall k :: i <= k < i + WsRun(s, i) ==> IsWs(s[k])
    ensures i + WsRun(s, i) == |s| || !IsWs(s[i + WsRun(s, i)])
    decreases |s| - i
  {
    if i < |s| && IsWs(s[i]) {
      WsRunSpec(s, i + 1);
    }
  }

  /** `s.indexOf(w, from)`: the first index at or after `from` where `w` occurs. */
  function IndexOfFrom(s: string, w: string, from: nat): (r: Option<nat>)
    requires from <= |s|
    ensures r.Some? ==> from <= r.value && OccursAt(s, w, r.value)
    ensures r.Some? ==> forall j :: from <= j < r.value ==> !OccursAt(s, w, j)
    ensures r.None? ==> forall j :: from <= j <= |s| ==> !OccursAt(s, w, j)
    decreases |s| - from
  {
    if OccursAt(s, w, from) then Some(from)
    else if from == |s| then None
    else IndexOfFrom(s, w, from + 1)
  }

  function IndexOf(s: string, w: string): (r: Option<nat>)
    ensures r.Some? ==> OccursAt(s, w, r.value) && forall j :: 0 <= j < r.value ==> !OccursAt(s, w, j)
    ensures r.None? ==> forall j :: !OccursAt(s, w, j)
  {
    IndexOfFrom(s, w, 0)
  }

  /** `String.prototype.trimStart`. */
  function TrimStart(s: string): (r: string)
    ensures |r| <= |s| && r == s[|s| - |r|..]
    ensures AllWs(s[..|s| - |r|])
    ensures r == [] || !IsWs(r[0])
  {
    if |s| > 0 && IsWs(s[0]) then
      var r := TrimStart(s[1..]);
      var ws := s[1..][..|s| - 1 - |r|];
      assert forall i :: 0 <= i < |ws| ==> ws[i] == s[i + 1];
      r
    else s
  }

  /** `String.prototype.trimEnd`. */
  function TrimEnd(s: string): (r: string)
    ensures |r| <= |s| && r == s[..|r|]
    ensures AllWs(s[|r|..])
    ensures r == [] || !IsWs(r[|r| - 1])
  {
    if |s| > 0 && IsWs(s[|s| - 1]) then
      var r := TrimEnd(s[..|s| - 1]);
      assert s[|r|..] == s[..|s| - 1][|r|..] + [s[|s| - 1]];
      r
    else s
  }

  /** A string with no whitespace at either end. */
  predicate IsTrimmed(s: string) {
    s == [] || (!IsWs(s[0]) && !IsWs(s[|s| - 1]))
  }

  /** `String.prototype.trim`: the text between the leading and the
      trailing whitespace. */
  function Trim(s: string): (r: string)
    ensures IsTrimmed(r)
  {
    TrimStart(TrimEnd(s))
  }

  lemma TrimStartOfNonWs(s: string)
    requires s == [] || !IsWs(s[0])
    ensures TrimStart(s) == s
  {
  }

  lemma TrimEndOfNonWs(s: string)
    requires s == [] || !IsWs(s[|s| - 1])
    ensures TrimEnd(s) == s
  {
  }

  /** Trimming leaves a trimmed string alone, so `Trim` is idempotent. */
  lemma TrimOfTrimmed(s: string)
    requires IsTrimmed(s)
    ensures Trim(s) == s
  {
    TrimEndOfNonWs(s);
    TrimStartOfNonWs(s);
  }

  lemma TrimIdempotent(s: string)
    ensures Trim(Trim(s)) == Trim(s)
  {
    TrimOfTrimmed(Trim(s));
  }

  /** A string that starts with a non-whitespace character trims to a
      non-empty string. */
  lemma TrimNonEmpty(s: string)
    requires |s| > 0 && !IsWs(s[0])
    ensures |Trim(s)| > 0
  {
    var e := TrimEnd(s);
    assert |e| > 0 by {
      assert !IsWs(s[|s| - |s[0..]|]);
    }
    TrimStartOfNonWs(e);
  }

  lemma {:induction false} TrimEndOfAllWs(s: string)
    requires AllWs(s)
    ensures TrimEnd(s) == []
    decreases |s|
  {
    if |s| > 0 {
      TrimEndOfAllWs(s[..|s| - 1]);
    }
  }

  /** A string trims to nothing exactly when it is all whitespace. */
  lemma TrimEmptyIff(s: string)
    ensures Trim(s) == [] <==> AllWs(s)
  {
    var e := TrimEnd(s);
    if AllWs(s) {
      TrimEndOfAllWs(s);
    }
    if Trim(s) == [] {
      assert AllWs(e) by {
        assert e[..|e| - |TrimStart(e)|] == e;
      }
      assert e == [];
      assert s[|e|..] == s;
    }
  }

  lemma {:induction false} TrimEndAppendWs(s: string, w: string)
    requires AllWs(w)
    ensures TrimEnd(s + w) == TrimEnd(s)
    decreases |w|
  {
    if |w| > 0 {
      var s' := s + w[..|w| - 1];
      assert (s + w)[..|s + w| - 1] == s';
      TrimEndAppendWs(s, w[..|w| - 1]);
    } else {
      assert s + w == s;
    }
  }

  /** Whitespace appended to a string disappears under `trim`. */
  lemma TrimAppendWs(s: string, w: string)
    requires AllWs(w)
    ensures Trim(s + w) == Trim(s)
  {
    TrimEndAppendWs(s, w);
  }

  lemma AppendAssoc(a: string, b: string, c: string)
    ensures a + b + c == a + (b + c)
  {
  }

  /** `Array.prototype.join`. */
  function Join(parts: seq<string>, sep: string): string
  {
    if |parts| == 0 then ""
    else if |parts| == 1 then parts[0]
    else parts[0] + sep + Join(parts[1..], sep)
  }

  /** How often `c` occurs in `s`. */
  function Count(c: char, s: string): (n: nat)
    ensures n <= |s|
    ensures n == 0 <==> c !in s
  {
    if |s| == 0 then 0
    else (if s[0] == c then 1 else 0) + Count(c, s[1..])
  }

  lemma {:induction false} CountAppend(c: char, a: string, b: string)
    ensures Count(c, a + b) == Count(c, a) + Count(c, b)
    decreases |a|
  {
    if |a| == 0 {
      assert a + b == b;
    } else {
      assert (a + b)[1..] == a[1..] + b;
      CountAppend(c, a[1..], b);
    }
  }
}
