/** The file intake (src/fileHandler.js): the table of supported
    extensions, extension and category lookup, the checks `handleFile`
    makes before reading a file, the choice and order of slides in a PPTX
    archive, and the joining of PDF page text. */
module FileHandler {
  import opened JsValues
  import opened Strings
  import opened StringLists

  // ---------------------------------------------------------------------
  // SUPPORTED_EXTENSIONS
  // ---------------------------------------------------------------------

  /** The keys of `SUPPORTED_EXTENSIONS`. */
  datatype Category = Presentation | Document | TextFile | Image

  /** The order of the keys, which `Object.entries` and `Object.values`
      follow. */
  const CategoryOrder: seq<Category> := [Presentation, Document, TextFile, Image]

  /** The extension list of each category. */
  function ExtensionsOf(c: Category): seq<string>
  {
    match c
    case Presentation => ["pptx"]
    case Document => ["pdf", "docx", "doc"]
    case TextFile => ["html", "htm", "txt"]
    case Image => ["jpg", "jpeg", "png"]
  }

  lemma EveryCategoryListed(c: Category)
    ensures c in CategoryOrder
  {
  }

  /** No extension belongs to two categories. */
  lemma ExtensionListsDisjoint(c1: Category, c2: Category, e: string)
    requires e in ExtensionsOf(c1) && e in ExtensionsOf(c2)
    ensures c1 == c2
  {
  }

  /** `Object.values(SUPPORTED_EXTENSIONS).flat()` over the categories `cats`. */
  function Flatten(cats: seq<Category>): (r: seq<string>)
    ensures forall e :: e in r <==> exists c :: c in cats && e in ExtensionsOf(c)
  {
    if |cats| == 0 then []
    else
      assert forall c :: c in cats <==> c == cats[0] || c in cats[1..];
      ExtensionsOf(cats[0]) + Flatten(cats[1..])
  }

  /** The loop of `getFileCategory`: the first category of `cats` whose
      list holds `ext`. */
  function FirstCategory(cats: seq<Category>, ext: string): (r: Option<Category>)
    ensures r.Some? ==> r.value in cats && ext in ExtensionsOf(r.value)
    ensures r.None? ==> forall c :: c in cats ==> ext !in ExtensionsOf(c)
  {
    if |cats| == 0 then None
    else if ext in ExtensionsOf(cats[0]) then Some(cats[0])
    else
      assert forall c :: c in cats ==> c == cats[0] || c in cats[1..];
      FirstCategory(cats[1..], ext)
  }

  /** `getFileCategory(extension)`: since the lists are disjoint, the
      category is the one whose list holds the lower-cased extension. */
  function GetFileCategory(extension: string): (r: Option<Category>)
    ensures forall c :: r == Some(c) <==> Lower(extension) in ExtensionsOf(c)
    ensures r.None? <==> forall c :: Lower(extension) !in ExtensionsOf(c)
  {
    var r := FirstCategory(CategoryOrder, Lower(extension));
    assert forall c :: r == Some(c) <==> Lower(extension) in ExtensionsOf(c) by {
      forall c
        ensures r == Some(c) <==> Lower(extension) in ExtensionsOf(c)
      {
        EveryCategoryListed(c);
        if r.Some? && Lower(extension) in ExtensionsOf(c) {
          ExtensionListsDisjoint(r.value, c, Lower(extension));
        }
      }
    }
    r
  }

  /** `isExtensionSupported(extension)`. */
  function IsExtensionSupported(extension: string): (b: bool)
    ensures b <==> exists c :: Lower(extension) in ExtensionsOf(c)
  {
    var all := Flatten(CategoryOrder);
    assert forall c :: Lower(extension) in ExtensionsOf(c) ==> Lower(extension) in all by {
      forall c | Lower(extension) in ExtensionsOf(c)
        ensures Lower(extension) in all
      {
        EveryCategoryListed(c);
      }
    }
    Lower(extension) in all
  }

  /** An extension is supported exactly when it has a category. */
  lemma SupportedIffCategory(extension: string)
    ensures IsExtensionSupported(extension) <==> GetFileCategory(extension).Some?
  {
    if IsExtensionSupported(extension) {
      var c :| Lower(extension) in ExtensionsOf(c);
      assert GetFileCategory(extension) == Some(c);
    }
  }

  /** Both lookups ignore the case of ASCII letters. */
  lemma LookupIgnoresCase(a: string, b: string)
    requires Lower(a) == Lower(b)
    ensures GetFileCategory(a) == GetFileCategory(b)
    ensures IsExtensionSupported(a) == IsExtensionSupported(b)
  {
    if GetFileCategory(a).Some? {
      assert GetFileCategory(b) == GetFileCategory(a);
    }
  }

  // ---------------------------------------------------------------------
  // getFileExtension
  // ---------------------------------------------------------------------

  /** `s.split(c)` for a one-character separator. */
  function Split(s: string, c: char): seq<string>
    decreases |s|
  {
    if |s| == 0 then [""]
    else
      var rest := Split(s[1..], c);
      if s[0] == c then [""] + rest
      else [[s[0]] + rest[0]] + rest[1..]
  }

  lemma {:induction false} SplitCount(s: string, c: char)
    ensures |Split(s, c)| == Count(c, s) + 1
    decreases |s|
  {
    if |s| > 0 {
      SplitCount(s[1..], c);
    }
  }

  lemma {:induction false} SplitPartsFree(s: string, c: char)
    ensures forall i :: 0 <= i < |Split(s, c)| ==> c !in Split(s, c)[i]
    decreases |s|
  {
    if |s| > 0 {
      SplitPartsFree(s[1..], c);
      SplitNonEmpty(s[1..], c);
      var rest := Split(s[1..], c);
      if s[0] != c {
        assert Split(s, c) == [[s[0]] + rest[0]] + rest[1..];
        assert c !in rest[0];
      }
    }
  }

  lemma {:induction false} SplitLast(s: string, c: char)
    ensures var parts := Split(s, c);
      && |parts| > 0
      && var last := parts[|parts| - 1];
      && |last| <= |s| && last == s[|s| - |last|..]
      && (|parts| == 1 ==> last == s)
      && (|parts| > 1 ==> |last| < |s| && s[|s| - |last| - 1] == c)
    decreases |s|
  {
    if |s| > 0 {
      SplitLast(s[1..], c);
      var rest := Split(s[1..], c);
      var parts := Split(s, c);
      var last := rest[|rest| - 1];
      assert s[|s| - |last|..] == s[1..][|s| - 1 - |last|..];
      if s[0] == c {
        assert parts == [""] + rest;
      } else {
        assert parts == [[s[0]] + rest[0]] + rest[1..];
        if |rest| == 1 {
          assert s == [s[0]] + s[1..];
        }
      }
    }
  }

  /** One part more than separators, none holding the separator; the last
      part is the longest suffix free of it. */
  lemma SplitSpec(s: string, c: char)
    ensures |Split(s, c)| == Count(c, s) + 1
    ensures forall i :: 0 <= i < |Split(s, c)| ==> c !in Split(s, c)[i]
    ensures var parts := Split(s, c);
      var last := parts[|parts| - 1];
      && |last| <= |s| && last == s[|s| - |last|..]
      && (|parts| == 1 ==> last == s)
      && (|parts| > 1 ==> |last| < |s| && s[|s| - |last| - 1] == c)
  {
    SplitCount(s, c);
    SplitPartsFree(s, c);
    SplitLast(s, c);
  }

  lemma SplitNonEmpty(s: string, c: char)
    ensures |Split(s, c)| > 0
  {
  }

  /** Joining the parts with the separator gives the string back. */
  lemma {:induction false} SplitJoin(s: string, c: char)
    ensures Join(Split(s, c), [c]) == s
    decreases |s|
  {
    if |s| > 0 {
      SplitJoin(s[1..], c);
      SplitNonEmpty(s[1..], c);
      var rest := Split(s[1..], c);
      var parts := Split(s, c);
      assert s == [s[0]] + s[1..];
      if s[0] == c {
        assert parts == [""] + rest;
        assert parts[1..] == rest;
        assert Join(parts, [c]) == "" + [c] + Join(rest, [c]);
      } else if |rest| == 1 {
        assert parts == [[s[0]] + rest[0]];
      } else {
        assert parts == [[s[0]] + rest[0]] + rest[1..];
        assert parts[1..] == rest[1..];
        assert Join(rest, [c]) == rest[0] + [c] + Join(rest[1..], [c]);
        assert Join(parts, [c]) == [s[0]] + rest[0] + [c] + Join(rest[1..], [c]);
      }
    }
  }

  /** `getFileExtension(filename)`: the lower-cased text after the last
      dot, or "" for a falsy or non-string name and a name without a dot. */
  function GetFileExtension(filename: Text): (r: string)
    ensures !IsNonEmptyString(filename) ==> r == ""
    ensures filename.TStr? && '.' !in filename.s ==> r == ""
    ensures '.' !in r
    ensures IsNonEmptyString(filename) && '.' in filename.s ==>
      exists k :: 0 <= k < |filename.s| && filename.s[k] == '.' && '.' !in filename.s[k + 1..]
        && r == Lower(filename.s[k + 1..])
  {
    if !IsNonEmptyString(filename) then ""
    else
      var s := filename.s;
      var parts := Split(s, '.');
      SplitSpec(s, '.');
      if |parts| > 1 then
        var last := parts[|parts| - 1];
        assert s[|s| - |last| - 1] == '.';
        assert s[|s| - |last| - 1 + 1..] == last;
        assert forall i :: 0 <= i < |last| ==> Lower(last)[i] != '.';
        Lower(last)
      else ""
  }

  /** In a stem, a dot and a dot-free extension, the last dot is the one
      after the stem. */
  lemma LastDotAfterStem(stem: string, ext: string, k: int)
    requires '.' !in ext
    requires 0 <= k < |stem + "." + ext| && (stem + "." + ext)[k] == '.'
    requires '.' !in (stem + "." + ext)[k + 1..]
    ensures k == |stem|
  {
    var s := stem + "." + ext;
    assert s[|stem|] == '.';
    assert forall j :: |stem| < j < |s| ==> s[j] == ext[j - |stem| - 1];
    assert forall j :: k < j < |s| ==> s[j] == s[k + 1..][j - k - 1];
  }

  /** A name made of a stem, a dot and a dot-free extension has that
      extension, lower-cased, whatever the stem holds. */
  lemma ExtensionOfName(stem: string, ext: string)
    requires '.' !in ext
    ensures GetFileExtension(TStr(stem + "." + ext)) == Lower(ext)
  {
    var s := stem + "." + ext;
    assert s[|stem|] == '.';
    var k :| 0 <= k < |s| && s[k] == '.' && '.' !in s[k + 1..] && GetFileExtension(TStr(s)) == Lower(s[k + 1..]);
    LastDotAfterStem(stem, ext, k);
    assert s[|stem| + 1..] == ext;
  }

  // ---------------------------------------------------------------------
  // handleFile, up to the first status callback
  // ---------------------------------------------------------------------

  /** What `handleFile` sees of a file before reading it: its `name`. */
  datatype FileRef = FileRef(name: Text)

  /** The status messages reported before the reading starts, and either
      the extension the reading dispatches on or the error thrown. */
  datatype Precheck = Precheck(statuses: seq<string>, result: Result<string>)

  /** The checks at the top of `handleFile(file, …)`, with `None` for a
      falsy file. */
  function HandleFilePrecheck(file: Option<FileRef>): (r: Precheck)
    ensures file.None? ==> r.result == Failure("No file provided")
    ensures r.result.Failure? ==> r.statuses == []
    ensures r.result.Success? ==> r.statuses == ["Reading..."]
    ensures r.result.Success? ==>
      r.result.value == GetFileExtension(file.value.name) && GetFileCategory(r.result.value).Some?
    ensures file.Some? && !IsExtensionSupported(GetFileExtension(file.value.name)) ==>
      r.result == Failure("Unsupported file type: ." + GetFileExtension(file.value.name))
  {
    if file.None? then Precheck([], Failure("No file provided"))
    else
      var extension := GetFileExtension(file.value.name);
      SupportedIffCategory(extension);
      if !IsExtensionSupported(extension) then Precheck([], Failure("Unsupported file type: ." + extension))
      else Precheck(["Reading..."], Success(extension))
  }

  /** A named file gets past the checks exactly when its extension has a
      category. */
  lemma PrecheckAcceptsIff(name: Text)
    ensures HandleFilePrecheck(Some(FileRef(name))).result.Success? <==>
      GetFileCategory(GetFileExtension(name)).Some?
  {
    SupportedIffCategory(GetFileExtension(name));
  }

  // ---------------------------------------------------------------------
  // extractFromPPTX: which archive entries are slides, and their order
  // ---------------------------------------------------------------------

  const SlidePrefix: string := "ppt/slides/slide"
  const SlideSuffix: string := ".xml"

  /** The number of digits from index `i` on: what a greedy `\d+` takes. */
  function DigitRun(s: string, i: nat): (n: nat)
    requires i <= |s|
    ensures i + n <= |s|
    ensures forall k :: i <= k < i + n ==> IsDigit(s[k])
    ensures i + n == |s| || !IsDigit(s[i + n])
    decreases |s| - i
  {
    if i < |s| && IsDigit(s[i]) then 1 + DigitRun(s, i + 1) else 0
  }

  /** `/ppt\/slides\/slide\d+\.xml/` matches at index `i`: the prefix,
      the run of digits there (one at least), and `.xml` right after it. */
  predicate SlideMatchAt(name: string, i: int) {
    && 0 <= i && i + |SlidePrefix| <= |name|
    && name[i..i + |SlidePrefix|] == SlidePrefix
    && var j := i + |SlidePrefix|;
       var n := DigitRun(name, j);
       n > 0 && j + n + |SlideSuffix| <= |name| && name[j + n..j + n + |SlideSuffix|] == SlideSuffix
  }

  /** The filter of `extractFromPPTX`: the pattern matches somewhere in
      the entry name (it is not anchored). */
  predicate IsSlidePath(name: string) {
    exists i :: 0 <= i <= |name| && SlideMatchAt(name, i)
  }

  /** `n` digits from index `j` on, then `.xml`. */
  predicate DigitsThenSuffix(name: string, j: int, n: int) {
    && 0 <= j && 0 < n && j + n + |SlideSuffix| <= |name|
    && (forall k :: j <= k < j + n ==> IsDigit(name[k]))
    && name[j + n..j + n + |SlideSuffix|] == SlideSuffix
  }

  /** Backtracking into `\d+` cannot help, because `\.` never matches a
      digit: the pattern matches at `i` exactly when some positive number
      of digits there is followed by `.xml`. */
  lemma SlideMatchAtIff(name: string, i: int, j: int)
    requires 0 <= i && j == i + |SlidePrefix| <= |name| && name[i..j] == SlidePrefix
    ensures SlideMatchAt(name, i) <==> exists n :: DigitsThenSuffix(name, j, n)
  {
    var m := DigitRun(name, j);
    if SlideMatchAt(name, i) {
      assert DigitsThenSuffix(name, j, m);
    }
    if n :| DigitsThenSuffix(name, j, n) {
      assert name[j + n] == name[j + n..j + n + |SlideSuffix|][0];
      assert n == m;
    }
  }

  /** `parseInt` of a string of decimal digits. */
  function DecimalValue(d: string): nat
  {
    if |d| == 0 then 0 else 10 * DecimalValue(d[..|d| - 1]) + (d[|d| - 1] as int - '0' as int) % 10
  }

  /** `s.match(/\d+/)[0]`: the leftmost run of digits, or "" when there
      is none (where `match` returns `null`). */
  function FirstDigits(s: string): (d: string)
    ensures AllDigits(d)
  {
    if |s| == 0 then ""
    else if IsDigit(s[0]) then s[..DigitRun(s, 0)]
    else FirstDigits(s[1..])
  }

  /** The sort key: the value of the first number in the entry name. */
  function SlideNumber(name: string): nat
  {
    DecimalValue(FirstDigits(name))
  }

  /** On every entry the filter keeps, `match(/\d+/)` finds digits, so the
      comparator never reads a field of `null`. */
  lemma {:induction false} SlidePathHasDigits(name: string)
    requires IsSlidePath(name)
    ensures FirstDigits(name) != ""
  {
    var i :| 0 <= i <= |name| && SlideMatchAt(name, i);
    HasDigitsFrom(name, i + |SlidePrefix|);
  }

  lemma {:induction false} HasDigitsFrom(s: string, j: nat)
    requires j < |s| && IsDigit(s[j])
    ensures FirstDigits(s) != ""
    decreases j
  {
    if !IsDigit(s[0]) {
      HasDigitsFrom(s[1..], j - 1);
    }
  }

  /** The prefix of a slide entry holds no digit. */
  lemma SlidePrefixHasNoDigit()
    ensures forall k :: 0 <= k < |SlidePrefix| ==> !IsDigit(SlidePrefix[k])
  {
  }

  lemma {:induction false} FirstDigitsSkipsPlain(p: string, s: string)
    requires forall k :: 0 <= k < |p| ==> !IsDigit(p[k])
    ensures FirstDigits(p + s) == FirstDigits(s)
    decreases |p|
  {
    if |p| > 0 {
      assert (p + s)[1..] == p[1..] + s;
      FirstDigitsSkipsPlain(p[1..], s);
    } else {
      assert p + s == s;
    }
  }

  /** A run of digits written at `j` and not followed by a digit is what
      `\d+` takes there. */
  lemma DigitRunOver(t: string, j: nat, d: string)
    requires j + |d| <= |t| && t[j..j + |d|] == d
    requires AllDigits(d)
    requires j + |d| == |t| || !IsDigit(t[j + |d|])
    ensures DigitRun(t, j) == |d|
  {
    assert forall k :: j <= k < j + |d| ==> t[k] == d[k - j];
  }

  /** Digits at the start, followed by a non-digit, are the first number. */
  lemma FirstDigitsOfLeading(d: string, x: string)
    requires |d| > 0 && AllDigits(d)
    requires x == [] || !IsDigit(x[0])
    ensures FirstDigits(d + x) == d
  {
    var t := d + x;
    assert t[0..|d|] == d;
    if x != [] {
      assert t[|d|] == x[0];
    }
    DigitRunOver(t, 0, d);
    assert t[..|d|] == d;
  }

  /** The entry `ppt/slides/slide<d>.xml` is a slide. */
  lemma SlidePathOf(d: string)
    requires |d| > 0 && AllDigits(d)
    ensures IsSlidePath(SlidePrefix + d + SlideSuffix)
  {
    var name := SlidePrefix + d + SlideSuffix;
    var j := |SlidePrefix|;
    assert name[j..j + |d|] == d;
    assert name[j + |d|] == '.';
    DigitRunOver(name, j, d);
    assert name[0..j] == SlidePrefix;
    assert name[j + |d|..j + |d| + |SlideSuffix|] == SlideSuffix;
    assert SlideMatchAt(name, 0);
  }

  /** The sort key of `ppt/slides/slide<d>.xml` is the value of `d`. */
  lemma SlideKeyOf(d: string)
    requires |d| > 0 && AllDigits(d)
    ensures SlideNumber(SlidePrefix + d + SlideSuffix) == DecimalValue(d)
  {
    SlidePrefixHasNoDigit();
    AppendAssoc(SlidePrefix, d, SlideSuffix);
    FirstDigitsSkipsPlain(SlidePrefix, d + SlideSuffix);
    FirstDigitsOfLeading(d, SlideSuffix);
  }

  /** The entry `ppt/slides/slide<d>.xml` is a slide whose number is the
      value of `d`. */
  lemma SlideNumberOf(d: string)
    requires |d| > 0 && AllDigits(d)
    ensures IsSlidePath(SlidePrefix + d + SlideSuffix)
    ensures SlideNumber(SlidePrefix + d + SlideSuffix) == DecimalValue(d)
  {
    SlidePathOf(d);
    SlideKeyOf(d);
  }

  function Pow10(n: nat): nat
  {
    if n == 0 then 1 else 10 * Pow10(n - 1)
  }

  lemma {:induction false} Pow10Monotone(m: nat, n: nat)
    requires m <= n
    ensures Pow10(m) <= Pow10(n)
    decreases n
  {
    if m < n {
      Pow10Monotone(m, n - 1);
    }
  }

  /** A number of `n` digits is below `10^n`. */
  lemma {:induction false} DecimalBelow(d: string)
    requires AllDigits(d)
    ensures DecimalValue(d) < Pow10(|d|)
    decreases |d|
  {
    if |d| > 0 {
      DecimalBelow(d[..|d| - 1]);
    }
  }

  /** A number of `n` digits without a leading zero is at least `10^(n-1)`. */
  lemma {:induction false} DecimalAtLeast(d: string)
    requires |d| > 0 && AllDigits(d) && d[0] != '0'
    ensures DecimalValue(d) >= Pow10(|d| - 1)
    decreases |d|
  {
    if |d| > 1 {
      var init := d[..|d| - 1];
      assert init[0] == d[0];
      DecimalAtLeast(init);
    } else {
      assert d[..0] == "";
    }
  }

  /** The sort key is numeric, not textual: a slide whose number has fewer
      digits (and no leading zero on the longer one) comes first, so slide
      2 sorts before slide 10, though "10" < "2" as text. */
  lemma NumericOrder(a: string, b: string)
    requires |a| > 0 && AllDigits(a) && AllDigits(b) && |a| < |b| && b[0] != '0'
    ensures SlideNumber(SlidePrefix + a + SlideSuffix) < SlideNumber(SlidePrefix + b + SlideSuffix)
  {
    SlideKeyOf(a);
    SlideKeyOf(b);
    DecimalBelow(a);
    DecimalAtLeast(b);
    Pow10Monotone(|a|, |b| - 1);
  }

  /** `s` is in ascending order of `key`. */
  predicate SortedByKey(s: seq<string>, key: string -> nat) {
    forall i, j :: 0 <= i < j < |s| ==> key(s[i]) <= key(s[j])
  }

  /** The names of `s` whose key is `n`, in the order of `s`. */
  function WithKey(s: seq<string>, key: string -> nat, n: nat): seq<string>
  {
    if |s| == 0 then []
    else (if key(s[0]) == n then [s[0]] else []) + WithKey(s[1..], key, n)
  }

  lemma {:induction false} WithKeyAppend(s: seq<string>, t: seq<string>, key: string -> nat, n: nat)
    ensures WithKey(s + t, key, n) == WithKey(s, key, n) + WithKey(t, key, n)
    decreases |s|
  {
    if |s| == 0 {
      assert s + t == t;
    } else {
      assert (s + t)[1..] == s[1..] + t;
      WithKeyAppend(s[1..], t, key, n);
    }
  }

  lemma {:induction false} WithKeyNone(s: seq<string>, key: string -> nat, n: nat)
    requires forall i :: 0 <= i < |s| ==> key(s[i]) != n
    ensures WithKey(s, key, n) == []
    decreases |s|
  {
    if |s| > 0 {
      WithKeyNone(s[1..], key, n);
    }
  }

  /** Insertion of one name into a sorted list, after every name whose key
      is not larger. */
  function Insert(x: string, s: seq<string>, key: string -> nat): seq<string>
  {
    if |s| == 0 then [x]
    else if key(x) < key(s[0]) then [x] + s
    else [s[0]] + Insert(x, s[1..], key)
  }

  lemma {:induction false} InsertElements(x: string, s: seq<string>, key: string -> nat)
    ensures multiset(Insert(x, s, key)) == multiset(s) + multiset{x}
    ensures forall y :: y in Insert(x, s, key) <==> y == x || y in s
    decreases |s|
  {
    if |s| > 0 && key(x) >= key(s[0]) {
      InsertElements(x, s[1..], key);
      assert s == [s[0]] + s[1..];
    }
  }

  lemma {:induction false} InsertSorted(x: string, s: seq<string>, key: string -> nat)
    requires SortedByKey(s, key)
    ensures SortedByKey(Insert(x, s, key), key)
    decreases |s|
  {
    if |s| > 0 && key(x) >= key(s[0]) {
      InsertSorted(x, s[1..], key);
      InsertElements(x, s[1..], key);
      var r := Insert(x, s[1..], key);
      assert Insert(x, s, key) == [s[0]] + r;
      forall y | y in r
        ensures key(s[0]) <= key(y)
      {
        if y != x {
          var k :| 0 <= k < |s[1..]| && s[1..][k] == y;
          assert y == s[k + 1];
        }
      }
    }
  }

  lemma {:induction false} InsertStable(x: string, s: seq<string>, key: string -> nat, n: nat)
    requires SortedByKey(s, key)
    ensures WithKey(Insert(x, s, key), key, n) == WithKey(s, key, n) + (if key(x) == n then [x] else [])
    decreases |s|
  {
    if |s| == 0 {
    } else if key(x) < key(s[0]) {
      assert ([x] + s)[1..] == s;
      if key(x) == n {
        WithKeyNone(s, key, n);
      }
    } else {
      InsertStable(x, s[1..], key, n);
      var r := Insert(x, s[1..], key);
      assert Insert(x, s, key) == [s[0]] + r;
      assert ([s[0]] + r)[1..] == r;
    }
  }

  /** A stable sort by `key`. */
  function SortByKey(s: seq<string>, key: string -> nat): seq<string>
  {
    if |s| == 0 then [] else Insert(s[|s| - 1], SortByKey(s[..|s| - 1], key), key)
  }

  /** The sort is ordered by key, a permutation, and stable: the names
      that share a key keep their input order. A stable sort is unique,
      so this is `Array.prototype.sort` with the comparator `numA - numB`. */
  lemma {:induction false} SortByKeySpec(s: seq<string>, key: string -> nat)
    ensures SortedByKey(SortByKey(s, key), key)
    ensures multiset(SortByKey(s, key)) == multiset(s)
    ensures forall n :: WithKey(SortByKey(s, key), key, n) == WithKey(s, key, n)
    decreases |s|
  {
    if |s| > 0 {
      var init, x := s[..|s| - 1], s[|s| - 1];
      SortByKeySpec(init, key);
      InsertSorted(x, SortByKey(init, key), key);
      InsertElements(x, SortByKey(init, key), key);
      assert s == init + [x];
      forall n
        ensures WithKey(SortByKey(s, key), key, n) == WithKey(s, key, n)
      {
        InsertStable(x, SortByKey(init, key), key, n);
        WithKeyAppend(init, [x], key, n);
      }
    }
  }

  /** The entries of the archive that are slides, in archive order. */
  function SlideEntries(names: seq<string>): (r: seq<string>)
    ensures IsSubsequence(r, names)
    ensures forall n :: n in r <==> n in names && IsSlidePath(n)
  {
    if |names| == 0 then []
    else
      var rest := SlideEntries(names[1..]);
      assert names == [names[0]] + names[1..];
      if IsSlidePath(names[0]) then
        assert ([names[0]] + rest)[1..] == rest;
        [names[0]] + rest
      else
        SubsequenceCons(rest, names[0], names[1..]);
        rest
  }

  /** The slide list `extractFromPPTX` reads, in reading order: the slide
      entries sorted stably by slide number. */
  function SlideOrder(names: seq<string>): (r: seq<string>)
    ensures forall n :: n in r <==> n in names && IsSlidePath(n)
    ensures SortedByKey(r, SlideNumber)
    ensures forall k :: WithKey(r, SlideNumber, k) == WithKey(SlideEntries(names), SlideNumber, k)
  {
    var slides := SlideEntries(names);
    SortByKeySpec(slides, SlideNumber);
    assert forall n :: n in SortByKey(slides, SlideNumber) <==> n in multiset(slides);
    SortByKey(slides, SlideNumber)
  }

  // ---------------------------------------------------------------------
  // extractFromPDF: joining the text of the pages
  // ---------------------------------------------------------------------

  /** The text of one page: its items joined by single spaces. */
  function PageTexts(pages: seq<seq<string>>): (r: seq<string>)
    ensures |r| == |pages|
    ensures forall i :: 0 <= i < |pages| ==> r[i] == Join(pages[i], " ")
  {
    seq(|pages|, i requires 0 <= i < |pages| => Join(pages[i], " "))
  }

  lemma {:induction false} JoinSnoc(parts: seq<string>, p: string, sep: string)
    requires |parts| > 0
    ensures Join(parts + [p], sep) == Join(parts, sep) + sep + p
    decreases |parts|
  {
    if |parts| == 1 {
      assert (parts + [p])[1..] == [p];
    } else {
      assert (parts + [p])[1..] == parts[1..] + [p];
      JoinSnoc(parts[1..], p, sep);
    }
  }

  /** The loop of `extractFromPDF` over the pages' item strings: each
      page's items joined by a space, each page followed by a space, and
      the whole trimmed. The result is the pages' texts joined by single
      spaces, trimmed. */
  method ExtractPdfText(pages: seq<seq<string>>) returns (text: string)
    ensures text == Trim(Join(PageTexts(pages), " "))
  {
    var acc := "";
    var i := 0;
    while i < |pages|
      invariant 0 <= i <= |pages|
      invariant i == 0 ==> acc == ""
      invariant i > 0 ==> acc == Join(PageTexts(pages[..i]), " ") + " "
    {
      var pageText := Join(pages[i], " ");
      if i > 0 {
        assert PageTexts(pages[..i + 1]) == PageTexts(pages[..i]) + [pageText];
        JoinSnoc(PageTexts(pages[..i]), pageText, " ");
      } else {
        assert PageTexts(pages[..1]) == [pageText];
      }
      acc := acc + pageText + " ";
      i := i + 1;
    }
    assert pages[..|pages|] == pages;
    if |pages| > 0 {
      TrimAppendWs(Join(PageTexts(pages), " "), " ");
    }
    text := Trim(acc);
  }
}
