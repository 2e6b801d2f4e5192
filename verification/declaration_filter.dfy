/**
  The filter `getModules` applies to the compiler's source files before
  collecting modules from them: declaration files (names ending in ".d.ts")
  carry no renderable structure and are dropped.

  tsviz tests `lastIndexOf(".d.ts") !== length - 5`, where both the index and
  the length count UTF-16 code units. For a name of exactly four code units
  the search cannot match, `lastIndexOf` answers -1, and -1 equals 4 - 5, so
  such a name ("a.ts") is dropped as well. `IsDeclarationFileAsWritten`
  models that test; `IsDeclarationFile` adds the missing check that a match
  was found.
 */
module DeclarationFilter {

  const DeclarationSuffix: string := ".d.ts"

  /** `pat` occurs in `s` starting at character position `k`. */
  ghost predicate OccursAt(s: string, pat: string, k: int)
  {
    0 <= k && k + |pat| <= |s| && s[k..k + |pat|] == pat
  }

  ghost predicate EndsWith(s: string, suffix: string)
  {
    |suffix| <= |s| && s[|s| - |suffix|..] == suffix
  }

  /** The UTF-16 code units of one character: two beyond U+FFFF, else one. */
  function CodeUnits(c: char): nat
  {
    if c as int > 0xFFFF then 2 else 1
  }

  /** JavaScript's `length` of a string: its number of UTF-16 code units. */
  function Utf16Length(s: string): nat
  {
    if |s| == 0 then 0 else CodeUnits(s[0]) + Utf16Length(s[1..])
  }

  lemma {:induction false} Utf16LengthAppend(a: string, b: string)
    ensures Utf16Length(a + b) == Utf16Length(a) + Utf16Length(b)
  {
    if |a| == 0 {
      assert a + b == b;
    } else {
      assert (a + b)[0] == a[0] && (a + b)[1..] == a[1..] + b;
      Utf16LengthAppend(a[1..], b);
    }
  }

  lemma {:induction false} Utf16LengthAtLeast(s: string)
    ensures Utf16Length(s) >= |s|
  {
    if |s| > 0 {
      Utf16LengthAtLeast(s[1..]);
    }
  }

  /** The last character position at or below `k` where `pat` occurs, or -1. */
  function LastIndexAtOrBelow(s: string, pat: string, k: int): (r: int)
    requires k <= |s| - |pat|
    ensures r == -1 || (0 <= r <= k && OccursAt(s, pat, r))
    ensures forall j :: r < j <= k ==> !OccursAt(s, pat, j)
    decreases k
  {
    if k < 0 then -1
    else if s[k..k + |pat|] == pat then k
    else LastIndexAtOrBelow(s, pat, k - 1)
  }

  /** The character position of the last occurrence of `pat` in `s`, or -1:
      the search begins at the last position where `pat` still fits. */
  function LastIndexOf(s: string, pat: string): (r: int)
    ensures r == -1 <==> forall j :: !OccursAt(s, pat, j)
    ensures r != -1 ==> OccursAt(s, pat, r) && forall j :: r < j ==> !OccursAt(s, pat, j)
  {
    LastIndexAtOrBelow(s, pat, |s| - |pat|)
  }

  /** `String.prototype.lastIndexOf` with no start position, as JavaScript
      answers it: the offset in UTF-16 code units of the last occurrence, or
      -1. A string here holds no lone surrogate, so a code-unit match of any
      pattern starts and ends where characters do, and the offset is the
      code-unit length of the text before the last match found by characters. */
  function LastIndexOfUnits(s: string, pat: string): (r: int)
    ensures r == -1 <==> forall j :: !OccursAt(s, pat, j)
    ensures r >= -1
    ensures r != -1 ==> exists k :: OccursAt(s, pat, k) && r == Utf16Length(s[..k])
                                     && forall j :: k < j ==> !OccursAt(s, pat, j)
  {
    var k := LastIndexOf(s, pat);
    if k == -1 then -1 else Utf16Length(s[..k])
  }

  /** Where the last ".d.ts" sits, in code units, compared with `length - 5`:
      exactly there when the name ends in ".d.ts", strictly before otherwise. */
  lemma LastSuffixOffset(fileName: string)
    ensures EndsWith(fileName, DeclarationSuffix)
        ==> LastIndexOfUnits(fileName, DeclarationSuffix) == Utf16Length(fileName) - |DeclarationSuffix|
    ensures !EndsWith(fileName, DeclarationSuffix)
        ==> (LastIndexOfUnits(fileName, DeclarationSuffix) == -1
             || LastIndexOfUnits(fileName, DeclarationSuffix) < Utf16Length(fileName) - |DeclarationSuffix|)
  {
    var n := |DeclarationSuffix|;
    var k := LastIndexOf(fileName, DeclarationSuffix);
    assert EndsWith(fileName, DeclarationSuffix) <==> OccursAt(fileName, DeclarationSuffix, |fileName| - n);
    if k != -1 {
      assert fileName == fileName[..k] + fileName[k..];
      Utf16LengthAppend(fileName[..k], fileName[k..]);
      if EndsWith(fileName, DeclarationSuffix) {
        assert k == |fileName| - n;
        assert fileName[k..] == DeclarationSuffix;
        assert Utf16Length(DeclarationSuffix) == 5;
      } else {
        assert k < |fileName| - n;
        Utf16LengthAtLeast(fileName[k..]);
      }
    }
  }

  /** The test in `getModules`, as written. */
  predicate IsDeclarationFileAsWritten(fileName: string)
    ensures IsDeclarationFileAsWritten(fileName)
        <==> EndsWith(fileName, DeclarationSuffix) || Utf16Length(fileName) == |DeclarationSuffix| - 1
  {
    LastSuffixOffset(fileName);
    LastIndexOfUnits(fileName, DeclarationSuffix) == Utf16Length(fileName) - |DeclarationSuffix|
  }

  /** The test with the missing check that a match was found. */
  predicate IsDeclarationFile(fileName: string)
    ensures IsDeclarationFile(fileName) <==> EndsWith(fileName, DeclarationSuffix)
    ensures Utf16Length(fileName) != |DeclarationSuffix| - 1
        ==> (IsDeclarationFile(fileName) <==> IsDeclarationFileAsWritten(fileName))
  {
    LastSuffixOffset(fileName);
    var i := LastIndexOfUnits(fileName, DeclarationSuffix);
    i >= 0 && i == Utf16Length(fileName) - |DeclarationSuffix|
  }

  /** "a.ts" does not end in ".d.ts", yet the test as written drops it, and
      the filter as written leaves nothing of `["a.ts"]`. */
  lemma AsWrittenDropsFourCharacterNames()
    ensures IsDeclarationFileAsWritten("a.ts")
    ensures !EndsWith("a.ts", DeclarationSuffix)
    ensures !IsDeclarationFile("a.ts")
    ensures KeptSourcesAsWritten(["a.ts"]) == [] && KeptSources(["a.ts"]) == ["a.ts"]
  {
    assert Utf16Length("a.ts") == 4;
    assert ["a.ts"][1..] == [];
  }

  /** The length the test compares with counts code units, not characters:
      a name of four characters can be kept and one of three dropped. */
  lemma AsWrittenCountsCodeUnits()
    ensures |"\U{1F600}.ts"| == 4 && !IsDeclarationFileAsWritten("\U{1F600}.ts")
    ensures |"\U{1F600}ab"| == 3 && IsDeclarationFileAsWritten("\U{1F600}ab")
  {
    assert Utf16Length("\U{1F600}.ts") == 5;
    assert Utf16Length("\U{1F600}ab") == 4;
  }

  /** `Array.prototype.filter`: the elements `keep` accepts, in their order. */
  function Filter(xs: seq<string>, keep: string -> bool): (r: seq<string>)
    ensures |r| <= |xs|
    ensures forall x :: x in r <==> x in xs && keep(x)
  {
    if |xs| == 0 then []
    else
      assert xs == [xs[0]] + xs[1..];
      (if keep(xs[0]) then [xs[0]] else []) + Filter(xs[1..], keep)
  }

  /** Filtering a concatenation filters each part: the kept elements keep
      their relative order and their repetitions. */
  lemma {:induction false} FilterAppend(xs: seq<string>, ys: seq<string>, keep: string -> bool)
    ensures Filter(xs + ys, keep) == Filter(xs, keep) + Filter(ys, keep)
  {
    if |xs| == 0 {
      assert xs + ys == ys;
    } else {
      var head := if keep(xs[0]) then [xs[0]] else [];
      assert (xs + ys)[0] == xs[0];
      assert (xs + ys)[1..] == xs[1..] + ys;
      FilterAppend(xs[1..], ys, keep);
      assert head + (Filter(xs[1..], keep) + Filter(ys, keep))
          == (head + Filter(xs[1..], keep)) + Filter(ys, keep);
    }
  }

  /** Two tests that agree on every element filter a list alike. */
  lemma {:induction false} FilterAgree(xs: seq<string>, p: string -> bool, q: string -> bool)
    requires forall x :: x in xs ==> p(x) == q(x)
    ensures Filter(xs, p) == Filter(xs, q)
  {
    if |xs| > 0 {
      assert xs[0] in xs;
      assert forall x :: x in xs[1..] ==> x in xs;
      FilterAgree(xs[1..], p, q);
    }
  }

  /** The files the test in `getModules` lets through, as written. */
  predicate IsKeptAsWritten(fileName: string)
  {
    !IsDeclarationFileAsWritten(fileName)
  }

  /** The files the corrected test lets through. */
  predicate IsKept(fileName: string)
  {
    !IsDeclarationFile(fileName)
  }

  /** The source files `getModules` goes on to collect, in their order. */
  function KeptSourcesAsWritten(fileNames: seq<string>): (r: seq<string>)
    ensures |r| <= |fileNames|
    ensures forall f :: (f in r <==>
      f in fileNames && !EndsWith(f, DeclarationSuffix) && Utf16Length(f) != |DeclarationSuffix| - 1)
  {
    Filter(fileNames, IsKeptAsWritten)
  }

  /** The filter as written keeps the relative order, and the repetitions,
      of the files it keeps. */
  lemma KeptSourcesAsWrittenAppend(a: seq<string>, b: seq<string>)
    ensures KeptSourcesAsWritten(a + b) == KeptSourcesAsWritten(a) + KeptSourcesAsWritten(b)
  {
    FilterAppend(a, b, IsKeptAsWritten);
  }

  /** Without names of four code units the two filters give the same list. */
  lemma KeptSourcesAgree(fileNames: seq<string>)
    requires forall f :: f in fileNames ==> Utf16Length(f) != |DeclarationSuffix| - 1
    ensures KeptSourcesAsWritten(fileNames) == KeptSources(fileNames)
  {
    FilterAgree(fileNames, IsKeptAsWritten, IsKept);
  }

  /** The corrected filter: the files that do not end in ".d.ts", in their order. */
  function KeptSources(fileNames: seq<string>): (r: seq<string>)
    ensures |r| <= |fileNames|
    ensures forall f :: f in r <==> f in fileNames && !EndsWith(f, DeclarationSuffix)
  {
    Filter(fileNames, IsKept)
  }

  /** The corrected filter keeps the relative order of the files it keeps. */
  lemma KeptSourcesAppend(a: seq<string>, b: seq<string>)
    ensures KeptSources(a + b) == KeptSources(a) + KeptSources(b)
  {
    FilterAppend(a, b, IsKept);
  }
}
