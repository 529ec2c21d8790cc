/** The parts of Python's `str` that the validators and the utilities rely on:
    `isspace` and `strip`, the whitespace trim pydantic applies to string fields,
    lower-casing, `find` / `in`, `replace(p, "")` and the deletion of characters. */
module Text {
  import opened Numbers

  /** Python's `str.isspace` on one character. */
  predicate IsSpace(c: char) {
    ('\t' <= c <= '\r') || ('\U{1C}' <= c <= '\U{1F}') || c == ' ' || c == '\U{85}' ||
    c == '\U{A0}' || c == '\U{1680}' || ('\U{2000}' <= c <= '\U{200A}') || c == '\U{2028}' ||
    c == '\U{2029}' || c == '\U{202F}' || c == '\U{205F}' || c == '\U{3000}'
  }

  /** Unicode White_Space, the class that pydantic's `str_strip_whitespace` trims:
      Python's whitespace without the separators U+001C..U+001F. */
  predicate IsWhiteSpace(c: char) {
    IsSpace(c) && !('\U{1C}' <= c <= '\U{1F}')
  }

  /** The length of the run of `space` characters that opens `s`. */
  function LeadingRun(s: string, space: char -> bool): (n: nat)
    ensures n <= |s|
    ensures forall i :: 0 <= i < n ==> space(s[i])
    ensures n == |s| || !space(s[n])
    decreases |s|
  {
    if s != [] && space(s[0]) then 1 + LeadingRun(s[1..], space) else 0
  }

  /** Where the run of `space` characters that closes `s` begins. */
  function TrailingStart(s: string, space: char -> bool): (n: nat)
    ensures n <= |s|
    ensures forall i :: n <= i < |s| ==> space(s[i])
    ensures n == 0 || !space(s[n - 1])
    decreases |s|
  {
    if s != [] && space(s[|s| - 1]) then TrailingStart(s[..|s| - 1], space) else |s|
  }

  /** `s.strip()` for the whitespace class `space`: the slice of `s` between the run of
      `space` characters that opens it and the run that closes it. */
  function StripBy(s: string, space: char -> bool): (r: string)
    ensures |r| <= |s|
    ensures r == [] || (!space(r[0]) && !space(r[|r| - 1]))
  {
    var k := LeadingRun(s, space);
    if k == |s| then [] else s[k..TrailingStart(s, space)]
  }

  /** What `strip` keeps is a slice of its argument. */
  lemma StripIsSlice(s: string, space: char -> bool)
    ensures LeadingRun(s, space) + |StripBy(s, space)| <= |s|
    ensures StripBy(s, space) == s[LeadingRun(s, space)..LeadingRun(s, space) + |StripBy(s, space)|]
  {
  }

  /** Python's `str.strip()`: the part of `s` after its leading whitespace, cut so that it
      neither starts nor ends with whitespace. */
  function Strip(s: string): (r: string)
    ensures |r| <= |s|
    ensures r == [] || (!IsSpace(r[0]) && !IsSpace(r[|r| - 1]))
    ensures LeadingRun(s, IsSpace) + |r| <= |s|
    ensures r == s[LeadingRun(s, IsSpace)..LeadingRun(s, IsSpace) + |r|]
  {
    StripIsSlice(s, IsSpace);
    StripBy(s, IsSpace)
  }

  /** The trim pydantic applies to every string field of a model that sets `str_strip_whitespace`:
      the part of `s` after its leading white space, cut so that it neither starts nor ends
      with white space. */
  function Trim(s: string): (r: string)
    ensures |r| <= |s|
    ensures r == [] || (!IsWhiteSpace(r[0]) && !IsWhiteSpace(r[|r| - 1]))
    ensures LeadingRun(s, IsWhiteSpace) + |r| <= |s|
    ensures r == s[LeadingRun(s, IsWhiteSpace)..LeadingRun(s, IsWhiteSpace) + |r|]
  {
    StripIsSlice(s, IsWhiteSpace);
    StripBy(s, IsWhiteSpace)
  }

  /** Whitespace up to `k` and from `j` on, around a core that neither starts nor ends with
      whitespace: stripping leaves exactly `s[k..j]`. */
  lemma {:induction false} StripByCut(s: string, k: nat, j: nat, space: char -> bool)
    requires k <= j <= |s|
    requires forall i :: 0 <= i < k ==> space(s[i])
    requires forall i :: j <= i < |s| ==> space(s[i])
    requires k == j || (!space(s[k]) && !space(s[j - 1]))
    ensures StripBy(s, space) == s[k..j]
  {
    var n := LeadingRun(s, space);
    if k == j {
      assert n == |s| by {
        if n < |s| && n >= k { }
      }
    } else {
      assert n == k;
      assert TrailingStart(s, space) == j;
    }
  }

  /** Every character of `s[lo..hi]` is a `space` character. */
  predicate Spaces(s: string, lo: nat, hi: nat, space: char -> bool)
    requires lo <= hi <= |s|
  {
    forall i :: lo <= i < hi ==> space(s[i])
  }

  /** Stripping the slice `s[k..m]`, cut out of `s` between runs of a narrower class of
      whitespace, gives what stripping `s` gives. */
  lemma StripInnerCut(s: string, k: nat, m: nat, narrow: char -> bool, wide: char -> bool)
    requires forall c :: narrow(c) ==> wide(c)
    requires k <= m <= |s|
    requires forall i :: 0 <= i < k ==> narrow(s[i])
    requires forall i :: m <= i < |s| ==> narrow(s[i])
    ensures StripBy(s[k..m], wide) == StripBy(s, wide)
  {
    forall i | 0 <= i < k ensures wide(s[i]) {
      assert narrow(s[i]);
    }
    forall i | m <= i < |s| ensures wide(s[i]) {
      assert narrow(s[i]);
    }
    assert Spaces(s, 0, k, wide) && Spaces(s, m, |s|, wide);
    if LeadingRun(s[k..m], wide) == m - k {
      StripInnerCutBlank(s, k, m, wide);
    } else {
      StripInnerCutCore(s, k, m, wide);
    }
  }

  /** `StripInnerCut` when the slice is all whitespace. */
  lemma StripInnerCutBlank(s: string, k: nat, m: nat, wide: char -> bool)
    requires k <= m <= |s|
    requires Spaces(s, 0, k, wide) && Spaces(s, m, |s|, wide)
    requires LeadingRun(s[k..m], wide) == m - k
    ensures StripBy(s[k..m], wide) == StripBy(s, wide)
  {
    assert Spaces(s[k..m], 0, m - k, wide);
    SliceRun(s, k, m, k, m, wide);
    forall i | 0 <= i < |s| ensures wide(s[i]) {
      if i < k {
        assert Spaces(s, 0, k, wide);
      } else if i < m {
        assert Spaces(s, k, m, wide);
      } else {
        assert Spaces(s, m, |s|, wide);
      }
    }
    StripByCut(s, |s|, |s|, wide);
  }

  /** `StripInnerCut` when the slice holds something other than whitespace. */
  lemma StripInnerCutCore(s: string, k: nat, m: nat, wide: char -> bool)
    requires k <= m <= |s|
    requires Spaces(s, 0, k, wide) && Spaces(s, m, |s|, wide)
    requires LeadingRun(s[k..m], wide) < m - k
    ensures StripBy(s[k..m], wide) == StripBy(s, wide)
  {
    var t := s[k..m];
    var a, b := StripBounds(t, wide);
    StripAroundSlice(s, k, m, a, b, wide);
    SliceOfSlice(s, k, m, a, b);
  }

  /** Where `strip` cuts a string that is not all whitespace. */
  lemma StripBounds(t: string, wide: char -> bool) returns (a: nat, b: nat)
    requires LeadingRun(t, wide) < |t|
    ensures a < b <= |t|
    ensures Spaces(t, 0, a, wide) && Spaces(t, b, |t|, wide)
    ensures !wide(t[a]) && !wide(t[b - 1])
    ensures StripBy(t, wide) == t[a..b]
  {
    a := LeadingRun(t, wide);
    b := TrailingStart(t, wide);
    assert !wide(t[a]);
    assert a < b;
  }

  /** Stripping `s` where `s[k..m]` is cut by `strip` at `a` and `b`, and `s` is
      whitespace outside `s[k..m]`. */
  lemma StripAroundSlice(s: string, k: nat, m: nat, a: nat, b: nat, wide: char -> bool)
    requires k <= m <= |s| && a < b <= m - k
    requires Spaces(s, 0, k, wide) && Spaces(s, m, |s|, wide)
    requires Spaces(s[k..m], 0, a, wide) && Spaces(s[k..m], b, m - k, wide)
    requires !wide(s[k..m][a]) && !wide(s[k..m][b - 1])
    ensures StripBy(s, wide) == s[k + a..k + b]
  {
    SliceRun(s, k, m, k, k + a, wide);
    SliceRun(s, k, m, k + b, m, wide);
    assert s[k + a] == s[k..m][a] && s[k + b - 1] == s[k..m][b - 1];
    StripAroundCore(s, k, m, k + a, k + b, wide);
  }

  /** A run of `space` characters in the slice `s[k..m]` is a run in `s`, shifted by `k`. */
  lemma SliceRun(s: string, k: nat, m: nat, lo: nat, hi: nat, space: char -> bool)
    requires k <= lo <= hi <= m <= |s|
    requires Spaces(s[k..m], lo - k, hi - k, space)
    ensures Spaces(s, lo, hi, space)
  {
    forall i | lo <= i < hi ensures space(s[i]) {
      assert s[i] == s[k..m][i - k];
    }
  }

  /** Whitespace outside `s[k..m]` and inside it before `a` and from `b` on, around a core
      `s[a..b]` that neither starts nor ends with whitespace: stripping leaves `s[a..b]`. */
  lemma StripAroundCore(s: string, k: nat, m: nat, a: nat, b: nat, wide: char -> bool)
    requires k <= a < b <= m <= |s|
    requires Spaces(s, 0, k, wide) && Spaces(s, m, |s|, wide)
    requires Spaces(s, k, a, wide) && Spaces(s, b, m, wide)
    requires !wide(s[a]) && !wide(s[b - 1])
    ensures StripBy(s, wide) == s[a..b]
  {
    forall i | 0 <= i < a ensures wide(s[i]) {
      if i < k {
        assert Spaces(s, 0, k, wide);
      } else {
        assert Spaces(s, k, a, wide);
      }
    }
    forall i | b <= i < |s| ensures wide(s[i]) {
      if i < m {
        assert Spaces(s, b, m, wide);
      } else {
        assert Spaces(s, m, |s|, wide);
      }
    }
    StripByCut(s, a, b, wide);
  }

  /** A slice of a slice is a slice of the whole. */
  lemma SliceOfSlice(s: string, k: nat, m: nat, a: nat, b: nat)
    requires k <= m <= |s| && a <= b <= m - k
    ensures s[k..m][a..b] == s[k + a..k + b]
  {
    var t := s[k..m];
    assert |t[a..b]| == |s[k + a..k + b]|;
    forall i | 0 <= i < b - a ensures t[a..b][i] == s[k + a..k + b][i] {
      assert t[a..b][i] == t[a + i] == s[k + a + i];
    }
  }

  /** Stripping a narrower class of whitespace first does not change what stripping a
      wider class gives. */
  lemma {:induction false} StripNarrowerFirst(s: string, narrow: char -> bool, wide: char -> bool)
    requires forall c :: narrow(c) ==> wide(c)
    ensures StripBy(StripBy(s, narrow), wide) == StripBy(s, wide)
  {
    var k := LeadingRun(s, narrow);
    if k == |s| {
      StripInnerCut(s, |s|, |s|, narrow, wide);
    } else {
      StripInnerCut(s, k, TrailingStart(s, narrow), narrow, wide);
    }
  }

  /** Python's `strip()` applied after pydantic's trim gives what `strip()` alone gives. */
  lemma StripAfterTrim(s: string)
    ensures Strip(Trim(s)) == Strip(s)
  {
    StripNarrowerFirst(s, IsWhiteSpace, IsSpace);
  }

  /** Lower-casing of one character, on the ASCII letters. */
  function LowerChar(c: char): char {
    if 'A' <= c <= 'Z' then (c as int + 32) as char else c
  }

  /** `str.lower()` on ASCII letters; every other character is kept as it is. */
  function Lower(s: string): (r: string)
    ensures |r| == |s|
    ensures forall i :: 0 <= i < |s| ==> r[i] == LowerChar(s[i])
  {
    seq(|s|, k requires 0 <= k < |s| => LowerChar(s[k]))
  }

  lemma LowerSlice(s: string, i: int, j: int)
    requires 0 <= i <= j <= |s|
    ensures Lower(s[i..j]) == Lower(s)[i..j]
  {
    var a, b := Lower(s[i..j]), Lower(s)[i..j];
    assert |a| == |b|;
    forall k | 0 <= k < j - i ensures a[k] == b[k] {
      calc {
        a[k];
        LowerChar(s[i..j][k]);
        LowerChar(s[i + k]);
        Lower(s)[i + k];
      }
    }
  }

  /** `p` occurs in `s` starting at position `i`. */
  predicate OccursAt(s: string, p: string, i: int) {
    0 <= i && i + |p| <= |s| && s[i..i + |p|] == p
  }

  lemma OccursAtShifts(s: string, p: string)
    requires s != []
    ensures forall j :: 1 <= j ==> (OccursAt(s, p, j) <==> OccursAt(s[1..], p, j - 1))
  {
  }

  lemma OccursAtShift(s: string, p: string, j: int)
    requires s != [] && j >= 1
    ensures OccursAt(s, p, j) <==> OccursAt(s[1..], p, j - 1)
  {
    if j + |p| <= |s| {
      var a, b := s[j..j + |p|], s[1..][j - 1..j - 1 + |p|];
      assert forall m :: 0 <= m < |a| ==> a[m] == b[m];
      assert a == b;
    }
  }

  /** Python's `s.find(p)`: the first position at which `p` occurs in `s`, or -1 when it
      occurs nowhere. */
  function Find(s: string, p: string): (i: int)
    ensures -1 <= i
    ensures i >= 0 ==> OccursAt(s, p, i)
    ensures forall j :: 0 <= j && (i < 0 || j < i) ==> !OccursAt(s, p, j)
    decreases |s|
  {
    if |p| > |s| then -1
    else if s[..|p|] == p then 0
    else
      var k := Find(s[1..], p);
      OccursAtShifts(s, p);
      if k < 0 then -1 else k + 1
  }

  /** Python's `p in s`: `p` occurs somewhere in `s`. */
  predicate Contains(s: string, p: string)
    ensures Contains(s, p) <==> exists i :: OccursAt(s, p, i)
  {
    Find(s, p) >= 0
  }

  lemma ContainsWitness(s: string, p: string, i: int)
    requires OccursAt(s, p, i)
    ensures Contains(s, p)
  {
  }

  /** An occurrence inside a slice is an occurrence in the whole string. */
  lemma ContainsInSlice(s: string, i: int, j: int, p: string)
    requires 0 <= i <= j <= |s|
    requires Contains(s[i..j], p)
    ensures Contains(s, p)
  {
    var k := Find(s[i..j], p);
    assert OccursAt(s[i..j], p, k);
    assert i + k + |p| <= j;
    forall t | 0 <= t < |p|
      ensures s[i + k..i + k + |p|][t] == p[t]
    {
      assert s[i..j][k..k + |p|][t] == p[t];
    }
    assert OccursAt(s, p, i + k);
    ContainsWitness(s, p, i + k);
  }

  /** A pattern whose first character occurs nowhere in `s` does not occur in `s`. */
  lemma AbsentFirstChar(s: string, p: string)
    requires p != []
    requires forall i :: 0 <= i < |s| ==> s[i] != p[0]
    ensures !Contains(s, p)
  {
    forall i | 0 <= i ensures !OccursAt(s, p, i) {
      if i + |p| <= |s| {
        assert s[i..i + |p|][0] == s[i];
      }
    }
  }

  /** An occurrence that lies inside a slice is an occurrence in the slice. */
  lemma OccursInSlice(s: string, a: int, b: int, p: string, i: int)
    requires 0 <= a <= i && i + |p| <= b <= |s|
    requires OccursAt(s, p, i)
    ensures OccursAt(s[a..b], p, i - a)
  {
    var x, y := s[a..b][i - a..i - a + |p|], s[i..i + |p|];
    assert forall m :: 0 <= m < |x| ==> x[m] == y[m];
    assert x == y;
  }

  /** Python's `s.replace(p, "")`: the non-overlapping occurrences of `p`, found scanning
      from the left, are deleted; what the deletions bring together is not scanned again. */
  function ReplaceAll(s: string, p: string): (r: string)
    requires p != []
    ensures |r| <= |s|
    ensures (|s| - |r|) % |p| == 0
    decreases |s|
  {
    if |s| < |p| then s
    else if s[..|p|] == p then
      var r := ReplaceAll(s[|p|..], p);
      AddModulus(|s| - |p| - |r|, |p|);
      r
    else
      assert s == [s[0]] + s[1..];
      [s[0]] + ReplaceAll(s[1..], p)
  }

  /** `replace` changes `s` exactly when `p` occurs in it. */
  lemma {:induction false} ReplaceAllUnchanged(s: string, p: string)
    requires p != []
    ensures ReplaceAll(s, p) == s <==> !Contains(s, p)
    decreases |s|
  {
    if |s| >= |p| && s[..|p|] != p {
      var t := s[1..];
      ReplaceAllUnchanged(t, p);
      assert s == [s[0]] + t;
      assert ReplaceAll(s, p) == [s[0]] + ReplaceAll(t, p);
      assert ReplaceAll(s, p) == s <==> ReplaceAll(t, p) == t by {
        if ReplaceAll(s, p) == s {
          assert ReplaceAll(s, p)[1..] == ReplaceAll(t, p);
        }
      }
    }
  }

  /** `replace` either changes nothing or makes the string strictly shorter. */
  lemma {:induction false} ReplaceAllShrinks(s: string, p: string)
    requires p != []
    ensures ReplaceAll(s, p) == s || |ReplaceAll(s, p)| < |s|
    decreases |s|
  {
    if |s| >= |p| && s[..|p|] != p {
      ReplaceAllShrinks(s[1..], p);
      assert s == [s[0]] + s[1..];
    }
  }

  /** Where `p` does not start at the head of `s`, `replace` keeps the head character. */
  lemma ReplaceKeepsHead(s: string, p: string)
    requires p != [] && s != [] && !OccursAt(s, p, 0)
    ensures ReplaceAll(s, p) == [s[0]] + ReplaceAll(s[1..], p)
  {
    assert s == [s[0]] + s[1..];
  }

  /** An occurrence of `p` at the head of `s` is deleted and the scan resumes after it. */
  lemma ReplaceDropsHead(p: string, t: string)
    requires p != []
    ensures ReplaceAll(p + t, p) == ReplaceAll(t, p)
  {
    assert (p + t)[..|p|] == p;
    assert (p + t)[|p|..] == t;
  }

  /** Where no occurrence of `p` starts before `k`, `replace` keeps `s[..k]` as it is. */
  lemma {:induction false} ReplaceKeepsPrefix(s: string, k: nat, p: string)
    requires p != [] && k <= |s|
    requires forall i :: 0 <= i < k ==> !OccursAt(s, p, i)
    ensures ReplaceAll(s, p) == s[..k] + ReplaceAll(s[k..], p)
    decreases k
  {
    if k > 0 {
      NoOccurrenceInTail(s, k, p);
      ReplaceKeepsPrefix(s[1..], k - 1, p);
      ReplaceKeepsPrefixStep(s, k, p);
    } else {
      assert s[k..] == s;
    }
  }

  /** No occurrence starting before `k` in `s`: none starting before `k - 1` in its tail. */
  lemma NoOccurrenceInTail(s: string, k: nat, p: string)
    requires 0 < k <= |s|
    requires forall i :: 0 <= i < k ==> !OccursAt(s, p, i)
    ensures forall i :: 0 <= i < k - 1 ==> !OccursAt(s[1..], p, i)
  {
    forall i | 0 <= i < k - 1 ensures !OccursAt(s[1..], p, i) {
      OccursAtShift(s, p, i + 1);
    }
  }

  /** One step of `ReplaceKeepsPrefix`: a head character that starts no occurrence is kept in
      front of what the tail keeps. */
  lemma ReplaceKeepsPrefixStep(s: string, k: nat, p: string)
    requires p != [] && 0 < k <= |s| && !OccursAt(s, p, 0)
    requires ReplaceAll(s[1..], p) == s[1..][..k - 1] + ReplaceAll(s[1..][k - 1..], p)
    ensures ReplaceAll(s, p) == s[..k] + ReplaceAll(s[k..], p)
  {
    var t := s[1..];
    ReplaceKeepsHead(s, p);
    assert t[k - 1..] == s[k..];
    var rest := ReplaceAll(s[k..], p);
    assert ReplaceAll(s, p) == [s[0]] + (t[..k - 1] + rest);
    assert [s[0]] + (t[..k - 1] + rest) == ([s[0]] + t[..k - 1]) + rest;
    assert [s[0]] + t[..k - 1] == s[..k];
  }

  /** `s` with every character of `cs` deleted. */
  function DeleteChars(s: string, cs: set<char>): (r: string)
    ensures |r| <= |s|
    ensures forall i :: 0 <= i < |r| ==> r[i] !in cs
  {
    if s == [] then [] else (if s[0] in cs then [] else [s[0]]) + DeleteChars(s[1..], cs)
  }

  /** Deleting characters that do not occur leaves the string as it is. */
  lemma {:induction false} DeleteCharsAbsent(s: string, cs: set<char>)
    ensures (forall i :: 0 <= i < |s| ==> s[i] !in cs) ==> DeleteChars(s, cs) == s
    decreases |s|
  {
    if s != [] {
      DeleteCharsAbsent(s[1..], cs);
      assert s == [s[0]] + s[1..];
    }
  }

  lemma {:induction false} DeleteCharsAppend(x: string, y: string, cs: set<char>)
    ensures DeleteChars(x + y, cs) == DeleteChars(x, cs) + DeleteChars(y, cs)
    decreases |x|
  {
    if x != [] {
      assert (x + y)[1..] == x[1..] + y;
      DeleteCharsAppend(x[1..], y, cs);
    } else {
      assert x + y == y;
    }
  }

  /** Deleting one set of characters and then another deletes their union. */
  lemma {:induction false} DeleteCharsTwice(s: string, a: set<char>, b: set<char>)
    ensures DeleteChars(DeleteChars(s, a), b) == DeleteChars(s, a + b)
    decreases |s|
  {
    if s != [] {
      var head := if s[0] in a then [] else [s[0]];
      DeleteCharsAppend(head, DeleteChars(s[1..], a), b);
      DeleteCharsTwice(s[1..], a, b);
      if s[0] !in a {
        assert DeleteChars(head, b) == DeleteChars([s[0]][1..], b) + (if s[0] in b then [] else [s[0]]) by {
          assert [s[0]][1..] == [];
        }
      }
    }
  }

  /** Replacing a one-character pattern deletes that character everywhere. */
  lemma {:induction false} ReplaceCharIsDelete(s: string, c: char)
    ensures ReplaceAll(s, [c]) == DeleteChars(s, {c})
    decreases |s|
  {
    if s != [] {
      assert s[..1] == [c] <==> s[0] == c;
      ReplaceCharIsDelete(s[1..], c);
    }
  }
}
