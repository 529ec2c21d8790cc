/** The string utilities of `src/utils.py`: `DataIntegrityChecker.sanitize_input`, the
    line-level checks of `DataIntegrityChecker.check_csv_integrity` and `format_currency`. */
module Utils {
  import opened Numbers
  import opened Results
  import opened Text

  // ---------------------------------------------------------------------------
  // sanitize_input

  /** Python's slice `value[:n]`: a negative `n` counts from the end. */
  function Truncate(value: string, n: int): (r: string)
    ensures |r| <= |value|
    ensures n >= 0 ==> |r| == (if n < |value| then n else |value|)
    ensures n < 0 ==> |r| == (if |value| + n > 0 then |value| + n else 0)
    ensures r == value[..|r|]
  {
    if n >= 0 then (if n < |value| then value[..n] else value)
    else if |value| + n > 0 then value[..|value| + n] else []
  }

  /** The patterns `sanitize_input` looks for, in the order it looks for them. */
  const DangerousPatterns: seq<string> := ["<script", "javascript:", "onerror=", "onload="]

  /** No pattern of the list is empty. */
  predicate NonEmptyPatterns(patterns: seq<string>) {
    forall k :: 0 <= k < |patterns| ==> patterns[k] != []
  }

  lemma DangerousPatternsNonEmpty()
    ensures NonEmptyPatterns(DangerousPatterns)
  {
    assert DangerousPatterns[0][0] == '<';
    assert DangerousPatterns[1][0] == 'j';
    assert DangerousPatterns[2][0] == 'o';
    assert DangerousPatterns[3][0] == 'o';
  }

  /** The pattern loop of `sanitize_input` after its first `k` rounds: each pattern that
      occurs in `lower` (the lower-cased value, computed once before the loop) has its
      exact-case occurrences deleted from `v`. */
  function RemoveDetected(v: string, lower: string, patterns: seq<string>): (r: string)
    requires NonEmptyPatterns(patterns)
    ensures |r| <= |v|
    ensures (forall k :: 0 <= k < |patterns| ==> !Contains(lower, patterns[k])) ==> r == v
    decreases |patterns|
  {
    if patterns == [] then v
    else
      var rest := RemoveDetected(v, lower, patterns[..|patterns| - 1]);
      var p := patterns[|patterns| - 1];
      if Contains(lower, p) then ReplaceAll(rest, p) else rest
  }

  /** One more pattern of the list: deleted where found. */
  lemma RemoveDetectedStep(v: string, lower: string, patterns: seq<string>, i: int)
    requires NonEmptyPatterns(patterns) && 0 <= i < |patterns|
    ensures NonEmptyPatterns(patterns[..i]) && NonEmptyPatterns(patterns[..i + 1])
    ensures var before := RemoveDetected(v, lower, patterns[..i]);
            RemoveDetected(v, lower, patterns[..i + 1])
              == if Contains(lower, patterns[i]) then ReplaceAll(before, patterns[i]) else before
  {
    var done := patterns[..i + 1];
    assert done[..i] == patterns[..i] && done[i] == patterns[i];
  }

  /** What `sanitize_input(value, max_length)` returns, for a string `value`: only a pattern
      that is detected and also occurs in its exact case changes anything, and then the value
      loses characters. */
  function SanitizedInput(value: string, maxLength: int): (r: string)
    ensures maxLength >= 0 ==> |r| <= maxLength
    ensures |r| <= |value|
    ensures r == [] || (!IsSpace(r[0]) && !IsSpace(r[|r| - 1]))
    ensures var t := Truncate(value, maxLength);
            (forall k :: 0 <= k < |DangerousPatterns| && Contains(Lower(t), DangerousPatterns[k])
                         ==> !Contains(t, DangerousPatterns[k]))
            ==> r == Strip(t)
    ensures var t := Truncate(value, maxLength);
            (exists k :: 0 <= k < |DangerousPatterns| && Contains(Lower(t), DangerousPatterns[k])
                         && Contains(t, DangerousPatterns[k]))
            ==> |r| < |t|
  {
    DangerousPatternsNonEmpty();
    var t := Truncate(value, maxLength);
    var kept := RemoveDetected(t, Lower(t), DangerousPatterns);
    RemoveDetectedUnchanged(t, Lower(t), DangerousPatterns);
    Strip(kept)
  }

  /** The pattern loop leaves the value as it is exactly when no detected pattern occurs in
      it in its exact case; otherwise the value gets shorter. */
  lemma {:induction false} RemoveDetectedUnchanged(v: string, lower: string, patterns: seq<string>)
    requires NonEmptyPatterns(patterns)
    ensures var r := RemoveDetected(v, lower, patterns); r == v || |r| < |v|
    ensures RemoveDetected(v, lower, patterns) == v <==>
              forall k :: 0 <= k < |patterns| && Contains(lower, patterns[k]) ==> !Contains(v, patterns[k])
    decreases |patterns|
  {
    if patterns != [] {
      var init := patterns[..|patterns| - 1];
      var p := patterns[|patterns| - 1];
      assert forall k :: 0 <= k < |init| ==> init[k] == patterns[k];
      RemoveDetectedUnchanged(v, lower, init);
      var rest := RemoveDetected(v, lower, init);
      if Contains(lower, p) {
        ReplaceAllUnchanged(rest, p);
        ReplaceAllShrinks(rest, p);
      }
    }
  }

  /** `DataIntegrityChecker.sanitize_input`: truncate, look for each pattern in the
      lower-cased value and delete it where found, strip. */
  method SanitizeInput(value: string, maxLength: int) returns (r: string)
    ensures r == SanitizedInput(value, maxLength)
  {
    DangerousPatternsNonEmpty();
    var v := Truncate(value, maxLength);
    var lower := Lower(v);
    var truncated := v;
    for i := 0 to |DangerousPatterns|
      invariant v == RemoveDetected(truncated, lower, DangerousPatterns[..i])
    {
      var pattern := DangerousPatterns[i];
      RemoveDetectedStep(truncated, lower, DangerousPatterns, i);
      if Contains(lower, pattern) {
        v := ReplaceAll(v, pattern);
      }
    }
    assert DangerousPatterns[..|DangerousPatterns|] == DangerousPatterns;
    r := Strip(v);
  }

  /** The input of `test_sanitize_input_removes_script_tags` in `tests/test_utils.py`: the
      opening `<script` is deleted, and the content and the closing tag remain. */
  lemma ScriptTagExample()
    ensures SanitizedInput("<script>alert('xss')</script>", 500) == ">alert('xss')</script>"
  {
    var v := "<script>alert('xss')</script>";
    var rest := ">alert('xss')</script>";
    ScriptTagLower();
    ScriptTagPatterns();
    ScriptTagStripped();
    SanitizedFromSteps(v, 500, rest);
  }

  /** A value within the length limit whose pattern loop leaves `kept`, which has no
      surrounding whitespace, is sanitised to `kept`. */
  lemma SanitizedFromSteps(value: string, maxLength: int, kept: string)
    requires 0 <= |value| <= maxLength
    requires NonEmptyPatterns(DangerousPatterns)
    requires RemoveDetected(value, Lower(value), DangerousPatterns) == kept
    requires Strip(kept) == kept
    ensures SanitizedInput(value, maxLength) == kept
  {
    assert Truncate(value, maxLength) == value;
  }

  /** What is left of the test input has no surrounding whitespace. */
  lemma ScriptTagStripped()
    ensures Strip(">alert('xss')</script>") == ">alert('xss')</script>"
  {
    var rest := ">alert('xss')</script>";
    StripByCut(rest, 0, |rest|, IsSpace);
  }

  /** The test input has no upper-case letter. */
  lemma ScriptTagLower()
    ensures Lower("<script>alert('xss')</script>") == "<script>alert('xss')</script>"
  {
  }

  /** Of the four patterns only `<script` is found in the test input, and deleting it leaves
      the rest, where the closing `</script` is no `<script`. */
  lemma ScriptTagPatterns()
    ensures NonEmptyPatterns(DangerousPatterns)
    ensures RemoveDetected("<script>alert('xss')</script>", "<script>alert('xss')</script>", DangerousPatterns)
              == ">alert('xss')</script>"
  {
    ScriptTagDeleted();
    ScriptTagUndetected();
    OnlyScriptDetected("<script>alert('xss')</script>", "<script>alert('xss')</script>");
  }

  /** When only `<script` is found, the pattern loop is one `replace` of it. */
  lemma OnlyScriptDetected(v: string, lower: string)
    requires Contains(lower, "<script")
    requires !Contains(lower, "javascript:") && !Contains(lower, "onerror=") && !Contains(lower, "onload=")
    ensures NonEmptyPatterns(DangerousPatterns)
    ensures RemoveDetected(v, lower, DangerousPatterns) == ReplaceAll(v, "<script")
  {
    DangerousPatternsNonEmpty();
    var once := ReplaceAll(v, "<script");
    assert DangerousPatterns[0] == "<script";
    RemoveDetectedStep(v, lower, DangerousPatterns, 0);
    assert RemoveDetected(v, lower, DangerousPatterns[..1]) == once;
    RemoveDetectedStep(v, lower, DangerousPatterns, 1);
    RemoveDetectedStep(v, lower, DangerousPatterns, 2);
    RemoveDetectedStep(v, lower, DangerousPatterns, 3);
    assert DangerousPatterns[..4] == DangerousPatterns;
  }

  /** The test input has no `j` and no `o`, so the other three patterns are not found. */
  lemma ScriptTagUndetected()
    ensures !Contains("<script>alert('xss')</script>", "javascript:")
    ensures !Contains("<script>alert('xss')</script>", "onerror=")
    ensures !Contains("<script>alert('xss')</script>", "onload=")
  {
    var v := "<script>alert('xss')</script>";
    assert forall i :: 0 <= i < |v| ==> v[i] != 'j' && v[i] != 'o';
    AbsentFirstChar(v, "javascript:");
    AbsentFirstChar(v, "onerror=");
    AbsentFirstChar(v, "onload=");
  }

  /** `replace("<script", "")` on the test input deletes its first seven characters only. */
  lemma ScriptTagDeleted()
    ensures Contains("<script>alert('xss')</script>", "<script")
    ensures ReplaceAll("<script>alert('xss')</script>", "<script") == ">alert('xss')</script>"
  {
    var rest := ">alert('xss')</script>";
    ScriptTagSplit();
    ScriptTagRest();
    ReplaceAllUnchanged(rest, "<script");
    ReplaceDropsHead("<script", rest);
    ContainsWitness("<script>alert('xss')</script>", "<script", 0);
  }

  /** The test input is the opening `<script` and the rest. */
  lemma ScriptTagSplit()
    ensures "<script>alert('xss')</script>" == "<script" + ">alert('xss')</script>"
  {
  }

  /** What follows the opening tag holds no `<script`: its one `<` opens `</script`. */
  lemma ScriptTagRest()
    ensures !Contains(">alert('xss')</script>", "<script")
  {
    ScriptTagRestChars(">alert('xss')</script>");
    NoOpenTag(">alert('xss')</script>");
  }

  lemma ScriptTagRestChars(s: string)
    requires s == ">alert('xss')</script>"
    ensures forall i :: 0 <= i < |s| - 1 && s[i] == '<' ==> s[i + 1] != 's'
  {
  }

  /** A string in which no `<` is followed by an `s` holds no `<script`. */
  lemma NoOpenTag(s: string)
    requires forall i :: 0 <= i < |s| - 1 && s[i] == '<' ==> s[i + 1] != 's'
    ensures !Contains(s, "<script")
  {
    forall i | 0 <= i ensures !OccursAt(s, "<script", i) {
      if i + 7 <= |s| {
        assert s[i..i + 7][0] == s[i];
        assert s[i..i + 7][1] == s[i + 1];
      }
    }
  }

  /** No character of `s` lower-cases to `<`, `j` or `o`, the first characters of the
      dangerous patterns. */
  predicate Plain(s: string) {
    forall i :: 0 <= i < |s| ==> LowerChar(s[i]) != '<' && LowerChar(s[i]) != 'j' && LowerChar(s[i]) != 'o'
  }

  /** A plain value holds no dangerous pattern, in any case. */
  lemma NoPatternInPlain(s: string)
    requires Plain(s)
    ensures forall k :: 0 <= k < |DangerousPatterns| ==> !Contains(Lower(s), DangerousPatterns[k])
    ensures forall k :: 0 <= k < |DangerousPatterns| ==> !Contains(s, DangerousPatterns[k])
  {
    DangerousPatternsNonEmpty();
    forall k | 0 <= k < |DangerousPatterns|
      ensures !Contains(Lower(s), DangerousPatterns[k]) && !Contains(s, DangerousPatterns[k])
    {
      var p := DangerousPatterns[k];
      assert p[0] == '<' || p[0] == 'j' || p[0] == 'o';
      AbsentFirstChar(Lower(s), p);
      AbsentFirstChar(s, p);
    }
  }

  /** Patterns that do not occur in their exact case delete nothing, found or not. */
  lemma {:induction false} RemoveDetectedKeeps(v: string, lower: string, patterns: seq<string>)
    requires NonEmptyPatterns(patterns)
    requires forall k :: 0 <= k < |patterns| ==> !Contains(v, patterns[k])
    ensures RemoveDetected(v, lower, patterns) == v
    decreases |patterns|
  {
    if patterns != [] {
      var front := patterns[..|patterns| - 1];
      assert forall k :: 0 <= k < |front| ==> front[k] == patterns[k];
      RemoveDetectedKeeps(v, lower, front);
      ReplaceAllUnchanged(v, patterns[|patterns| - 1]);
    }
  }

  /** A plain value without whitespace is only truncated (as in
      `test_sanitize_input_truncates_long_strings` of `tests/test_utils.py`, where a
      thousand `A`s cut to a hundred stay a hundred long). */
  lemma SanitizeInputKeepsPlain(value: string, maxLength: int)
    requires Plain(value)
    requires forall i :: 0 <= i < |value| ==> !IsSpace(value[i])
    ensures SanitizedInput(value, maxLength) == Truncate(value, maxLength)
  {
    var t := Truncate(value, maxLength);
    assert forall i :: 0 <= i < |t| ==> t[i] == value[i];
    NoPatternInPlain(t);
    StripByCut(t, 0, |t|, IsSpace);
  }

  /** Blanks around a plain value are stripped (`test_sanitize_input_basic` in
      `tests/test_utils.py`: `"  Test String  "`). */
  lemma SanitizeInputStripsPadding(core: string, maxLength: int)
    requires core != [] && !IsSpace(core[0]) && !IsSpace(core[|core| - 1]) && Plain(core)
    requires maxLength >= |core| + 4
    ensures SanitizedInput("  " + core + "  ", maxLength) == core
  {
    var v := "  " + core + "  ";
    assert Plain(v) by {
      assert forall i :: 2 <= i < 2 + |core| ==> v[i] == core[i - 2];
    }
    NoPatternInPlain(v);
    StripByCut(v, 2, 2 + |core|, IsSpace);
    assert v[2..2 + |core|] == core;
  }

  // Findings: the patterns are looked for case-insensitively but deleted case-sensitively,
  // in one pass.

  /** A pattern written in upper case (`"<SCRIPT>alert(1)"`, say) is found but nothing is
      deleted: the value comes back with the pattern still in it. */
  lemma UpperCaseScriptSurvives(tail: string, maxLength: int)
    requires Plain(tail) && (tail == [] || !IsSpace(tail[|tail| - 1]))
    requires maxLength >= 7 + |tail|
    ensures SanitizedInput("<SCRIPT" + tail, maxLength) == "<SCRIPT" + tail
    ensures Contains(Lower(SanitizedInput("<SCRIPT" + tail, maxLength)), "<script")
  {
    DangerousPatternsNonEmpty();
    var v := "<SCRIPT" + tail;
    assert Truncate(v, maxLength) == v;
    UpperScriptExactCase(tail);
    RemoveDetectedKeeps(v, Lower(v), DangerousPatterns);
    StripByCut(v, 0, |v|, IsSpace);
    UpperScriptFound(tail);
  }

  /** `"<SCRIPT" + tail` holds none of the patterns in their exact case. */
  lemma UpperScriptExactCase(tail: string)
    requires Plain(tail)
    ensures forall k :: 0 <= k < |DangerousPatterns| ==> !Contains("<SCRIPT" + tail, DangerousPatterns[k])
  {
    var v := "<SCRIPT" + tail;
    assert forall i :: 7 <= i < |v| ==> v[i] == tail[i - 7];
    assert forall i :: 1 <= i < |v| ==> v[i] != '<';
    forall i | 0 <= i ensures !OccursAt(v, "<script", i) {
      if i + 7 <= |v| {
        assert v[i..i + 7][0] == v[i];
        assert v[i..i + 7][1] == v[i + 1];
      }
    }
    assert forall i :: 0 <= i < |v| ==> v[i] != 'j' && v[i] != 'o';
    forall k | 0 <= k < |DangerousPatterns| ensures !Contains(v, DangerousPatterns[k]) {
      if k > 0 {
        AbsentFirstChar(v, DangerousPatterns[k]);
      }
    }
  }

  /** Lower-cased, `"<SCRIPT" + tail` holds `"<script"`. */
  lemma UpperScriptFound(tail: string)
    ensures Contains(Lower("<SCRIPT" + tail), "<script")
  {
    var lower := Lower("<SCRIPT" + tail);
    assert lower[..7] == "<script";
    ContainsWitness(lower, "<script", 0);
  }

  /** Deleting one occurrence brings two halves of a pattern together: `"<scr<scriptipt>"`
      comes back as `"<script>"`. */
  lemma SplicedScriptReassembles(tail: string, maxLength: int)
    requires Plain(tail) && (tail == [] || !IsSpace(tail[|tail| - 1]))
    requires maxLength >= 14 + |tail|
    ensures SanitizedInput("<scr<scriptipt" + tail, maxLength) == "<script" + tail
    ensures Contains(Lower(SanitizedInput("<scr<scriptipt" + tail, maxLength)), "<script")
  {
    var p := "<script";
    var v := "<scr<scriptipt" + tail;
    var r := "<script" + tail;
    SplicedReplace(tail);
    SpliceDetected(tail);
    LaterPatternsAbsent(tail);
    RemoveDetectedFirst(v, Lower(v));
    assert r[0] == '<' && r[|r| - 1] == (if tail == [] then 't' else tail[|tail| - 1]);
    StripByCut(r, 0, |r|, IsSpace);
    ScriptAtHead(tail);
  }

  /** Only the first pattern does anything when the others occur in neither case after
      its deletion. */
  lemma RemoveDetectedFirst(v: string, lower: string)
    requires Contains(lower, "<script")
    requires forall k :: 1 <= k < |DangerousPatterns| ==> !Contains(ReplaceAll(v, "<script"), DangerousPatterns[k])
    ensures NonEmptyPatterns(DangerousPatterns)
    ensures RemoveDetected(v, lower, DangerousPatterns) == ReplaceAll(v, "<script")
  {
    DangerousPatternsNonEmpty();
    var r := ReplaceAll(v, "<script");
    ReplaceAllUnchanged(r, DangerousPatterns[1]);
    ReplaceAllUnchanged(r, DangerousPatterns[2]);
    ReplaceAllUnchanged(r, DangerousPatterns[3]);
    assert DangerousPatterns[..1][..0] == [];
    assert RemoveDetected(v, lower, DangerousPatterns[..1]) == r;
    assert DangerousPatterns[..2][..1] == DangerousPatterns[..1];
    assert RemoveDetected(v, lower, DangerousPatterns[..2]) == r;
    assert DangerousPatterns[..3][..2] == DangerousPatterns[..2];
    assert RemoveDetected(v, lower, DangerousPatterns[..3]) == r;
    assert DangerousPatterns[..4][..3] == DangerousPatterns[..3];
    assert DangerousPatterns[..4] == DangerousPatterns;
  }

  lemma SpliceDetected(tail: string)
    ensures Contains(Lower("<scr<scriptipt" + tail), "<script")
  {
    var v := "<scr<scriptipt" + tail;
    assert v[4..11] == "<script";
    LowerSlice(v, 4, 11);
    assert Lower("<script") == "<script";
    assert Contains("<script", "<script");
    ContainsInSlice(Lower(v), 4, 11, "<script");
  }

  lemma LaterPatternsAbsent(tail: string)
    requires Plain(tail)
    ensures forall k :: 1 <= k < |DangerousPatterns| ==> !Contains("<script" + tail, DangerousPatterns[k])
  {
    var r := "<script" + tail;
    PlainChars(tail);
    assert forall i :: 7 <= i < |r| ==> r[i] == tail[i - 7];
    assert forall i :: 0 <= i < |r| ==> r[i] != 'j' && r[i] != 'o';
    AbsentFirstChar(r, DangerousPatterns[1]);
    AbsentFirstChar(r, DangerousPatterns[2]);
    AbsentFirstChar(r, DangerousPatterns[3]);
  }

  lemma ScriptAtHead(tail: string)
    ensures Contains(Lower("<script" + tail), "<script")
  {
    var r := "<script" + tail;
    assert r[0..7] == "<script";
    LowerSlice(r, 0, 7);
    assert Lower("<script") == "<script";
    assert Contains("<script", "<script");
    ContainsInSlice(Lower(r), 0, 7, "<script");
  }

  /** The one `replace` of the spliced example: the occurrence at 4 goes, the halves
      around it meet. */
  lemma SplicedReplace(tail: string)
    requires Plain(tail)
    ensures ReplaceAll("<scr<scriptipt" + tail, "<script") == "<script" + tail
  {
    var p := "<script";
    var u := "ipt" + tail;
    SpliceJoin(tail);
    SpliceShape(u);
    var v := "<scr" + (p + u);
    ReplaceKeepsPrefix(v, 4, p);
    ReplaceDropsHead(p, u);
    PlainConcat("ipt", tail);
    PlainChars(u);
    AbsentFirstChar(u, p);
    ReplaceAllUnchanged(u, p);
  }

  lemma SpliceJoin(tail: string)
    ensures "<scr<scriptipt" + tail == "<scr" + ("<script" + ("ipt" + tail))
    ensures "<scr" + ("ipt" + tail) == "<script" + tail
  {
  }

  /** Before position 4 of `"<scr<script..."` no occurrence of `"<script"` starts. */
  lemma SpliceShape(u: string)
    ensures var v := "<scr" + ("<script" + u);
            v[..4] == "<scr" && v[4..] == "<script" + u
            && forall i :: 0 <= i < 4 ==> !OccursAt(v, "<script", i)
  {
    var v := "<scr" + ("<script" + u);
    forall i | 0 <= i < 4 ensures !OccursAt(v, "<script", i) {
      if i == 0 {
        assert v[0..7][4] == v[4];
      } else {
        assert v[i..i + 7][0] == v[i];
      }
    }
  }

  lemma PlainConcat(a: string, b: string)
    requires Plain(a) && Plain(b)
    ensures Plain(a + b)
  {
    assert forall i :: |a| <= i < |a + b| ==> (a + b)[i] == b[i - |a|];
  }

  /** A plain string holds no `<`, `j` or `o` itself. */
  lemma PlainChars(s: string)
    requires Plain(s)
    ensures forall i :: 0 <= i < |s| ==> s[i] != '<' && s[i] != 'j' && s[i] != 'o'
  {
  }

  /** The first pattern of the list that occurs in `lower`. */
  function Detected(lower: string, patterns: seq<string>): (r: Option<string>)
    ensures r.None? ==> forall k :: 0 <= k < |patterns| ==> !Contains(lower, patterns[k])
    ensures r.Some? ==> r.value in patterns && Contains(lower, r.value)
    ensures (forall k :: 0 <= k < |patterns| ==> !Contains(lower, patterns[k])) ==> r.None?
    decreases |patterns|
  {
    if patterns == [] then None
    else if Contains(lower, patterns[0]) then Some(patterns[0])
    else Detected(lower, patterns[1..])
  }

  /** Delete the first case-insensitive occurrence of a dangerous pattern, again and again,
      until none is left. */
  function Purge(v: string): (r: string)
    ensures |r| <= |v|
    ensures forall k :: 0 <= k < |DangerousPatterns| ==> !Contains(Lower(r), DangerousPatterns[k])
    decreases |v|
  {
    var lower := Lower(v);
    match Detected(lower, DangerousPatterns)
    case None => v
    case Some(p) =>
      DangerousPatternsNonEmpty();
      var j := Find(lower, p);
      Purge(v[..j] + v[j + |p|..])
  }

  /** `sanitize_input` as its tests expect it to behave: no dangerous pattern, in any case,
      is left in the result. */
  function SanitizeInputIntended(value: string, maxLength: int): (r: string)
    ensures maxLength >= 0 ==> |r| <= maxLength
    ensures r == [] || (!IsSpace(r[0]) && !IsSpace(r[|r| - 1]))
    ensures forall k :: 0 <= k < |DangerousPatterns| ==> !Contains(Lower(r), DangerousPatterns[k])
  {
    var p := Purge(Truncate(value, maxLength));
    PatternFreeAfterStrip(p);
    Strip(p)
  }

  /** Stripping keeps a pattern-free value pattern-free. */
  lemma PatternFreeAfterStrip(p: string)
    requires forall k :: 0 <= k < |DangerousPatterns| ==> !Contains(Lower(p), DangerousPatterns[k])
    ensures forall k :: 0 <= k < |DangerousPatterns| ==> !Contains(Lower(Strip(p)), DangerousPatterns[k])
  {
    var r := Strip(p);
    StripIsSlice(p, IsSpace);
    var a := LeadingRun(p, IsSpace);
    var b := a + |r|;
    assert r == p[a..b];
    LowerSlice(p, a, b);
    var lp := Lower(p);
    assert Lower(r) == lp[a..b];
    forall k | 0 <= k < |DangerousPatterns| ensures !Contains(Lower(r), DangerousPatterns[k]) {
      if Contains(lp[a..b], DangerousPatterns[k]) {
        ContainsInSlice(lp, a, b, DangerousPatterns[k]);
      }
    }
  }

  /** Where `sanitize_input` finds no pattern, the intended behaviour is what it does. */
  lemma IntendedAgreesWhenClean(value: string, maxLength: int)
    requires forall k :: 0 <= k < |DangerousPatterns| ==> !Contains(Lower(Truncate(value, maxLength)), DangerousPatterns[k])
    ensures SanitizeInputIntended(value, maxLength) == SanitizedInput(value, maxLength)
  {
  }

  // ---------------------------------------------------------------------------
  // check_csv_integrity

  /** The `checks` dictionary of `check_csv_integrity`. */
  datatype IntegrityReport = IntegrityReport(
    fileExists: bool,
    isReadable: bool,
    hasHeader: bool,
    rowCount: int,
    issues: seq<string>)

  /** What reading the file gave: its lines (each with its line terminator, as
      `readlines` gives them), or the message of the exception raised. */
  datatype ReadOutcome = Lines(lines: seq<string>) | ReadFailed(message: string)

  /** The column names of which the header must mention one. */
  const RequiredColumns: seq<string> := ["date", "merchant", "amount"]

  /** `any(col in header_lower for col in required_columns)`: some column is mentioned. */
  predicate MentionsAny(headerLower: string, columns: seq<string>)
    ensures MentionsAny(headerLower, columns) <==>
              exists k :: 0 <= k < |columns| && Contains(headerLower, columns[k])
    decreases |columns|
  {
    columns != [] && (Contains(headerLower, columns[0]) || MentionsAny(headerLower, columns[1..]))
  }

  /** The header test of `check_csv_integrity` on the first line of the file. */
  predicate HasRequiredColumn(firstLine: string)
    ensures HasRequiredColumn(firstLine) <==> MentionsAny(Lower(firstLine), RequiredColumns)
  {
    RequiredColumnsTrimmed();
    MentionsAnyIgnoresStrip(firstLine, RequiredColumns);
    MentionsAny(Lower(Strip(firstLine)), RequiredColumns)
  }

  /** `DataIntegrityChecker.check_csv_integrity`, given whether the file exists and what
      reading it gave. */
  method CheckCsvIntegrity(fileExists: bool, read: ReadOutcome) returns (checks: IntegrityReport)
    ensures checks.fileExists == fileExists
    ensures !fileExists ==> checks == IntegrityReport(false, false, false, 0, ["File does not exist"])
    ensures fileExists && read.ReadFailed? ==>
              checks == IntegrityReport(true, false, false, 0, ["Error reading file: " + read.message])
    ensures fileExists && read.Lines? ==>
              checks.isReadable && checks.rowCount == |read.lines| - 1
              && (checks.hasHeader <==> read.lines != [] && HasRequiredColumn(read.lines[0]))
              && checks.issues == (if checks.hasHeader || read.lines == [] then [] else ["Missing required columns in header"])
  {
    checks := IntegrityReport(fileExists, false, false, 0, []);
    if !checks.fileExists {
      checks := checks.(issues := checks.issues + ["File does not exist"]);
      return;
    }
    match read
    case ReadFailed(message) =>
      checks := checks.(issues := checks.issues + ["Error reading file: " + message]);
    case Lines(lines) =>
      checks := checks.(isReadable := true);
      checks := checks.(rowCount := |lines| - 1);
      if lines != [] {
        var header := Strip(lines[0]);
        var headerLower := Lower(header);
        checks := checks.(hasHeader := MentionsAny(headerLower, RequiredColumns));
        if !checks.hasHeader {
          checks := checks.(issues := checks.issues + ["Missing required columns in header"]);
        }
      }
  }

  /** `LowerChar` keeps whitespace as whitespace, and nothing else becomes whitespace. */
  lemma LowerCharSpace(c: char)
    ensures IsSpace(LowerChar(c)) <==> IsSpace(c)
  {
  }

  /** A name that starts and ends with a non-space occurs in the lower-cased stripped line exactly when it
      occurs in the lower-cased line: the `strip()` of the header changes nothing. */
  lemma StripKeepsColumn(line: string, col: string)
    requires col != [] && !IsSpace(col[0]) && !IsSpace(col[|col| - 1])
    ensures Contains(Lower(Strip(line)), col) <==> Contains(Lower(line), col)
  {
    if Contains(Lower(Strip(line)), col) {
      StrippedColumnInLine(line, col);
    }
    if Contains(Lower(line), col) {
      ColumnInsideStrip(line, col, Find(Lower(line), col));
    }
  }

  /** What occurs in the stripped line occurs in the line. */
  lemma StrippedColumnInLine(line: string, col: string)
    requires Contains(Lower(Strip(line)), col)
    ensures Contains(Lower(line), col)
  {
    var r := Strip(line);
    StripIsSlice(line, IsSpace);
    var a := LeadingRun(line, IsSpace);
    var b := a + |r|;
    assert r == line[a..b];
    LowerSlice(line, a, b);
    var low := Lower(line);
    assert Lower(r) == low[a..b];
    ContainsInSlice(low, a, b, col);
  }

  /** An occurrence of such a name lies inside what `strip()` keeps. */
  lemma ColumnInsideStrip(line: string, col: string, i: int)
    requires col != [] && !IsSpace(col[0]) && !IsSpace(col[|col| - 1])
    requires OccursAt(Lower(line), col, i)
    ensures Contains(Lower(Strip(line)), col)
  {
    var low := Lower(line);
    var last := i + |col| - 1;
    assert low[i] == col[0] && low[last] == col[|col| - 1] by {
      assert low[i..i + |col|] == col;
    }
    LowerCharSpace(line[i]);
    LowerCharSpace(line[last]);
    var a, b := StripKeeps(line, i, i + |col|);
    OccursInLowerSlice(line, a, b, col, i);
  }

  /** `strip()` keeps every character from one non-space to another. */
  lemma StripKeeps(line: string, i: nat, j: nat) returns (a: nat, b: nat)
    requires i < j <= |line| && !IsSpace(line[i]) && !IsSpace(line[j - 1])
    ensures a <= i && j <= b <= |line| && Strip(line) == line[a..b]
  {
    a := LeadingRun(line, IsSpace);
    b := TrailingStart(line, IsSpace);
    assert a <= i && j <= b;
    StripByCut(line, a, b, IsSpace);
  }

  /** An occurrence in the lower-cased line, inside `line[a..b]`, is one in the lower-cased
      slice. */
  lemma OccursInLowerSlice(line: string, a: nat, b: nat, col: string, i: int)
    requires a <= i && i + |col| <= b <= |line|
    requires OccursAt(Lower(line), col, i)
    ensures Contains(Lower(line[a..b]), col)
  {
    var low := Lower(line);
    OccursInSlice(low, a, b, col, i);
    ContainsWitness(low[a..b], col, i - a);
    LowerSlice(line, a, b);
  }

  /** Names that start and end with a non-space character. */
  predicate Trimmed(cols: seq<string>) {
    forall k :: 0 <= k < |cols| ==> cols[k] != [] && !IsSpace(cols[k][0]) && !IsSpace(cols[k][|cols[k]| - 1])
  }

  lemma RequiredColumnsTrimmed()
    ensures Trimmed(RequiredColumns)
  {
    assert RequiredColumns[0][0] == 'd' && RequiredColumns[0][3] == 'e';
    assert RequiredColumns[1][0] == 'm' && RequiredColumns[1][7] == 't';
    assert RequiredColumns[2][0] == 'a' && RequiredColumns[2][5] == 't';
  }

  lemma {:induction false} MentionsAnyIgnoresStrip(line: string, cols: seq<string>)
    requires Trimmed(cols)
    ensures MentionsAny(Lower(Strip(line)), cols) <==> MentionsAny(Lower(line), cols)
    decreases |cols|
  {
    if cols != [] {
      StripKeepsColumn(line, cols[0]);
      MentionsAnyIgnoresStrip(line, cols[1..]);
    }
  }

  /** The header test does not depend on the strip: it asks whether the lower-cased first
      line, as read, mentions `date`, `merchant` or `amount`. */
  lemma HeaderIgnoresWhitespace(firstLine: string)
    ensures HasRequiredColumn(firstLine) <==>
              Contains(Lower(firstLine), "date") || Contains(Lower(firstLine), "merchant")
              || Contains(Lower(firstLine), "amount")
  {
    RequiredColumnsTrimmed();
    MentionsAnyIgnoresStrip(firstLine, RequiredColumns);
    MentionsRequired(Lower(firstLine));
  }

  lemma MentionsRequired(h: string)
    ensures MentionsAny(h, RequiredColumns) <==>
              Contains(h, "date") || Contains(h, "merchant") || Contains(h, "amount")
  {
    assert RequiredColumns[1..] == ["merchant", "amount"];
    assert RequiredColumns[1..][1..] == ["amount"];
    assert RequiredColumns[1..][1..][1..] == [];
  }

  // ---------------------------------------------------------------------------
  // format_currency

  /** The symbols `format_currency` knows. */
  const Symbols: map<string, string> := map["USD" := "$", "EUR" := "\U{20AC}", "GBP" := "\U{A3}", "JPY" := "\U{A5}"]

  /** `symbols.get(currency, "$")` */
  function CurrencySymbol(code: string): (r: string)
    ensures |r| == 1 && r in Symbols.Values
    ensures code in Symbols ==> r == Symbols[code]
    ensures code !in Symbols ==> r == "$"
  {
    assert Symbols["USD"] == "$" && "$" in Symbols.Values;
    if code in Symbols then
      assert code in {"USD", "EUR", "GBP", "JPY"};
      Symbols[code]
    else "$"
  }

  predicate IsDigit(c: char) {
    '0' <= c <= '9'
  }

  predicate AllDigits(s: string) {
    forall i :: 0 <= i < |s| ==> IsDigit(s[i])
  }

  function DigitChar(d: nat): (c: char)
    requires d < 10
    ensures IsDigit(c)
  {
    ('0' as int + d) as char
  }

  /** The number a string of decimal digits spells. */
  function DigitValue(s: string): nat
    requires AllDigits(s)
  {
    if s == [] then 0 else 10 * DigitValue(s[..|s| - 1]) + (s[|s| - 1] as int - '0' as int)
  }

  lemma {:induction false} DigitValueAppend(a: string, b: string)
    requires AllDigits(a) && AllDigits(b)
    ensures AllDigits(a + b)
    ensures DigitValue(a + b) == DigitValue(a) * Pow10(|b|) + DigitValue(b)
    decreases |b|
  {
    if b != [] {
      var b' := b[..|b| - 1];
      assert (a + b)[..|a + b| - 1] == a + b';
      DigitValueAppend(a, b');
      var x, p, y, c := DigitValue(a), Pow10(|b'|), DigitValue(b'), b[|b| - 1] as int - '0' as int;
      assert DigitValue(a + b) == 10 * DigitValue(a + b') + c;
      ScaleSum(DigitValue(a + b), DigitValue(a + b'), x, p, y, c);
    } else {
      assert a + b == a;
    }
  }

  /** Shifting a number one decimal place left distributes over its parts. */
  lemma ScaleSum(total: int, prev: int, x: int, p: int, y: int, c: int)
    requires total == 10 * prev + c && prev == x * p + y
    ensures total == x * (10 * p) + (10 * y + c)
  {
  }

  /** The decimal digits of `n`, without leading zeros. */
  function Digits(n: nat): (r: string)
    ensures |r| >= 1 && AllDigits(r)
    ensures DigitValue(r) == n
    ensures r[0] == '0' ==> r == "0"
    decreases n
  {
    if n < 10 then [DigitChar(n)]
    else
      var h := Digits(n / 10);
      assert (h + [DigitChar(n % 10)])[..|h|] == h;
      h + [DigitChar(n % 10)]
  }

  /** The two digits of a number of cents below a hundred. */
  function TwoDigits(m: nat): (r: string)
    requires m < 100
    ensures |r| == 2 && AllDigits(r) && DigitValue(r) == m
  {
    var r := [DigitChar(m / 10), DigitChar(m % 10)];
    assert r[..1] == [DigitChar(m / 10)];
    assert r[..1][..0] == [];
    assert DigitValue(r[..1]) == m / 10;
    r
  }

  /** The `,` option of Python's format specification: a comma before every group of three
      digits, counted from the right. */
  function Group(d: string): (r: string)
    requires AllDigits(d)
    ensures |d| >= 1 ==> |r| == |d| + (|d| - 1) / 3
    ensures DigitsAndCommas(r)
    decreases |d|
  {
    if |d| <= 3 then d
    else Group(d[..|d| - 3]) + "," + d[|d| - 3..]
  }

  /** The commas of `r` stand exactly at every fourth place from the right. */
  predicate CommasEveryFourth(r: string) {
    forall i :: 0 <= i < |r| ==> (r[i] == ',' <==> (|r| - i) % 4 == 0)
  }

  /** The commas of a grouped number stand exactly at every fourth place from the right. */
  lemma {:induction false} GroupCommas(d: string)
    requires AllDigits(d)
    ensures CommasEveryFourth(Group(d))
    decreases |d|
  {
    if |d| > 3 {
      GroupCommas(d[..|d| - 3]);
      CommaBeforeGroup(Group(d[..|d| - 3]), d[|d| - 3..]);
    }
  }

  /** Deleting the commas gives the digits back. */
  lemma {:induction false} GroupDigits(d: string)
    requires AllDigits(d)
    ensures DeleteChars(Group(d), {','}) == d
    decreases |d|
  {
    if |d| <= 3 {
      DeleteCharsAbsent(d, {','});
    } else {
      var head := d[..|d| - 3];
      var tail := d[|d| - 3..];
      var g := Group(head);
      GroupDigits(head);
      assert Group(d) == (g + ",") + tail;
      DeleteCharsAppend(g, ",", {','});
      assert DeleteChars(",", {','}) == [];
      assert DeleteChars(g + ",", {','}) == head;
      DeleteCharsAppend(g + ",", tail, {','});
      DeleteCharsAbsent(tail, {','});
      assert d == head + tail;
    }
  }

  predicate DigitsAndCommas(s: string) {
    forall i :: 0 <= i < |s| ==> s[i] == ',' || IsDigit(s[i])
  }

  /** Appending a comma and three digits keeps the commas at every fourth place from the
      right. */
  lemma CommaBeforeGroup(g: string, tail: string)
    requires |tail| == 3 && AllDigits(tail)
    requires CommasEveryFourth(g)
    ensures CommasEveryFourth(g + "," + tail)
  {
    var r := g + "," + tail;
    forall i | 0 <= i < |r| ensures r[i] == ',' <==> (|r| - i) % 4 == 0 {
      if i < |g| {
        assert r[i] == g[i];
        assert |r| - i == (|g| - i) + 4;
      } else if i > |g| {
        assert r[i] == tail[i - |g| - 1];
      }
    }
  }

  /** `f"{abs(amount):,.2f}"` for an amount of `m` hundredths. */
  function AmountText(m: nat): (r: string)
    ensures |r| >= 4 && r[|r| - 3] == '.' && AllDigits(r[|r| - 2..])
    ensures DigitsAndCommas(r[..|r| - 3])
  {
    Group(Digits(m / 100)) + "." + TwoDigits(m % 100)
  }

  /** Deleting the commas and the point of a formatted amount gives back the digits of the
      number of hundredths. */
  lemma AmountTextRoundTrip(m: nat)
    ensures AllDigits(DeleteChars(AmountText(m), {',', '.'}))
    ensures DigitValue(DeleteChars(AmountText(m), {',', '.'})) == m
  {
    var digits := Digits(m / 100);
    var cs := TwoDigits(m % 100);
    AmountTextDigits(m);
    DigitValueAppend(digits, cs);
    assert Pow10(2) == 100;
  }

  /** Deleting the commas and the point leaves the units' digits and the two cents digits. */
  lemma AmountTextDigits(m: nat)
    ensures DeleteChars(AmountText(m), {',', '.'}) == Digits(m / 100) + TwoDigits(m % 100)
  {
    var cs0 := {',', '.'};
    var digits := Digits(m / 100);
    var g := Group(digits);
    var cs := TwoDigits(m % 100);
    GroupDigits(digits);
    DeleteCharsTwice(g, {','}, {'.'});
    assert {','} + {'.'} == cs0;
    DeleteCharsAbsent(digits, {'.'});
    assert DeleteChars(g, cs0) == digits;
    DeleteCharsAbsent(cs, cs0);
    assert DeleteChars(".", cs0) == [];
    DeleteCharsAppend(g, ".", cs0);
    assert DeleteChars(g + ".", cs0) == digits;
    DeleteCharsAppend(g + ".", cs, cs0);
    assert DeleteChars((g + ".") + cs, cs0) == digits + cs;
  }

  /** A formatted amount ends in a point and two digits; before the point stand digits with
      a comma at every fourth place from the right. */
  lemma AmountTextShape(m: nat)
    ensures var t := AmountText(m);
            |t| >= 4 && t[|t| - 3] == '.' && AllDigits(t[|t| - 2..])
            && CommasEveryFourth(t[..|t| - 3]) && DigitsAndCommas(t[..|t| - 3])
  {
    var g := Group(Digits(m / 100));
    var cs := TwoDigits(m % 100);
    var t := AmountText(m);
    GroupCommas(Digits(m / 100));
    assert t[..|t| - 3] == g;
    assert t[|t| - 2..] == cs;
  }

  /** `f"{symbol}{abs(amount):,.2f}"` for an amount of `cents` hundredths. */
  function FormatCurrency(cents: int, code: string): (r: string)
    ensures |r| >= 5 && r[..1] == CurrencySymbol(code) && r[|r| - 3] == '.'
    ensures AllDigits(r[|r| - 2..])
  {
    CurrencySymbol(code) + AmountText(if cents < 0 then -cents else cents)
  }

  /** A formatted amount is its symbol followed by the layout of the magnitude: digits with
      a comma before every group of three, a point and two decimals. */
  lemma FormatCurrencyLayout(cents: int, code: string)
    ensures var r := FormatCurrency(cents, code);
            var sym := CurrencySymbol(code);
            |r| >= |sym| + 4 && r[..|sym|] == sym && r[|r| - 3] == '.'
            && CommasEveryFourth(r[|sym|..|r| - 3])
  {
    var m := if cents < 0 then -cents else cents;
    var sym, t := CurrencySymbol(code), AmountText(m);
    assert FormatCurrency(cents, code) == sym + t;
    AmountTextShape(m);
    PrefixedLayout(sym, t);
  }

  /** The layout of an amount survives a symbol put in front of it. */
  lemma PrefixedLayout(sym: string, t: string)
    requires |t| >= 4 && t[|t| - 3] == '.' && CommasEveryFourth(t[..|t| - 3])
    ensures var r := sym + t;
            |r| >= |sym| + 4 && r[..|sym|] == sym && r[|r| - 3] == '.'
            && CommasEveryFourth(r[|sym|..|r| - 3])
  {
    var r := sym + t;
    assert r[..|sym|] == sym;
    assert r[|r| - 3] == t[|t| - 3];
    PrefixOfSuffix(sym, t, |t| - 3);
  }

  /** Reading the digits of a formatted amount back gives its magnitude, so `x` and `-x`
      print alike. */
  lemma FormatCurrencyReadsBack(cents: int, code: string)
    ensures var r := FormatCurrency(cents, code);
            var digits := DeleteChars(r[|CurrencySymbol(code)|..], {',', '.'});
            AllDigits(digits) && DigitValue(digits) == (if cents < 0 then -cents else cents)
    ensures FormatCurrency(-cents, code) == FormatCurrency(cents, code)
  {
    var m := if cents < 0 then -cents else cents;
    var sym := CurrencySymbol(code);
    var t := AmountText(m);
    AmountTextRoundTrip(m);
    assert (sym + t)[|sym|..] == t;
  }

  /** Cutting the prefix `a` and the end of `b` off `a + b` leaves a prefix of `b`. */
  lemma PrefixOfSuffix(a: string, b: string, j: nat)
    requires j <= |b|
    ensures (a + b)[|a|..|a| + j] == b[..j]
  {
    var u := (a + b)[|a|..|a| + j];
    forall i | 0 <= i < j ensures u[i] == b[i] {
      assert u[i] == (a + b)[|a| + i];
    }
  }

  lemma AmountExample4599()
    ensures AmountText(4599) == "45.99"
  {
    assert Digits(45) == "45";
    assert TwoDigits(99) == "99";
    assert AmountText(4599) == Group(Digits(45)) + "." + TwoDigits(99);
  }

  lemma AmountExample4550()
    ensures AmountText(4550) == "45.50"
  {
    assert Digits(45) == "45";
    assert TwoDigits(50) == "50";
    assert AmountText(4550) == Group(Digits(45)) + "." + TwoDigits(50);
  }

  lemma AmountExample6780()
    ensures AmountText(6780) == "67.80"
  {
    assert Digits(67) == "67";
    assert TwoDigits(80) == "80";
    assert AmountText(6780) == Group(Digits(67)) + "." + TwoDigits(80);
  }

  lemma AmountExampleThousand()
    ensures AmountText(100000) == "1,000.00"
  {
    assert Digits(1) == "1";
    assert Digits(10) == "10";
    assert Digits(100) == "100";
    assert Digits(1000) == "1000";
    assert Group("1000") == "1,000";
    assert TwoDigits(0) == "00";
    assert AmountText(100000) == Group(Digits(1000)) + "." + TwoDigits(0);
  }

  lemma AmountExampleTwoThousand()
    ensures AmountText(250000) == "2,500.00"
  {
    assert Digits(2) == "2";
    assert Digits(25) == "25";
    assert Digits(250) == "250";
    assert Digits(2500) == "2500";
    assert Group("2500") == "2,500";
    assert TwoDigits(0) == "00";
    assert 250000 / 100 == 2500 && 250000 % 100 == 0;
    assert AmountText(250000) == Group(Digits(2500)) + "." + TwoDigits(0);
  }

  /** The symbol of a known code, the dollar sign otherwise. */
  lemma CurrencySymbolExamples()
    ensures CurrencySymbol("USD") == "$"
    ensures CurrencySymbol("EUR") == "\U{20AC}"
    ensures CurrencySymbol("GBP") == "\U{A3}"
    ensures CurrencySymbol("JPY") == "\U{A5}"
    ensures CurrencySymbol("XXX") == "$"
  {
    assert "XXX" !in Symbols;
  }

  /** A negative amount prints like its magnitude. */
  lemma FormatCurrencyExample()
    ensures FormatCurrency(-250000, "USD") == "$2,500.00"
  {
    AmountExampleTwoThousand();
    CurrencySymbolExamples();
    var sym, t := CurrencySymbol("USD"), AmountText(250000);
    assert FormatCurrency(-250000, "USD") == sym + t;
    assert sym == "$" && t == "2,500.00";
    assert sym + t == "$" + "2,500.00";
  }
}
