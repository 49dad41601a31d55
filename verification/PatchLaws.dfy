/**
  Re-running the patchers: the forms a text may be in converge, and a second run changes nothing.
 */
module PatchLaws {
  import opened Wrappers
  import opened Text
  import opened PatchTexts
  import opened Patchers

  // ----- one replacement -----

  lemma OccursIsContained(s: string, w: string, i: int)
    requires Occurs(s, w, i)
    ensures Contains(s, w)
  {
    hide FindFrom;
  }

  /** A successful step leaves the patched text behind. */
  lemma StepResult(text: string, original: string, patched: string)
    requires Step(text, original, patched).Some?
    ensures Find(text, original).Some?
    ensures var i := Find(text, original).value;
      Step(text, original, patched).value == ReplaceAt(text, i, |original|, patched)
    ensures Contains(Step(text, original, patched).value, patched)
  {
    hide FindFrom, ReplaceAt;
    assert original == "" ==> Occurs(text, original, 0);
    var i := Find(text, original).value;
    ReplaceAtOccurs(text, i, original, patched);
    OccursIsContained(ReplaceAt(text, i, |original|, patched), patched, i);
  }

  /** For every text, context and patched text, running a single-context patcher again changes nothing. */
  lemma PatchOnceIsIdempotent(text: string, original: string, patched: string)
    requires PatchOnce(text, original, patched).Some?
    ensures var t := PatchOnce(text, original, patched).value;
      Contains(t, patched) && PatchOnce(t, original, patched) == Some(t)
  {
    hide FindFrom, Count, ReplaceFirst, Step;
    if !Contains(text, patched) {
      StepResult(text, original, patched);
    }
  }

  lemma ContainsPart(s: string, w: string, rest: string)
    requires Contains(s, w + rest)
    ensures Contains(s, w)
  {
    hide FindFrom;
    var i := Find(s, w + rest).value;
    assert s[i..i + |w|] == s[i..i + |w + rest|][..|w|] == w;
    OccursIsContained(s, w, i);
  }

  /** The second run is harmless although the patched text still contains the context it replaced. */
  lemma VsenvKeepsItsContext(text: string)
    requires PatchOnce(text, ORIGINAL_VSENV, PATCHED_VSENV).Some?
    ensures var t := PatchOnce(text, ORIGINAL_VSENV, PATCHED_VSENV).value;
      Contains(t, ORIGINAL_VSENV) && PatchOnce(t, ORIGINAL_VSENV, PATCHED_VSENV) == Some(t)
  {
    PatchOnceIsIdempotent(text, ORIGINAL_VSENV, PATCHED_VSENV);
    assert PATCHED_VSENV_LINES == ORIGINAL_VSENV_LINES + [VSENV_BCC64X, VSENV_FALSE];
    ConcatSplits(ORIGINAL_VSENV_LINES, [VSENV_BCC64X, VSENV_FALSE]);
    hide Concat, FindFrom, PatchOnce;
    ContainsPart(PatchOnce(text, ORIGINAL_VSENV, PATCHED_VSENV).value,
      ORIGINAL_VSENV, Concat([VSENV_BCC64X, VSENV_FALSE]));
  }

  // ----- LLD detection: two contexts -----

  lemma TextsAreNotEmpty()
    ensures ORIGINAL_WIN != "" && PATCHED_WIN != "" && ORIGINAL_NIX != "" && PATCHED_NIX != ""
    ensures ORIGINAL_PROBE != "" && PATCHED_PROBE != "" && PREVIOUS_METHOD != "" && ORIGINAL_METHOD != ""
  {
    assert |WIN_FIRST_LINE| > 0 && |WIN_ANY_LINE| > 0 && |NIX_FIRST_LINE| > 0 && |NIX_ANY_LINE| > 0;
    assert |PROBE| > 0 && |PROBE_OPEN| > 0 && |METHOD| > 0;
  }

  lemma LldApart()
    ensures Apart(ORIGINAL_NIX, ORIGINAL_WIN) && Apart(ORIGINAL_NIX, PATCHED_WIN)
    ensures Apart(PATCHED_NIX, ORIGINAL_WIN) && Apart(PATCHED_NIX, PATCHED_WIN)
    ensures Apart(ORIGINAL_WIN, ORIGINAL_NIX) && Apart(ORIGINAL_WIN, PATCHED_NIX)
    ensures Apart(PATCHED_WIN, ORIGINAL_NIX) && Apart(PATCHED_WIN, PATCHED_NIX)
    ensures SelfApart(ORIGINAL_WIN) && SelfApart(ORIGINAL_NIX)
  {
    hide Concat, Apart, SelfApart;
    OriginalNixApartOriginalWin();
    OriginalNixApartPatchedWin();
    PatchedNixApartOriginalWin();
    PatchedNixApartPatchedWin();
    OriginalWinSelfApart();
    OriginalNixSelfApart();
    ApartIsSymmetric(ORIGINAL_NIX, ORIGINAL_WIN);
    ApartIsSymmetric(ORIGINAL_NIX, PATCHED_WIN);
    ApartIsSymmetric(PATCHED_NIX, ORIGINAL_WIN);
    ApartIsSymmetric(PATCHED_NIX, PATCHED_WIN);
  }

  /** A step keeps a text that is apart from what it replaces. */
  lemma StepKeeps(text: string, original: string, patched: string, kept: string)
    requires original != "" && patched != "" && kept != ""
    requires Apart(kept, original) && Apart(kept, patched) && Step(text, original, patched).Some?
    ensures Contains(Step(text, original, patched).value, kept) <==> Contains(text, kept)
  {
    hide FindFrom, Apart, ReplaceAt, Count, Step, ReplaceFirst;
    StepResult(text, original, patched);
    ContainsMoves(text, Find(text, original).value, original, patched, kept);
  }

  /** For every text, running the LLD patcher again changes nothing. */
  lemma LldIsIdempotent(text: string)
    requires LldPatched(text).Some?
    ensures var t := LldPatched(text).value;
      Contains(t, PATCHED_WIN) && Contains(t, PATCHED_NIX) && LldPatched(t) == Some(t)
  {
    TextsAreNotEmpty();
    LldApart();
    hide Concat, Apart, SelfApart, Contains, Step, Count;
    var win := PatchOnce(text, ORIGINAL_WIN, PATCHED_WIN).value;
    PatchOnceIsIdempotent(text, ORIGINAL_WIN, PATCHED_WIN);
    if Contains(text, PATCHED_NIX) {
      if !Contains(text, PATCHED_WIN) {
        StepKeeps(text, ORIGINAL_WIN, PATCHED_WIN, PATCHED_NIX);
      }
    } else {
      StepResult(win, ORIGINAL_NIX, PATCHED_NIX);
      StepKeeps(win, ORIGINAL_NIX, PATCHED_NIX, PATCHED_WIN);
    }
  }

  /** Two contexts, each present once, apart from each other and from what replaces them. */
  ghost predicate TwoContexts(text: string, a: string, a': string, b: string, b': string) {
    && a != "" && a' != "" && b != "" && b' != ""
    && Apart(b, a) && Apart(b, a') && Apart(a, b) && Apart(a, b')
    && (exists i :: Unique(text, a, i)) && (exists j :: Unique(text, b, j))
  }

  /** Replacing both contexts gives the same text in either order, and each stays unique meanwhile. */
  lemma ReplacingBoth(text: string, a: string, a': string, b: string, b': string)
    requires TwoContexts(text, a, a', b, b')
    ensures exists j :: Unique(ReplaceFirst(text, a, a'), b, j)
    ensures exists i :: Unique(ReplaceFirst(text, b, b'), a, i)
    ensures ReplaceFirst(ReplaceFirst(text, a, a'), b, b') == ReplaceFirst(ReplaceFirst(text, b, b'), a, a')
  {
    var i :| Unique(text, a, i);
    var j :| Unique(text, b, j);
    hide FindFrom, Apart, Unique, ReplaceFirst, ReplaceAt;
    UniqueOccurs(text, a, i);
    UniqueOccurs(text, b, j);
    ReplaceUnique(text, a, a', i);
    ReplaceUnique(text, b, b', j);
    UniqueMoves(text, i, a, a', b, j);
    UniqueMoves(text, j, b, b', a, i);
    var j', i' := Shift(j, i, a, a'), Shift(i, j, b, b');
    ReplaceUnique(ReplaceFirst(text, a, a'), b, b', j');
    ReplaceUnique(ReplaceFirst(text, b, b'), a, a', i');
    EitherOrder(text, i, a, a', j, b, b');
  }

  lemma EitherOrder(text: string, i: nat, a: string, a': string, j: nat, b: string, b': string)
    requires Occurs(text, a, i) && Occurs(text, b, j) && Apart(b, a) && a != "" && b != ""
    requires Occurs(ReplaceAt(text, i, |a|, a'), b, Shift(j, i, a, a'))
    requires Occurs(ReplaceAt(text, j, |b|, b'), a, Shift(i, j, b, b'))
    ensures ReplaceAt(ReplaceAt(text, i, |a|, a'), Shift(j, i, a, a'), |b|, b')
      == ReplaceAt(ReplaceAt(text, j, |b|, b'), Shift(i, j, b, b'), |a|, a')
  {
    hide Apart, ReplaceAt;
    ApartOccurrences(text, b, j, a, i);
    if i < j {
      ReplacementsCommute(text, i, a, a', j, b, b');
    } else {
      ReplacementsCommute(text, j, b, b', i, a, a');
    }
  }

  lemma ReplaceUnique(s: string, w: string, y: string, i: int)
    requires Unique(s, w, i)
    ensures Occurs(s, w, i) && ReplaceFirst(s, w, y) == ReplaceAt(s, i, |w|, y)
  {
    hide FindFrom, ReplaceAt;
    FindUnique(s, w, i);
  }

  lemma UniqueOccurs(s: string, w: string, i: int)
    requires Unique(s, w, i)
    ensures Occurs(s, w, i) && i >= 0
  {
  }

  /** The text as shipped: both contexts once, nothing patched yet. */
  ghost predicate LldPristine(text: string) {
    && Count(text, ORIGINAL_WIN) == 1 && Count(text, ORIGINAL_NIX) == 1
    && !Contains(text, PATCHED_WIN) && !Contains(text, PATCHED_NIX)
  }

  /** The pristine text, the two half patched ones and the patched one all end as the same text. */
  lemma LldConverges(text: string)
    requires LldPristine(text)
    ensures var final := ReplaceFirst(ReplaceFirst(text, ORIGINAL_WIN, PATCHED_WIN), ORIGINAL_NIX, PATCHED_NIX);
      && LldPatched(text) == Some(final)
      && LldPatched(ReplaceFirst(text, ORIGINAL_WIN, PATCHED_WIN)) == Some(final)
      && LldPatched(ReplaceFirst(text, ORIGINAL_NIX, PATCHED_NIX)) == Some(final)
      && LldPatched(final) == Some(final)
  {
    TextsAreNotEmpty();
    LldApart();
    hide Concat, Apart, SelfApart, Contains, Count, ReplaceFirst, Unique;
    CountIsUnique(text, ORIGINAL_WIN);
    CountIsUnique(text, ORIGINAL_NIX);
    ReplacingBoth(text, ORIGINAL_WIN, PATCHED_WIN, ORIGINAL_NIX, PATCHED_NIX);
    var win := ReplaceFirst(text, ORIGINAL_WIN, PATCHED_WIN);
    var nix := ReplaceFirst(text, ORIGINAL_NIX, PATCHED_NIX);
    CountIsUnique(win, ORIGINAL_NIX);
    CountIsUnique(nix, ORIGINAL_WIN);
    StepResult(text, ORIGINAL_WIN, PATCHED_WIN);
    StepKeeps(text, ORIGINAL_WIN, PATCHED_WIN, PATCHED_NIX);
    StepResult(text, ORIGINAL_NIX, PATCHED_NIX);
    StepKeeps(text, ORIGINAL_NIX, PATCHED_NIX, PATCHED_WIN);
    LldIsIdempotent(text);
  }

  // ----- allow-undefined: migration from the first attempt -----

  lemma MethodApart()
    ensures Apart(PREVIOUS_METHOD, ORIGINAL_METHOD) && SelfApart(PREVIOUS_METHOD)
    ensures Apart(PREVIOUS_METHOD, ORIGINAL_PROBE) && Apart(PREVIOUS_METHOD, PATCHED_PROBE)
  {
    hide Concat, Apart, SelfApart;
    PreviousMethodApartOriginalMethod();
    PreviousMethodSelfApart();
    OriginalProbeApartPreviousMethod();
    PatchedProbeApartPreviousMethod();
    ApartIsSymmetric(ORIGINAL_PROBE, PREVIOUS_METHOD);
    ApartIsSymmetric(PATCHED_PROBE, PREVIOUS_METHOD);
  }

  lemma NotFound(s: string, w: string)
    requires !Contains(s, w)
    ensures ReplaceFirst(s, w, "") == s && forall y :: ReplaceFirst(s, w, y) == s
  {
    hide FindFrom;
  }

  /** Taking back a replacement: where `w` did not occur, putting it in for `x` and then `x` in for
      `w` gives the text back. */
  lemma TakenBack(s: string, x: string, w: string)
    requires !Contains(s, w) && Apart(w, x) && SelfApart(w) && w != "" && x != ""
    ensures ReplaceFirst(ReplaceFirst(s, x, w), w, x) == s
  {
    hide FindFrom, Apart, SelfApart, ReplaceAt;
    if Contains(s, x) {
      var i := Find(s, x).value;
      var r := ReplaceAt(s, i, |x|, w);
      ReplaceAtOccurs(s, i, x, w);
      forall k | Occurs(r, w, k) ensures k == i {
        if k != i {
          OtherOccurrence(s, i, x, w, k);
        }
      }
      FindUnique(r, w, i);
    }
  }

  /** An occurrence of `w` other than the one put in was there before. */
  lemma OtherOccurrence(s: string, i: nat, x: string, w: string, k: int)
    requires Occurs(s, x, i) && SelfApart(w) && w != "" && k != i
    requires Occurs(ReplaceAt(s, i, |x|, w), w, k)
    ensures Contains(s, w)
  {
    hide FindFrom, Clash;
    var r := ReplaceAt(s, i, |x|, w);
    ReplaceAtOccurs(s, i, x, w);
    OccurrencesDoNotClash(r, w, k, w, i);
    BesideOccurrence(r, i, w, x, w, k);
    OccursIsContained(s, w, Shift(k, i, w, x));
  }

  lemma {:induction false} MigrationCount(text: string)
    ensures Contains(Migrated(text), PREVIOUS_METHOD) <==> Count(text, PREVIOUS_METHOD) > 1
  {
    TextsAreNotEmpty();
    MethodApart();
    hide Concat, Apart, SelfApart, FindFrom, ReplaceAt;
    if Contains(text, PREVIOUS_METHOD) {
      var i := Find(text, PREVIOUS_METHOD).value;
      var rest := text[i + |PREVIOUS_METHOD|..];
      if Contains(Migrated(text), PREVIOUS_METHOD) {
        var m := Find(Migrated(text), PREVIOUS_METHOD).value;
        RemainingOccurrence(text, i, PREVIOUS_METHOD, ORIGINAL_METHOD, m);
      }
      if Contains(rest, PREVIOUS_METHOD) {
        var k := Find(rest, PREVIOUS_METHOD).value;
        OccursInTail(text, PREVIOUS_METHOD, i + |PREVIOUS_METHOD|, k);
        BesideOccurrence(text, i, PREVIOUS_METHOD, ORIGINAL_METHOD, PREVIOUS_METHOD, i + |PREVIOUS_METHOD| + k);
        OccursIsContained(Migrated(text), PREVIOUS_METHOD,
          Shift(i + |PREVIOUS_METHOD| + k, i, PREVIOUS_METHOD, ORIGINAL_METHOD));
      }
      CountAfterFirst(text, PREVIOUS_METHOD);
    }
  }

  lemma CountAfterFirst(s: string, w: string)
    requires w != "" && Contains(s, w)
    ensures Count(s, w) > 1 <==> Contains(s[Find(s, w).value + |w|..], w)
  {
    hide FindFrom;
    var rest := s[Find(s, w).value + |w|..];
    assert Count(s, w) == 1 + Count(rest, w);
    assert Count(rest, w) > 0 <==> Contains(rest, w);
  }

  /** After the first `w` became `x`, another `w` stands behind where the first one was. */
  lemma RemainingOccurrence(s: string, i: nat, w: string, x: string, m: int)
    requires Find(s, w) == Some(i) && Apart(w, x) && w != "" && x != ""
    requires Occurs(ReplaceAt(s, i, |w|, x), w, m)
    ensures Contains(s[i + |w|..], w)
  {
    hide FindFrom, Apart, ReplaceAt;
    var r := ReplaceAt(s, i, |w|, x);
    ReplaceAtOccurs(s, i, w, x);
    ApartOccurrences(r, w, m, x, i);
    BesideOccurrence(r, i, x, w, w, m);
    var k := Shift(m, i, x, w);
    assert Occurs(s, w, k) && k >= i + |w|;
    OccursInTail(s, w, i + |w|, k - (i + |w|));
    OccursIsContained(s[i + |w|..], w, k - (i + |w|));
  }

  /** Taking back the first attempt shortens the text. */
  lemma MigrationShortens(text: string)
    ensures Migrated(text) == text <==> !Contains(text, PREVIOUS_METHOD)
  {
    MethodLengths();
    hide Concat, FindFrom;
  }

  lemma MethodLengths()
    ensures |PREVIOUS_METHOD| == |ORIGINAL_METHOD| + 59
  {
    IsMethodIfWindows();
    var first, second, rest := [METHOD, METHOD_IF_WINDOWS, METHOD_NOTHING_INNER], [METHOD],
      [METHOD_IF_PROBED, METHOD_FLAG, METHOD_NOTHING];
    assert PREVIOUS_METHOD_LINES == first + rest && ORIGINAL_METHOD_LINES == second + rest;
    ConcatSplits(first, rest);
    ConcatSplits(second, rest);
    ThreeLines(METHOD, METHOD_IF_WINDOWS, METHOD_NOTHING_INNER);
    IsMethodNothingInner();
  }

  /** A second run of the allow-undefined patcher changes nothing if and only if the text it was
      first given held the earlier attempt at most once. */
  lemma UndefinedIsIdempotent(text: string)
    requires UndefinedPatched(text).Some?
    ensures var t := UndefinedPatched(text).value;
      UndefinedPatched(t) == Some(t) <==> Count(text, PREVIOUS_METHOD) <= 1
  {
    TextsAreNotEmpty();
    MethodApart();
    hide Concat, Apart, SelfApart, Contains, Count, Step, Migrated;
    var migrated := Migrated(text);
    var t := UndefinedPatched(text).value;
    MigrationCount(text);
    PatchOnceIsIdempotent(migrated, ORIGINAL_PROBE, PATCHED_PROBE);
    if !Contains(migrated, PATCHED_PROBE) {
      StepKeeps(migrated, ORIGINAL_PROBE, PATCHED_PROBE, PREVIOUS_METHOD);
    }
    assert Contains(t, PREVIOUS_METHOD) <==> Count(text, PREVIOUS_METHOD) > 1;
    MigrationShortens(t);
    if Contains(t, PREVIOUS_METHOD) {
      MigrationShows(t);
    }
  }

  lemma ProbeLengths()
    ensures |PATCHED_PROBE| == |ORIGINAL_PROBE| + 83
  {
    ConcatSplits([PROBE_OPEN], [PROBE_NOT_WINDOWS, PROBE_FLAG, PROBE_CLOSE]);
    assert PATCHED_PROBE_LINES == [PROBE_OPEN] + [PROBE_NOT_WINDOWS, PROBE_FLAG, PROBE_CLOSE];
    ThreeLines(PROBE_NOT_WINDOWS, PROBE_FLAG, PROBE_CLOSE);
    OneLine(PROBE_OPEN);
    OneLine(PROBE);
    IsProbe();
    IsProbeOpen();
    IsProbeNotWindows();
    IsProbeFlag();
    IsProbeClose();
  }

  /** Migrating changes the length, and patching the probe does not make up for it. */
  lemma MigrationShows(t: string)
    requires Contains(t, PREVIOUS_METHOD)
    ensures UndefinedPatched(t) != Some(t)
  {
    TextsAreNotEmpty();
    MethodLengths();
    ProbeLengths();
    hide Concat, FindFrom, Count;
    var m := Migrated(t);
    assert |m| == |t| - 59;
    if !Contains(m, PATCHED_PROBE) && Step(m, ORIGINAL_PROBE, PATCHED_PROBE).Some? {
      StepResult(m, ORIGINAL_PROBE, PATCHED_PROBE);
      assert |UndefinedPatched(t).value| == |m| + 83;
    }
  }

  /** A text with the earlier attempt twice is accepted and needs a second run. */
  lemma TwoAttemptsNeedTwoRuns()
    ensures var text := PREVIOUS_METHOD + PREVIOUS_METHOD + PATCHED_PROBE;
      && UndefinedPatched(text).Some?
      && UndefinedPatched(UndefinedPatched(text).value) != UndefinedPatched(text)
  {
    TextsAreNotEmpty();
    hide Concat, FindFrom;
    var w := PREVIOUS_METHOD;
    var rest := w + PATCHED_PROBE;
    var text := w + w + PATCHED_PROBE;
    assert text == w + rest;
    OccursInFront(w, rest);
    OccursInFront(w, PATCHED_PROBE);
    assert text[|w|..] == rest;
    var migrated := Migrated(text);
    assert migrated == (ORIGINAL_METHOD + w) + PATCHED_PROBE;
    assert Occurs(migrated, PATCHED_PROBE, |ORIGINAL_METHOD + w|);
    OccursIsContained(migrated, PATCHED_PROBE, |ORIGINAL_METHOD + w|);
    hide UndefinedPatched, Count;
    CountAfterFirst(text, w);
    UndefinedIsIdempotent(text);
  }

  lemma OccursInFront(w: string, rest: string)
    ensures Contains(w + rest, w) && Find(w + rest, w) == Some(0)
  {
    hide FindFrom;
    assert Occurs(w + rest, w, 0);
    OccursIsContained(w + rest, w, 0);
  }

  /** The text as shipped for the allow-undefined patcher. */
  ghost predicate UndefinedPristine(text: string) {
    Count(text, ORIGINAL_PROBE) == 1 && !Contains(text, PATCHED_PROBE) && !Contains(text, PREVIOUS_METHOD)
  }

  /** A text with the first compatibility attempt applied. */
  function FirstAttempt(text: string): string {
    ReplaceFirst(text, ORIGINAL_METHOD, PREVIOUS_METHOD)
  }

  /** The pristine text, the first attempt, the patched text and the patched text on top of the first
      attempt all end as the same text. */
  lemma UndefinedConverges(text: string)
    requires UndefinedPristine(text)
    ensures var final := ReplaceFirst(text, ORIGINAL_PROBE, PATCHED_PROBE);
      && UndefinedPatched(text) == Some(final)
      && UndefinedPatched(FirstAttempt(text)) == Some(final)
      && UndefinedPatched(final) == Some(final)
      && UndefinedPatched(FirstAttempt(final)) == Some(final)
  {
    TextsAreNotEmpty();
    MethodApart();
    hide Concat, Apart, SelfApart, Contains, Count, ReplaceFirst;
    var final := ReplaceFirst(text, ORIGINAL_PROBE, PATCHED_PROBE);
    NotFound(text, PREVIOUS_METHOD);
    TakenBack(text, ORIGINAL_METHOD, PREVIOUS_METHOD);
    StepKeeps(text, ORIGINAL_PROBE, PATCHED_PROBE, PREVIOUS_METHOD);
    StepResult(text, ORIGINAL_PROBE, PATCHED_PROBE);
    NotFound(final, PREVIOUS_METHOD);
    TakenBack(final, ORIGINAL_METHOD, PREVIOUS_METHOD);
  }

  // ----- when a patcher succeeds -----

  /** The context stands at exactly one place. */
  ghost predicate StandsOnce(text: string, context: string) {
    exists i :: Unique(text, context, i)
  }

  /** A context that cannot overlap itself is replaced exactly if it stands at one place only, and then
      there. */
  lemma StepMeans(text: string, original: string, patched: string)
    requires original != "" && SelfApart(original)
    ensures Step(text, original, patched).Some? <==> StandsOnce(text, original)
    ensures forall i: nat :: Unique(text, original, i) ==>
      Step(text, original, patched) == Some(text[..i] + patched + text[i + |original|..])
  {
    hide FindFrom, Clash;
    CountIsUnique(text, original);
    forall i: nat | Unique(text, original, i)
      ensures Step(text, original, patched) == Some(text[..i] + patched + text[i + |original|..])
    {
      ReplaceUnique(text, original, patched, i);
    }
  }

  lemma ContextsAreSelfApart()
    ensures ORIGINAL_PROBE != "" && SelfApart(ORIGINAL_PROBE)
    ensures ORIGINAL_VSENV != "" && SelfApart(ORIGINAL_VSENV)
    ensures ORIGINAL_GLCPP != "" && SelfApart(ORIGINAL_GLCPP)
  {
    TextsAreNotEmpty();
    OriginalProbeSelfApart();
    OriginalVsenvSelfApart();
    OriginalGlcppSelfApart();
    assert |VSENV_CLANG_CL| > 0 && |GLCPP_BISON| > 0;
  }

  /** Of the contexts each patcher looks for, exactly one occurrence is accepted: none or several, where
      the patched text is missing, leave the file as it was. */
  lemma MismatchMeans(text: string)
    ensures PatchOnce(text, ORIGINAL_VSENV, PATCHED_VSENV).None? <==>
      !Contains(text, PATCHED_VSENV) && !StandsOnce(text, ORIGINAL_VSENV)
    ensures PatchOnce(text, ORIGINAL_GLCPP, PATCHED_GLCPP).None? <==>
      !Contains(text, PATCHED_GLCPP) && !StandsOnce(text, ORIGINAL_GLCPP)
    ensures UndefinedPatched(text).None? <==>
      !Contains(Migrated(text), PATCHED_PROBE) && !StandsOnce(Migrated(text), ORIGINAL_PROBE)
  {
    ContextsAreSelfApart();
    hide FindFrom, Step, Concat, StandsOnce, Migrated;
    StepMeans(text, ORIGINAL_VSENV, PATCHED_VSENV);
    StepMeans(text, ORIGINAL_GLCPP, PATCHED_GLCPP);
    StepMeans(Migrated(text), ORIGINAL_PROBE, PATCHED_PROBE);
  }

  /** The two contexts of the LLD patcher are independent of each other: the patch succeeds exactly if
      each of them, as far as it is not patched yet, stands at one place in the text as read. */
  lemma LldMismatchMeans(text: string)
    ensures LldPatched(text).Some? <==>
      && (Contains(text, PATCHED_WIN) || StandsOnce(text, ORIGINAL_WIN))
      && (Contains(text, PATCHED_NIX) || StandsOnce(text, ORIGINAL_NIX))
  {
    LldApart();
    TextsAreNotEmpty();
    hide FindFrom, Step, Concat, Apart, SelfApart, Contains, StandsOnce;
    StepMeans(text, ORIGINAL_WIN, PATCHED_WIN);
    var win := PatchOnce(text, ORIGINAL_WIN, PATCHED_WIN);
    if win.Some? {
      StepMeans(win.value, ORIGINAL_NIX, PATCHED_NIX);
      if !Contains(text, PATCHED_WIN) {
        StepKeepsUnique(text, ORIGINAL_WIN, PATCHED_WIN, ORIGINAL_NIX);
      }
    }
  }

  /** A step leaves other contexts where they are as often as they are. */
  lemma StepKeepsUnique(text: string, original: string, patched: string, kept: string)
    requires original != "" && patched != "" && kept != ""
    requires Apart(kept, original) && Apart(kept, patched) && Step(text, original, patched).Some?
    ensures StandsOnce(Step(text, original, patched).value, kept) <==> StandsOnce(text, kept)
  {
    hide FindFrom, Apart;
    StepResult(text, original, patched);
    var i := Find(text, original).value;
    var t := ReplaceAt(text, i, |original|, patched);
    ReplaceAtOccurs(text, i, original, patched);
    if k :| Unique(text, kept, k) {
      UniqueMoves(text, i, original, patched, kept, k);
    }
    if k :| Unique(t, kept, k) {
      UniqueMoves(t, i, patched, original, kept, k);
    }
  }
}
