/**
  Laws of the argument loop: it works piece by piece, reports each error once, and neither drops
  nor lets through a switch unnoticed.
 */
module ArgumentLaws {
  import opened Wrappers
  import opened Sequences
  import opened ArgumentAdapter
  import opened Text
  import LinkResponse

  // ----- composition -----

  /** The arguments stop between a backend switch and its value. */
  predicate EndsInsidePair(arguments: seq<string>) {
    if arguments == [] then false
    else if arguments[0] != BACKEND then EndsInsidePair(arguments[1..])
    else |arguments| == 1 || EndsInsidePair(arguments[2..])
  }

  lemma UnitsFront(a: string, rest: seq<string>)
    ensures a != BACKEND ==> Units([a] + rest) == [Single(a)] + Units(rest)
    ensures a == BACKEND && rest != [] ==> Units([a] + rest) == [Backend(rest[0])] + Units(rest[1..])
    ensures EndsInsidePair([a] + rest) <==>
      if a != BACKEND then EndsInsidePair(rest) else rest == [] || EndsInsidePair(rest[1..])
  {
    var s := [a] + rest;
    assert s[1..] == rest;
    if rest != [] {
      assert s[2..] == rest[1..];
    }
  }

  lemma {:induction false} UnitsAppend(xs: seq<string>, ys: seq<string>)
    requires !EndsInsidePair(xs)
    ensures Units(xs + ys) == Units(xs) + Units(ys)
    decreases |xs|
  {
    if xs == [] {
      assert xs + ys == ys;
    } else {
      hide Units, EndsInsidePair;
      var a, rest := xs[0], xs[1..];
      assert xs == [a] + rest && xs + ys == [a] + (rest + ys);
      UnitsFront(a, rest);
      UnitsFront(a, rest + ys);
      if a != BACKEND {
        UnitsAppend(rest, ys);
      } else {
        UnitsAppend(rest[1..], ys);
        assert (rest + ys)[1..] == rest[1..] + ys;
      }
    }
  }

  /** Stopping inside a pair means ending with a backend switch after complete units. */
  lemma {:induction false} InsidePair(xs: seq<string>)
    requires EndsInsidePair(xs)
    ensures xs != [] && xs[|xs| - 1] == BACKEND && !EndsInsidePair(xs[..|xs| - 1])
    decreases |xs|
  {
    if xs[0] != BACKEND {
      InsidePair(xs[1..]);
      assert xs[..|xs| - 1][1..] == xs[1..][..|xs| - 2];
    } else if |xs| > 1 {
      InsidePair(xs[2..]);
      assert xs[..|xs| - 1][2..] == xs[2..][..|xs| - 3];
    }
  }

  /** If `xs` stops inside a pair the first of `ys` becomes the missing value. */
  lemma UnitsMerge(xs: seq<string>, ys: seq<string>)
    requires EndsInsidePair(xs) && ys != []
    ensures xs != [] && Units(xs) == Units(xs[..|xs| - 1]) + [Dangling]
    ensures Units(xs + ys) == Units(xs[..|xs| - 1]) + [Backend(ys[0])] + Units(ys[1..])
  {
    InsidePair(xs);
    var before := xs[..|xs| - 1];
    UnitsAppend(before, [BACKEND]);
    UnitsAppend(before, [BACKEND] + ys);
    assert xs == before + [BACKEND] && xs + ys == before + ([BACKEND] + ys);
    assert ([BACKEND] + ys)[2..] == ys[1..];
    assert Units([BACKEND] + ys) == [Backend(ys[0])] + Units(ys[1..]);
  }

  lemma {:induction false} EmittedAppend(u: seq<Unit>, v: seq<Unit>)
    ensures AllEmitted(u + v) == AllEmitted(u) + AllEmitted(v)
  {
    hide Emitted;
    if u == [] {
      assert u + v == v;
    } else {
      EmittedAppend(u[1..], v);
      assert (u + v)[1..] == u[1..] + v;
    }
  }

  lemma {:induction false} ErrorsAppend(u: seq<Unit>, v: seq<Unit>)
    ensures AllErrors(u + v) == AllErrors(u) + AllErrors(v)
  {
    hide Errors;
    if u == [] {
      assert u + v == v;
    } else {
      ErrorsAppend(u[1..], v);
      assert (u + v)[1..] == u[1..] + v;
    }
  }

  lemma AppendAll(xs: seq<string>, ys: seq<string>)
    requires !EndsInsidePair(xs)
    ensures AllEmitted(Units(xs + ys)) == AllEmitted(Units(xs)) + AllEmitted(Units(ys))
    ensures AllErrors(Units(xs + ys)) == AllErrors(Units(xs)) + AllErrors(Units(ys))
  {
    hide Units, AllEmitted, AllErrors, EndsInsidePair;
    UnitsAppend(xs, ys);
    EmittedAppend(Units(xs), Units(ys));
    ErrorsAppend(Units(xs), Units(ys));
  }

  lemma {:induction false} AddNewAppend(list: seq<string>, a: seq<string>, b: seq<string>)
    ensures AddNew(list, a + b) == AddNew(AddNew(list, a), b)
    decreases |a|
  {
    if a == [] {
      assert a + b == b;
    } else {
      AddNewAppend(if a[0] in list then list else list + [a[0]], a[1..], b);
      assert (a + b)[1..] == a[1..] + b;
    }
  }

  /** The units of `xs + ys` are those of `xs` and then those of `ys` if and only if no unit reaches
      across the border. */
  lemma UnitsCompose(xs: seq<string>, ys: seq<string>)
    ensures Units(xs + ys) == Units(xs) + Units(ys) <==> !EndsInsidePair(xs) || ys == []
  {
    assert Units([]) == [];
    hide Units;
    if !EndsInsidePair(xs) {
      UnitsAppend(xs, ys);
    } else if ys == [] {
      assert xs + ys == xs && Units(xs) + [] == Units(xs);
    } else {
      UnitsMerge(xs, ys);
      var n := |Units(xs)| - 1;
      assert (Units(xs) + Units(ys))[n] == Dangling;
      assert Units(xs + ys)[n] == Backend(ys[0]);
    }
  }

  /** Backend switches only, in an even number: each is the value of the one before. */
  predicate OnlyBackendPairs(ys: seq<string>) {
    |ys| % 2 == 0 && forall i :: 0 <= i < |ys| ==> ys[i] == BACKEND
  }

  lemma TwoOutputs(argument: string)
    ensures Direct(argument).Some? && |Direct(argument).value| == 2 ==> Direct(argument).value[0] != BACKEND
    ensures Architecture(argument).Some? ==> |Architecture(argument).value| > 2
  {
    assert BACKEND[1] == 'm';
  }

  lemma WarningOutputs(number: string)
    ensures var t := TranslateWarning(number); t.Ok? && t.value != [] ==> t.value[0] != BACKEND
  {
    assert BACKEND[1] == 'm' && forall w :: Disable(w)[1] == 'W';
  }

  /** No single argument is translated to what a backend pair of it would emit. */
  lemma SingleIsNoPair(argument: string)
    requires argument != BACKEND
    ensures Emitted(Single(argument)) != Emitted(Backend(argument))
  {
    if argument == DROPPED_BACKEND_OPTION {
      assert argument[0] == '-' && argument[1] == 'p';
      PayloadTranslation(argument);
    } else {
      TwoOutputs(argument);
      if WarningNumber(argument).Some? {
        WarningOutputs(WarningNumber(argument).value);
      }
      hide Direct, Architecture, WarningNumber, TranslateWarning, IsIntrinsic;
      assert [BACKEND, argument][0] == BACKEND;
    }
  }

  lemma AppendCancels<T>(a: seq<T>, b: seq<T>, c: seq<T>)
    ensures a + c == b + c <==> a == b
  {
    if a + c == b + c {
      assert |a| == |b|;
      assert a == (a + c)[..|a|] && b == (b + c)[..|b|];
    }
  }

  lemma PrependCancels<T>(a: seq<T>, b: seq<T>, c: seq<T>)
    ensures c + a == c + b <==> a == b
  {
    if c + a == c + b {
      assert a == (c + a)[|c|..] && b == (c + b)[|c|..];
    }
  }

  lemma SingleFirst(y: string, rest: seq<string>)
    requires y != BACKEND
    ensures AllEmitted(Units([y] + rest)) == Emitted(Single(y)) + AllEmitted(Units(rest))
  {
    hide Emitted, Errors, Units, AllEmitted, AllErrors;
    UnitsFront(y, rest);
    AllFirst(Single(y), Units(rest));
  }

  /** What `ys` emits after a pending backend switch. */
  function Pending(ys: seq<string>): seq<string> {
    AllEmitted(Units([BACKEND] + ys))
  }

  lemma PendingStep(y: string, rest: seq<string>)
    ensures Pending([y] + rest) == Emitted(Backend(y)) + AllEmitted(Units(rest))
    ensures AllErrors(Units([BACKEND] + ([y] + rest))) == AllErrors(Units(rest))
  {
    hide Emitted, Units, AllEmitted, AllErrors;
    assert [BACKEND] + ([y] + rest) == [BACKEND, y] + rest;
    PairFirst(y, rest);
    assert [] + AllErrors(Units(rest)) == AllErrors(Units(rest));
  }

  lemma PendingNothing()
    ensures Pending([]) == [] && AllErrors(Units([BACKEND])) == [MISSING_VALUE]
    ensures Pending([BACKEND]) == [BACKEND, BACKEND] && AllEmitted(Units([BACKEND])) == []
    ensures AllEmitted(Units([])) == [] && AllErrors(Units([])) == []
  {
    assert [BACKEND] + [] == [BACKEND] && Units([BACKEND]) == [Dangling];
    assert [Dangling][1..] == [];
    hide Units, AllErrors;
    PendingStep(BACKEND, []);
    assert [BACKEND] + [] == [BACKEND];
  }

  /** A pending switch before any other argument shows in what is emitted. */
  lemma PendingBeforeOther(y: string, rest: seq<string>)
    requires y != BACKEND
    ensures Pending([y] + rest) != AllEmitted(Units([y] + rest))
  {
    hide Emitted, Units, AllEmitted, Pending;
    PendingStep(y, rest);
    SingleFirst(y, rest);
    SingleIsNoPair(y);
    AppendCancels(Emitted(Single(y)), Emitted(Backend(y)), AllEmitted(Units(rest)));
  }

  lemma PendingBeforePair(y: string, rest: seq<string>)
    ensures Pending([BACKEND] + ([y] + rest)) == [BACKEND, BACKEND] + AllEmitted(Units([y] + rest))
    ensures AllEmitted(Units([BACKEND] + ([y] + rest))) == Emitted(Backend(y)) + AllEmitted(Units(rest))
    ensures AllErrors(Units([BACKEND] + ([y] + rest))) == AllErrors(Units(rest))
  {
    hide Units, AllEmitted, AllErrors;
    PendingStep(BACKEND, [y] + rest);
    PendingStep(y, rest);
  }

  lemma PendingBeforeOtherPair(y: string, rest: seq<string>)
    requires y != BACKEND
    ensures Pending([BACKEND] + ([y] + rest)) != AllEmitted(Units([BACKEND] + ([y] + rest)))
  {
    PendingBeforePair(y, rest);
    SingleFirst(y, rest);
    var two, after := [BACKEND, BACKEND] + Emitted(Single(y)), AllEmitted(Units(rest));
    Regroup([BACKEND, BACKEND], Emitted(Single(y)), after);
    assert |two| >= 2 && two[1] == BACKEND;
    assert two != Emitted(Backend(y));
    hide Emitted, Units, AllEmitted, Pending;
    AppendCancels(two, Emitted(Backend(y)), after);
  }

  /** A pending backend switch changes nothing of what `ys` emits if and only if `ys` consists of
      backend pairs made of backend switches only. */
  lemma {:induction false} PendingSwitch(ys: seq<string>)
    ensures Pending(ys) == AllEmitted(Units(ys)) <==> OnlyBackendPairs(ys)
    ensures OnlyBackendPairs(ys) ==> AllErrors(Units([BACKEND] + ys)) == [MISSING_VALUE] && AllErrors(Units(ys)) == []
    decreases |ys|
  {
    hide Emitted, Units, AllEmitted, AllErrors, Pending;
    PendingNothing();
    if ys == [] {
      assert [BACKEND] + ys == [BACKEND];
    } else if ys[0] != BACKEND {
      PendingBeforeOther(ys[0], ys[1..]);
      assert ys == [ys[0]] + ys[1..];
    } else if |ys| == 1 {
      assert ys == [BACKEND];
    } else if ys[1] != BACKEND {
      PendingBeforeOtherPair(ys[1], ys[2..]);
      assert ys == [BACKEND] + ([ys[1]] + ys[2..]);
    } else {
      PendingPair(ys);
      PendingSwitch(ys[2..]);
    }
  }

  lemma PendingPair(ys: seq<string>)
    requires |ys| >= 2 && ys[0] == ys[1] == BACKEND
    ensures Pending(ys) == AllEmitted(Units(ys)) <==> Pending(ys[2..]) == AllEmitted(Units(ys[2..]))
    ensures AllErrors(Units([BACKEND] + ys)) == AllErrors(Units([BACKEND] + ys[2..]))
    ensures AllErrors(Units(ys)) == AllErrors(Units(ys[2..]))
  {
    hide Units, AllEmitted, AllErrors;
    var rest := ys[2..];
    assert ys == [BACKEND] + ([BACKEND] + rest);
    PendingBeforePair(BACKEND, rest);
    PendingStep(BACKEND, [BACKEND] + rest);
    PrependCancels(Pending(rest), AllEmitted(Units(rest)), [BACKEND, BACKEND]);
  }

  /** What `xs + ys` emits is what `xs` emits and then what `ys` emits. */
  ghost predicate EmissionsCompose(xs: seq<string>, ys: seq<string>) {
    AllEmitted(Units(xs + ys)) == AllEmitted(Units(xs)) + AllEmitted(Units(ys))
  }

  /** The errors of `xs + ys` are those of `xs` with the new ones of `ys` added. */
  ghost predicate ErrorsCompose(xs: seq<string>, ys: seq<string>) {
    AddNew([], AllErrors(Units(xs + ys))) == AddNew(AddNew([], AllErrors(Units(xs))), AllErrors(Units(ys)))
  }

  /** Processing `xs + ys` emits what `xs` emits and then what `ys` emits if and only if `xs` does not
      end inside a pair or `ys` is nothing but backend switches in an even number; and then the errors
      are those of `xs` with the new ones of `ys`. */
  lemma LoopIsCompositional(xs: seq<string>, ys: seq<string>)
    ensures EmissionsCompose(xs, ys) <==> !EndsInsidePair(xs) || OnlyBackendPairs(ys)
    ensures EmissionsCompose(xs, ys) ==> ErrorsCompose(xs, ys)
  {
    if !EndsInsidePair(xs) {
      hide Units, AllEmitted, AllErrors, AddNew;
      AppendAll(xs, ys);
      AddNewAppend([], AllErrors(Units(xs)), AllErrors(Units(ys)));
    } else {
      LoopAcrossBorder(xs, ys);
    }
  }

  lemma LoopAcrossBorder(xs: seq<string>, ys: seq<string>)
    requires EndsInsidePair(xs)
    ensures EmissionsCompose(xs, ys) <==> OnlyBackendPairs(ys)
    ensures OnlyBackendPairs(ys) ==> ErrorsCompose(xs, ys)
  {
    hide Units, AllEmitted, AllErrors, AddNew, OnlyBackendPairs, EndsInsidePair;
    var before := BorderParts(xs, ys);
    PendingSwitch(ys);
    PrependCancels(Pending(ys), AllEmitted(Units(ys)), AllEmitted(Units(before)));
    AddNothing(AddNew([], AllErrors(Units(xs))));
  }

  lemma BorderParts(xs: seq<string>, ys: seq<string>) returns (before: seq<string>)
    requires EndsInsidePair(xs)
    ensures AllEmitted(Units(xs)) == AllEmitted(Units(before))
    ensures AllEmitted(Units(xs + ys)) == AllEmitted(Units(before)) + Pending(ys)
    ensures AllErrors(Units(xs)) == AllErrors(Units(before)) + [MISSING_VALUE]
    ensures AllErrors(Units(xs + ys)) == AllErrors(Units(before)) + AllErrors(Units([BACKEND] + ys))
  {
    InsidePair(xs);
    before := xs[..|xs| - 1];
    assert xs == before + [BACKEND] && xs + ys == before + ([BACKEND] + ys);
    hide Units, AllEmitted, AllErrors, EndsInsidePair;
    PendingNothing();
    AppendAll(before, [BACKEND]);
    AppendAll(before, [BACKEND] + ys);
    assert AllEmitted(Units(before)) + [] == AllEmitted(Units(before));
  }

  /** The units differ although nothing that is emitted or reported does. */
  lemma CompositionWithoutUnits()
    ensures var xs, ys := ["-mllvm"], ["-mllvm", "-mllvm"];
      && EmissionsCompose(xs, ys) && ErrorsCompose(xs, ys)
      && Units(xs + ys) != Units(xs) + Units(ys)
  {
    var xs, ys := ["-mllvm"], ["-mllvm", "-mllvm"];
    assert EndsInsidePair(xs) && OnlyBackendPairs(ys);
    hide Units, EmissionsCompose, ErrorsCompose;
    LoopIsCompositional(xs, ys);
    UnitsCompose(xs, ys);
  }

  // ----- the error list -----

  /** `a` occurs in `s` for the first time before `b` does. */
  ghost predicate FirstBefore(s: seq<string>, a: string, b: string) {
    exists i, j :: 0 <= i < j < |s| && s[i] == a && s[j] == b && a !in s[..i] && b !in s[..j]
  }

  ghost predicate InFirstOccurrenceOrder(list: seq<string>, s: seq<string>) {
    && NoDuplicates(list)
    && (forall e :: e in list <==> e in s)
    && (forall p, q :: 0 <= p < q < |list| ==> FirstBefore(s, list[p], list[q]))
  }

  lemma FirstBeforeExtends(s: seq<string>, e: string, a: string, b: string)
    requires FirstBefore(s, a, b)
    ensures FirstBefore(s + [e], a, b)
  {
    var i, j :| 0 <= i < j < |s| && s[i] == a && s[j] == b && a !in s[..i] && b !in s[..j];
    assert (s + [e])[..i] == s[..i] && (s + [e])[..j] == s[..j];
    assert (s + [e])[i] == a && (s + [e])[j] == b;
  }

  lemma FirstBeforeLast(s: seq<string>, a: string, e: string)
    requires a in s && e !in s
    ensures FirstBefore(s + [e], a, e)
  {
    var i := FirstIndex(s, a);
    var t := s + [e];
    assert t[..i] == s[..i] && t[..|s|] == s;
    assert t[i] == a && t[|s|] == e;
  }

  lemma {:induction false} FirstIndex(s: seq<string>, e: string) returns (i: nat)
    requires e in s
    ensures i < |s| && s[i] == e && e !in s[..i]
  {
    if e in s[..|s| - 1] {
      i := FirstIndex(s[..|s| - 1], e);
      assert s[..i] == s[..|s| - 1][..i];
    } else {
      i := |s| - 1;
    }
  }

  lemma OneMore(list: seq<string>, s: seq<string>, e: string)
    requires InFirstOccurrenceOrder(list, s)
    ensures InFirstOccurrenceOrder(if e in list then list else list + [e], s + [e])
  {
    hide FirstBefore;
    var longer := if e in list then list else list + [e];
    forall p, q | 0 <= p < q < |longer| ensures FirstBefore(s + [e], longer[p], longer[q]) {
      if q < |list| {
        FirstBeforeExtends(s, e, list[p], list[q]);
      } else {
        assert list[p] in list;
        FirstBeforeLast(s, list[p], e);
      }
    }
  }

  lemma {:induction false} AddNewKeepsOrder(list: seq<string>, done: seq<string>, more: seq<string>)
    requires InFirstOccurrenceOrder(list, done)
    ensures InFirstOccurrenceOrder(AddNew(list, more), done + more)
    decreases |more|
  {
    hide InFirstOccurrenceOrder;
    if more == [] {
      assert done + more == done;
    } else {
      OneMore(list, done, more[0]);
      AddNewKeepsOrder(if more[0] in list then list else list + [more[0]], done + [more[0]], more[1..]);
      assert done + more == (done + [more[0]]) + more[1..];
    }
  }

  /** The reported list holds every error that arose, once, in the order of first occurrence. */
  lemma ErrorsOnceInOrder(arguments: seq<string>)
    ensures var arising := AllErrors(Units(arguments));
      InFirstOccurrenceOrder(AddNew([], arising), arising)
  {
    hide AllErrors, Units, AddNew;
    var arising := AllErrors(Units(arguments));
    AddNewKeepsOrder([], [], arising);
    assert [] + arising == arising;
  }

  // ----- nothing is dropped, nothing slips through -----

  /** The arguments that are consumed without a trace. */
  predicate IsDropped(argument: string) {
    || WarningNumber(argument) == Some("4117")
    || argument == "-Wno-uninitialized-const-pointer" || argument == "/TC"
    || IsIntrinsic(argument)
  }

  lemma TablesEmitSwitches(argument: string)
    ensures Direct(argument).Some? ==> Switches(Direct(argument).value)
    ensures Architecture(argument).Some? ==> Switches(Architecture(argument).value)
  {
  }

  lemma WarningsEmitSwitches(number: string)
    ensures number == "4117" ==> TranslateWarning(number) == Ok([])
    ensures var t := TranslateWarning(number); t.Ok? && number != "4117" ==> Switches(t.value)
  {
  }

  /** Some output, none of it starting with a slash. */
  ghost predicate Switches(out: seq<string>) {
    out != [] && forall i :: 0 <= i < |out| ==> out[i] != "" && out[i][0] == '-'
  }

  lemma DroppedAreNotListed(argument: string)
    ensures IsIntrinsic(argument) ==> WarningNumber(argument).None? && Direct(argument).None?
    ensures argument == "-Wno-uninitialized-const-pointer" || argument == "/TC" ==> WarningNumber(argument).None?
  {
  }

  /** Only the listed arguments vanish; everything else is emitted as something or reported. */
  lemma OnlyListedAreDropped(argument: string)
    ensures Emitted(Single(argument)) == [] && Errors(Single(argument)) == [] <==> IsDropped(argument)
  {
    TablesEmitSwitches(argument);
    if WarningNumber(argument).Some? {
      WarningsEmitSwitches(WarningNumber(argument).value);
    }
    DroppedAreNotListed(argument);
    hide Direct, Architecture, TranslateWarning, WarningNumber;
  }

  lemma PairFirst(option: string, ys: seq<string>)
    ensures var units := Units([BACKEND, option] + ys);
      && AllEmitted(units) == Emitted(Backend(option)) + AllEmitted(Units(ys))
      && AllErrors(units) == Errors(Backend(option)) + AllErrors(Units(ys))
  {
    hide Emitted, Errors, AllEmitted, AllErrors;
    var tail := [BACKEND, option] + ys;
    assert tail == [BACKEND] + ([option] + ys) && ([option] + ys)[1..] == ys;
    UnitsFront(BACKEND, [option] + ys);
    AllFirst(Backend(option), Units(ys));
  }

  lemma AllFirst(u: Unit, rest: seq<Unit>)
    ensures AllEmitted([u] + rest) == Emitted(u) + AllEmitted(rest)
    ensures AllErrors([u] + rest) == Errors(u) + AllErrors(rest)
  {
    hide Emitted, Errors;
    assert ([u] + rest)[1..] == rest;
  }

  lemma PairBetween(xs: seq<string>, option: string, ys: seq<string>)
    requires !EndsInsidePair(xs)
    ensures var units := Units(xs + [BACKEND, option] + ys);
      && AllEmitted(units) == AllEmitted(Units(xs)) + (Emitted(Backend(option)) + AllEmitted(Units(ys)))
      && AllErrors(units) == AllErrors(Units(xs)) + (Errors(Backend(option)) + AllErrors(Units(ys)))
  {
    hide Units, Emitted, Errors, AllEmitted, AllErrors, EndsInsidePair;
    var tail := [BACKEND, option] + ys;
    assert xs + [BACKEND, option] + ys == xs + tail;
    AppendAll(xs, tail);
    PairFirst(option, ys);
  }

  /** Wherever a backend pair stands, it vanishes if it is the one exact pair and is forwarded as it
      is otherwise, without an error and without an effect on what stands around it. */
  lemma OnlyOnePairIsDropped(xs: seq<string>, option: string, ys: seq<string>)
    requires !EndsInsidePair(xs)
    ensures var units, before, after := Units(xs + [BACKEND, option] + ys), Units(xs), Units(ys);
      && AllErrors(units) == AllErrors(before) + AllErrors(after)
      && AllEmitted(units) ==
        if option == "-pick-merged-source-locations" then AllEmitted(before) + AllEmitted(after)
        else AllEmitted(before) + [BACKEND, option] + AllEmitted(after)
  {
    PairBetween(xs, option, ys);
    hide Units, AllEmitted, AllErrors, EndsInsidePair;
    var after := AllEmitted(Units(ys));
    assert [] + after == after && [] + AllErrors(Units(ys)) == AllErrors(Units(ys));
    Regroup(AllEmitted(Units(xs)), [BACKEND, option], after);
  }

  lemma Regroup<T>(a: seq<T>, b: seq<T>, c: seq<T>)
    ensures a + (b + c) == a + b + c
  {
  }

  lemma SlashInTranslation(argument: string, x: string)
    requires x in Emitted(Single(argument)) && "/" <= x
    ensures ("//" <= argument && x == argument) || argument == "/clang:" + x
  {
    hide Direct, Architecture, TranslateWarning, WarningNumber, IsIntrinsic;
    assert x[0] == '/';
    TablesEmitSwitches(argument);
    if WarningNumber(argument).Some? {
      WarningsEmitSwitches(WarningNumber(argument).value);
    } else if Direct(argument).None? && Architecture(argument).None? {
      var out := Translate(argument).value;
      assert out == [x];
      assert "/clang:" <= argument ==> argument == "/clang:" + argument[7..];
    }
  }

  /** Not one of the switches the tables list: no switch at all, or one with a payload. */
  predicate CarriesPayload(a: string) {
    !("/" <= a) || "/D" <= a || "/s" <= a || "/c" <= a || "//" <= a
  }

  lemma PayloadIsNotDirect(a: string)
    requires CarriesPayload(a)
    ensures Direct(a).None?
  {
    assert "/" <= a && |a| > 1 ==> a[1] == 'D' || a[1] == 's' || a[1] == 'c' || a[1] == '/';
  }

  lemma PayloadIsNotListed(a: string)
    requires CarriesPayload(a)
    ensures WarningNumber(a).None? && Architecture(a).None? && !IsIntrinsic(a)
    ensures a != "/TC" && a != "/MT" && a != "/MTd" && a != "/MD" && a != "/MDd"
  {
    assert "/" <= a && |a| > 1 ==> a[1] == 'D' || a[1] == 's' || a[1] == 'c' || a[1] == '/';
  }

  lemma PayloadTranslation(a: string)
    requires CarriesPayload(a) && a != "-Wno-uninitialized-const-pointer"
    ensures "/D" <= a ==> Translate(a) == Ok(["-D" + a[2..]])
    ensures "/std:" <= a ==> Translate(a) == Ok(["-std=" + a[5..]])
    ensures "/clang:" <= a ==> Translate(a) == Ok([a[7..]])
    ensures !("/" <= a) || "//" <= a ==> Translate(a) == Ok([a])
  {
    PayloadIsNotDirect(a);
    PayloadIsNotListed(a);
    hide Direct, Architecture, WarningNumber, IsIntrinsic, CarriesPayload;
    assert "/D" <= a ==> a[0] == '/' && a[1] == 'D';
    assert "/std:" <= a ==> a[0] == '/' && a[1] == 's';
    assert "/clang:" <= a ==> a[0] == '/' && a[1] == 'c';
    assert "//" <= a ==> a[0] == '/' && a[1] == '/';
    assert a != "-Wno-uninitialized-const-pointer";
  }

  /** Payloads are carried over unchanged, and so is every argument that is not a switch. */
  lemma PayloadsAreKept(x: string)
    ensures Translate("/D" + x) == Ok(["-D" + x])
    ensures Translate("/std:" + x) == Ok(["-std=" + x])
    ensures Translate("/clang:" + x) == Ok([x])
    ensures Translate("//" + x) == Ok(["//" + x])
    ensures !("/" <= x) && x != "-Wno-uninitialized-const-pointer" ==> Translate(x) == Ok([x])
  {
    hide Translate;
    var d, s, c, n := "/D" + x, "/std:" + x, "/clang:" + x, "//" + x;
    assert d[2..] == x && s[5..] == x && c[7..] == x;
    assert d[0] == '/' && s[0] == '/' && c[0] == '/' && n[0] == '/';
    assert s[1] == 's' && c[1] == 'c' && n[1] == '/';
    PayloadTranslation(d);
    PayloadTranslation(s);
    PayloadTranslation(c);
    PayloadTranslation(n);
    if !("/" <= x) && x != "-Wno-uninitialized-const-pointer" {
      PayloadTranslation(x);
    }
  }

  /** Where a collected argument with a leading slash comes from. */
  ghost predicate SlashOrigin(arguments: seq<string>, x: string) {
    || (x in arguments && "//" <= x)
    || ("/clang:" + x) in arguments
    || Backend(x) in Units(arguments)
  }

  /** No MSVC switch slips through: a collected argument starting with a slash is a double-slash
      input, the payload of a /clang: argument or the value of a backend pair. */
  lemma {:induction false} SlashComesFrom(arguments: seq<string>, x: string)
    requires x in AllEmitted(Units(arguments)) && "/" <= x
    ensures SlashOrigin(arguments, x)
    decreases |arguments|
  {
    hide Emitted, SlashOrigin;
    var units := Units(arguments);
    var n := if units[0].Backend? then 2 else 1;
    assert units[1..] == if units[0].Dangling? then [] else Units(arguments[n..]);
    if x in Emitted(units[0]) {
      SlashFromUnit(arguments, x);
    } else {
      SlashComesFrom(arguments[n..], x);
      SlashOriginGrows(arguments, n, x);
    }
  }

  lemma SlashFromUnit(arguments: seq<string>, x: string)
    requires arguments != [] && x in Emitted(Units(arguments)[0]) && "/" <= x
    ensures SlashOrigin(arguments, x)
  {
    hide Translate;
    match Units(arguments)[0]
    case Single(argument) => SlashInTranslation(argument, x);
    case Backend(option) => assert BACKEND[0] == '-';
    case Dangling =>
  }

  lemma SlashOriginGrows(arguments: seq<string>, n: nat, x: string)
    requires arguments != [] && n == (if Units(arguments)[0].Backend? then 2 else 1)
    requires n <= |arguments| && SlashOrigin(arguments[n..], x)
    ensures SlashOrigin(arguments, x)
  {
    if Backend(x) in Units(arguments[n..]) {
      assert Units(arguments) == [Units(arguments)[0]] + Units(arguments[n..]);
    }
  }

  /** A definition of one of the three time stamp macros is among the arguments. */
  ghost predicate SomeTimestamp(arguments: seq<string>) {
    exists x :: x in arguments && ("-D__DATE__=" <= x || "-D__TIME__=" <= x || "-D__TIMESTAMP__=" <= x)
  }

  /** An argument names the Skia configuration header. */
  ghost predicate SomeUserConfig(arguments: seq<string>) {
    exists x :: x in arguments && exists i :: Occurs(x, "SK_USER_CONFIG_HEADER=", i)
  }

  /** The text ends in the source's name, with slashes of either kind. */
  ghost predicate EndsInHswSource(x: string) {
    var name := "/src/opts/SkOpts_hsw.cpp";
    && |x| >= |name|
    && forall i :: 0 <= i < |name| ==>
         name[i] == if x[|x| - |name| + i] == '\\' then '/' else x[|x| - |name| + i]
  }

  ghost predicate SomeHswSource(arguments: seq<string>) {
    exists x :: x in arguments && EndsInHswSource(x)
  }

  lemma TriggersMean(x: string)
    ensures DefinesTimestamp(x) <==> ("-D__DATE__=" <= x || "-D__TIME__=" <= x || "-D__TIMESTAMP__=" <= x)
    ensures Contains(x, "SK_USER_CONFIG_HEADER=") <==> exists i :: Occurs(x, "SK_USER_CONFIG_HEADER=", i)
    ensures IsHswSource(x) <==> EndsInHswSource(x)
  {
    hide FindFrom;
    var name := "/src/opts/SkOpts_hsw.cpp";
    if |x| >= |name| {
      var end := LinkResponse.Slashes(x)[|x| - |name|..];
      assert forall i :: 0 <= i < |name| ==> end[i] == LinkResponse.Slashes(x)[|x| - |name| + i];
    }
  }

  lemma TriggersAmong(arguments: seq<string>)
    ensures (exists x :: x in arguments && DefinesTimestamp(x)) <==> SomeTimestamp(arguments)
    ensures (exists x :: x in arguments && Contains(x, "SK_USER_CONFIG_HEADER=")) <==> SomeUserConfig(arguments)
    ensures (exists x :: x in arguments && IsHswSource(x)) <==> SomeHswSource(arguments)
  {
    hide DefinesTimestamp, Contains, IsHswSource, EndsInHswSource;
    forall x
      ensures DefinesTimestamp(x) <==> ("-D__DATE__=" <= x || "-D__TIME__=" <= x || "-D__TIMESTAMP__=" <= x)
      ensures Contains(x, "SK_USER_CONFIG_HEADER=") <==> exists i :: Occurs(x, "SK_USER_CONFIG_HEADER=", i)
      ensures IsHswSource(x) <==> EndsInHswSource(x)
    {
      TriggersMean(x);
    }
  }

  /** The flags added for the three triggers. */
  ghost function Added(timestamp: bool, userConfig: bool, fused: bool): seq<string> {
    var inlined := if fused then ["-mfma"] else [];
    var configured := if userConfig then [FORCE_INLINE_FLAG] + inlined else inlined;
    if timestamp then [BUILTIN_MACRO_FLAG] + configured else configured
  }

  lemma AddedElements(timestamp: bool, userConfig: bool, fused: bool)
    ensures var flags := Added(timestamp, userConfig, fused);
      && NoDuplicates(flags)
      && (BUILTIN_MACRO_FLAG in flags <==> timestamp)
      && (FORCE_INLINE_FLAG in flags <==> userConfig)
      && ("-mfma" in flags <==> fused)
      && (forall x :: x in flags ==> x == BUILTIN_MACRO_FLAG || x == FORCE_INLINE_FLAG || x == "-mfma")
      && (forall x :: x in flags ==> !("/" <= x))
  {
    FlagsAreNoSlash();
  }

  lemma CompletionStages(arguments: seq<string>, a: seq<string>, b: seq<string>)
    requires a == if SomeTimestamp(arguments) then arguments + [BUILTIN_MACRO_FLAG] else arguments
    requires b == if SomeUserConfig(arguments) then a + [FORCE_INLINE_FLAG] else a
    ensures SomeUserConfig(a) <==> SomeUserConfig(arguments)
    ensures SomeHswSource(b) <==> SomeHswSource(arguments)
    ensures "-mfma" in b <==> "-mfma" in arguments
  {
    FlagsAreNoSlash();
    FlagsTriggerNothing();
    TriggersAmong(arguments);
    TriggersAmong(a);
    TriggersAmong(b);
    hide DefinesTimestamp, Contains, IsHswSource, SomeTimestamp, SomeUserConfig, SomeHswSource;
  }

  /** What the completion adds depends on the collected arguments alone: no added flag triggers or
      prevents another, and the fused multiply-add switch is not repeated. */
  lemma CompletionAppends(arguments: seq<string>)
    ensures Completed(arguments) == arguments + Added(SomeTimestamp(arguments), SomeUserConfig(arguments),
                                                      SomeHswSource(arguments) && "-mfma" !in arguments)
  {
    hide DefinesTimestamp, Contains, IsHswSource, SomeTimestamp, SomeUserConfig, SomeHswSource;
    var a := if SomeTimestamp(arguments) then arguments + [BUILTIN_MACRO_FLAG] else arguments;
    var b := if SomeUserConfig(arguments) then a + [FORCE_INLINE_FLAG] else a;
    CompletionStages(arguments, a, b);
    TriggersAmong(arguments);
    TriggersAmong(a);
    TriggersAmong(b);
    assert Completed(arguments) == if SomeHswSource(b) && "-mfma" !in b then b + ["-mfma"] else b;
  }

  /** Behind the collected arguments stand the flags whose triggers are among them, each once. */
  lemma AddedFlags(arguments: seq<string>)
    ensures arguments <= Completed(arguments)
    ensures var flags := Completed(arguments)[|arguments|..];
      && NoDuplicates(flags)
      && ("-Wno-" + "builtin-macro-redefined" in flags <==> SomeTimestamp(arguments))
      && ("-D__forceinline=" + "inline __attribute__((always_inline))" in flags <==> SomeUserConfig(arguments))
      && ("-mfma" in flags <==> SomeHswSource(arguments) && "-mfma" !in arguments)
      && (forall x :: x in flags ==>
            || x == "-Wno-" + "builtin-macro-redefined"
            || x == "-D__forceinline=" + "inline __attribute__((always_inline))"
            || x == "-mfma")
      && (forall x :: x in flags ==> !("/" <= x))
  {
    CompletionAppends(arguments);
    hide Completed, Added, SomeTimestamp, SomeUserConfig, SomeHswSource;
    var fused := SomeHswSource(arguments) && "-mfma" !in arguments;
    AddedElements(SomeTimestamp(arguments), SomeUserConfig(arguments), fused);
    var flags := Added(SomeTimestamp(arguments), SomeUserConfig(arguments), fused);
    assert (arguments + flags)[|arguments|..] == flags;
  }

  lemma FlagsAreNoSlash()
    ensures !("/" <= FORCE_INLINE_FLAG) && !("/" <= BUILTIN_MACRO_FLAG) && !("/" <= "-mfma")
    ensures FORCE_INLINE_FLAG != "-mfma" && BUILTIN_MACRO_FLAG != "-mfma"
    ensures FORCE_INLINE_FLAG != BUILTIN_MACRO_FLAG
  {
    assert FORCE_INLINE_FLAG[0] == '-' && BUILTIN_MACRO_FLAG[0] == '-';
    assert FORCE_INLINE_FLAG[1] == 'D' && BUILTIN_MACRO_FLAG[1] == 'W';
  }

  lemma FlagsTriggerNothing()
    ensures !Contains(BUILTIN_MACRO_FLAG, "SK_USER_CONFIG_HEADER=")
    ensures !IsHswSource(BUILTIN_MACRO_FLAG) && !IsHswSource(FORCE_INLINE_FLAG)
  {
    hide FindFrom;
    var w := "SK_USER_CONFIG_HEADER=";
    forall k ensures !Occurs(BUILTIN_MACRO_FLAG, w, k) {
      if 0 <= k && k + |w| <= |BUILTIN_MACRO_FLAG| {
        assert BUILTIN_MACRO_FLAG[k..k + |w|][0] == BUILTIN_MACRO_FLAG[k] != 'S';
      }
    }
    LastIsKept(BUILTIN_MACRO_FLAG);
    LastIsKept(FORCE_INLINE_FLAG);
  }

  /** A source file name ends in `p`. */
  lemma LastIsKept(s: string)
    ensures IsHswSource(s) ==> s[|s| - 1] == 'p'
  {
    if IsHswSource(s) {
      var n := |HSW_SOURCE|;
      assert LinkResponse.Slashes(s)[|s| - n..][n - 1] == HSW_SOURCE[n - 1] == 'p';
    }
  }
}
