/**
  The translation of single arguments, switch by switch: what each listed switch becomes, which
  arguments are refused, and that a refused one keeps the compiler from being called.
 */
module ArgumentTables {
  import opened Wrappers
  import opened ArgumentAdapter
  import opened ArgumentLaws

  // ----- the listed switches -----

  lemma OptimizationSwitches()
    ensures Translate("/O2") == Ok(["-O2"]) && Translate("/Od") == Ok(["-O0"])
    ensures Translate("/Ob0") == Ok(["-fno-inline"]) && Translate("/Oy-") == Ok(["-fno-omit-frame-pointer"])
  {
  }

  lemma LanguageSwitches()
    ensures Translate("/GR") == Ok(["-frtti"]) && Translate("/GR-") == Ok(["-fno-rtti"])
    ensures Translate("/utf-8") == Ok(["-finput-charset=UTF-8"])
  {
  }

  lemma SectionSwitches()
    ensures Translate("/Gy") == Ok(["-ffunction-sections"]) && Translate("/Gw") == Ok(["-fdata-sections"])
    ensures Translate("/GF") == Ok(["-fmerge-all-constants"])
  {
  }

  lemma DebugSwitches()
    ensures Translate("/Zi") == Ok(["-gcodeview"]) && Translate("/Z7") == Ok(["-gcodeview"])
  {
  }

  lemma DiagnosticSwitches()
    ensures Translate("/WX") == Ok(["-Werror"])
    ensures Translate("/W3") == Ok(["-Wall"])
  {
  }

  lemma MoreDiagnosticSwitches()
    ensures Translate("/W4") == Ok(["-Wall", "-Wextra"])
  {
  }

  lemma LongSwitches()
    ensures Translate("/Zc:sizedDealloc-") == Ok(["-fno-sized-deallocation"])
    ensures Translate("/guard:cf") == Ok(["-mguard=cf"]) && Translate("/guard:cf,nochecks") == Ok(["-mguard=cf"])
  {
  }

  lemma RuntimeSwitches()
    ensures Translate("/MD") == Ok(["-tR"]) && Translate("/MDd") == Ok(["-tR"])
  {
  }

  lemma ArchitectureSwitches()
    ensures Translate("/arch:AVX2") == Ok(["-mavx2", "-mf16c", "-mfma"])
    ensures Translate("/arch:AVX512") ==
      Ok(["-mavx512f", "-mavx512bw", "-mavx512dq", "-mavx512vl", "-mf16c", "-mfma"])
  {
  }

  lemma DroppedSwitches()
    ensures Translate("/TC") == Ok([]) && Translate("/FS") == Ok([]) && Translate("/bigobj") == Ok([])
    ensures Translate("/Zc:inline") == Ok([]) && Translate("/Zc:twoPhase") == Ok([])
  {
  }

  lemma MoreDroppedSwitches()
    ensures Translate("/Brepro") == Ok([]) && Translate("/Zc:__cplusplus") == Ok([])
    ensures Translate("-Wno-uninitialized-const-pointer") == Ok([])
  {
  }

  /** What each listed switch becomes. */
  lemma ListedSwitches()
    ensures Translate("/O2") == Ok(["-O2"]) && Translate("/Od") == Ok(["-O0"])
    ensures Translate("/Ob0") == Ok(["-fno-inline"]) && Translate("/Oy-") == Ok(["-fno-omit-frame-pointer"])
    ensures Translate("/GR") == Ok(["-frtti"]) && Translate("/GR-") == Ok(["-fno-rtti"])
    ensures Translate("/utf-8") == Ok(["-finput-charset=UTF-8"])
    ensures Translate("/Gy") == Ok(["-ffunction-sections"]) && Translate("/Gw") == Ok(["-fdata-sections"])
    ensures Translate("/GF") == Ok(["-fmerge-all-constants"])
    ensures Translate("/Zi") == Ok(["-gcodeview"]) && Translate("/Z7") == Ok(["-gcodeview"])
    ensures Translate("/WX") == Ok(["-Werror"])
    ensures Translate("/W3") == Ok(["-Wall"]) && Translate("/W4") == Ok(["-Wall", "-Wextra"])
    ensures Translate("/Zc:sizedDealloc-") == Ok(["-fno-sized-deallocation"])
    ensures Translate("/guard:cf") == Ok(["-mguard=cf"]) && Translate("/guard:cf,nochecks") == Ok(["-mguard=cf"])
    ensures Translate("/MD") == Ok(["-tR"]) && Translate("/MDd") == Ok(["-tR"])
    ensures Translate("/arch:AVX2") == Ok(["-mavx2", "-mf16c", "-mfma"])
    ensures Translate("/arch:AVX512") ==
      Ok(["-mavx512f", "-mavx512bw", "-mavx512dq", "-mavx512vl", "-mf16c", "-mfma"])
    ensures Translate("/TC") == Ok([]) && Translate("/FS") == Ok([]) && Translate("/bigobj") == Ok([])
    ensures Translate("/Zc:inline") == Ok([]) && Translate("/Zc:twoPhase") == Ok([])
    ensures Translate("/Brepro") == Ok([]) && Translate("/Zc:__cplusplus") == Ok([])
    ensures Translate("-Wno-uninitialized-const-pointer") == Ok([])
  {
    hide Translate;
    OptimizationSwitches();
    LanguageSwitches();
    SectionSwitches();
    DebugSwitches();
    DiagnosticSwitches();
    MoreDiagnosticSwitches();
    LongSwitches();
    RuntimeSwitches();
    ArchitectureSwitches();
    DroppedSwitches();
    MoreDroppedSwitches();
  }

  // ----- what is refused -----

  /** /wd and four digits, ignoring case. */
  ghost predicate IsWarningSwitch(a: string) {
    && |a| == 7 && a[0] == '/' && (a[1] == 'w' || a[1] == 'W') && (a[2] == 'd' || a[2] == 'D')
    && forall i :: 3 <= i < 7 ==> '0' <= a[i] <= '9'
  }

  /** The switches that are accepted as they stand. */
  ghost predicate IsListed(a: string) {
    || a in {"/WX", "/Gy", "/Gw", "/Oy-", "/O2", "/Od", "/Ob0", "/GF", "/GR-", "/GR", "/Zi", "/Z7", "/utf-8"}
    || a in {"/Zc:sizedDealloc-", "/W3", "/W4", "/guard:cf", "/guard:cf,nochecks"}
    || a in {"/TC", "/FS", "/bigobj", "/Zc:inline", "/Zc:twoPhase", "/Brepro", "/Zc:__cplusplus"}
    || a in {"/MD", "/MDd", "/arch:AVX2", "/arch:AVX512"}
  }

  /** One leading slash, and no switch that is listed or carries a payload. */
  ghost predicate IsUnknown(a: string) {
    && "/" <= a && !("//" <= a)
    && !IsWarningSwitch(a) && !IsListed(a)
    && !("/D" <= a) && !("/std:" <= a) && !("/clang:" <= a)
  }

  ghost predicate IsRefused(a: string) {
    || IsUnknown(a)
    || (IsWarningSwitch(a) && a[3..] !in {"4117", "4244", "4267", "4800"})
  }

  lemma TablesAreListed(a: string)
    ensures Direct(a).Some? || IsIntrinsic(a) || a == "/TC" || a == "/MD" || a == "/MDd" || Architecture(a).Some?
      <==> IsListed(a)
  {
  }

  lemma WarningMeans(a: string)
    ensures WarningNumber(a) == if IsWarningSwitch(a) then Some(a[3..]) else None
  {
  }

  lemma OtherTranslation(a: string)
    requires !IsWarningSwitch(a)
    ensures Translate(a).Err? <==> IsUnknown(a)
    ensures a == "/MT" || a == "/MTd" ==>
      Translate(a) == Err("static MSVC CRT option forbidden by BuildEngine dynamic RTL policy: " + a)
    ensures IsUnknown(a) && a != "/MT" && a != "/MTd" ==>
      Translate(a) == Err("unsupported MSVC option for BCC64X: " + a)
  {
    WarningMeans(a);
    TablesAreListed(a);
    StaticRuntime();
    assert "-Wno-uninitialized-const-pointer"[0] == '-';
    hide Direct, IsIntrinsic, Architecture, WarningNumber, TranslateWarning, IsListed, IsWarningSwitch;
  }

  lemma StaticRuntime()
    ensures IsUnknown("/MT") && IsUnknown("/MTd")
  {
    assert "/MT"[1] == 'M' && "/MTd"[1] == 'M' && "//"[1] == '/';
  }

  /** Exactly the unknown switches, the static runtimes among them, and the warnings without a known
      equivalent are refused, each with its message. */
  lemma RefusedExactly(a: string)
    ensures Translate(a).Err? <==> IsRefused(a)
    ensures a == "/MT" || a == "/MTd" ==>
      Translate(a) == Err("static MSVC CRT option forbidden by BuildEngine dynamic RTL policy: " + a)
    ensures IsUnknown(a) && a != "/MT" && a != "/MTd" ==>
      Translate(a) == Err("unsupported MSVC option for BCC64X: " + a)
    ensures IsRefused(a) && IsWarningSwitch(a) ==>
      Translate(a) == Err("no verified BCC64X warning equivalent for MSVC C" + a[3..])
  {
    if IsWarningSwitch(a) {
      WarningMeans(a);
      assert a[1] == 'w' || a[1] == 'W';
    } else {
      OtherTranslation(a);
    }
  }

  /** The warnings that are known, whatever the case of the letters. */
  lemma KnownWarnings(a: string)
    requires IsWarningSwitch(a)
    ensures a[3..] == "4117" ==> Translate(a) == Ok([])
    ensures a[3..] == "4244" ==>
      Translate(a) == Ok(["-Wno-" + "shorten-64-to-32", "-Wno-" + "implicit-int-conversion",
                          "-Wno-" + "implicit-float-conversion", "-Wno-" + "float-conversion"])
    ensures a[3..] == "4267" ==>
      Translate(a) == Ok(["-Wno-" + "shorten-64-to-32", "-Wno-" + "implicit-int-conversion"])
    ensures a[3..] == "4800" ==> Translate(a) == Ok(["-Wno-" + "bool-conversion"])
  {
    WarningMeans(a);
    hide WarningNumber;
  }

  // ----- the whole program -----

  lemma SingleBetween(xs: seq<string>, a: string, ys: seq<string>)
    requires !EndsInsidePair(xs) && a != "-mllvm"
    ensures AllEmitted(Units(xs + ([a] + ys))) ==
      AllEmitted(Units(xs)) + (Emitted(Single(a)) + AllEmitted(Units(ys)))
    ensures AllErrors(Units(xs + ([a] + ys))) == AllErrors(Units(xs)) + (Errors(Single(a)) + AllErrors(Units(ys)))
  {
    hide Units, AllEmitted, AllErrors, Emitted, Errors, EndsInsidePair;
    AppendAll(xs, [a] + ys);
    UnitsFront(a, ys);
    AllFirst(Single(a), Units(ys));
  }

  /** Wherever a single argument stands, its translation stands in its place. */
  lemma TranslationBetween(xs: seq<string>, a: string, ys: seq<string>)
    requires !EndsInsidePair(xs) && a != "-mllvm" && !IsRefused(a)
    ensures Translate(a).Ok?
    ensures AllEmitted(Units(xs + ([a] + ys))) ==
      AllEmitted(Units(xs)) + (Translate(a).value + AllEmitted(Units(ys)))
    ensures AllErrors(Units(xs + ([a] + ys))) == AllErrors(Units(xs)) + AllErrors(Units(ys))
  {
    RefusedExactly(a);
    hide Translate, Units, AllEmitted, AllErrors, EndsInsidePair;
    SingleBetween(xs, a, ys);
    assert [] + AllErrors(Units(ys)) == AllErrors(Units(ys));
  }

  lemma ErrorIsRejected(compiler: string, arguments: seq<string>, e: string)
    requires compiler != "--link-rsp" && arguments != [] && e in AllErrors(Units(arguments))
    ensures var r := Behaviour([compiler] + arguments); r.Rejected? && e in r.errors
  {
    hide AllErrors, Units, AddNew, Completed;
    assert ([compiler] + arguments)[1..] == arguments;
    SomeErrorRemains([], AllErrors(Units(arguments)));
  }

  lemma ErrorBetween(xs: seq<string>, a: string, ys: seq<string>)
    requires !EndsInsidePair(xs) && IsRefused(a) && Translate(a).Err?
    ensures Translate(a).error in AllErrors(Units(xs + ([a] + ys)))
  {
    assert a[0] == '/' && "-mllvm"[0] == '-';
    assert Errors(Single(a)) == [Translate(a).error];
    hide Translate, Errors, IsRefused, Units, AllErrors, AllEmitted, EndsInsidePair;
    SingleBetween(xs, a, ys);
    StaysIn(AllErrors(Units(xs)), Translate(a).error, AllErrors(Units(ys)));
  }

  lemma StaysIn(before: seq<string>, e: string, after: seq<string>)
    ensures e in before + ([e] + after)
  {
    assert (before + ([e] + after))[|before|] == e;
  }

  /** A refused argument outside a backend pair is reported and the compiler is not called. */
  lemma RefusedIsReported(compiler: string, xs: seq<string>, a: string, ys: seq<string>)
    requires compiler != "--link-rsp" && !EndsInsidePair(xs) && IsRefused(a)
    ensures var r := Behaviour([compiler] + (xs + ([a] + ys)));
      r.Rejected? && Translate(a).Err? && Translate(a).error in r.errors
  {
    RefusedExactly(a);
    hide Translate, IsRefused, Units, AllErrors, EndsInsidePair, Behaviour;
    ErrorBetween(xs, a, ys);
    ErrorIsRejected(compiler, xs + ([a] + ys), Translate(a).error);
  }

  /** So is a backend switch at the end without its value. */
  lemma MissingValueIsReported(compiler: string, xs: seq<string>)
    requires compiler != "--link-rsp" && !EndsInsidePair(xs)
    ensures var r := Behaviour([compiler] + (xs + ["-mllvm"]));
      r.Rejected? && "missing value after -mllvm" in r.errors
  {
    PendingNothing();
    hide Units, AllErrors, AllEmitted, EndsInsidePair, Behaviour;
    AppendAll(xs, ["-mllvm"]);
    assert MISSING_VALUE in [MISSING_VALUE];
    ErrorIsRejected(compiler, xs + ["-mllvm"], MISSING_VALUE);
  }

  ghost predicate IsBad(u: Unit) {
    u.Dangling? || (u.Single? && IsRefused(u.argument))
  }

  lemma BadIsError(u: Unit)
    ensures Errors(u) == [] <==> !IsBad(u)
  {
    hide Translate, IsRefused;
    if u.Single? {
      RefusedExactly(u.argument);
    }
  }

  lemma {:induction false} NoErrors(units: seq<Unit>)
    ensures AllErrors(units) == [] <==> forall u :: u in units ==> !IsBad(u)
  {
    hide Errors, IsBad;
    if units != [] {
      NoErrors(units[1..]);
      BadIsError(units[0]);
      assert |AllErrors(units)| == |Errors(units[0])| + |AllErrors(units[1..])|;
      assert forall u :: u in units <==> u == units[0] || u in units[1..];
    }
  }

  /** The compiler is called exactly when no argument outside a backend pair is refused and no backend
      switch lacks its value; then it gets what was emitted and the flags that complete it. */
  lemma CompiledExactly(compiler: string, arguments: seq<string>)
    requires compiler != "--link-rsp" && arguments != []
    ensures var r := Behaviour([compiler] + arguments);
      && (r.Compile? <==> forall u :: u in Units(arguments) ==> !IsBad(u))
      && (r.Compile? ==> r == Compile(compiler, Completed(AllEmitted(Units(arguments)))))
  {
    hide Units, AllErrors, AllEmitted, IsBad, Completed, AddNew;
    assert ([compiler] + arguments)[1..] == arguments;
    NoErrors(Units(arguments));
  }
}
