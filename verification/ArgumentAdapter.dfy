/**
  The compiler argument adapter: translation of one argument, and the loop over all of them.
 */
module ArgumentAdapter {
  import opened Wrappers
  import opened Text
  import LinkResponse

  type Translation = Result<seq<string>, string>

  predicate IsDigit(c: char) {
    '0' <= c <= '9'
  }

  /** The four digits of /wdNNNN, ignoring the case of the letters. */
  function WarningNumber(argument: string): Option<string> {
    if |argument| == 7 && argument[0] == '/' && (argument[1] == 'w' || argument[1] == 'W')
      && (argument[2] == 'd' || argument[2] == 'D') && forall i :: 3 <= i < 7 ==> IsDigit(argument[i])
    then Some(argument[3..])
    else None
  }

  /** The Clang switch that turns a warning off. */
  function Disable(warning: string): string {
    "-Wno-" + warning
  }

  function TranslateWarning(number: string): Translation {
    if number == "4117" then Ok([])
    else if number == "4244" then
      Ok([Disable("shorten-64-to-32"), Disable("implicit-int-conversion"),
          Disable("implicit-float-conversion"), Disable("float-conversion")])
    else if number == "4267" then Ok([Disable("shorten-64-to-32"), Disable("implicit-int-conversion")])
    else if number == "4800" then Ok([Disable("bool-conversion")])
    else Err("no verified BCC64X warning equivalent for MSVC C" + number)
  }

  /** Switches with a fixed translation. */
  function Direct(argument: string): Option<seq<string>> {
    if argument == "/WX" then Some(["-Werror"])
    else if argument == "/Gy" then Some(["-ffunction-sections"])
    else if argument == "/Gw" then Some(["-fdata-sections"])
    else if argument == "/Oy-" then Some(["-fno-omit-frame-pointer"])
    else if argument == "/O2" then Some(["-O2"])
    else if argument == "/Od" then Some(["-O0"])
    else if argument == "/Ob0" then Some(["-fno-inline"])
    else if argument == "/GF" then Some(["-fmerge-all-constants"])
    else if argument == "/GR-" then Some(["-fno-rtti"])
    else if argument == "/GR" then Some(["-frtti"])
    else if argument == "/Zi" || argument == "/Z7" then Some(["-gcodeview"])
    else if argument == "/utf-8" then Some(["-finput-charset=UTF-8"])
    else if argument == "/Zc:sizedDealloc-" then Some(["-fno-sized-deallocation"])
    else if argument == "/W3" then Some(["-Wall"])
    else if argument == "/W4" then Some(["-Wall", "-Wextra"])
    else if argument == "/guard:cf" || argument == "/guard:cf,nochecks" then Some(["-mguard=cf"])
    else None
  }

  /** Switches that have no distinct effect under the Clang frontend. */
  predicate IsIntrinsic(argument: string) {
    || argument == "/FS" || argument == "/bigobj" || argument == "/Zc:inline"
    || argument == "/Zc:twoPhase" || argument == "/Brepro" || argument == "/Zc:__cplusplus"
  }

  function Architecture(argument: string): Option<seq<string>> {
    if argument == "/arch:AVX2" then Some(["-mavx2", "-mf16c", "-mfma"])
    else if argument == "/arch:AVX512" then
      Some(["-mavx512f", "-mavx512bw", "-mavx512dq", "-mavx512vl", "-mf16c", "-mfma"])
    else None
  }

  function Translate(argument: string): Translation {
    if WarningNumber(argument).Some? then TranslateWarning(WarningNumber(argument).value)
    else if argument == "-Wno-uninitialized-const-pointer" || argument == "/TC" then Ok([])
    else if Direct(argument).Some? then Ok(Direct(argument).value)
    else if IsIntrinsic(argument) then Ok([])
    else if argument == "/MT" || argument == "/MTd" then
      Err("static MSVC CRT option forbidden by BuildEngine dynamic RTL policy: " + argument)
    else if argument == "/MD" || argument == "/MDd" then Ok(["-tR"])
    else if Architecture(argument).Some? then Ok(Architecture(argument).value)
    else if "/D" <= argument then Ok(["-D" + argument[2..]])
    else if "/std:" <= argument then Ok(["-std=" + argument[5..]])
    else if "/clang:" <= argument then Ok([argument[7..]])
    else if "/" <= argument && !("//" <= argument) then Err("unsupported MSVC option for BCC64X: " + argument)
    else Ok([argument])
  }

  const BACKEND := "-mllvm"
  const DROPPED_BACKEND_OPTION := "-pick-merged-source-locations"
  const MISSING_VALUE := "missing value after -mllvm"

  // ----- the arguments as units -----

  /** An argument of its own, a backend pair, or a backend switch at the end without its value. */
  datatype Unit = Single(argument: string) | Backend(option: string) | Dangling

  function Units(arguments: seq<string>): seq<Unit> {
    if arguments == [] then []
    else if arguments[0] != BACKEND then [Single(arguments[0])] + Units(arguments[1..])
    else if |arguments| == 1 then [Dangling]
    else [Backend(arguments[1])] + Units(arguments[2..])
  }

  function Emitted(u: Unit): seq<string> {
    match u
    case Single(argument) => (match Translate(argument) case Ok(out) => out case Err(_) => [])
    case Backend(option) => if option == DROPPED_BACKEND_OPTION then [] else [BACKEND, option]
    case Dangling => []
  }

  function Errors(u: Unit): seq<string> {
    match u
    case Single(argument) => (match Translate(argument) case Ok(_) => [] case Err(e) => [e])
    case Backend(_) => []
    case Dangling => [MISSING_VALUE]
  }

  function AllEmitted(units: seq<Unit>): seq<string> {
    if units == [] then [] else Emitted(units[0]) + AllEmitted(units[1..])
  }

  function AllErrors(units: seq<Unit>): seq<string> {
    if units == [] then [] else Errors(units[0]) + AllErrors(units[1..])
  }

  /** Append the elements of `more` that are not there yet. */
  function AddNew(list: seq<string>, more: seq<string>): seq<string>
    decreases |more|
  {
    if more == [] then list
    else AddNew(if more[0] in list then list else list + [more[0]], more[1..])
  }

  // ----- the additions after the loop -----

  const BUILTIN_MACRO_FLAG := Disable("builtin-macro-redefined")
  const FORCE_INLINE_FLAG := "-D__forceinline=" + "inline __attribute__((always_inline))"
  const HSW_SOURCE := "/src/opts/SkOpts_hsw.cpp"

  predicate DefinesTimestamp(argument: string) {
    "-D__DATE__=" <= argument || "-D__TIME__=" <= argument || "-D__TIMESTAMP__=" <= argument
  }

  predicate IsHswSource(argument: string) {
    |argument| >= |HSW_SOURCE| && LinkResponse.Slashes(argument)[|argument| - |HSW_SOURCE|..] == HSW_SOURCE
  }

  function Completed(arguments: seq<string>): seq<string> {
    var a := if exists x :: x in arguments && DefinesTimestamp(x) then arguments + [BUILTIN_MACRO_FLAG] else arguments;
    var b := if exists x :: x in a && Contains(x, "SK_USER_CONFIG_HEADER=") then a + [FORCE_INLINE_FLAG] else a;
    if (exists x :: x in b && IsHswSource(x)) && "-mfma" !in b then b + ["-mfma"] else b
  }

  // ----- the program -----

  datatype Outcome =
    | Usage
    | LinkResponseMode
    | Rejected(errors: seq<string>)
    | Compile(compiler: string, arguments: seq<string>)

  lemma UnitsStep(arguments: seq<string>, i: nat)
    requires i < |arguments|
    ensures var u := if arguments[i] != BACKEND then Single(arguments[i])
                     else if i + 1 == |arguments| then Dangling else Backend(arguments[i + 1]);
      var rest := Units(arguments[if u.Backend? then i + 2 else i + 1..]);
      && AllEmitted(Units(arguments[i..])) == Emitted(u) + AllEmitted(rest)
      && AllErrors(Units(arguments[i..])) == Errors(u) + AllErrors(rest)
  {
    hide Emitted, Errors;
    var tail := arguments[i..];
    assert tail[1..] == arguments[i + 1..];
    if i + 1 < |arguments| {
      assert tail[2..] == arguments[i + 2..];
    }
    var units := Units(tail);
    assert units[1..] == Units(arguments[if units[0].Backend? then i + 2 else i + 1..]);
  }

  lemma AddNewCons(list: seq<string>, e: string, rest: seq<string>)
    ensures AddNew(list, [e] + rest) == AddNew(if e in list then list else list + [e], rest)
    ensures [] + rest == rest
  {
    assert ([e] + rest)[1..] == rest;
  }

  lemma NoUnits(arguments: seq<string>)
    ensures AllEmitted(Units(arguments[|arguments|..])) == [] && AllErrors(Units(arguments[|arguments|..])) == []
  {
  }

  lemma TranslationErrorsAreLong(argument: string)
    ensures Translate(argument).Err? ==> |Translate(argument).error| > |MISSING_VALUE|
  {
    hide Direct, Architecture, IsIntrinsic, WarningNumber;
  }

  /** What the loop collects: the emitted arguments in order and each error once. */
  method CollectArguments(arguments: seq<string>) returns (collected: seq<string>, errors: seq<string>)
    ensures collected == AllEmitted(Units(arguments))
    ensures errors == AddNew([], AllErrors(Units(arguments)))
  {
    hide Translate, AllEmitted, AllErrors, Units, AddNew;
    NoUnits(arguments);
    collected, errors := [], [];
    var i := 0;
    assert arguments[0..] == arguments;
    while i < |arguments|
      invariant i <= |arguments|
      invariant collected + AllEmitted(Units(arguments[i..])) == AllEmitted(Units(arguments))
      invariant AddNew(errors, AllErrors(Units(arguments[i..]))) == AddNew([], AllErrors(Units(arguments)))
      invariant MISSING_VALUE !in errors
    {
      UnitsStep(arguments, i);
      ghost var unit := if arguments[i] != BACKEND then Single(arguments[i])
                        else if i + 1 == |arguments| then Dangling else Backend(arguments[i + 1]);
      ghost var rest := AllErrors(Units(arguments[if unit.Backend? then i + 2 else i + 1..]));
      AddNewCons(errors, if Errors(unit) == [] then "" else Errors(unit)[0], rest);
      var argument := arguments[i];
      i := i + 1;
      if argument == BACKEND {
        if i == |arguments| {
          errors := errors + [MISSING_VALUE];
          break;
        }
        var option := arguments[i];
        i := i + 1;
        if option == DROPPED_BACKEND_OPTION {
          continue;
        }
        collected := collected + [BACKEND, option];
        continue;
      }
      TranslationErrorsAreLong(argument);
      match Translate(argument) {
        case Ok(out) => collected := collected + out;
        case Err(error) =>
          if error !in errors {
            errors := errors + [error];
          }
      }
    }
    AddNothing(errors);
  }

  lemma AddNothing(list: seq<string>)
    ensures AddNew(list, []) == list
  {
  }

  /** What the program does with the arguments after its own name. */
  function Behaviour(arguments: seq<string>): Outcome {
    if |arguments| >= 1 && arguments[0] == "--link-rsp" then LinkResponseMode
    else if |arguments| < 2 then Usage
    else
      var units := Units(arguments[1..]);
      if AllErrors(units) == [] then Compile(arguments[0], Completed(AllEmitted(units)))
      else Rejected(AddNew([], AllErrors(units)))
  }

  method Run(arguments: seq<string>) returns (r: Outcome)
    ensures r == Behaviour(arguments)
  {
    hide Translate, Units, AllEmitted, Completed;
    if |arguments| >= 1 && arguments[0] == "--link-rsp" {
      return LinkResponseMode;
    }
    if |arguments| < 2 {
      return Usage;
    }
    var collected, errors := CollectArguments(arguments[1..]);
    var completed := Completed(collected);
    SomeErrorRemains([], AllErrors(Units(arguments[1..])));
    if errors != [] {
      return Rejected(errors);
    }
    return Compile(arguments[0], completed);
  }

  lemma {:induction false} SomeErrorRemains(list: seq<string>, more: seq<string>)
    ensures AddNew(list, more) == [] <==> list == [] && more == []
    ensures forall e :: e in AddNew(list, more) <==> e in list || e in more
    decreases |more|
  {
    if more != [] {
      SomeErrorRemains(if more[0] in list then list else list + [more[0]], more[1..]);
      assert more == [more[0]] + more[1..];
    }
  }
}
