/**
  The re-runnable source patchers: read a file, test for the patched text, count the expected
  context, replace it once, write the file.
 */
module Patchers {
  import opened Wrappers
  import opened Text
  import opened PatchTexts

  // ----- what each patcher makes of a text; None is a context mismatch -----

  /** Replace the one occurrence of the context. */
  function Step(text: string, original: string, patched: string): Option<string>
  {
    if Count(text, original) != 1 then None else Some(ReplaceFirst(text, original, patched))
  }

  function PatchOnce(text: string, original: string, patched: string): Option<string>
  {
    if Contains(text, patched) then Some(text) else Step(text, original, patched)
  }

  /** Both tests look at the text as read; the second replacement works on the first one's result. */
  function LldPatched(text: string): Option<string> {
    var win := PatchOnce(text, ORIGINAL_WIN, PATCHED_WIN);
    if win.None? || Contains(text, PATCHED_NIX) then win else Step(win.value, ORIGINAL_NIX, PATCHED_NIX)
  }

  /** The first compatibility attempt, if present, is taken back before the probe is patched. */
  function Migrated(text: string): string {
    ReplaceFirst(text, PREVIOUS_METHOD, ORIGINAL_METHOD)
  }

  function UndefinedPatched(text: string): Option<string> {
    PatchOnce(Migrated(text), ORIGINAL_PROBE, PATCHED_PROBE)
  }

  /** The text a file holds after a patcher: a mismatch leaves it as it was. */
  function Effect(patch: Option<string>, before: string): string {
    match patch
    case Some(text) => text
    case None => before
  }

  // ----- the patchers on files -----

  datatype Outcome = NotApplicable | AlreadyPatched | Written | ContextMismatch

  class SourceFile {
    var text: string
    var writes: nat

    constructor (text: string)
      ensures this.text == text && writes == 0
    {
      this.text := text;
      writes := 0;
    }

    method Write(s: string)
      modifies this
      ensures text == s && writes == old(writes) + 1
    {
      text := s;
      writes := writes + 1;
    }
  }

  method PatchLldDetection(bcc64x: bool, file: SourceFile) returns (r: Outcome)
    modifies file
    ensures r.NotApplicable? <==> !bcc64x
    ensures r.AlreadyPatched? <==>
      bcc64x && Contains(old(file.text), PATCHED_WIN) && Contains(old(file.text), PATCHED_NIX)
    ensures bcc64x ==> file.text == Effect(LldPatched(old(file.text)), old(file.text))
    ensures bcc64x ==> (r.ContextMismatch? <==> LldPatched(old(file.text)).None?)
    ensures file.writes == old(file.writes) + if r.Written? then 1 else 0
    ensures !r.Written? ==> file.text == old(file.text)
  {
    hide Concat, FindFrom, Count, ReplaceFirst;
    if !bcc64x {
      return NotApplicable;
    }
    var text := file.text;
    var winIsPatched := Contains(text, PATCHED_WIN);
    var nixIsPatched := Contains(text, PATCHED_NIX);
    if winIsPatched && nixIsPatched {
      return AlreadyPatched;
    }
    if !winIsPatched {
      if Count(text, ORIGINAL_WIN) != 1 {
        return ContextMismatch;
      }
      text := ReplaceFirst(text, ORIGINAL_WIN, PATCHED_WIN);
    }
    if !nixIsPatched {
      if Count(text, ORIGINAL_NIX) != 1 {
        return ContextMismatch;
      }
      text := ReplaceFirst(text, ORIGINAL_NIX, PATCHED_NIX);
    }
    file.Write(text);
    return Written;
  }

  method PatchAllowUndefined(bcc64x: bool, file: SourceFile) returns (r: Outcome)
    modifies file
    ensures r.NotApplicable? <==> !bcc64x
    ensures !r.AlreadyPatched?
    ensures bcc64x ==> file.text == Effect(UndefinedPatched(old(file.text)), old(file.text))
    ensures bcc64x ==> (r.ContextMismatch? <==> UndefinedPatched(old(file.text)).None?)
    ensures file.writes == old(file.writes) + if r.Written? then 1 else 0
    ensures !r.Written? ==> file.text == old(file.text)
  {
    hide Concat, FindFrom, Count;
    if !bcc64x {
      return NotApplicable;
    }
    var text := file.text;
    if Contains(text, PREVIOUS_METHOD) {
      text := ReplaceFirst(text, PREVIOUS_METHOD, ORIGINAL_METHOD);
    }
    assert text == Migrated(file.text);
    if Contains(text, PATCHED_PROBE) {
      file.Write(text);
      return Written;
    }
    if Count(text, ORIGINAL_PROBE) != 1 {
      return ContextMismatch;
    }
    text := ReplaceFirst(text, ORIGINAL_PROBE, PATCHED_PROBE);
    file.Write(text);
    return Written;
  }

  /** The shape of the Visual Studio and the GLCPP patchers. */
  method PatchSingle(bcc64x: bool, file: SourceFile, original: string, patched: string) returns (r: Outcome)
    modifies file
    ensures r.NotApplicable? <==> !bcc64x
    ensures r.AlreadyPatched? <==> bcc64x && Contains(old(file.text), patched)
    ensures bcc64x ==> file.text == Effect(PatchOnce(old(file.text), original, patched), old(file.text))
    ensures bcc64x ==> (r.ContextMismatch? <==> PatchOnce(old(file.text), original, patched).None?)
    ensures file.writes == old(file.writes) + if r.Written? then 1 else 0
    ensures !r.Written? ==> file.text == old(file.text)
  {
    hide FindFrom, Count, ReplaceFirst;
    if !bcc64x {
      return NotApplicable;
    }
    var text := file.text;
    if Contains(text, patched) {
      return AlreadyPatched;
    }
    if Count(text, original) != 1 {
      return ContextMismatch;
    }
    text := ReplaceFirst(text, original, patched);
    file.Write(text);
    return Written;
  }

  method PatchVsenvDetection(bcc64x: bool, file: SourceFile) returns (r: Outcome)
    modifies file
    ensures r.NotApplicable? <==> !bcc64x
    ensures r.AlreadyPatched? <==> bcc64x && Contains(old(file.text), PATCHED_VSENV)
    ensures bcc64x ==> file.text == Effect(PatchOnce(old(file.text), ORIGINAL_VSENV, PATCHED_VSENV), old(file.text))
    ensures bcc64x ==> (r.ContextMismatch? <==> PatchOnce(old(file.text), ORIGINAL_VSENV, PATCHED_VSENV).None?)
    ensures file.writes == old(file.writes) + if r.Written? then 1 else 0
    ensures !r.Written? ==> file.text == old(file.text)
  {
    hide Concat;
    r := PatchSingle(bcc64x, file, ORIGINAL_VSENV, PATCHED_VSENV);
  }

  method PatchGlcppNewlines(bcc64x: bool, file: SourceFile) returns (r: Outcome)
    modifies file
    ensures r.NotApplicable? <==> !bcc64x
    ensures r.AlreadyPatched? <==> bcc64x && Contains(old(file.text), PATCHED_GLCPP)
    ensures bcc64x ==> file.text == Effect(PatchOnce(old(file.text), ORIGINAL_GLCPP, PATCHED_GLCPP), old(file.text))
    ensures bcc64x ==> (r.ContextMismatch? <==> PatchOnce(old(file.text), ORIGINAL_GLCPP, PATCHED_GLCPP).None?)
    ensures file.writes == old(file.writes) + if r.Written? then 1 else 0
    ensures !r.Written? ==> file.text == old(file.text)
  {
    hide Concat;
    r := PatchSingle(bcc64x, file, ORIGINAL_GLCPP, PATCHED_GLCPP);
  }
}
