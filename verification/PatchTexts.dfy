/**
  The exact texts that the source patchers look for and put in their place, and the fact that those
  of one patcher never overlap each other in any text. Long lines are written in pieces, cut between words.
 */
module PatchTexts {
  import opened Text

  const SUPPORTS := "self._supports_flag(" + "'--allow-shlib-undefined'," + " always_args)\n"
  const WIN_FIRST_LINE := "    if 'LLD' in o.split('\\n'," + " maxsplit=1)[0]:\n"
  const WIN_GNU := "        if 'compatible with GNU" + " linkers' in o:\n"
  const WIN_ANY_LINE := "    if 'LLD' in o:\n"
  const NIX_FIRST_LINE := "    if 'LLD' in o.split('\\n'," + " maxsplit=1)[0] or 'tiarmlnk' in e:\n"
  const NIX_ANY_LINE := "    if 'LLD' in o or 'tiarmlnk' in" + " e:\n"
  const PROBE := "        self." + "has_allow_shlib_undefined = " + SUPPORTS
  const PROBE_OPEN := "        self." + "has_allow_shlib_undefined = (\n"
  const PROBE_NOT_WINDOWS := "            not env." + "machines[for_machine].is_windows()\n"
  const PROBE_FLAG := "            and " + SUPPORTS
  const PROBE_CLOSE := "        )\n"
  const METHOD := "    def" + " get_allow_undefined_args(self) ->" + " T.List[str]:\n"
  const METHOD_IF_WINDOWS := "        if self.system ==" + " 'windows':\n"
  const METHOD_NOTHING_INNER := "            return []\n"
  const METHOD_IF_PROBED := "        if" + " self.has_allow_shlib_undefined:\n"
  const METHOD_FLAG := "            return self." + "_apply_prefix(" + "'--allow-shlib-undefined')\n"
  const METHOD_NOTHING := "        return []\n"
  const GLCPP_BISON := "    # Bison 3.6 changed '$end' to" + " 'end of file' in its error" + " messages\n"
  const GLCPP_ISSUE := "    # See: https://gitlab." + "freedesktop.org/mesa/mesa/-/issues/" + "3181\n"
  const GLCPP_END_OF_FILE := "    actual = actual.replace('$end'," + " 'end of file')\n"
  const BLANK := "\n"
  const GLCPP_COMPARE := "    if actual == expected:\n"
  const GLCPP_NATIVE := "    # Native Windows stdio expands" + " LF to CRLF. The upstream reference" + " files\n"
  const GLCPP_UPSTREAM := "    # are LF-only in the release" + " archive; compare content" + " independently of\n"
  const GLCPP_CONVENTION := "    # that transport-level newline" + " convention.\n"
  const GLCPP_ACTUAL := "    actual = actual.replace('\\r\\n'," + " '\\n')\n"
  const GLCPP_EXPECTED := "    expected =" + " expected.replace('\\r\\n', '\\n')\n"
  const VSENV_CLANG_CL := "        if" + " shutil.which('clang-cl'):\n"
  const VSENV_FALSE := "            return False\n"
  const VSENV_BCC64X := "        if shutil.which('bcc64x'):\n"

  const ORIGINAL_WIN_LINES := [WIN_FIRST_LINE, WIN_GNU]
  const ORIGINAL_WIN := Concat(ORIGINAL_WIN_LINES)

  const PATCHED_WIN_LINES := [WIN_ANY_LINE, WIN_GNU]
  const PATCHED_WIN := Concat(PATCHED_WIN_LINES)

  const ORIGINAL_NIX_LINES := [NIX_FIRST_LINE]
  const ORIGINAL_NIX := Concat(ORIGINAL_NIX_LINES)

  const PATCHED_NIX_LINES := [NIX_ANY_LINE]
  const PATCHED_NIX := Concat(PATCHED_NIX_LINES)

  const ORIGINAL_PROBE_LINES := [PROBE]
  const ORIGINAL_PROBE := Concat(ORIGINAL_PROBE_LINES)

  const PATCHED_PROBE_LINES := [PROBE_OPEN, PROBE_NOT_WINDOWS, PROBE_FLAG, PROBE_CLOSE]
  const PATCHED_PROBE := Concat(PATCHED_PROBE_LINES)

  const PREVIOUS_METHOD_LINES := [METHOD, METHOD_IF_WINDOWS, METHOD_NOTHING_INNER,
    METHOD_IF_PROBED, METHOD_FLAG, METHOD_NOTHING]
  const PREVIOUS_METHOD := Concat(PREVIOUS_METHOD_LINES)

  const ORIGINAL_METHOD_LINES := [METHOD, METHOD_IF_PROBED, METHOD_FLAG, METHOD_NOTHING]
  const ORIGINAL_METHOD := Concat(ORIGINAL_METHOD_LINES)

  const ORIGINAL_GLCPP_LINES := [GLCPP_BISON, GLCPP_ISSUE, GLCPP_END_OF_FILE, BLANK, GLCPP_COMPARE]
  const ORIGINAL_GLCPP := Concat(ORIGINAL_GLCPP_LINES)

  const PATCHED_GLCPP_LINES := [GLCPP_BISON, GLCPP_ISSUE, GLCPP_END_OF_FILE, BLANK, GLCPP_NATIVE,
    GLCPP_UPSTREAM, GLCPP_CONVENTION, GLCPP_ACTUAL, GLCPP_EXPECTED, BLANK, GLCPP_COMPARE]
  const PATCHED_GLCPP := Concat(PATCHED_GLCPP_LINES)

  const ORIGINAL_VSENV_LINES := [VSENV_CLANG_CL, VSENV_FALSE]
  const ORIGINAL_VSENV := Concat(ORIGINAL_VSENV_LINES)

  const PATCHED_VSENV_LINES := [VSENV_CLANG_CL, VSENV_FALSE, VSENV_BCC64X, VSENV_FALSE]
  const PATCHED_VSENV := Concat(PATCHED_VSENV_LINES)

  /** Text without a break before a line makes a longer line. */
  lemma LongerLine(start: string, l: string)
    requires IsLine(l) && forall i :: 0 <= i < |start| ==> start[i] != '\n'
    ensures IsLine(start + l)
    ensures forall j: nat :: j < |l| ==> FromEnd(start + l, j) == FromEnd(l, j)
  {
  }

  lemma DifferAt(a: string, b: string, j: nat)
    requires j < |a| && j < |b| && FromEnd(a, j) != FromEnd(b, j)
    ensures Differ(a, b)
  {
  }

  lemma IsWinFirstLine()
    ensures IsLine(WIN_FIRST_LINE) && |WIN_FIRST_LINE| == 46
    ensures FromEnd(WIN_FIRST_LINE, 2) == ']'
  {
  }

  lemma IsWinGnu()
    ensures IsLine(WIN_GNU) && |WIN_GNU| == 47
    ensures FromEnd(WIN_GNU, 2) == 'o'
  {
  }

  lemma IsWinAnyLine()
    ensures IsLine(WIN_ANY_LINE) && |WIN_ANY_LINE| == 19
    ensures FromEnd(WIN_ANY_LINE, 2) == 'o'
  {
  }

  lemma IsNixFirstLine()
    ensures IsLine(NIX_FIRST_LINE) && |NIX_FIRST_LINE| == 65
    ensures FromEnd(NIX_FIRST_LINE, 2) == 'e'
  {
  }

  lemma IsNixAnyLine()
    ensures IsLine(NIX_ANY_LINE) && |NIX_ANY_LINE| == 38
    ensures FromEnd(NIX_ANY_LINE, 2) == 'e'
  {
  }

  lemma IsSupports()
    ensures IsLine(SUPPORTS) && |SUPPORTS| == 60
    ensures FromEnd(SUPPORTS, 1) == ')' && FromEnd(SUPPORTS, 2) == 's'
  {
  }

  lemma IsProbe()
    ensures IsLine(PROBE) && |PROBE| == 101
    ensures FromEnd(PROBE, 1) == ')' && FromEnd(PROBE, 2) == 's'
  {
    IsSupports();
    LongerLine("        self." + "has_allow_shlib_undefined = ", SUPPORTS);
  }

  lemma IsProbeOpen()
    ensures IsLine(PROBE_OPEN) && |PROBE_OPEN| == 43
    ensures FromEnd(PROBE_OPEN, 1) == '('
  {
  }

  lemma IsProbeNotWindows()
    ensures IsLine(PROBE_NOT_WINDOWS) && |PROBE_NOT_WINDOWS| == 55
    ensures FromEnd(PROBE_NOT_WINDOWS, 1) == ')'
  {
  }

  lemma IsProbeFlag()
    ensures IsLine(PROBE_FLAG) && |PROBE_FLAG| == 76
    ensures FromEnd(PROBE_FLAG, 1) == ')'
  {
    IsSupports();
    LongerLine("            and ", SUPPORTS);
  }

  lemma IsProbeClose()
    ensures IsLine(PROBE_CLOSE) && |PROBE_CLOSE| == 10
    ensures FromEnd(PROBE_CLOSE, 1) == ')' && FromEnd(PROBE_CLOSE, 2) == ' '
  {
  }

  lemma IsMethod()
    ensures IsLine(METHOD) && |METHOD| == 55
    ensures FromEnd(METHOD, 1) == ':'
  {
  }

  lemma IsMethodIfWindows()
    ensures IsLine(METHOD_IF_WINDOWS) && |METHOD_IF_WINDOWS| == 37
    ensures FromEnd(METHOD_IF_WINDOWS, 1) == ':'
  {
  }

  lemma IsMethodNothingInner()
    ensures IsLine(METHOD_NOTHING_INNER) && |METHOD_NOTHING_INNER| == 22
    ensures FromEnd(METHOD_NOTHING_INNER, 1) == ']'
  {
  }

  lemma IsMethodIfProbed()
    ensures IsLine(METHOD_IF_PROBED) && |METHOD_IF_PROBED| == 43
    ensures FromEnd(METHOD_IF_PROBED, 1) == ':'
  {
  }

  lemma IsMethodFlag()
    ensures IsLine(METHOD_FLAG) && |METHOD_FLAG| == 65
    ensures FromEnd(METHOD_FLAG, 1) == ')' && FromEnd(METHOD_FLAG, 2) == '\''
  {
  }

  lemma IsMethodNothing()
    ensures IsLine(METHOD_NOTHING) && |METHOD_NOTHING| == 18
    ensures FromEnd(METHOD_NOTHING, 1) == ']'
  {
  }

  lemma OriginalNixApartOriginalWin()
    ensures Apart(ORIGINAL_NIX, ORIGINAL_WIN)
  {
    hide IsLine, Differ, Concat, FromEnd;
    IsNixFirstLine();
    IsWinFirstLine();
    IsWinGnu();
    DifferAt(NIX_FIRST_LINE, WIN_FIRST_LINE, 2);
    DifferAt(NIX_FIRST_LINE, WIN_GNU, 2);
    ApartByLines(ORIGINAL_NIX_LINES, ORIGINAL_WIN_LINES);
  }

  lemma OriginalNixApartPatchedWin()
    ensures Apart(ORIGINAL_NIX, PATCHED_WIN)
  {
    hide IsLine, Differ, Concat, FromEnd;
    IsNixFirstLine();
    IsWinAnyLine();
    IsWinGnu();
    DifferAt(NIX_FIRST_LINE, WIN_ANY_LINE, 2);
    DifferAt(NIX_FIRST_LINE, WIN_GNU, 2);
    ApartByLines(ORIGINAL_NIX_LINES, PATCHED_WIN_LINES);
  }

  lemma PatchedNixApartOriginalWin()
    ensures Apart(PATCHED_NIX, ORIGINAL_WIN)
  {
    hide IsLine, Differ, Concat, FromEnd;
    IsNixAnyLine();
    IsWinFirstLine();
    IsWinGnu();
    DifferAt(NIX_ANY_LINE, WIN_FIRST_LINE, 2);
    DifferAt(NIX_ANY_LINE, WIN_GNU, 2);
    ApartByLines(PATCHED_NIX_LINES, ORIGINAL_WIN_LINES);
  }

  lemma PatchedNixApartPatchedWin()
    ensures Apart(PATCHED_NIX, PATCHED_WIN)
  {
    hide IsLine, Differ, Concat, FromEnd;
    IsNixAnyLine();
    IsWinAnyLine();
    IsWinGnu();
    DifferAt(NIX_ANY_LINE, WIN_ANY_LINE, 2);
    DifferAt(NIX_ANY_LINE, WIN_GNU, 2);
    ApartByLines(PATCHED_NIX_LINES, PATCHED_WIN_LINES);
  }

  lemma OriginalProbeApartPreviousMethod()
    ensures Apart(ORIGINAL_PROBE, PREVIOUS_METHOD)
  {
    hide IsLine, Differ, Concat, FromEnd;
    IsProbe();
    IsMethod();
    IsMethodIfWindows();
    IsMethodNothingInner();
    IsMethodIfProbed();
    IsMethodFlag();
    IsMethodNothing();
    DifferAt(PROBE, METHOD, 1);
    DifferAt(PROBE, METHOD_IF_WINDOWS, 1);
    DifferAt(PROBE, METHOD_NOTHING_INNER, 1);
    DifferAt(PROBE, METHOD_IF_PROBED, 1);
    DifferAt(PROBE, METHOD_FLAG, 2);
    DifferAt(PROBE, METHOD_NOTHING, 1);
    ApartByLines(ORIGINAL_PROBE_LINES, PREVIOUS_METHOD_LINES);
  }

  lemma PatchedProbeApartPreviousMethod()
    ensures Apart(PATCHED_PROBE, PREVIOUS_METHOD)
  {
    hide IsLine, Differ, Concat, FromEnd;
    IsProbeOpen();
    IsProbeNotWindows();
    IsProbeFlag();
    IsProbeClose();
    IsMethod();
    IsMethodIfWindows();
    IsMethodNothingInner();
    IsMethodIfProbed();
    IsMethodFlag();
    IsMethodNothing();
    DifferAt(PROBE_CLOSE, METHOD, 1);
    DifferAt(PROBE_CLOSE, METHOD_IF_WINDOWS, 1);
    DifferAt(PROBE_CLOSE, METHOD_NOTHING_INNER, 1);
    DifferAt(PROBE_CLOSE, METHOD_IF_PROBED, 1);
    DifferAt(PROBE_CLOSE, METHOD_FLAG, 2);
    DifferAt(PROBE_CLOSE, METHOD_NOTHING, 1);
    DifferAt(METHOD_NOTHING, PROBE_OPEN, 1);
    DifferAt(METHOD_NOTHING, PROBE_NOT_WINDOWS, 1);
    DifferAt(METHOD_NOTHING, PROBE_FLAG, 1);
    ApartByLines(PATCHED_PROBE_LINES, PREVIOUS_METHOD_LINES);
  }

  lemma PreviousMethodApartOriginalMethod()
    ensures Apart(PREVIOUS_METHOD, ORIGINAL_METHOD)
  {
    EndsOfMethods();
    hide IsLine, Differ, Concat, FromEnd;
    IsMethod();
    IsMethodIfWindows();
    IsMethodNothingInner();
    IsMethodIfProbed();
    IsMethodFlag();
    IsMethodNothing();
    DifferAt(METHOD_NOTHING, METHOD, 1);
    DifferAt(METHOD_NOTHING, METHOD_IF_PROBED, 1);
    DifferAt(METHOD_NOTHING, METHOD_FLAG, 1);
    DifferAt(METHOD_NOTHING, METHOD_IF_WINDOWS, 1);
    ApartByInnerLines(PREVIOUS_METHOD_LINES, ORIGINAL_METHOD_LINES);
  }

  /** Both methods end with the same lines; the lines before those differ. */
  lemma EndsOfMethods()
    ensures Clash(PREVIOUS_METHOD, ORIGINAL_METHOD, |ORIGINAL_METHOD| - |PREVIOUS_METHOD|)
  {
    var first, second, rest := [METHOD, METHOD_IF_WINDOWS, METHOD_NOTHING_INNER], [METHOD],
      [METHOD_IF_PROBED, METHOD_FLAG, METHOD_NOTHING];
    var start, end := METHOD + METHOD_IF_WINDOWS + METHOD_NOTHING_INNER, Concat(rest);
    assert PREVIOUS_METHOD_LINES == first + rest && ORIGINAL_METHOD_LINES == second + rest;
    ThreeLines(METHOD, METHOD_IF_WINDOWS, METHOD_NOTHING_INNER);
    ConcatSplits(first, rest);
    ConcatSplits(second, rest);
    assert PREVIOUS_METHOD == start + end && ORIGINAL_METHOD == METHOD + end;
    hide IsLine, Differ, Concat, FromEnd;
    IsMethod();
    IsMethodNothingInner();
    EndOfStart();
    DifferAt(start, METHOD, 1);
    ClashBeforeEnd(start, METHOD, end);
  }

  lemma EndOfStart()
    ensures FromEnd(METHOD + METHOD_IF_WINDOWS + METHOD_NOTHING_INNER, 1) == FromEnd(METHOD_NOTHING_INNER, 1)
  {
  }

  lemma ThreeLines(a: string, b: string, c: string)
    ensures Concat([a, b, c]) == a + b + c && Concat([a]) == a
  {
    ConcatSplits([a], [b, c]);
    ConcatSplits([b], [c]);
    OneLine(a);
    OneLine(b);
    OneLine(c);
    assert [a] + [b, c] == [a, b, c] && [b] + [c] == [b, c];
    assert a + (b + c) == a + b + c;
  }

  lemma OneLine(a: string)
    ensures Concat([a]) == a
  {
    assert [a][1..] == [];
    assert a + "" == a;
  }

  lemma OriginalWinSelfApart()
    ensures SelfApart(ORIGINAL_WIN)
  {
    hide IsLine, Differ, Concat, FromEnd;
    IsWinFirstLine();
    IsWinGnu();
    DifferAt(WIN_GNU, WIN_FIRST_LINE, 2);
    SelfApartByLines(ORIGINAL_WIN_LINES);
  }

  lemma OriginalNixSelfApart()
    ensures SelfApart(ORIGINAL_NIX)
  {
    hide IsLine, Differ, Concat, FromEnd;
    IsNixFirstLine();
    SelfApartByLines(ORIGINAL_NIX_LINES);
  }

  lemma PreviousMethodSelfApart()
    ensures SelfApart(PREVIOUS_METHOD)
  {
    hide IsLine, Differ, Concat, FromEnd;
    IsMethod();
    IsMethodIfWindows();
    IsMethodNothingInner();
    IsMethodIfProbed();
    IsMethodFlag();
    IsMethodNothing();
    DifferAt(METHOD_NOTHING, METHOD, 1);
    DifferAt(METHOD_NOTHING, METHOD_IF_WINDOWS, 1);
    DifferAt(METHOD_NOTHING, METHOD_IF_PROBED, 1);
    DifferAt(METHOD_NOTHING, METHOD_FLAG, 1);
    SelfApartByLines(PREVIOUS_METHOD_LINES);
  }

  lemma OriginalProbeSelfApart()
    ensures SelfApart(ORIGINAL_PROBE)
  {
    hide IsLine, Differ, Concat, FromEnd;
    IsProbe();
    SelfApartByLines(ORIGINAL_PROBE_LINES);
  }

  lemma IsVsenvClangCl()
    ensures IsLine(VSENV_CLANG_CL) && FromEnd(VSENV_CLANG_CL, 1) == ':'
  {
  }

  lemma IsVsenvFalse()
    ensures IsLine(VSENV_FALSE) && FromEnd(VSENV_FALSE, 1) == 'e'
  {
  }

  lemma OriginalVsenvSelfApart()
    ensures SelfApart(ORIGINAL_VSENV)
  {
    hide IsLine, Differ, Concat, FromEnd;
    IsVsenvClangCl();
    IsVsenvFalse();
    DifferAt(VSENV_FALSE, VSENV_CLANG_CL, 1);
    SelfApartByLines(ORIGINAL_VSENV_LINES);
  }

  lemma IsGlcppBison()
    ensures IsLine(GLCPP_BISON) && FromEnd(GLCPP_BISON, 1) == 's'
  {
  }

  lemma IsGlcppIssue()
    ensures IsLine(GLCPP_ISSUE) && FromEnd(GLCPP_ISSUE, 1) == '1'
  {
  }

  lemma IsGlcppEndOfFile()
    ensures IsLine(GLCPP_END_OF_FILE) && FromEnd(GLCPP_END_OF_FILE, 1) == ')'
  {
  }

  lemma IsGlcppCompare()
    ensures IsLine(GLCPP_COMPARE) && FromEnd(GLCPP_COMPARE, 1) == ':' && |GLCPP_COMPARE| > |BLANK| && IsLine(BLANK)
  {
  }

  lemma OriginalGlcppSelfApart()
    ensures SelfApart(ORIGINAL_GLCPP)
  {
    IsGlcppBison();
    IsGlcppIssue();
    IsGlcppEndOfFile();
    IsGlcppCompare();
    hide IsLine, Differ, Concat, FromEnd;
    DifferAt(GLCPP_COMPARE, GLCPP_BISON, 1);
    DifferAt(GLCPP_COMPARE, GLCPP_ISSUE, 1);
    DifferAt(GLCPP_COMPARE, GLCPP_END_OF_FILE, 1);
    SelfApartByLines(ORIGINAL_GLCPP_LINES);
  }
}
