/**
  The linker response translation: a chain of whole-text substitutions. Each substitution is a
  left-to-right scan whose pattern may start only at the beginning of the text or after white
  space; what a pattern matches depends on the text from there on.
 */
module LinkResponse {
  import opened Wrappers

  /** White space as the regular expression class \s has it on text. */
  predicate IsSpace(c: char) {
    var n := c as int;
    || 0x09 <= n <= 0x0D || 0x1C <= n <= 0x20 || n == 0x85 || n == 0xA0 || n == 0x1680
    || 0x2000 <= n <= 0x200A || n == 0x2028 || n == 0x2029 || n == 0x202F || n == 0x205F || n == 0x3000
  }

  predicate IsLetter(c: char) {
    'A' <= c <= 'Z' || 'a' <= c <= 'z'
  }

  predicate IsSlash(c: char) {
    c == '\\' || c == '/'
  }

  datatype CharClass = Token | Unquoted | Bare | LibraryName

  /** The repeated classes of the patterns: \S, [^"], [^\s"] and [A-Za-z0-9_+.-] ignoring case. */
  predicate In(k: CharClass, c: char) {
    match k
    case Token => !IsSpace(c)
    case Unquoted => c != '"'
    case Bare => !IsSpace(c) && c != '"'
    case LibraryName =>
      || IsLetter(c) || '0' <= c <= '9' || c == '_' || c == '+' || c == '.' || c == '-'
      || c == '\U{0130}' || c == '\U{0131}' || c == '\U{017F}' || c == '\U{212A}'
  }

  /** The longest run of class characters at the front; every repetition is greedy. */
  function RunLength(k: CharClass, s: string): (n: nat)
    ensures n <= |s|
    ensures forall i :: 0 <= i < n ==> In(k, s[i])
    ensures n < |s| ==> !In(k, s[n])
  {
    if s != "" && In(k, s[0]) then 1 + RunLength(k, s[1..]) else 0
  }

  function Slashes(s: string): string {
    seq(|s|, i requires 0 <= i < |s| => if s[i] == '\\' then '/' else s[i])
  }

  predicate SpaceOrEnd(s: string, i: nat) {
    i >= |s| || IsSpace(s[i])
  }

  /** A drive letter, a colon, a slash of either kind. */
  predicate DriveAt(s: string, i: nat) {
    i + 2 < |s| && IsLetter(s[i]) && s[i + 1] == ':' && IsSlash(s[i + 2])
  }

  /** The suffix .lib, ignoring case. */
  predicate IsLibSuffix(s: string) {
    && |s| == 4 && s[0] == '.' && (s[1] == 'l' || s[1] == 'L')
    && (s[2] == 'i' || s[2] == 'I' || s[2] == '\U{0130}' || s[2] == '\U{0131}')
    && (s[3] == 'b' || s[3] == 'B')
  }

  const COLOR := "--color-diagnostics"
  const FORWARD := "-Xlinker -Xlink=/"

  datatype Pass = ColorDiagnostics | QuotedArgument | QuotedPath | DriveLibrary | SystemLibrary | LinkerSwitch

  datatype Match = Match(length: nat, replacement: string)

  /** What a pass's pattern matches at the front of `s`, and the text put in its place. */
  function MatchAt(p: Pass, s: string): (m: Option<Match>)
    ensures m.Some? ==> 0 < m.value.length <= |s| && !IsSpace(s[0])
  {
    match p
    case ColorDiagnostics =>
      if COLOR <= s && SpaceOrEnd(s, |COLOR|) then Some(Match(|COLOR|, "-fcolor-diagnostics")) else None
    case QuotedArgument =>
      if "\"-l" <= s && DriveAt(s, 3) then QuotedMatch(s, 3) else None
    case QuotedPath =>
      if "-l\"" <= s && DriveAt(s, 3) then QuotedMatch(s, 3) else None
    case DriveLibrary =>
      if "-l" <= s && DriveAt(s, 2) then
        var n := RunLength(Bare, s[5..]);
        if n >= 1 then Some(Match(5 + n, Slashes(s[2..5 + n]))) else None
      else None
    case SystemLibrary =>
      if "-l" <= s || "-L" <= s then
        var n := RunLength(LibraryName, s[2..]);
        if n >= 5 && IsLibSuffix(s[n - 2..n + 2]) && SpaceOrEnd(s, n + 2)
        then Some(Match(n + 2, "-l" + s[2..n - 2])) else None
      else None
    case LinkerSwitch =>
      if |s| >= 2 && s[0] == '/' && IsLetter(s[1]) then Some(Match(1, FORWARD)) else None
  }

  /** A quoted drive path whose text starts at `i` (after the slash at least one character) up to the
      closing quote. */
  function QuotedMatch(s: string, i: nat): (m: Option<Match>)
    requires i >= 1 && DriveAt(s, i)
    ensures m.Some? ==> i < m.value.length <= |s|
  {
    var n := RunLength(Unquoted, s[i + 3..]);
    if n >= 1 && i + 3 + n < |s|
    then Some(Match(i + 3 + n + 1, "\"" + Slashes(s[i..i + 3 + n]) + "\""))
    else None
  }

  /** Replace every match; `start` says whether the front of `s` is a place where one may begin. */
  function Sub(p: Pass, s: string, start: bool): string
    decreases |s|
  {
    if s == "" then ""
    else
      var m := MatchAt(p, s);
      if start && m.Some?
      then m.value.replacement + Sub(p, s[m.value.length..], IsSpace(s[m.value.length - 1]))
      else [s[0]] + Sub(p, s[1..], IsSpace(s[0]))
  }

  datatype Check = QuotedSwitch | DriveArgument | RawSwitch

  predicate FoundAt(k: Check, s: string) {
    match k
    case QuotedSwitch =>
      |s| >= 3 && s[0] == '"' && s[1] == '/' && IsLetter(s[2]) && 3 + RunLength(Unquoted, s[3..]) < |s|
    case DriveArgument => "-l" <= s && |s| >= 4 && IsLetter(s[2]) && s[3] == ':'
    case RawSwitch => |s| >= 2 && s[0] == '/' && IsLetter(s[1])
  }

  /** Whether a check's pattern occurs anywhere. */
  predicate Search(k: Check, s: string, start: bool) {
    s != "" && ((start && FoundAt(k, s)) || Search(k, s[1..], IsSpace(s[0])))
  }

  datatype LinkError = QuotedLinkerSwitch | UnhandledDriveLibrary | RawSwitchRemains

  /** The drive-path passes for quoted text. */
  function Unquote(s: string): string {
    Sub(QuotedPath, Sub(QuotedArgument, s, true), true)
  }

  function TranslateLinkResponse(content: string): Result<string, LinkError> {
    var colored := Sub(ColorDiagnostics, content, true);
    if Search(QuotedSwitch, colored, true) then Err(QuotedLinkerSwitch)
    else
      var drives := Sub(DriveLibrary, Unquote(colored), true);
      if Search(DriveArgument, drives, true) then Err(UnhandledDriveLibrary)
      else Ok(Sub(LinkerSwitch, Sub(SystemLibrary, drives, true), true))
  }

  /** The text written for the linker, with the check that follows the translation. */
  function RunLinkResponse(content: string): Result<string, LinkError> {
    match TranslateLinkResponse(content)
    case Err(e) => Err(e)
    case Ok(translated) =>
      if Search(RawSwitch, translated, true) then Err(RawSwitchRemains) else Ok(translated)
  }
}
