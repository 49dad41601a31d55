/**
  Responses with quoted drive paths. White space inside the quotes still separates tokens for the
  later passes, so a quoted path is kept only under a condition.
 */
module LinkQuoted {
  import opened Wrappers
  import opened LinkResponse
  import opened LinkTokens
  import opened LinkRefinement
  import opened LinkLaws

  /** A token the translation would refuse or change. */
  predicate IsTouched(t: string) {
    t == COLOR || IsUnhandled(t) || IsDrivePath(t) || IsSystemLibrary(t) || IsSwitch(t)
  }

  lemma TouchedIsChanged(t: string)
    ensures RewriteToken(t) != t <==> t == COLOR || IsDrivePath(t) || IsSystemLibrary(t) || IsSwitch(t)
  {
    hide IsSystemLibrary;
    if t == COLOR {
      assert "-fcolor-diagnostics"[1] == 'f' && COLOR[1] == '-';
    } else if IsDrivePath(t) {
      assert RewriteToken(t)[0] == t[2];
    } else if IsSystemLibrary(t) {
      SystemLibraryLength(t);
    }
  }

  /** A changed token differs from the old one whatever follows the two. */
  lemma ChangeShows(t: string, r: string, r': string)
    requires IsToken(t) && Breaks(r) && Breaks(r') && RewriteToken(t) != t
    ensures RewriteToken(t) + r' != t + r
  {
    TouchedIsChanged(t);
    SyntaxIsNotSpace();
    hide IsSpace, IsSystemLibrary;
    var u, s, s' := RewriteToken(t), t + r, RewriteToken(t) + r';
    if t == COLOR {
      assert u[1] == 'f' && t[1] == '-';
      assert s[1] == t[1] && s'[1] == u[1];
    } else if IsDrivePath(t) {
      assert u[0] == t[2];
      assert s[0] == t[0] && s'[0] == u[0];
    } else if IsSystemLibrary(t) {
      SystemLibraryLength(t);
      var n := |t| - 4;
      assert |u| == n && s[n] == t[n] == '.';
      assert |s'| > n ==> s'[n] == r'[0];
    } else {
      assert s[0] == t[0] && s'[0] == u[0] == FORWARD_PREFIX[0];
    }
  }

  lemma {:induction false} RewriteFixes(s: string)
    ensures MapTokens(RewriteToken, s) == s <==> forall t :: t in Tokens(s) ==> RewriteToken(t) == t
    decreases |s|
  {
    hide IsSpace, RewriteToken;
    if s != "" {
      if IsSpace(s[0]) {
        RewriteFixes(s[1..]);
        assert s == [s[0]] + s[1..];
      } else {
        FirstToken(s);
        var n := RunLength(Token, s);
        var t, r := s[..n], s[n..];
        RewriteFixes(r);
        MapTokensBreaks(RewriteToken, r);
        assert forall x :: x in Tokens(s) <==> x == t || x in Tokens(r);
        if RewriteToken(t) != t {
          ChangeShows(t, r, MapTokens(RewriteToken, r));
        } else {
          assert s[n..] == r && (t + MapTokens(RewriteToken, r))[n..] == MapTokens(RewriteToken, r);
        }
      }
    }
  }

  // ----- responses with quoted drive paths -----

  /** How a drive path stands in quotes: "-lPATH", -l"PATH" or "PATH". */
  datatype Form = WithSwitch | AfterSwitch | Alone

  function Opening(form: Form): string {
    match form
    case WithSwitch => "\"-l"
    case AfterSwitch => "-l\""
    case Alone => "\""
  }

  /** Quote-free text with any number of quoted drive paths in it. */
  datatype Response =
    | Rest(text: string)
    | Quoted(before: string, form: Form, path: string, after: Response)

  function QuotedText(form: Form, path: string): string {
    Opening(form) + (path + "\"")
  }

  function Text(r: Response): string {
    match r
    case Rest(text) => text
    case Quoted(before, form, path, after) => before + (QuotedText(form, path) + Text(after))
  }

  predicate IsDriveText(path: string) {
    DriveAt(path, 0) && |path| > 3 && '"' !in path
  }

  predicate EndsInSpace(s: string) {
    s == "" || IsSpace(s[|s| - 1])
  }

  /** The quoted paths are separated from what stands around them by white space. */
  ghost predicate WellFormed(r: Response) {
    match r
    case Rest(text) => QuoteFree(text)
    case Quoted(before, _, path, after) =>
      && QuoteFree(before) && EndsInSpace(before)
      && IsDriveText(path)
      && Breaks(Text(after)) && WellFormed(after)
  }

  function FormOf(p: Pass): Form {
    if p == QuotedArgument then WithSwitch else AfterSwitch
  }

  /** What a pass makes of one form: the path in quotes, with forward slashes. */
  function Convert(form: Form, r: Response): Response {
    match r
    case Rest(_) => r
    case Quoted(before, f, path, after) =>
      if f == form then Quoted(before, Alone, Slashes(path), Convert(form, after))
      else Quoted(before, f, path, Convert(form, after))
  }

  /** Both library forms become bare. */
  function Kept(r: Response): Response {
    match r
    case Rest(_) => r
    case Quoted(before, form, path, after) =>
      Quoted(before, Alone, if form == Alone then path else Slashes(path), Kept(after))
  }

  lemma {:induction false} ConvertBoth(r: Response)
    ensures Convert(AfterSwitch, Convert(WithSwitch, r)) == Kept(r)
  {
    if r.Quoted? {
      ConvertBoth(r.after);
    }
  }

  lemma SlashesKeepPath(path: string)
    requires IsDriveText(path)
    ensures IsDriveText(Slashes(path))
  {
  }

  lemma {:induction false} ConvertIsWellFormed(form: Form, r: Response)
    requires WellFormed(r)
    ensures WellFormed(Convert(form, r))
    ensures Breaks(Text(r)) ==> Breaks(Text(Convert(form, r)))
  {
    hide IsSpace, Slashes;
    if r.Quoted? {
      ConvertIsWellFormed(form, r.after);
      SlashesKeepPath(r.path);
      hide IsDriveText;
      FrontOfText(r);
      FrontOfText(Convert(form, r));
    }
  }

  /** A text that starts with a quoted path does not start with white space. */
  lemma FrontOfText(r: Response)
    requires r.Quoted?
    ensures Breaks(Text(r)) <==> r.before != "" && IsSpace(r.before[0])
  {
    SyntaxIsNotSpace();
    hide IsSpace;
    assert QuotedText(r.form, r.path)[0] == Opening(r.form)[0];
    assert Opening(r.form)[0] == '"' || Opening(r.form)[0] == "-l"[0];
  }

  // ----- the two passes and the check that look at quotes -----

  /** Nothing matches anywhere in `u` when `z` follows. */
  ghost predicate NoMatchIn(p: Pass, u: string, z: string) {
    forall i :: 0 <= i < |u| ==> MatchAt(p, u[i..] + z).None?
  }

  lemma NoMatchStep(p: Pass, u: string, z: string)
    requires u != "" && NoMatchIn(p, u, z)
    ensures MatchAt(p, u + z).None? && NoMatchIn(p, u[1..], z)
  {
    hide MatchAt;
    assert u[0..] == u;
    assert forall i :: 0 <= i < |u[1..]| ==> u[1..][i..] == u[i + 1..];
  }

  lemma SubCopies(p: Pass, s: string, start: bool)
    requires s != "" && MatchAt(p, s).None?
    ensures Sub(p, s, start) == [s[0]] + Sub(p, s[1..], IsSpace(s[0]))
  {
    hide IsSpace, MatchAt;
  }

  lemma {:induction false} SubSkips(p: Pass, u: string, z: string, start: bool)
    requires NoMatchIn(p, u, z)
    ensures Sub(p, u + z, start) == u + Sub(p, z, if u == "" then start else IsSpace(u[|u| - 1]))
    decreases |u|
  {
    hide IsSpace, MatchAt, Sub, NoMatchIn;
    if u == "" {
      assert u + z == z;
    } else {
      NoMatchStep(p, u, z);
      assert (u + z)[1..] == u[1..] + z && (u + z)[0] == u[0];
      SubCopies(p, u + z, start);
      SubSkips(p, u[1..], z, IsSpace(u[0]));
      assert u == [u[0]] + u[1..];
      Associative([u[0]], u[1..], Sub(p, z, IsSpace(u[|u| - 1])));
    }
  }

  /** The characters a match needs. */
  lemma MatchNeeds(p: Pass, s: string)
    requires !IsLocal(p) && MatchAt(p, s).Some?
    ensures |s| >= 4
    ensures if p == QuotedArgument then s[0] == '"' && s[1] == '-' && s[2] == 'l' && IsLetter(s[3])
      else s[0] == '-' && s[1] == 'l' && s[2] == '"' && IsLetter(s[3])
  {
    hide IsSpace, QuotedMatch;
  }

  lemma NoMatchBefore(p: Pass, u: string, z: string)
    requires !IsLocal(p) && QuoteFree(u) && EndsInSpace(u)
    ensures NoMatchIn(p, u, z)
  {
    assert !IsSpace('-') && !IsSpace('l');
    hide IsSpace, MatchAt;
    forall i | 0 <= i < |u| ensures MatchAt(p, u[i..] + z).None? {
      var s := u[i..] + z;
      assert forall k :: 0 <= k < |u| - i ==> s[k] == u[i + k] && u[i + k] in u;
      if MatchAt(p, s).Some? {
        MatchNeeds(p, s);
      }
    }
  }

  /** A quoted path of another form is passed over. */
  lemma NoMatchInOther(p: Pass, form: Form, path: string, z: string)
    requires !IsLocal(p) && form != FormOf(p) && IsDriveText(path) && Breaks(z)
    ensures NoMatchIn(p, QuotedText(form, path), z)
  {
    SyntaxIsNotSpace();
    var u := QuotedText(form, path);
    var n := |Opening(form)|;
    assert forall i :: n <= i < n + |path| ==> u[i] == path[i - n] && path[i - n] in path;
    hide IsSpace, MatchAt;
    forall i | 0 <= i < |u| ensures MatchAt(p, u[i..] + z).None? {
      var s := u[i..] + z;
      assert forall k :: 0 <= k < |u| - i ==> s[k] == u[i + k];
      if MatchAt(p, s).Some? {
        MatchNeeds(p, s);
      }
    }
  }

  lemma QuotedIsMatched(p: Pass, path: string, z: string)
    requires !IsLocal(p) && IsDriveText(path)
    ensures var u := QuotedText(FormOf(p), path);
      MatchAt(p, u + z) == Some(Match(|u|, "\"" + (Slashes(path) + "\"")))
  {
    var u := QuotedText(FormOf(p), path);
    var s := u + z;
    assert |Opening(FormOf(p))| == 3;
    assert forall i :: 0 <= i < |path| ==> s[i + 3] == path[i] && path[i] in path;
    assert s[3..3 + |path|] == path;
    hide IsSpace, Slashes;
    assert QuotedPattern(s, 3, |path| - 3);
    QuotedMatchIsPattern(s, 3);
    assert "\"" + Slashes(path) + "\"" == "\"" + (Slashes(path) + "\"");
    assert Opening(FormOf(p)) <= s;
  }

  /** A pass replaces every quoted path of its form and nothing else. */
  lemma {:induction false} PassConverts(p: Pass, r: Response, start: bool)
    requires !IsLocal(p) && WellFormed(r)
    requires start || Breaks(Text(r))
    ensures Sub(p, Text(r), start) == Text(Convert(FormOf(p), r))
    decreases r
  {
    hide IsSpace, MatchAt, Sub, Slashes, IsDriveText;
    match r
    case Rest(text) => QuotedPassesDoNothing(p, text, start);
    case Quoted(before, form, path, after) =>
      var u, tail := QuotedText(form, path), Text(after);
      PassConverts(p, after, false);
      NoMatchBefore(p, before, u + tail);
      SubSkips(p, before, u + tail, start);
      FrontOfText(r);
      if form == FormOf(p) {
        PassReplaces(p, path, tail);
      } else {
        PassSkips(p, form, path, tail);
      }
  }

  lemma PassSkips(p: Pass, form: Form, path: string, tail: string)
    requires !IsLocal(p) && form != FormOf(p) && IsDriveText(path) && Breaks(tail)
    ensures Sub(p, QuotedText(form, path) + tail, true) == QuotedText(form, path) + Sub(p, tail, false)
  {
    hide IsSpace, MatchAt, IsDriveText, Sub;
    var u := QuotedText(form, path);
    NoMatchInOther(p, form, path, tail);
    SubSkips(p, u, tail, true);
    SubAtBreak(p, tail, IsSpace(u[|u| - 1]));
    SubAtBreak(p, tail, false);
  }

  lemma SubReplaces(p: Pass, u: string, replacement: string, tail: string)
    requires u != "" && MatchAt(p, u + tail) == Some(Match(|u|, replacement)) && Breaks(tail)
    ensures Sub(p, u + tail, true) == replacement + Sub(p, tail, false)
  {
    hide IsSpace, MatchAt, Sub;
    SubUnfold(p, u + tail);
    SubAtBreak(p, tail, IsSpace(u[|u| - 1]));
    SubAtBreak(p, tail, false);
    assert (u + tail)[|u|..] == tail && (u + tail)[|u| - 1] == u[|u| - 1];
  }

  lemma PassReplaces(p: Pass, path: string, tail: string)
    requires !IsLocal(p) && IsDriveText(path) && Breaks(tail)
    ensures Sub(p, QuotedText(FormOf(p), path) + tail, true) == QuotedText(Alone, Slashes(path)) + Sub(p, tail, false)
  {
    hide IsSpace, MatchAt, Slashes, IsDriveText, Sub, FormOf;
    QuotedIsMatched(p, path, tail);
    SubReplaces(p, QuotedText(FormOf(p), path), QuotedText(Alone, Slashes(path)), tail);
  }

  // ----- the check for quoted switches -----

  ghost predicate NotFoundIn(u: string, z: string) {
    forall i :: 0 <= i < |u| ==> !FoundAt(QuotedSwitch, u[i..] + z)
  }

  lemma NotFoundStep(u: string, z: string)
    requires u != "" && NotFoundIn(u, z)
    ensures !FoundAt(QuotedSwitch, u + z) && NotFoundIn(u[1..], z)
  {
    hide FoundAt;
    assert u[0..] == u;
    assert forall i :: 0 <= i < |u[1..]| ==> u[1..][i..] == u[i + 1..];
  }

  lemma {:induction false} SearchSkips(u: string, z: string, start: bool)
    requires NotFoundIn(u, z)
    ensures Search(QuotedSwitch, u + z, start) == Search(QuotedSwitch, z, if u == "" then start else IsSpace(u[|u| - 1]))
    decreases |u|
  {
    hide IsSpace, FoundAt, NotFoundIn;
    if u == "" {
      assert u + z == z;
    } else {
      NotFoundStep(u, z);
      assert (u + z)[1..] == u[1..] + z;
      SearchSkips(u[1..], z, IsSpace(u[0]));
    }
  }

  lemma NotFoundBefore(u: string, z: string)
    requires QuoteFree(u)
    ensures NotFoundIn(u, z)
  {
    forall i | 0 <= i < |u| ensures !FoundAt(QuotedSwitch, u[i..] + z) {
      assert (u[i..] + z)[0] == u[i] && u[i] in u;
    }
  }

  lemma NotFoundInPath(form: Form, path: string, z: string)
    requires IsDriveText(path) && Breaks(z)
    ensures NotFoundIn(QuotedText(form, path), z)
  {
    SyntaxIsNotSpace();
    var u := QuotedText(form, path);
    var n := |Opening(form)|;
    assert forall i :: n <= i < n + |path| ==> u[i] == path[i - n] && path[i - n] in path;
    hide IsSpace;
    forall i | 0 <= i < |u| ensures !FoundAt(QuotedSwitch, u[i..] + z) {
      var s := u[i..] + z;
      assert forall k :: 0 <= k < |u| - i ==> s[k] == u[i + k];
    }
  }

  /** No quote in such a response opens a quoted switch. */
  lemma {:induction false} NoQuotedSwitchIn(r: Response, start: bool)
    requires WellFormed(r)
    ensures !Search(QuotedSwitch, Text(r), start)
    decreases r
  {
    hide IsSpace, FoundAt, Search, IsDriveText;
    match r
    case Rest(text) => NoQuotedSwitch(text, start);
    case Quoted(before, form, path, after) =>
      var u, tail := QuotedText(form, path), Text(after);
      NotFoundBefore(before, u + tail);
      SearchSkips(before, u + tail, start);
      NotFoundInPath(form, path, tail);
      SearchSkips(u, tail, if before == "" then start else IsSpace(before[|before| - 1]));
      NoQuotedSwitchIn(after, IsSpace(u[|u| - 1]));
  }

  // ----- the color pass -----

  lemma ColorTokenShape(t: string)
    ensures |ColorToken(t)| == |t|
    ensures forall i :: 0 <= i < |t| ==> ColorToken(t)[i] == t[i] || (t[i] == '-' && ColorToken(t)[i] == 'f')
  {
    var rest := "color-diagnostics";
    assert COLOR == "--" + rest && "-fcolor-diagnostics" == "-f" + rest;
  }

  /** The color pass keeps the length and only turns some dashes into letters. */
  lemma {:induction false} ColorShape(s: string)
    ensures |Color(s)| == |s|
    ensures forall i :: 0 <= i < |s| ==> Color(s)[i] == s[i] || (s[i] == '-' && Color(s)[i] == 'f')
    decreases |s|
  {
    hide IsSpace, ColorToken;
    if s != "" {
      if IsSpace(s[0]) {
        ColorShape(s[1..]);
      } else {
        var n := RunLength(Token, s);
        ColorShape(s[n..]);
        ColorTokenShape(s[..n]);
      }
    }
  }

  lemma ColorKeepsSpaces(s: string)
    ensures QuoteFree(s) ==> QuoteFree(Color(s))
    ensures EndsInSpace(s) ==> EndsInSpace(Color(s))
    ensures Breaks(s) ==> Breaks(Color(s))
  {
    assert !IsSpace('-');
    hide IsSpace, Color;
    ColorShape(s);
    if QuoteFree(s) {
      forall i | 0 <= i < |s| ensures Color(s)[i] != '"' {
        assert s[i] in s;
      }
    }
  }

  /** The path as the color pass leaves it. */
  function ColoredPath(path: string): (r: string) {
    ColorShape(path + "\"");
    Color(path + "\"")[..|path|]
  }

  lemma ColoredPathShape(path: string)
    requires IsDriveText(path)
    ensures IsDriveText(ColoredPath(path))
    ensures Color(path + "\"") == ColoredPath(path) + "\""
  {
    hide Color;
    var s := path + "\"";
    ColorShape(s);
    assert forall i :: 0 <= i < |path| ==> s[i] == path[i] && path[i] in path && ColoredPath(path)[i] == Color(s)[i];
  }

  /** The color pass does not see past what stands before the path. */
  lemma ColorBehind(w: string, x: string)
    requires IsToken(w) && (w[0] == '"' || (|w| > 1 && w[1] == 'l'))
    requires x != "" && IsLetter(x[0])
    ensures Color(w + x) == w + Color(x)
  {
    SyntaxIsNotSpace();
    hide IsSpace, MapTokens, RunLength;
    FirstToken(x);
    var n := RunLength(Token, x);
    var t, r := x[..n], x[n..];
    assert t[0] == x[0];
    ColorIsNoPath(w, t);
    Associative(w, t, r);
    MapTokensStep(ColorToken, w + t, r);
    MapTokensStep(ColorToken, t, r);
    Associative(w, t, Color(r));
  }

  lemma ColorIsNoPath(w: string, t: string)
    requires w != "" && (w[0] == '"' || (|w| > 1 && w[1] == 'l'))
    requires t != "" && IsLetter(t[0])
    ensures ColorToken(w + t) == w + t && ColorToken(t) == t
  {
    assert COLOR[0] == '-' && COLOR[1] == '-';
    assert (w + t)[0] == w[0] && (|w| > 1 ==> (w + t)[1] == w[1]);
  }

  lemma OpeningIsToken(form: Form)
    ensures var w := Opening(form); IsToken(w) && (w[0] == '"' || (|w| > 1 && w[1] == 'l'))
  {
  }

  lemma ColorQuotedText(form: Form, path: string)
    requires IsDriveText(path)
    ensures Color(QuotedText(form, path)) == QuotedText(form, ColoredPath(path))
  {
    hide IsSpace, Color, ColoredPath;
    OpeningIsToken(form);
    ColoredPathShape(path);
    assert (path + "\"")[0] == path[0];
    ColorBehind(Opening(form), path + "\"");
  }

  function Colored(r: Response): Response {
    match r
    case Rest(text) => Rest(Color(text))
    case Quoted(before, form, path, after) => Quoted(Color(before), form, ColoredPath(path), Colored(after))
  }

  lemma {:induction false} ColorIsStructural(r: Response)
    requires WellFormed(r)
    ensures Color(Text(r)) == Text(Colored(r)) && WellFormed(Colored(r))
  {
    hide IsSpace, MapTokens, QuotedText, ColoredPath, IsDriveText;
    match r
    case Rest(text) => ColorKeepsSpaces(text);
    case Quoted(before, form, path, after) =>
      var u, tail := QuotedText(form, path), Text(after);
      ColorIsStructural(after);
      ColorKeepsSpaces(before);
      ColorKeepsSpaces(tail);
      ColoredPathShape(path);
      ColorQuotedText(form, path);
      MapTokensAppend(ColorToken, before, u + tail);
      MapTokensAppend(ColorToken, u, tail);
  }

  // ----- the color pass and the slashes -----

  lemma SlashesAppend(a: string, b: string)
    ensures Slashes(a + b) == Slashes(a) + Slashes(b)
  {
  }

  lemma {:induction false} SlashesKeepRuns(s: string)
    ensures RunLength(Token, Slashes(s)) == RunLength(Token, s)
    decreases |s|
  {
    SyntaxIsNotSpace();
    hide IsSpace;
    if s != "" {
      SlashesKeepRuns(s[1..]);
      assert Slashes(s)[1..] == Slashes(s[1..]);
    }
  }

  lemma ColorTokenSlashes(t: string)
    ensures ColorToken(Slashes(t)) == Slashes(ColorToken(t))
  {
    ColorHasNoSlash();
    if Slashes(t) == COLOR {
      forall i | 0 <= i < |t| ensures t[i] == COLOR[i] {
        assert Slashes(t)[i] == COLOR[i];
      }
      assert t == COLOR;
    }
  }

  lemma ColorHasNoSlash()
    ensures forall i :: 0 <= i < |COLOR| ==> !IsSlash(COLOR[i])
    ensures Slashes(COLOR) == COLOR && Slashes("-fcolor-diagnostics") == "-fcolor-diagnostics"
  {
  }

  lemma {:induction false} ColorSlashes(s: string)
    ensures Color(Slashes(s)) == Slashes(Color(s))
    decreases |s|
  {
    SyntaxIsNotSpace();
    hide IsSpace, ColorToken;
    if s != "" {
      if IsSpace(s[0]) {
        ColorSlashes(s[1..]);
        assert Slashes(s)[1..] == Slashes(s[1..]);
        SlashesAppend([s[0]], Color(s[1..]));
      } else {
        var n := RunLength(Token, s);
        SlashesKeepRuns(s);
        ColorSlashes(s[n..]);
        ColorTokenSlashes(s[..n]);
        assert Slashes(s)[..n] == Slashes(s[..n]) && Slashes(s)[n..] == Slashes(s[n..]);
        SlashesAppend(ColorToken(s[..n]), Color(s[n..]));
      }
    }
  }

  lemma SlashesPrefix(s: string, n: nat)
    requires n <= |s|
    ensures Slashes(s)[..n] == Slashes(s[..n])
  {
  }

  lemma ColoredPathSlashes(path: string)
    ensures ColoredPath(Slashes(path)) == Slashes(ColoredPath(path))
  {
    var s := path + "\"";
    ColorSlashes(s);
    SlashesAppend(path, "\"");
    assert Slashes("\"") == "\"";
    ColorShape(s);
    SlashesPrefix(Color(s), |path|);
    hide Color;
    assert |Slashes(path)| == |path| && Slashes(path) + "\"" == Slashes(s);
  }

  lemma {:induction false} ColorThenKeep(r: Response)
    requires WellFormed(r)
    ensures Kept(Colored(r)) == Colored(Kept(r)) && WellFormed(Kept(r))
  {
    ConvertBoth(r);
    ConvertIsWellFormed(WithSwitch, r);
    ConvertIsWellFormed(AfterSwitch, Convert(WithSwitch, r));
    hide IsSpace, Color, Slashes, IsDriveText, ColoredPath;
    if r.Quoted? {
      ColorThenKeep(r.after);
      ColoredPathSlashes(r.path);
    }
  }

  // ----- the translation -----

  lemma UnquoteKeeps(r: Response)
    requires WellFormed(r)
    ensures Unquote(Text(r)) == Text(Kept(r))
  {
    hide IsSpace, Sub, MatchAt, Text, WellFormed, Convert, Kept;
    ConvertBoth(r);
    PassConverts(QuotedArgument, r, true);
    ConvertIsWellFormed(WithSwitch, r);
    PassConverts(QuotedPath, Convert(WithSwitch, r), true);
  }

  /** For every response of quote-free text and quoted drive paths the whole translation is one
      function on each token of the text in which the quoted paths have lost their switch and have
      forward slashes; it fails exactly when some token of that text is refused. */
  lemma QuotedRefinement(r: Response)
    requires WellFormed(r)
    ensures TranslateLinkResponse(Text(r)) ==
      if HasUnhandled(Text(Kept(r))) then Err(UnhandledDriveLibrary)
      else Ok(MapTokens(RewriteToken, Text(Kept(r))))
  {
    hide IsSpace, Sub, MapTokens, Search, HasUnhandled, Unquote, Rewrite, RewriteToken, Text, WellFormed, Kept, Colored;
    ColorIsTokenwise(Text(r));
    ColorIsStructural(r);
    NoQuotedSwitchIn(Colored(r), true);
    UnquoteKeeps(Colored(r));
    ColorThenKeep(r);
    ColorIsStructural(Kept(r));
    ColorThenRewrite(Text(Kept(r)));
    TokenRefinement(Text(r));
  }

  // ----- when a quoted path is kept -----

  lemma UntouchedIsFixed(s: string)
    ensures !HasUnhandled(s) && MapTokens(RewriteToken, s) == s <==> forall t :: t in Tokens(s) ==> !IsTouched(t)
  {
    hide IsSpace, Tokens, MapTokens, IsUnhandled, RewriteToken, IsDrivePath, IsSystemLibrary, IsSwitch;
    RewriteFixes(s);
    forall t | t in Tokens(s) ensures IsTouched(t) <==> IsUnhandled(t) || RewriteToken(t) != t {
      TouchedIsChanged(t);
    }
    if HasUnhandled(s) {
      var t :| t in Tokens(s) && IsUnhandled(t);
      assert IsTouched(t);
    }
    if MapTokens(RewriteToken, s) != s {
      var t :| t in Tokens(s) && RewriteToken(t) != t;
      assert IsTouched(t);
    }
  }

  /** The translation of a quoted path between two texts. */
  lemma PathBetween(before: string, form: Form, path: string, after: string)
    requires QuoteFree(before) && EndsInSpace(before) && QuoteFree(after) && Breaks(after) && IsDriveText(path)
    requires form != Alone
    ensures var kept := QuotedText(Alone, Slashes(path));
      TranslateLinkResponse(before + (QuotedText(form, path) + after)) ==
        if HasUnhandled(before) || HasUnhandled(kept) || HasUnhandled(after) then Err(UnhandledDriveLibrary)
        else Ok(MapTokens(RewriteToken, before) + (MapTokens(RewriteToken, kept) + MapTokens(RewriteToken, after)))
  {
    var r, kept := Quoted(before, form, path, Rest(after)), QuotedText(Alone, Slashes(path));
    assert Text(r) == before + (QuotedText(form, path) + after);
    assert Text(Kept(r)) == before + (kept + after);
    hide IsSpace, QuotedText, Slashes, TranslateLinkResponse, RewriteToken, IsUnhandled, IsDriveText, Tokens, MapTokens;
    QuotedRefinement(r);
    MapTokensAppend(RewriteToken, before, kept + after);
    MapTokensAppend(RewriteToken, kept, after);
    TokensAppend(before, kept + after);
    TokensAppend(kept, after);
    assert forall t :: t in Tokens(before + (kept + after)) <==>
      t in Tokens(before) || t in Tokens(kept) || t in Tokens(after);
  }

  /** Wherever it stands, a quoted drive path becomes the same path with forward slashes, still quoted,
      with the text around it translated as if the path were not there, if and only if no token around
      it is refused and no piece of the path between white space is one the translation refuses or
      changes. */
  lemma QuotedPathIsKept(before: string, form: Form, path: string, after: string)
    requires QuoteFree(before) && EndsInSpace(before) && QuoteFree(after) && Breaks(after) && IsDriveText(path)
    requires form != Alone
    ensures var kept := QuotedText(Alone, Slashes(path));
      TranslateLinkResponse(before + (QuotedText(form, path) + after)) ==
        Ok(MapTokens(RewriteToken, before) + (kept + MapTokens(RewriteToken, after)))
      <==> !HasUnhandled(before) && !HasUnhandled(after) && forall t :: t in Tokens(kept) ==> !IsTouched(t)
  {
    var kept := QuotedText(Alone, Slashes(path));
    PathBetween(before, form, path, after);
    UntouchedIsFixed(kept);
    hide IsSpace, QuotedText, Slashes, TranslateLinkResponse, RewriteToken, HasUnhandled, IsTouched, Tokens, MapTokens;
    var a, b, c := MapTokens(RewriteToken, before), MapTokens(RewriteToken, kept), MapTokens(RewriteToken, after);
    Cancels(a, b, kept, c);
  }

  lemma Cancels(a: string, b: string, b': string, c: string)
    ensures a + (b + c) == a + (b' + c) <==> b == b'
  {
    if a + (b + c) == a + (b' + c) {
      assert |b| == |b'|;
      assert (a + (b + c))[|a|..|a| + |b|] == b && (a + (b' + c))[|a|..|a| + |b'|] == b';
    }
  }

  /** A path with white space and then a piece that is touched is not kept. */
  lemma PieceIsNotKept(form: Form, path: string, start: string, piece: string, rest: string)
    requires form != Alone && IsDriveText(path)
    requires QuotedText(Alone, Slashes(path)) == start + (" " + (piece + rest))
    requires IsToken(start) && IsToken(piece) && Breaks(rest) && IsTouched(piece)
    ensures TranslateLinkResponse(QuotedText(form, path)) != Ok(QuotedText(Alone, Slashes(path)))
  {
    assert IsSpace(' ') && Tokens("") == [] && MapTokens(RewriteToken, "") == "";
    hide IsSpace, Slashes, TranslateLinkResponse, IsTouched, RewriteToken, IsDriveText, QuotedText;
    var kept := QuotedText(Alone, Slashes(path));
    SecondToken(start, piece, rest);
    assert piece in Tokens(kept) && IsTouched(piece);
    QuotedPathIsKept("", form, path, "");
    assert "" + (QuotedText(form, path) + "") == QuotedText(form, path) && "" + (kept + "") == kept;
  }

  lemma SecondToken(start: string, piece: string, rest: string)
    requires IsSpace(' ')
    requires IsToken(start) && IsToken(piece) && Breaks(rest)
    ensures piece in Tokens(start + (" " + (piece + rest)))
  {
    hide IsSpace, RunLength;
    TokensStep(start, " " + (piece + rest));
    assert (" " + (piece + rest))[1..] == piece + rest;
    TokensStep(piece, rest);
  }

  /** The path D:\a /b is not kept: the piece behind the blank is taken for a linker switch. */
  lemma BlankThenSlashIsNotKept(form: Form)
    requires form != Alone
    ensures var path := "D:\\a /b";
      TranslateLinkResponse(QuotedText(form, path)) != Ok(QuotedText(Alone, Slashes(path)))
  {
    var path := "D:\\a /b";
    assert Slashes(path) == "D:/a /b";
    assert QuotedText(Alone, Slashes(path)) == "\"D:/a" + (" " + ("/b\"" + ""));
    PieceIsNotKept(form, path, "\"D:/a", "/b\"", "");
  }

  /** The path D:\a --color-diagnostics b is not kept either: the color pass looks into the quotes. */
  lemma ColorInQuotesIsNotKept(form: Form)
    requires form != Alone
    ensures var path := "D:\\a " + (COLOR + " b");
      TranslateLinkResponse(QuotedText(form, path)) != Ok(QuotedText(Alone, Slashes(path)))
  {
    var start, rest := "D:\\a ", COLOR + " b";
    var path := start + rest;
    ColorHasNoSlash();
    ColorIsToken();
    SlashesAppend(start, rest);
    SlashesAppend(COLOR, " b");
    assert Slashes(start) == "D:/a " && Slashes(" b") == " b";
    assert '"' !in COLOR;
    hide IsSpace;
    assert QuotedText(Alone, Slashes(path)) == "\"D:/a" + (" " + (COLOR + " b\""));
    PieceIsNotKept(form, path, "\"D:/a", COLOR, " b\"");
  }
}
