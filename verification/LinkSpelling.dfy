/**
  The linker response translation character by character: which characters separate tokens, how the
  tokens that are changed or refused are spelled, and what they become.
 */
module LinkSpelling {
  import opened Wrappers
  import opened LinkResponse
  import opened LinkTokens
  import opened LinkRefinement
  import opened LinkLaws
  import opened LinkQuoted

  // ----- the characters -----

  ghost predicate White(c: char) {
    || c in {'\t', '\n', '\U{000B}', '\U{000C}', '\r', '\U{001C}', '\U{001D}', '\U{001E}', '\U{001F}', ' '}
    || c in {'\U{0085}', '\U{00A0}', '\U{1680}', '\U{2028}', '\U{2029}', '\U{202F}', '\U{205F}', '\U{3000}'}
    || '\U{2000}' <= c <= '\U{200A}'
  }

  ghost predicate Letter(c: char) {
    'A' <= c <= 'Z' || 'a' <= c <= 'z'
  }

  /** The characters of a plain library name: letters, digits and four signs, and the four characters
      that ignoring case counts among the letters. */
  ghost predicate Plain(c: char) {
    || Letter(c) || '0' <= c <= '9' || c in {'_', '+', '.', '-'}
    || c in {'\U{0130}', '\U{0131}', '\U{017F}', '\U{212A}'}
  }

  /** .lib, ignoring case. */
  ghost predicate LibEnding(s: string) {
    && |s| == 4 && s[0] == '.' && s[1] in {'l', 'L'}
    && s[2] in {'i', 'I', '\U{0130}', '\U{0131}'} && s[3] in {'b', 'B'}
  }

  /** Text without white space and quotes. */
  ghost predicate Solid(s: string) {
    forall i :: 0 <= i < |s| ==> !White(s[i]) && s[i] != '"'
  }

  lemma WhiteMeans(c: char)
    ensures IsSpace(c) <==> White(c)
  {
  }

  lemma PlainMeans(c: char)
    ensures In(LibraryName, c) <==> Plain(c)
    ensures Plain(c) ==> !White(c) && c != '"'
    ensures IsLetter(c) <==> Letter(c)
  {
  }

  lemma SolidMeans(s: string)
    ensures Solid(s) && s != "" <==> IsToken(s) && QuoteFree(s)
  {
    hide White, IsSpace;
    forall c ensures IsSpace(c) <==> White(c) {
      WhiteMeans(c);
    }
    if QuoteFree(s) {
      assert forall i :: 0 <= i < |s| ==> s[i] in s;
    }
  }

  // ----- the forms of tokens -----

  /** -lX:\ or -lX:/ and at least one more character. */
  ghost predicate DriveForm(t: string) {
    && |t| > 5 && t[0] == '-' && t[1] == 'l' && Letter(t[2]) && t[3] == ':' && t[4] in {'\\', '/'}
  }

  /** -lX: and anything else. */
  ghost predicate RefusedForm(t: string) {
    |t| >= 4 && t[0] == '-' && t[1] == 'l' && Letter(t[2]) && t[3] == ':' && !DriveForm(t)
  }

  ghost predicate LibraryForm(t: string) {
    && |t| > 6 && t[0] == '-' && t[1] in {'l', 'L'}
    && (forall i :: 2 <= i < |t| - 4 ==> Plain(t[i]))
    && LibEnding(t[|t| - 4..])
  }

  ghost predicate SwitchForm(t: string) {
    |t| >= 2 && t[0] == '/' && Letter(t[1])
  }

  lemma PrefixMeans(t: string)
    ensures "-l" <= t <==> |t| >= 2 && t[0] == '-' && t[1] == 'l'
    ensures "-L" <= t <==> |t| >= 2 && t[0] == '-' && t[1] == 'L'
  {
  }

  lemma FormsMean(t: string)
    requires Solid(t)
    ensures IsDrivePath(t) <==> DriveForm(t)
    ensures IsUnhandled(t) <==> RefusedForm(t)
    ensures IsSwitch(t) <==> SwitchForm(t)
  {
    PrefixMeans(t);
    hide White;
  }

  lemma LibraryMeans(t: string)
    ensures IsSystemLibrary(t) <==> LibraryForm(t)
  {
    PrefixMeans(t);
    if |t| > 6 {
      var end := t[|t| - 4..];
      assert LibEnding(end) <==> IsLibSuffix(end);
      if LibEnding(end) {
        SuffixIsName(end);
        assert forall i :: |t| - 4 <= i < |t| ==> t[i] == end[i - (|t| - 4)];
      }
      hide IsLibSuffix, White;
      forall i | 0 <= i < |t| ensures In(LibraryName, t[i]) <==> Plain(t[i]) {
        PlainMeans(t[i]);
      }
      hide In, Plain;
    }
  }

  /** Backslashes become slashes and all else stays. */
  lemma SlashesMean(s: string)
    ensures |Slashes(s)| == |s|
    ensures forall i :: 0 <= i < |s| ==> Slashes(s)[i] == (if s[i] == '\\' then '/' else s[i]) && Slashes(s)[i] != '\\'
  {
  }

  // ----- what becomes of one token -----

  lemma SolidTranslation(t: string)
    requires Solid(t) && t != ""
    ensures TranslateLinkResponse(t) ==
      if RefusedForm(t) then Err(UnhandledDriveLibrary) else Ok(RewriteToken(t))
  {
    SolidMeans(t);
    FormsMean(t);
    hide TranslateLinkResponse, RewriteToken, IsUnhandled, RefusedForm, IsSpace, MapTokens, Tokens, Solid;
    QuoteFreeRefinement(t);
    MapOneToken(RewriteToken, t);
    assert t in Tokens(t);
  }

  /** What becomes of a token of no form, of a library and of a switch. */
  lemma RewriteCases(t: string)
    requires t != COLOR && !IsDrivePath(t)
    ensures !IsSystemLibrary(t) && !IsSwitch(t) ==> RewriteToken(t) == t
    ensures IsSystemLibrary(t) ==> |t| > 6 && RewriteToken(t) == "-l" + t[2..|t| - 4]
    ensures !IsSystemLibrary(t) && IsSwitch(t) ==> RewriteToken(t) == FORWARD_PREFIX + t
  {
    if IsSystemLibrary(t) {
      SystemLibraryLength(t);
    }
    hide IsSystemLibrary, IsDrivePath, IsSwitch;
  }

  /** A library path with a drive loses the -l and its backslashes. */
  lemma DrivePath(d: char, slash: char, rest: string)
    requires Letter(d) && slash in {'\\', '/'} && Solid(rest) && rest != ""
    ensures TranslateLinkResponse("-l" + ([d] + (":" + ([slash] + rest)))) == Ok([d] + (":/" + Slashes(rest)))
  {
    var t := "-l" + ([d] + (":" + ([slash] + rest)));
    assert t[0] == '-' && t[1] == 'l' && t[2] == d && t[3] == ':' && t[4] == slash && t[5..] == rest;
    assert t[2..] == [d] + (":" + ([slash] + rest));
    SolidPath(t, rest);
    hide Solid, TranslateLinkResponse, RewriteToken, Slashes;
    SolidTranslation(t);
    DriveRewrite(t, rest);
    SlashesOfPath(d, slash, rest);
  }

  lemma DriveRewrite(t: string, rest: string)
    requires Solid(t) && DriveForm(t) && t[5..] == rest && Solid(rest)
    ensures RewriteToken(t) == Slashes(t[2..])
  {
    FormsMean(t);
    WholeRun(rest);
    assert COLOR[1] == '-';
    hide Slashes, Solid, IsDrivePath, RunLength;
    assert t[2..|t|] == t[2..] && t[|t|..] == "";
    assert Slashes(t[2..]) + "" == Slashes(t[2..]);
  }

  lemma SlashesOfPath(d: char, slash: char, rest: string)
    requires Letter(d) && slash in {'\\', '/'}
    ensures Slashes([d] + (":" + ([slash] + rest))) == [d] + (":/" + Slashes(rest))
  {
    SlashesAppend([d], ":" + ([slash] + rest));
    SlashesAppend(":", [slash] + rest);
    SlashesAppend([slash], rest);
    assert Slashes([slash]) == "/" && Slashes([d]) == [d] && Slashes(":") == ":";
    hide Slashes;
    assert ":" + ("/" + Slashes(rest)) == ":/" + Slashes(rest);
  }

  lemma SolidPath(t: string, rest: string)
    requires |t| == 5 + |rest| && t[5..] == rest && Solid(rest)
    requires t[0] == '-' && t[1] == 'l' && Letter(t[2]) && t[3] == ':' && t[4] in {'\\', '/'}
    ensures Solid(t)
  {
    forall i | 0 <= i < |t| ensures !White(t[i]) && t[i] != '"' {
      if i >= 5 {
        assert t[i] == rest[i - 5];
      }
    }
  }

  lemma {:induction false} WholeRun(s: string)
    requires Solid(s)
    ensures RunLength(Unquoted, s) == |s|
  {
    hide White;
    if s != "" {
      WholeRun(s[1..]);
    }
  }

  /** Without a slash and more behind the colon such a path is refused. */
  lemma DriveWithoutPath(d: char, rest: string)
    requires Letter(d) && Solid(rest) && !(|rest| >= 2 && rest[0] in {'\\', '/'})
    ensures TranslateLinkResponse("-l" + ([d] + (":" + rest))) == Err(UnhandledDriveLibrary)
  {
    var t := "-l" + ([d] + (":" + rest));
    assert t[0] == '-' && t[1] == 'l' && t[2] == d && t[3] == ':' && t[4..] == rest;
    forall i | 0 <= i < |t| ensures !White(t[i]) && t[i] != '"' {
      if i >= 4 {
        assert t[i] == rest[i - 4];
      }
    }
    SolidTranslation(t);
    hide TranslateLinkResponse, White;
  }

  /** A library name loses its ending exactly if all of its characters are plain; -L becomes -l then,
      and any other name stays as it is. */
  lemma SystemLibraryName(option: string, name: string, ending: string)
    requires option in {"-l", "-L"} && name != "" && Solid(name) && LibEnding(ending)
    requires option == "-L" || |name| == 1 || !Letter(name[0]) || name[1] != ':'
    ensures TranslateLinkResponse(option + (name + ending)) ==
      Ok(if forall c :: c in name ==> Plain(c) then "-l" + name else option + (name + ending))
  {
    var t := option + (name + ending);
    LibraryParts(option, name, ending);
    NameForm(option, name, ending);
    hide TranslateLinkResponse, RewriteToken, White, Plain, Solid, LibEnding;
    hide DriveForm, RefusedForm, LibraryForm, SwitchForm, IsDrivePath, IsSystemLibrary, IsSwitch, IsUnhandled;
    SolidTranslation(t);
    FormsMean(t);
    LibraryMeans(t);
    RewriteCases(t);
  }

  lemma NameForm(option: string, name: string, ending: string)
    requires option in {"-l", "-L"} && name != "" && Solid(name) && LibEnding(ending)
    requires option == "-L" || |name| == 1 || !Letter(name[0]) || name[1] != ':'
    ensures var t := option + (name + ending);
      && !DriveForm(t) && !RefusedForm(t) && !SwitchForm(t) && |t| > 6 && t[2..|t| - 4] == name
      && (LibraryForm(t) <==> forall c :: c in name ==> Plain(c))
  {
    var t := option + (name + ending);
    LibraryParts(option, name, ending);
    assert |name| == 1 ==> t[3] == ending[0] == '.';
    hide White, Plain, Solid, LibEnding;
    assert t[2..|t| - 4] == name;
    if LibraryForm(t) {
      forall c | c in name ensures Plain(c) {
        var i :| 0 <= i < |name| && name[i] == c;
        assert t[i + 2] == c;
      }
    } else {
      assert exists i :: 2 <= i < |t| - 4 && !Plain(t[i]);
      var i :| 2 <= i < |t| - 4 && !Plain(t[i]);
      assert t[i] == name[i - 2] && name[i - 2] in name;
    }
  }

  lemma LibraryParts(option: string, name: string, ending: string)
    requires option in {"-l", "-L"} && name != "" && Solid(name) && LibEnding(ending)
    ensures var t := option + (name + ending);
      && |t| == |name| + 6 && t[0] == '-' && t[1] == option[1] && (option[1] == 'l' || option[1] == 'L')
      && t[|t| - 4..] == ending && Solid(t) && t != COLOR
      && forall i :: 0 <= i < |name| ==> t[i + 2] == name[i]
  {
    var t := option + (name + ending);
    assert COLOR[1] == '-';
    forall i | 0 <= i < |t| ensures !White(t[i]) && t[i] != '"' {
      if 2 <= i < 2 + |name| {
        assert t[i] == name[i - 2];
      } else if i >= 2 {
        assert t[i] == ending[i - 2 - |name|];
      }
    }
  }

  lemma SlashToken(c: char, rest: string)
    requires !White(c) && c != '"' && Solid(rest)
    ensures var t := "/" + ([c] + rest);
      && Solid(t) && t != COLOR && !DriveForm(t) && !RefusedForm(t) && !LibraryForm(t)
      && (SwitchForm(t) <==> Letter(c))
  {
    var t := "/" + ([c] + rest);
    assert t[0] == '/' && t[1] == c && t[2..] == rest && COLOR[0] == '-';
    hide White, LibEnding;
    forall i | 0 <= i < |t| ensures !White(t[i]) && t[i] != '"' {
      assert t[0] == '/' && !White('/') by { SlashIsSolid(); }
      if i >= 2 {
        assert t[i] == rest[i - 2];
      }
    }
  }

  lemma SlashIsSolid()
    ensures !White('/')
  {
  }

  lemma ForwardText(t: string)
    ensures "/" <= t ==> FORWARD_PREFIX + t == "-Xlinker " + ("-Xlink=/" + t[1..])
  {
    assert FORWARD_PREFIX == "-Xlinker " + "-Xlink=";
    assert "/" <= t ==> "-Xlink=" + t == "-Xlink=/" + t[1..];
  }

  /** A slash and a letter at the start of a token make it a forwarded switch; any other character
      behind the slash does not. */
  lemma Switch(c: char, rest: string)
    requires !White(c) && c != '"' && Solid(rest)
    ensures TranslateLinkResponse("/" + ([c] + rest)) ==
      Ok(if Letter(c) then "-Xlinker " + ("-Xlink=/" + ([c] + rest)) else "/" + ([c] + rest))
  {
    var t := "/" + ([c] + rest);
    SlashToken(c, rest);
    ForwardText(t);
    assert t[1..] == [c] + rest;
    hide TranslateLinkResponse, RewriteToken, White, Solid, Letter;
    hide DriveForm, RefusedForm, LibraryForm, SwitchForm, IsDrivePath, IsSystemLibrary, IsSwitch, IsUnhandled;
    SolidTranslation(t);
    FormsMean(t);
    LibraryMeans(t);
    RewriteCases(t);
  }

  lemma ColorText()
    ensures "--" + "color-diagnostics" == COLOR && "-f" + "color-diagnostics" == "-fcolor-diagnostics"
  {
  }

  /** The color option. */
  lemma ColorOption()
    ensures TranslateLinkResponse("--" + "color-diagnostics") == Ok("-f" + "color-diagnostics")
  {
    ColorText();
    ColorIsSolid();
    SolidTranslation(COLOR);
    assert COLOR[1] == '-';
    hide TranslateLinkResponse;
  }

  lemma ColorIsSolid()
    ensures Solid(COLOR)
  {
  }

  /** Every other token stays as it is. */
  lemma OtherToken(t: string)
    requires Solid(t) && t != "" && t != "--" + "color-diagnostics"
    requires !DriveForm(t) && !RefusedForm(t) && !LibraryForm(t) && !SwitchForm(t)
    ensures TranslateLinkResponse(t) == Ok(t)
  {
    ColorText();
    hide TranslateLinkResponse, RewriteToken, Solid;
    hide DriveForm, RefusedForm, LibraryForm, SwitchForm, IsDrivePath, IsSystemLibrary, IsSwitch, IsUnhandled;
    SolidTranslation(t);
    FormsMean(t);
    LibraryMeans(t);
    RewriteCases(t);
  }

  /** Of all characters but the quote exactly the white space before it makes a switch a token of its
      own. */
  lemma Separator(c: char)
    requires c != '"'
    ensures TranslateLinkResponse([c] + "/X") == Ok([c] + if White(c) then "-Xlinker " + "-Xlink=/X" else "/X")
  {
    var t := [c] + "/X";
    assert t[0] == c && t[1] == '/' && t[2] == 'X';
    if White(c) {
      SwitchBehind(c);
    } else {
      OtherToken(t);
    }
  }

  lemma SwitchX()
    ensures RewriteToken("/X") == "-Xlinker " + "-Xlink=/X" && !IsUnhandled("/X") && IsToken("/X") && QuoteFree("/X")
  {
    var t := "/" + (['X'] + "");
    assert t == "/X" && Solid("");
    SlashToken('X', "");
    ForwardText(t);
    assert t[1..] == "X";
    hide RewriteToken, Solid, White;
    hide DriveForm, RefusedForm, LibraryForm, SwitchForm, IsDrivePath, IsSystemLibrary, IsSwitch, IsUnhandled;
    SolidMeans(t);
    FormsMean(t);
    LibraryMeans(t);
    RewriteCases(t);
    assert "-Xlink=/" + "X" == "-Xlink=/X";
  }

  lemma SwitchBehind(c: char)
    requires White(c) && c != '"'
    ensures TranslateLinkResponse([c] + "/X") == Ok([c] + ("-Xlinker " + "-Xlink=/X"))
  {
    WhiteMeans(c);
    SwitchX();
    hide White, IsSpace, TranslateLinkResponse, RewriteToken, MapTokens, IsUnhandled, Tokens;
    var t := [c] + "/X";
    assert QuoteFree(t);
    QuoteFreeRefinement(t);
    MapTokensSpace(RewriteToken, c, "/X");
    MapOneToken(RewriteToken, "/X");
    TokensBehind(c, "/X");
  }

  /** Quote-free texts on both sides of white space are translated each by itself, and the white space is
      kept; one refused text is enough to refuse the whole. */
  lemma TextsAreIndependent(a: string, c: char, b: string)
    requires QuoteFree(a) && QuoteFree(b) && White(c)
    ensures TranslateLinkResponse(a + ([c] + b)) ==
      match (TranslateLinkResponse(a), TranslateLinkResponse(b))
      case (Ok(x), Ok(y)) => Ok(x + ([c] + y))
      case _ => Err(UnhandledDriveLibrary)
  {
    WhiteMeans(c);
    assert ([c] + b)[1..] == b;
    TokensBehind(c, b);
    hide White, IsSpace, TranslateLinkResponse, MapTokens, IsUnhandled, Tokens, RewriteToken;
    QuoteFreeRefinement(a);
    QuoteFreeRefinement(b);
    QuoteFreeRefinement(a + ([c] + b));
    MapTokensAppend(RewriteToken, a, [c] + b);
    TokensAppend(a, [c] + b);
    MapTokensSpace(RewriteToken, c, b);
    assert forall t :: t in Tokens(a + ([c] + b)) <==> t in Tokens(a) || t in Tokens(b);
  }

  lemma TokensBehind(c: char, b: string)
    requires IsSpace(c)
    ensures Tokens([c] + b) == Tokens(b)
  {
    hide IsSpace;
    assert ([c] + b)[1..] == b;
  }

  // ----- quoted switches -----

  /** A quote at a token start, a slash, a letter, and a second quote further on. */
  ghost predicate QuotedSwitchAt(s: string, i: nat, j: nat) {
    && i + 3 <= j < |s| && (i == 0 || White(s[i - 1]))
    && s[i] == '"' && s[i + 1] == '/' && Letter(s[i + 2]) && s[j] == '"'
  }

  ghost predicate StartsAt(s: string, i: nat, start: bool)
    requires i < |s|
  {
    if i == 0 then start else IsSpace(s[i - 1])
  }

  lemma {:induction false} SearchMeans(k: Check, s: string, start: bool)
    ensures Search(k, s, start) <==> exists i: nat :: i < |s| && StartsAt(s, i, start) && FoundAt(k, s[i..])
    decreases |s|
  {
    hide IsSpace, FoundAt;
    if s != "" {
      var rest := s[1..];
      SearchMeans(k, rest, IsSpace(s[0]));
      assert s[0..] == s;
      if i: nat :| i < |rest| && StartsAt(rest, i, IsSpace(s[0])) && FoundAt(k, rest[i..]) {
        assert s[i + 1..] == rest[i..] && StartsAt(s, i + 1, start);
      }
      if i: nat :| i < |s| && StartsAt(s, i, start) && FoundAt(k, s[i..]) {
        if i > 0 {
          assert s[i..] == rest[i - 1..] && StartsAt(rest, i - 1, IsSpace(s[0]));
        }
      }
    }
  }

  lemma QuotedFoundMeans(s: string, i: nat)
    requires i < |s|
    ensures StartsAt(s, i, true) && FoundAt(QuotedSwitch, s[i..]) <==> exists j: nat :: QuotedSwitchAt(s, i, j)
  {
    if i > 0 {
      WhiteMeans(s[i - 1]);
    }
    hide White, IsSpace;
    var u := s[i..];
    if FoundAt(QuotedSwitch, u) && StartsAt(s, i, true) {
      var j := i + 3 + RunLength(Unquoted, u[3..]);
      assert u[3..][j - i - 3] == s[j];
      assert QuotedSwitchAt(s, i, j);
    }
    if j: nat :| QuotedSwitchAt(s, i, j) {
      assert u[0] == s[i] && u[1] == s[i + 1] && u[2] == s[i + 2];
      assert u[3..][j - i - 3] == '"';
    }
  }

  lemma ColorTokenDash(t: string, i: nat)
    requires i < |t|
    ensures |ColorToken(t)| == |t|
    ensures ColorToken(t)[i] == t[i] || (i > 0 && t[i - 1] == '-')
  {
    var rest := "color-diagnostics";
    assert COLOR == "--" + rest && "-fcolor-diagnostics" == "-f" + rest;
  }

  /** Only a dash behind a dash is ever changed by the color pass. */
  lemma {:induction false} ColorDash(s: string, i: nat)
    requires i < |s| && i < |Color(s)|
    ensures Color(s)[i] == s[i] || (i > 0 && s[i - 1] == '-')
    decreases |s|
  {
    hide IsSpace, ColorToken;
    if IsSpace(s[0]) {
      if i > 0 {
        ColorDash(s[1..], i - 1);
      }
    } else {
      var n := RunLength(Token, s);
      FirstToken(s);
      ColorTokenShape(s[..n]);
      if i < n {
        ColorTokenDash(s[..n], i);
      } else {
        ColorDash(s[n..], i - n);
      }
    }
  }

  lemma ColorKeepsQuotedSwitch(s: string, i: nat, j: nat)
    ensures QuotedSwitchAt(Color(s), i, j) <==> QuotedSwitchAt(s, i, j)
  {
    ColorShape(s);
    assert !White('-') && !White('f');
    hide White, Color;
    if i + 2 < |s| {
      ColorDash(s, i + 2);
    }
  }

  /** A text is refused for a quoted switch exactly if it has one at the start of a token. */
  lemma QuotedSwitchIsRefused(s: string)
    ensures TranslateLinkResponse(s) == Err(QuotedLinkerSwitch) <==> exists i: nat, j: nat :: QuotedSwitchAt(s, i, j)
  {
    hide White, IsSpace, FoundAt, Color, Sub, Unquote, Search, QuotedSwitchAt;
    var colored := Color(s);
    ColorIsTokenwise(s);
    SearchMeans(QuotedSwitch, colored, true);
    if i: nat :| i < |colored| && StartsAt(colored, i, true) && FoundAt(QuotedSwitch, colored[i..]) {
      QuotedFoundMeans(colored, i);
      var j: nat :| QuotedSwitchAt(colored, i, j);
      ColorKeepsQuotedSwitch(s, i, j);
    }
    if i: nat, j: nat :| QuotedSwitchAt(s, i, j) {
      ColorKeepsQuotedSwitch(s, i, j);
      QuotedSwitchIsInside(colored, i, j);
      QuotedFoundMeans(colored, i);
    }
  }

  lemma QuotedSwitchIsInside(s: string, i: nat, j: nat)
    requires QuotedSwitchAt(s, i, j)
    ensures i < |s|
  {
  }
}
