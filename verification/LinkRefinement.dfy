/**
  The chain of whole-text substitutions refines one simple function on single tokens.
 */
module LinkRefinement {
  import opened Wrappers
  import opened LinkResponse
  import opened LinkTokens

  const FORWARD_PREFIX := "-Xlinker -Xlink="

  /** -lX:\... with at least one character after the slash. */
  predicate IsDrivePath(t: string) {
    "-l" <= t && DriveAt(t, 2) && |t| > 5 && t[5] != '"'
  }

  /** -lname.lib or -Lname.lib with a non-empty plain name, ignoring case. */
  predicate IsSystemLibrary(t: string) {
    && |t| > 6 && ("-l" <= t || "-L" <= t)
    && (forall i :: 2 <= i < |t| ==> In(LibraryName, t[i]))
    && IsLibSuffix(t[|t| - 4..])
  }

  predicate IsSwitch(t: string) {
    |t| >= 2 && t[0] == '/' && IsLetter(t[1])
  }

  /** -lX: followed by neither a slash with text nor anything else the translation accepts. */
  predicate IsUnhandled(t: string) {
    FoundAt(DriveArgument, t) && !IsDrivePath(t)
  }

  /** What becomes of one token after the color and quoting passes. */
  function Rewrite(t: string): string {
    if IsDrivePath(t) then
      var n := 5 + RunLength(Unquoted, t[5..]);
      Slashes(t[2..n]) + t[n..]
    else if IsSystemLibrary(t) then "-l" + t[2..|t| - 4]
    else if IsSwitch(t) then FORWARD_PREFIX + t
    else t
  }

  function RewriteToken(t: string): string {
    if t == COLOR then "-fcolor-diagnostics" else Rewrite(t)
  }

  // ----- one token -----

  lemma {:induction false} BareRun(u: string)
    requires u == "" || IsToken(u)
    ensures RunLength(Bare, u) == RunLength(Unquoted, u)
  {
    hide IsSpace;
    if u != "" {
      BareRun(u[1..]);
    }
  }

  lemma DriveResult(t: string)
    requires IsToken(t)
    ensures TokenResult(DriveLibrary, t) == if IsDrivePath(t) then Rewrite(t) else t
  {
    hide IsSpace;
    if "-l" <= t && DriveAt(t, 2) {
      BareRun(t[5..]);
    }
  }

  lemma PatternIsWholeToken(t: string, n: nat)
    requires IsToken(t)
    ensures SystemPattern(t, n) <==> IsSystemLibrary(t) && n + 6 == |t|
  {
    hide IsSpace;
    assert n + 6 <= |t| ==> (SpaceOrEnd(t, n + 6) <==> n + 6 == |t|);
    if n + 6 == |t| {
      assert t[n + 2..n + 6] == t[|t| - 4..];
      if IsLibSuffix(t[|t| - 4..]) {
        SuffixIsName(t[|t| - 4..]);
        assert forall i :: n + 2 <= i < |t| ==> t[i] == t[|t| - 4..][i - n - 2];
      }
    }
  }

  lemma SystemResult(t: string)
    requires IsToken(t)
    ensures TokenResult(SystemLibrary, t) == if IsSystemLibrary(t) then "-l" + t[2..|t| - 4] else t
  {
    hide IsSpace, IsSystemLibrary, SystemPattern, MatchAt;
    SystemMatchIsPattern(t);
    forall n: nat ensures SystemPattern(t, n) <==> IsSystemLibrary(t) && n + 6 == |t| {
      PatternIsWholeToken(t, n);
    }
    if IsSystemLibrary(t) {
      SystemLibraryLength(t);
      assert SystemPattern(t, |t| - 6);
      assert t[|t|..] == "";
    }
  }

  lemma SystemLibraryLength(t: string)
    requires IsSystemLibrary(t)
    ensures |t| > 6 && ("-l" <= t || "-L" <= t) && t[|t| - 4] == '.'
  {
  }

  lemma SwitchResult(t: string)
    ensures TokenResult(LinkerSwitch, t) == if IsSwitch(t) then FORWARD_PREFIX + t else t
  {
    if IsSwitch(t) {
      assert FORWARD == FORWARD_PREFIX + "/";
      assert t == "/" + t[1..];
    }
  }

  lemma DrivePathRewrite(t: string)
    requires IsToken(t) && IsDrivePath(t)
    ensures IsToken(Rewrite(t)) && IsLetter(Rewrite(t)[0])
    ensures !IsSystemLibrary(Rewrite(t)) && !IsSwitch(Rewrite(t)) && !FoundAt(DriveArgument, Rewrite(t))
  {
    SyntaxIsNotSpace();
    hide IsSpace, IsLibSuffix;
    var n := 5 + RunLength(Unquoted, t[5..]);
    var u := Rewrite(t);
    assert u[0] == t[2];
    forall i | 0 <= i < |u| ensures !IsSpace(u[i]) {
      assert u[i] == t[i + 2] || u[i] == '/';
    }
  }

  lemma SystemRewrite(t: string)
    requires IsToken(t) && IsSystemLibrary(t) && !IsDrivePath(t)
    ensures IsToken(Rewrite(t)) && "-l" <= Rewrite(t) && !IsSwitch(Rewrite(t))
  {
    SyntaxIsNotSpace();
    hide IsSpace, IsLibSuffix;
    assert forall i :: 2 <= i < |Rewrite(t)| ==> Rewrite(t)[i] == t[i];
  }

  /** The four local passes on a token, one after the other. */
  function Chain(t: string): string {
    Sub(LinkerSwitch, Sub(SystemLibrary, Sub(DriveLibrary, t, true), true), true)
  }

  lemma ChainIsRewrite(t: string)
    requires IsToken(t)
    ensures Chain(t) == Rewrite(t)
    ensures IsToken(Sub(DriveLibrary, t, true))
    ensures IsToken(Sub(SystemLibrary, Sub(DriveLibrary, t, true), true))
  {
    hide IsSpace, IsLibSuffix, MatchAt, Sub, TokenResult;
    SubToken(DriveLibrary, t);
    DriveResult(t);
    if IsDrivePath(t) {
      DrivePathRewrite(t);
    }
    var u := Sub(DriveLibrary, t, true);
    SubToken(SystemLibrary, u);
    SystemResult(u);
    if !IsDrivePath(t) && IsSystemLibrary(t) {
      SystemRewrite(t);
    }
    var v := Sub(SystemLibrary, u, true);
    SubToken(LinkerSwitch, v);
    SwitchResult(v);
  }

  lemma ColorResult(t: string)
    requires IsToken(t)
    ensures TokenResult(ColorDiagnostics, t) == if t == COLOR then "-fcolor-diagnostics" else t
  {
    hide IsSpace;
    assert SpaceOrEnd(t, |COLOR|) <==> |t| <= |COLOR|;
    if COLOR <= t && |t| == |COLOR| {
      assert t == COLOR;
    }
  }

  lemma ColorIsRewrite(t: string)
    requires IsToken(t)
    ensures IsToken(Sub(ColorDiagnostics, t, true))
    ensures Rewrite(Sub(ColorDiagnostics, t, true)) == RewriteToken(t)
    ensures IsUnhandled(Sub(ColorDiagnostics, t, true)) <==> IsUnhandled(t)
  {
    hide IsSpace, Sub, TokenResult, MatchAt, Rewrite, IsDrivePath;
    SubToken(ColorDiagnostics, t);
    ColorResult(t);
    ReplacementIsToken();
  }

  lemma ReplacementIsToken()
    ensures IsToken("-fcolor-diagnostics")
    ensures !("-l" <= "-fcolor-diagnostics") && !("-L" <= "-fcolor-diagnostics") && !("-l" <= COLOR)
    ensures Rewrite("-fcolor-diagnostics") == "-fcolor-diagnostics"
  {
    assert "-fcolor-diagnostics"[1] == 'f' && COLOR[1] == '-';
  }

  // ----- the remaining check, token by token -----

  lemma FoundIsLocal(t: string, r: string)
    requires IsToken(t) && Breaks(r)
    ensures FoundAt(DriveArgument, t + r) <==> FoundAt(DriveArgument, t)
  {
    SyntaxIsNotSpace();
    hide IsSpace;
    PrefixInToken("-l", t, r);
  }

  lemma SearchAtBreak(s: string, start: bool)
    requires Breaks(s)
    ensures Search(DriveArgument, s, start) == Search(DriveArgument, s, true)
  {
    SyntaxIsNotSpace();
    hide IsSpace;
  }

  lemma {:induction false} SearchIsTokenwise(s: string)
    ensures Search(DriveArgument, s, true) <==> exists t :: t in Tokens(s) && FoundAt(DriveArgument, t)
    decreases |s|
  {
    hide IsSpace, FoundAt;
    if s != "" {
      if IsSpace(s[0]) {
        SearchIsTokenwise(s[1..]);
        SpaceIsNotFound(s);
      } else {
        var n := RunLength(Token, s);
        FirstToken(s);
        var t, r := s[..n], s[n..];
        FoundIsLocal(t, r);
        SearchInside(DriveArgument, t[1..], r);
        SearchAtBreak(r, false);
        SearchIsTokenwise(r);
        assert s[1..] == t[1..] + r;
        assert Tokens(s) == [t] + Tokens(r);
        assert forall x :: x in Tokens(s) <==> x == t || x in Tokens(r);
      }
    }
  }

  lemma SpaceIsNotFound(s: string)
    requires s != "" && IsSpace(s[0])
    ensures !FoundAt(DriveArgument, s)
  {
    SyntaxIsNotSpace();
  }

  // ----- whole texts -----

  function LibraryPasses(t: string): string {
    Sub(SystemLibrary, Sub(DriveLibrary, t, true), true)
  }

  lemma LibraryPassesAreTokenwise(s: string)
    ensures LibraryPasses(s) == MapTokens(LibraryPasses, s)
  {
    hide IsSpace, Sub, MapTokens;
    var drive, system := ApplyPass(DriveLibrary), ApplyPass(SystemLibrary);
    SubIsTokenwise(DriveLibrary, s);
    SubIsTokenwise(SystemLibrary, MapTokens(drive, s));
    TokensAreTokens(s);
    forall t | t in Tokens(s) ensures Closed(drive(t)) && LibraryPasses(t) == MapTokens(system, drive(t)) {
      ChainIsRewrite(t);
      MapOneToken(system, drive(t));
    }
    MapTokensCompose(drive, system, LibraryPasses, s);
  }

  /** The local passes after the drive check, over a whole text. */
  lemma ChainIsTokenwise(s: string)
    ensures Chain(s) == MapTokens(Rewrite, s)
  {
    hide IsSpace, Sub, MapTokens, Rewrite;
    var switch := ApplyPass(LinkerSwitch);
    LibraryPassesAreTokenwise(s);
    SubIsTokenwise(LinkerSwitch, MapTokens(LibraryPasses, s));
    TokensAreTokens(s);
    forall t | t in Tokens(s)
      ensures Closed(LibraryPasses(t)) && Rewrite(t) == MapTokens(switch, LibraryPasses(t))
    {
      ChainIsRewrite(t);
      MapOneToken(switch, LibraryPasses(t));
    }
    MapTokensCompose(LibraryPasses, switch, Rewrite, s);
  }

  ghost predicate HasUnhandled(s: string) {
    exists t :: t in Tokens(s) && IsUnhandled(t)
  }

  lemma DriveCheckIsTokenwise(s: string)
    ensures Search(DriveArgument, Sub(DriveLibrary, s, true), true) <==> HasUnhandled(s)
  {
    hide IsSpace, Sub, MapTokens, Search, FoundAt, IsDrivePath, Tokens;
    var drive := ApplyPass(DriveLibrary);
    SubIsTokenwise(DriveLibrary, s);
    TokensAreTokens(s);
    forall t | t in Tokens(s)
      ensures Closed(drive(t)) && Tokens(drive(t)) == [drive(t)] && (FoundAt(DriveArgument, drive(t)) <==> IsUnhandled(t))
    {
      SubToken(DriveLibrary, t);
      DriveResult(t);
      if IsDrivePath(t) {
        DrivePathRewrite(t);
      }
      MapOneToken(drive, drive(t));
    }
    TokensOfMap(drive, s);
    SearchIsTokenwise(MapTokens(drive, s));
  }

  /** On every text: after the color pass, the quoted check and the two quoted passes, the rest of the
      chain is one function on each token with all white space kept, and it fails exactly when some
      token is an unhandled drive argument. */
  lemma TokenRefinement(s: string)
    ensures var colored := Sub(ColorDiagnostics, s, true);
      TranslateLinkResponse(s) ==
        if Search(QuotedSwitch, colored, true) then Err(QuotedLinkerSwitch)
        else if HasUnhandled(Unquote(colored)) then Err(UnhandledDriveLibrary)
        else Ok(MapTokens(Rewrite, Unquote(colored)))
  {
    hide IsSpace, Sub, MapTokens, Search, HasUnhandled, Unquote, Rewrite;
    var unquoted := Unquote(Sub(ColorDiagnostics, s, true));
    ChainIsTokenwise(unquoted);
    DriveCheckIsTokenwise(unquoted);
  }
}
