/**
  Laws of the linker response translation on texts without quotes, and of running it twice.
 */
module LinkLaws {
  import opened Wrappers
  import opened LinkResponse
  import opened LinkTokens
  import opened LinkRefinement

  // ----- texts without quotes -----

  ghost predicate QuoteFree(s: string) {
    '"' !in s
  }

  lemma {:induction false} QuotedPassesDoNothing(p: Pass, s: string, start: bool)
    requires QuoteFree(s) && !IsLocal(p)
    ensures Sub(p, s, start) == s
    decreases |s|
  {
    if s != "" {
      assert s == [s[0]] + s[1..];
      QuotedNeverMatches(p, s);
      hide IsSpace, MatchAt;
      QuotedPassesDoNothing(p, s[1..], IsSpace(s[0]));
    }
  }

  lemma QuotedNeverMatches(p: Pass, s: string)
    requires QuoteFree(s) && !IsLocal(p)
    ensures MatchAt(p, s).None?
  {
    hide IsSpace;
    assert forall i :: 0 <= i < |s| ==> s[i] != '"';
    assert "\"-l"[0] == '"' && "-l\""[2] == '"';
  }

  lemma {:induction false} NoQuotedSwitch(s: string, start: bool)
    requires QuoteFree(s)
    ensures !Search(QuotedSwitch, s, start)
    decreases |s|
  {
    hide IsSpace;
    if s != "" {
      NoQuotedSwitch(s[1..], IsSpace(s[0]));
    }
  }

  lemma {:induction false} MapTokensQuoteFree(f: string -> string, s: string)
    requires QuoteFree(s)
    requires forall t :: QuoteFree(t) ==> QuoteFree(f(t))
    ensures QuoteFree(MapTokens(f, s))
    ensures forall t :: t in Tokens(s) ==> QuoteFree(t)
    decreases |s|
  {
    hide IsSpace;
    if s != "" {
      if IsSpace(s[0]) {
        MapTokensQuoteFree(f, s[1..]);
      } else {
        MapTokensQuoteFree(f, s[RunLength(Token, s)..]);
      }
    }
  }

  lemma RewriteQuoteFree(t: string)
    requires QuoteFree(t)
    ensures QuoteFree(RewriteToken(t)) && QuoteFree(if t == COLOR then "-fcolor-diagnostics" else t)
  {
    hide IsLibSuffix;
    assert forall i :: 0 <= i < |t| ==> t[i] != '"';
    assert QuoteFree(FORWARD_PREFIX) && QuoteFree("-l") && QuoteFree("-fcolor-diagnostics");
    var u := RewriteToken(t);
    if t != COLOR {
      forall i | 0 <= i < |u| ensures u[i] != '"' {
        if IsDrivePath(t) {
          assert u[i] == t[i + 2] || u[i] == '/';
        } else if IsSystemLibrary(t) {
          assert i >= 2 ==> u[i] == t[i];
        } else if IsSwitch(t) {
          assert i < |FORWARD_PREFIX| ==> u[i] == FORWARD_PREFIX[i];
        }
      }
    }
  }

  function ColorToken(t: string): string {
    if t == COLOR then "-fcolor-diagnostics" else t
  }

  function Color(s: string): string {
    MapTokens(ColorToken, s)
  }

  lemma ColorIsTokenwise(s: string)
    ensures Sub(ColorDiagnostics, s, true) == Color(s)
  {
    hide IsSpace, Sub, MapTokens;
    SubIsTokenwise(ColorDiagnostics, s);
    TokensAreTokens(s);
    forall t | t in Tokens(s) ensures ApplyPass(ColorDiagnostics)(t) == ColorToken(t) {
      SubToken(ColorDiagnostics, t);
      ColorResult(t);
    }
    MapTokensCongruent(ApplyPass(ColorDiagnostics), ColorToken, s);
  }

  /** After the color pass the token function is RewriteToken, and the refused tokens are the same. */
  lemma ColorThenRewrite(s: string)
    ensures MapTokens(Rewrite, Color(s)) == MapTokens(RewriteToken, s)
    ensures HasUnhandled(Color(s)) <==> HasUnhandled(s)
  {
    hide IsSpace, MapTokens, Rewrite, RewriteToken, IsUnhandled, Tokens;
    TokensAreTokens(s);
    forall t | t in Tokens(s)
      ensures Closed(ColorToken(t)) && RewriteToken(t) == MapTokens(Rewrite, ColorToken(t))
      ensures Tokens(ColorToken(t)) == [ColorToken(t)] && (IsUnhandled(ColorToken(t)) <==> IsUnhandled(t))
    {
      ColorIsRewrite(t);
      SubToken(ColorDiagnostics, t);
      ColorResult(t);
      MapOneToken(Rewrite, ColorToken(t));
    }
    MapTokensCompose(ColorToken, Rewrite, RewriteToken, s);
    TokensOfMap(ColorToken, s);
  }

  /** For every quote-free text the whole translation is one function on each token, with all white
      space kept; it fails exactly when some token begins -lX: without a slash and more. */
  lemma QuoteFreeRefinement(s: string)
    requires QuoteFree(s)
    ensures TranslateLinkResponse(s) ==
      if HasUnhandled(s) then Err(UnhandledDriveLibrary) else Ok(MapTokens(RewriteToken, s))
  {
    hide IsSpace, Sub, MapTokens, Rewrite, RewriteToken, IsUnhandled, Tokens;
    ColorIsTokenwise(s);
    ColorQuoteFree(s);
    QuotedPassesDoNothing(QuotedArgument, Color(s), true);
    QuotedPassesDoNothing(QuotedPath, Color(s), true);
    NoQuotedSwitch(Color(s), true);
    TokenRefinement(s);
    ColorThenRewrite(s);
  }

  lemma ColorQuoteFree(s: string)
    requires QuoteFree(s)
    ensures QuoteFree(Color(s))
  {
    hide IsSpace, MapTokens;
    forall t | QuoteFree(t) ensures QuoteFree(ColorToken(t)) {
      RewriteQuoteFree(t);
    }
    MapTokensQuoteFree(ColorToken, s);
  }

  // ----- running it twice -----

  /** A library name that ends in .lib.lib, ignoring case, with something before. */
  predicate IsDoubledLibrary(t: string) {
    IsSystemLibrary(t) && IsSystemLibrary(t[..|t| - 4])
  }

  function RewriteAgain(t: string): string {
    MapTokens(RewriteToken, RewriteToken(t))
  }

  lemma SystemRewriteAgain(t: string)
    requires IsToken(t) && IsSystemLibrary(t) && !IsDrivePath(t) && t != COLOR
    ensures var u := RewriteToken(t);
      && IsToken(u) && !IsUnhandled(u)
      && if IsDoubledLibrary(t) then |RewriteToken(u)| < |u| else RewriteToken(u) == u
  {
    hide IsSpace, IsLibSuffix;
    SystemRewrite(t);
    var u, v := RewriteToken(t), t[..|t| - 4];
    assert u[1] == 'l' && COLOR[1] == '-';
    assert forall i :: 2 <= i < |u| ==> u[i] == v[i] == t[i];
    assert |u| > 6 ==> u[|u| - 4..] == v[|v| - 4..];
    assert IsSystemLibrary(u) <==> IsSystemLibrary(v);
    assert |u| > 3 ==> In(LibraryName, u[3]);
  }

  /** What a forwarded switch consists of. */
  lemma ForwardedParts(t: string) returns (first: string, second: string)
    requires IsToken(t) && IsSwitch(t)
    ensures IsToken(first) && IsToken(second) && IsSpace(' ')
    ensures RewriteToken(t) == first + (" " + second)
    ensures RewriteToken(first) == first && RewriteToken(second) == second
    ensures !IsUnhandled(first) && !IsUnhandled(second)
  {
    first, second := "-Xlinker", "-Xlink=" + t;
    assert t != COLOR by { assert t[0] == '/'; }
    assert "-Xlinker"[1] == 'X' && second[1] == 'X' && COLOR[1] == '-';
    forall i | 0 <= i < |second| ensures !IsSpace(second[i]) {
      assert i >= 7 ==> second[i] == t[i - 7];
    }
  }

  lemma SwitchRewriteAgain(t: string)
    requires IsToken(t) && IsSwitch(t)
    ensures var u := RewriteToken(t);
      Closed(u) && RewriteAgain(t) == u && forall x :: x in Tokens(u) ==> !IsUnhandled(x)
  {
    hide IsSpace, MapTokens, Tokens, RewriteToken, IsUnhandled;
    var first, second := ForwardedParts(t);
    assert Breaks(" " + second);
    MapTokensStep(RewriteToken, first, " " + second);
    TokensStep(first, " " + second);
    SpaceStep(second);
    MapOneToken(RewriteToken, second);
  }

  ghost predicate SettlesTo(t: string, settled: bool) {
    var u := RewriteToken(t);
    && Closed(u)
    && (forall x :: x in Tokens(u) ==> !IsUnhandled(x))
    && if settled then RewriteAgain(t) == u else |RewriteAgain(t)| < |u|
  }

  lemma SettlesAsToken(t: string, settled: bool)
    requires var u := RewriteToken(t);
      IsToken(u) && !IsUnhandled(u) && if settled then RewriteToken(u) == u else |RewriteToken(u)| < |u|
    ensures SettlesTo(t, settled)
  {
    hide IsSpace, RewriteToken, IsUnhandled;
    MapOneToken(RewriteToken, RewriteToken(t));
  }

  /** One token, rewritten twice. */
  lemma TokenRewriteAgain(t: string)
    requires IsToken(t) && !IsUnhandled(t)
    ensures SettlesTo(t, !(IsDoubledLibrary(t) && !IsDrivePath(t)))
  {
    ReplacementIsToken();
    hide IsSpace, SettlesTo, IsSystemLibrary;
    if t == COLOR {
      assert t[1] == '-';
      ColorIsNoLibrary();
      SettlesAsToken(t, true);
    } else if IsDrivePath(t) {
      DrivePathRewrite(t);
      assert RewriteToken(t)[0] != COLOR[0];
      SettlesAsToken(t, true);
    } else if IsSystemLibrary(t) {
      SystemRewriteAgain(t);
      SettlesAsToken(t, !IsDoubledLibrary(t));
    } else if IsSwitch(t) {
      SwitchRewriteAgain(t);
      SwitchSettles(t);
    } else {
      SettlesAsToken(t, true);
    }
  }

  lemma SwitchSettles(t: string)
    requires Closed(RewriteToken(t)) && RewriteAgain(t) == RewriteToken(t)
    requires forall x :: x in Tokens(RewriteToken(t)) ==> !IsUnhandled(x)
    ensures SettlesTo(t, true)
  {
    hide RewriteToken, RewriteAgain;
  }

  lemma ColorIsNoLibrary()
    ensures !IsSystemLibrary(COLOR)
  {
    assert COLOR[1] == '-';
  }

  lemma DoubledIsNoDrivePath(t: string)
    requires IsDoubledLibrary(t)
    ensures !IsDrivePath(t)
  {
    hide IsLibSuffix;
    assert In(LibraryName, t[3]);
  }

  /** A quote-free text that translates, translates to a text the translation leaves alone if and
      only if no library name in it ends in a doubled .lib. */
  lemma Idempotence(s: string)
    requires QuoteFree(s) && TranslateLinkResponse(s).Ok?
    ensures var r := TranslateLinkResponse(s).value;
      TranslateLinkResponse(r) == Ok(r) <==> !exists t :: t in Tokens(s) && IsDoubledLibrary(t)
  {
    hide IsSpace, Sub, MapTokens, RewriteToken, IsUnhandled, IsDoubledLibrary, Tokens, TranslateLinkResponse;
    QuoteFreeRefinement(s);
    var r := MapTokens(RewriteToken, s);
    TokensAreTokens(s);
    forall t | t in Tokens(s)
      ensures Closed(RewriteToken(t)) && forall x :: x in Tokens(RewriteToken(t)) ==> !IsUnhandled(x)
      ensures if IsDoubledLibrary(t) then |RewriteAgain(t)| < |RewriteToken(t)| else RewriteAgain(t) == RewriteToken(t)
    {
      TokenRewriteAgain(t);
      assert SettlesTo(t, !(IsDoubledLibrary(t) && !IsDrivePath(t)));
      if IsDoubledLibrary(t) {
        DoubledIsNoDrivePath(t);
      }
    }
    TokensOfMap(RewriteToken, s);
    assert !HasUnhandled(r);
    forall t | QuoteFree(t) ensures QuoteFree(RewriteToken(t)) {
      RewriteQuoteFree(t);
    }
    MapTokensQuoteFree(RewriteToken, s);
    QuoteFreeRefinement(r);
    MapTokensCompose(RewriteToken, RewriteToken, RewriteAgain, s);
    MapTokensLength(RewriteToken, RewriteAgain, s);
    if !exists t :: t in Tokens(s) && IsDoubledLibrary(t) {
      MapTokensCongruent(RewriteToken, RewriteAgain, s);
    }
  }

  lemma SpaceStep(s: string)
    requires IsSpace(' ')
    ensures MapTokens(RewriteToken, " " + s) == " " + MapTokens(RewriteToken, s)
    ensures Tokens(" " + s) == Tokens(s)
  {
    hide IsSpace;
    assert (" " + s)[1..] == s;
  }
}
