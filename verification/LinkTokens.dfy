/**
  Texts as white space and tokens, and the substitutions as functions on single tokens.
 */
module LinkTokens {
  import opened Wrappers
  import opened LinkResponse

  /** A non-empty stretch without white space. */
  ghost predicate IsToken(t: string) {
    t != "" && forall i :: 0 <= i < |t| ==> !IsSpace(t[i])
  }

  /** Nothing more, or white space next: a place where a token ends. */
  ghost predicate Breaks(s: string) {
    s == "" || IsSpace(s[0])
  }

  /** Apply `f` to every token and keep all white space as it is. */
  function MapTokens(f: string -> string, s: string): string
    decreases |s|
  {
    if s == "" then ""
    else if IsSpace(s[0]) then [s[0]] + MapTokens(f, s[1..])
    else
      var n := RunLength(Token, s);
      f(s[..n]) + MapTokens(f, s[n..])
  }

  function Tokens(s: string): seq<string>
    decreases |s|
  {
    if s == "" then []
    else if IsSpace(s[0]) then Tokens(s[1..])
    else
      var n := RunLength(Token, s);
      [s[..n]] + Tokens(s[n..])
  }

  // ----- the greedy matches against the patterns they stand for -----

  /** The pattern -lNAME.lib before white space or the end, with a NAME of `n` characters. */
  ghost predicate SystemPattern(s: string, n: nat) {
    && ("-l" <= s || "-L" <= s) && n >= 1 && n + 6 <= |s|
    && (forall i :: 2 <= i < n + 2 ==> In(LibraryName, s[i]))
    && IsLibSuffix(s[n + 2..n + 6])
    && SpaceOrEnd(s, n + 6)
  }

  /** The pass finds a match exactly when the pattern has one, and that one is the only one. */
  lemma SystemMatchIsPattern(s: string)
    ensures MatchAt(SystemLibrary, s).Some? <==> exists n: nat :: SystemPattern(s, n)
    ensures forall n: nat :: SystemPattern(s, n) ==> MatchAt(SystemLibrary, s) == Some(Match(n + 6, "-l" + s[2..n + 2]))
  {
    if MatchAt(SystemLibrary, s).Some? {
      var n := RunLength(LibraryName, s[2..]) - 4;
      assert forall i :: 2 <= i < n + 2 ==> s[2..][i - 2] == s[i];
      assert SystemPattern(s, n);
    }
    forall n: nat | SystemPattern(s, n) ensures MatchAt(SystemLibrary, s) == Some(Match(n + 6, "-l" + s[2..n + 2])) {
      SystemRun(s, n);
    }
  }

  lemma SystemRun(s: string, n: nat)
    requires SystemPattern(s, n)
    ensures RunLength(LibraryName, s[2..]) == n + 4
  {
    var m := RunLength(LibraryName, s[2..]);
    var u := s[2..];
    SuffixIsName(s[n + 2..n + 6]);
    assert forall i :: n + 2 <= i < n + 6 ==> s[i] == s[n + 2..n + 6][i - n - 2];
    assert forall i :: 0 <= i < n + 4 ==> u[i] == s[i + 2] && In(LibraryName, u[i]);
    assert m < |u| ==> !In(LibraryName, u[m]);
    if m > n + 4 {
      assert u[n + 4] == s[n + 6];
      NameIsNoSpace(s[n + 6]);
    }
  }

  lemma SuffixIsName(s: string)
    requires IsLibSuffix(s)
    ensures forall i :: 0 <= i < 4 ==> In(LibraryName, s[i])
  {
  }

  lemma NameIsNoSpace(c: char)
    ensures In(LibraryName, c) ==> !IsSpace(c)
  {
  }

  /** A quoted drive path: `n` characters without a quote after the slash, then the closing quote. */
  ghost predicate QuotedPattern(s: string, i: nat, n: nat) {
    && DriveAt(s, i) && n >= 1 && i + 3 + n < |s| && s[i + 3 + n] == '"'
    && forall k :: i + 3 <= k < i + 3 + n ==> s[k] != '"'
  }

  lemma QuotedMatchIsPattern(s: string, i: nat)
    requires i >= 1 && DriveAt(s, i)
    ensures QuotedMatch(s, i).Some? <==> exists n: nat :: QuotedPattern(s, i, n)
    ensures forall n: nat :: QuotedPattern(s, i, n) ==>
      QuotedMatch(s, i) == Some(Match(i + 4 + n, "\"" + Slashes(s[i..i + 3 + n]) + "\""))
  {
    var u := s[i + 3..];
    var m := RunLength(Unquoted, u);
    assert forall k :: i + 3 <= k < |s| ==> s[k] == u[k - i - 3];
    if QuotedMatch(s, i).Some? {
      assert QuotedPattern(s, i, m);
    }
    forall n: nat | QuotedPattern(s, i, n) ensures m == n {
      assert u[n] == '"';
      assert forall k :: 0 <= k < n ==> u[k] != '"';
    }
  }

  // ----- runs and tokens -----

  lemma NoRunAtBreak(k: CharClass, r: string)
    requires Breaks(r) && k != Unquoted
    ensures RunLength(k, r) == 0
  {
    if r != "" {
      NameIsNoSpace(r[0]);
    }
  }

  lemma {:induction false} RunInToken(k: CharClass, t: string, r: string)
    requires (t == "" || IsToken(t)) && Breaks(r) && k != Unquoted
    ensures RunLength(k, t + r) == RunLength(k, t)
    decreases |t|
  {
    hide IsSpace, In;
    if t == "" {
      NoRunAtBreak(k, r);
      assert t + r == r;
    } else {
      assert (t + r)[1..] == t[1..] + r && (t + r)[0] == t[0];
      RunInToken(k, t[1..], r);
    }
  }

  lemma TokenRun(t: string, r: string)
    requires IsToken(t) && Breaks(r)
    ensures RunLength(Token, t + r) == |t| && (t + r)[..|t|] == t && (t + r)[|t|..] == r
  {
    hide IsSpace;
    RunInToken(Token, t, r);
    var n := RunLength(Token, t);
    assert n == |t|;
  }

  /** The first token of a text and what follows it. */
  lemma FirstToken(s: string)
    requires s != "" && !IsSpace(s[0])
    ensures var n := RunLength(Token, s);
      0 < n && IsToken(s[..n]) && Breaks(s[n..]) && s == s[..n] + s[n..]
  {
    hide IsSpace;
  }

  // ----- mapping tokens -----

  lemma MapTokensStep(f: string -> string, t: string, r: string)
    requires IsToken(t) && Breaks(r)
    ensures MapTokens(f, t + r) == f(t) + MapTokens(f, r)
  {
    hide IsSpace, RunLength;
    TokenRun(t, r);
  }

  lemma Associative(a: string, b: string, c: string)
    ensures (a + b) + c == a + (b + c)
  {
  }

  lemma MapTokensSpace(f: string -> string, c: char, s: string)
    requires IsSpace(c)
    ensures MapTokens(f, [c] + s) == [c] + MapTokens(f, s)
    ensures MapTokens(f, "") == ""
  {
    hide IsSpace;
    assert ([c] + s)[1..] == s;
  }

  lemma SpaceBefore(f: string -> string, c: char, v: string, r: string)
    requires IsSpace(c) && MapTokens(f, v + r) == MapTokens(f, v) + MapTokens(f, r)
    ensures MapTokens(f, [c] + v + r) == MapTokens(f, [c] + v) + MapTokens(f, r)
  {
    hide IsSpace, MapTokens;
    MapTokensSpace(f, c, v);
    MapTokensSpace(f, c, v + r);
    Associative([c], v, r);
    Associative([c], MapTokens(f, v), MapTokens(f, r));
  }

  lemma TokenBefore(f: string -> string, t: string, v: string, r: string)
    requires IsToken(t) && Breaks(v) && Breaks(v + r)
    requires MapTokens(f, v + r) == MapTokens(f, v) + MapTokens(f, r)
    ensures MapTokens(f, t + v + r) == MapTokens(f, t + v) + MapTokens(f, r)
  {
    hide IsSpace, MapTokens;
    MapTokensStep(f, t, v);
    MapTokensStep(f, t, v + r);
    Associative(t, v, r);
    Associative(f(t), MapTokens(f, v), MapTokens(f, r));
  }

  /** No token runs from `u` into `r`. */
  ghost predicate Separate(u: string, r: string) {
    u == "" || IsSpace(u[|u| - 1]) || Breaks(r)
  }

  lemma {:induction false} MapTokensAppend(f: string -> string, u: string, r: string)
    requires Separate(u, r)
    ensures MapTokens(f, u + r) == MapTokens(f, u) + MapTokens(f, r)
    decreases |u|
  {
    if u == "" {
      assert u + r == r;
    } else {
      hide IsSpace, RunLength, MapTokens;
      if IsSpace(u[0]) {
        MapTokensAppend(f, u[1..], r);
        SpaceBefore(f, u[0], u[1..], r);
        assert u == [u[0]] + u[1..];
      } else {
        FirstToken(u);
        var n := RunLength(Token, u);
        MapTokensAppend(f, u[n..], r);
        TokenBefore(f, u[..n], u[n..], r);
      }
    }
  }

  lemma MapOneToken(f: string -> string, t: string)
    requires IsToken(t)
    ensures MapTokens(f, t) == f(t) && Tokens(t) == [t]
  {
    hide IsSpace;
    TokenRun(t, "");
    assert t + "" == t;
  }

  /** A text that can stand in place of a token without touching its neighbours. */
  ghost predicate Closed(u: string) {
    u != "" && !IsSpace(u[0]) && !IsSpace(u[|u| - 1])
  }

  lemma {:induction false} MapTokensBreaks(f: string -> string, s: string)
    requires Breaks(s)
    ensures Breaks(MapTokens(f, s))
  {
  }

  /** Mapping twice is mapping once with the composed function. */
  lemma {:induction false} MapTokensCompose(f: string -> string, g: string -> string, h: string -> string, s: string)
    requires forall t :: t in Tokens(s) ==> Closed(f(t)) && h(t) == MapTokens(g, f(t))
    ensures MapTokens(g, MapTokens(f, s)) == MapTokens(h, s)
    decreases |s|
  {
    hide IsSpace;
    if s != "" {
      if IsSpace(s[0]) {
        MapTokensCompose(f, g, h, s[1..]);
        var r := MapTokens(f, s[1..]);
        assert ([s[0]] + r)[1..] == r;
      } else {
        var n := RunLength(Token, s);
        FirstToken(s);
        var t, r := s[..n], s[n..];
        assert Tokens(s) == [t] + Tokens(r);
        assert t in Tokens(s);
        assert forall x :: x in Tokens(r) ==> x in Tokens(s);
        MapTokensCompose(f, g, h, r);
        MapTokensBreaks(f, r);
        MapTokensAppend(g, f(t), MapTokens(f, r));
      }
    }
  }

  lemma TokensStep(t: string, r: string)
    requires IsToken(t) && Breaks(r)
    ensures Tokens(t + r) == [t] + Tokens(r)
  {
    hide IsSpace, RunLength;
    TokenRun(t, r);
  }

  lemma {:induction false} TokensAppend(u: string, r: string)
    requires Separate(u, r)
    ensures Tokens(u + r) == Tokens(u) + Tokens(r)
    decreases |u|
  {
    hide IsSpace, RunLength;
    if u == "" {
      assert u + r == r;
    } else if IsSpace(u[0]) {
      assert (u + r)[1..] == u[1..] + r;
      TokensAppend(u[1..], r);
    } else {
      hide Tokens;
      FirstToken(u);
      var n := RunLength(Token, u);
      var t, v := u[..n], u[n..];
      TokensAppend(v, r);
      TokensStep(t, v);
      TokensStep(t, v + r);
      assert u + r == t + (v + r);
    }
  }

  /** The tokens of a mapped text are those of the mapped tokens. */
  lemma {:induction false} TokensOfMap(f: string -> string, s: string)
    requires forall t :: t in Tokens(s) ==> Closed(f(t))
    ensures forall x :: x in Tokens(MapTokens(f, s)) <==> exists t :: t in Tokens(s) && x in Tokens(f(t))
    decreases |s|
  {
    hide IsSpace;
    if s != "" {
      if IsSpace(s[0]) {
        TokensOfMap(f, s[1..]);
        assert MapTokens(f, s)[1..] == MapTokens(f, s[1..]);
      } else {
        var n := RunLength(Token, s);
        FirstToken(s);
        var t, r := s[..n], s[n..];
        assert forall x :: x in Tokens(s) <==> x == t || x in Tokens(r);
        TokensOfMap(f, r);
        MapTokensBreaks(f, r);
        TokensAppend(f(t), MapTokens(f, r));
        assert forall x :: x in Tokens(MapTokens(f, s)) <==> x in Tokens(f(t)) || x in Tokens(MapTokens(f, r));
      }
    }
  }

  /** A text cannot stay the same length when some token shrinks and none grows. */
  lemma {:induction false} MapTokensLength(f: string -> string, g: string -> string, s: string)
    requires forall t :: t in Tokens(s) ==> g(t) == f(t) || |g(t)| < |f(t)|
    ensures |MapTokens(g, s)| <= |MapTokens(f, s)|
    ensures (exists t :: t in Tokens(s) && g(t) != f(t)) ==> |MapTokens(g, s)| < |MapTokens(f, s)|
    decreases |s|
  {
    hide IsSpace;
    if s != "" {
      if IsSpace(s[0]) {
        MapTokensLength(f, g, s[1..]);
      } else {
        var n := RunLength(Token, s);
        var t, r := s[..n], s[n..];
        assert forall x :: x in Tokens(s) <==> x == t || x in Tokens(r);
        MapTokensLength(f, g, r);
      }
    }
  }

  lemma {:induction false} MapTokensCongruent(f: string -> string, g: string -> string, s: string)
    requires forall t :: t in Tokens(s) ==> f(t) == g(t)
    ensures MapTokens(f, s) == MapTokens(g, s)
    decreases |s|
  {
    hide IsSpace;
    if s != "" {
      if IsSpace(s[0]) {
        MapTokensCongruent(f, g, s[1..]);
      } else {
        var n := RunLength(Token, s);
        assert s[..n] in Tokens(s);
        assert forall x :: x in Tokens(s[n..]) ==> x in Tokens(s);
        MapTokensCongruent(f, g, s[n..]);
      }
    }
  }

  lemma {:induction false} TokensAreTokens(s: string)
    ensures forall t :: t in Tokens(s) ==> IsToken(t)
    decreases |s|
  {
    hide IsSpace;
    if s != "" {
      if IsSpace(s[0]) {
        TokensAreTokens(s[1..]);
      } else {
        FirstToken(s);
        TokensAreTokens(s[RunLength(Token, s)..]);
      }
    }
  }

  /** Inside a token, away from its start, a check finds nothing. */
  lemma {:induction false} SearchInside(k: Check, u: string, r: string)
    requires u == "" || IsToken(u)
    ensures Search(k, u + r, false) == Search(k, r, false)
    decreases |u|
  {
    hide IsSpace, FoundAt;
    if u == "" {
      assert u + r == r;
    } else {
      assert (u + r)[1..] == u[1..] + r;
      SearchInside(k, u[1..], r);
    }
  }

  // ----- substitutions, token by token -----

  /** The passes that look at no quote; their matches stay inside one token. */
  predicate IsLocal(p: Pass) {
    p != QuotedArgument && p != QuotedPath
  }

  lemma PrefixInToken(w: string, t: string, r: string)
    requires IsToken(w) && IsToken(t) && Breaks(r)
    ensures w <= t + r <==> w <= t
  {
    hide IsSpace;
    assert r != "" ==> (t + r)[|t|] == r[0];
    assert w <= t + r ==> forall i :: 0 <= i < |w| ==> !IsSpace((t + r)[i]);
  }

  lemma SyntaxIsNotSpace()
    ensures IsToken("-l") && IsToken("-L")
    ensures forall c :: IsLetter(c) || IsSlash(c) || c == ':' || c == '"' ==> !IsSpace(c)
  {
  }

  lemma ColorIsToken()
    ensures IsToken(COLOR)
  {
  }

  lemma ColorIsLocal(t: string, r: string)
    requires IsToken(t) && Breaks(r)
    ensures MatchAt(ColorDiagnostics, t + r) == MatchAt(ColorDiagnostics, t)
  {
    ColorIsToken();
    hide IsSpace;
    PrefixInToken(COLOR, t, r);
  }

  lemma DriveIsLocal(t: string, r: string)
    requires IsToken(t) && Breaks(r)
    ensures MatchAt(DriveLibrary, t + r) == MatchAt(DriveLibrary, t)
  {
    SyntaxIsNotSpace();
    hide IsSpace, RunLength;
    var s := t + r;
    PrefixInToken("-l", t, r);
    assert "-l" <= t ==> (DriveAt(s, 2) <==> DriveAt(t, 2));
    if "-l" <= t && DriveAt(t, 2) {
      assert s[5..] == t[5..] + r;
      RunInToken(Bare, t[5..], r);
      var n := RunLength(Bare, t[5..]);
      assert s[2..5 + n] == t[2..5 + n];
    }
  }

  lemma SystemIsLocal(t: string, r: string)
    requires IsToken(t) && Breaks(r)
    ensures MatchAt(SystemLibrary, t + r) == MatchAt(SystemLibrary, t)
  {
    SyntaxIsNotSpace();
    hide IsSpace, RunLength, IsLibSuffix;
    var s := t + r;
    PrefixInToken("-l", t, r);
    PrefixInToken("-L", t, r);
    if "-l" <= t || "-L" <= t {
      assert s[2..] == t[2..] + r;
      RunInToken(LibraryName, t[2..], r);
      var n := RunLength(LibraryName, t[2..]);
      assert SpaceOrEnd(s, n + 2) <==> SpaceOrEnd(t, n + 2);
      if n >= 5 {
        assert s[n - 2..n + 2] == t[n - 2..n + 2] && s[2..n - 2] == t[2..n - 2];
      }
    }
  }

  lemma MatchIsLocal(p: Pass, t: string, r: string)
    requires IsLocal(p) && IsToken(t) && Breaks(r)
    ensures MatchAt(p, t + r) == MatchAt(p, t)
  {
    SyntaxIsNotSpace();
    hide IsSpace, RunLength;
    match p
    case ColorDiagnostics => ColorIsLocal(t, r);
    case DriveLibrary => DriveIsLocal(t, r);
    case SystemLibrary => SystemIsLocal(t, r);
    case LinkerSwitch =>
  }

  /** Inside a token, away from its start, nothing is replaced. */
  lemma {:induction false} SubInside(p: Pass, u: string, r: string)
    requires u == "" || IsToken(u)
    ensures Sub(p, u + r, false) == u + Sub(p, r, false)
    decreases |u|
  {
    hide IsSpace, MatchAt;
    if u == "" {
      assert u + r == r;
    } else {
      assert (u + r)[1..] == u[1..] + r;
      SubInside(p, u[1..], r);
    }
  }

  /** White space is never the start of a match. */
  lemma SubAtBreak(p: Pass, r: string, start: bool)
    requires Breaks(r)
    ensures Sub(p, r, start) == Sub(p, r, true)
    ensures r != "" ==> Sub(p, r, true) == [r[0]] + Sub(p, r[1..], true)
    ensures Breaks(Sub(p, r, true))
  {
    hide IsSpace, MatchAt;
  }

  lemma SubUnfold(p: Pass, s: string)
    requires s != ""
    ensures Sub(p, s, true) ==
      match MatchAt(p, s)
      case None => [s[0]] + Sub(p, s[1..], IsSpace(s[0]))
      case Some(m) => m.replacement + Sub(p, s[m.length..], IsSpace(s[m.length - 1]))
  {
    hide MatchAt, IsSpace;
  }

  lemma SubCopiesToken(p: Pass, t: string, r: string)
    requires IsToken(t) && Breaks(r) && MatchAt(p, t + r).None?
    ensures Sub(p, t + r, true) == t + Sub(p, r, true)
  {
    hide MatchAt, IsSpace, Sub;
    var s, rest := t + r, Sub(p, r, true);
    SubUnfold(p, s);
    SubAtBreak(p, r, false);
    assert s[0] == t[0] && s[1..] == t[1..] + r;
    SubInside(p, t[1..], r);
    assert [t[0]] + (t[1..] + rest) == t + rest;
  }

  lemma SubReplacesFront(p: Pass, t: string, r: string)
    requires IsToken(t) && Breaks(r) && MatchAt(p, t + r).Some? && MatchAt(p, t + r).value.length <= |t|
    ensures var m := MatchAt(p, t + r).value;
      Sub(p, t + r, true) == m.replacement + t[m.length..] + Sub(p, r, true)
  {
    hide MatchAt, IsSpace, Sub;
    var s, rest, m := t + r, Sub(p, r, true), MatchAt(p, t + r).value;
    SubUnfold(p, s);
    SubAtBreak(p, r, false);
    assert s[m.length..] == t[m.length..] + r;
    assert s[m.length - 1] == t[m.length - 1];
    SubInside(p, t[m.length..], r);
    assert m.replacement + (t[m.length..] + rest) == m.replacement + t[m.length..] + rest;
  }

  /** A pass at the start of a token: at most one replacement, then the rest of the token as it is. */
  lemma SubFromToken(p: Pass, t: string, r: string)
    requires IsLocal(p) && IsToken(t) && Breaks(r)
    ensures Sub(p, t + r, true) == TokenResult(p, t) + Sub(p, r, true)
  {
    hide MatchAt, IsSpace, Sub;
    MatchIsLocal(p, t, r);
    if MatchAt(p, t).None? {
      SubCopiesToken(p, t, r);
    } else {
      SubReplacesFront(p, t, r);
    }
  }

  function TokenResult(p: Pass, t: string): string {
    match MatchAt(p, t)
    case None => t
    case Some(m) => m.replacement + t[m.length..]
  }

  lemma SubToken(p: Pass, t: string)
    requires IsLocal(p) && IsToken(t)
    ensures Sub(p, t, true) == TokenResult(p, t)
  {
    hide MatchAt, IsSpace, TokenResult;
    SubFromToken(p, t, "");
    assert t + "" == t;
  }

  function ApplyPass(p: Pass): string -> string {
    t => Sub(p, t, true)
  }

  /** A local pass over a whole text is that pass on each token. */
  lemma {:induction false} SubIsTokenwise(p: Pass, s: string)
    requires IsLocal(p)
    ensures Sub(p, s, true) == MapTokens(ApplyPass(p), s)
    decreases |s|
  {
    hide IsSpace, MatchAt;
    if s != "" {
      if IsSpace(s[0]) {
        SubAtBreak(p, s, true);
        SubIsTokenwise(p, s[1..]);
      } else {
        var n := RunLength(Token, s);
        FirstToken(s);
        SubFromToken(p, s[..n], s[n..]);
        SubToken(p, s[..n]);
        SubIsTokenwise(p, s[n..]);
      }
    }
  }
}
