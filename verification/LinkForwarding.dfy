/**
  The last pass, on arbitrary texts: no raw switch survives it, and it can be undone.
 */
module LinkForwarding {
  import opened Wrappers
  import opened LinkResponse
  import opened LinkTokens
  import opened Text

  // ----- the check after the translation -----

  /** The inserted text holds no raw switch and ends inside a token. */
  lemma SearchForward(r: string)
    ensures Search(RawSwitch, FORWARD + r, true) == Search(RawSwitch, r, false)
  {
    var first, second := ForwardParts();
    var s := FORWARD + r;
    assert s == first + (" " + (second + r));
    hide IsSpace;
    SearchFromToken(first, " " + (second + r));
    assert (" " + (second + r))[1..] == second + r;
    SearchFromToken(second, r);
  }

  lemma ForwardParts() returns (first: string, second: string)
    ensures IsToken(first) && IsToken(second) && IsSpace(' ')
    ensures FORWARD == first + (" " + second)
    ensures first[0] == '-' && second[0] == '-'
    ensures |first| == 8 && |second| == 8 && first[6] == 'e' && second[6] == '='
  {
    first, second := "-Xlinker", "-Xlink=/";
  }

  lemma SearchFromToken(t: string, r: string)
    requires IsToken(t) && t[0] == '-'
    ensures Search(RawSwitch, t + r, true) == Search(RawSwitch, r, false)
  {
    hide IsSpace;
    assert (t + r)[1..] == t[1..] + r;
    SearchInside(RawSwitch, t[1..], r);
  }

  lemma {:induction false} NoSwitchSurvives(s: string, start: bool)
    ensures !Search(RawSwitch, Sub(LinkerSwitch, s, start), start)
    decreases |s|
  {
    hide IsSpace;
    if s != "" {
      if start && MatchAt(LinkerSwitch, s).Some? {
        NoSwitchSurvives(s[1..], IsSpace(s[0]));
        SlashIsNoSpace();
        SearchForward(Sub(LinkerSwitch, s[1..], false));
      } else {
        var r := Sub(LinkerSwitch, s[1..], IsSpace(s[0]));
        NoSwitchSurvives(s[1..], IsSpace(s[0]));
        assert ([s[0]] + r)[1..] == r;
        SlashIsNoSpace();
      }
    }
  }

  lemma SlashIsNoSpace()
    ensures !IsSpace('/')
  {
  }

  /** Whatever text the translation returns, quoted or not, the check that follows finds nothing. */
  lemma PostCheckNeverFires(content: string)
    ensures RunLinkResponse(content) == TranslateLinkResponse(content)
    ensures RunLinkResponse(content) != Err(RawSwitchRemains)
  {
    hide IsSpace, Sub, Search, Unquote;
    if TranslateLinkResponse(content).Ok? {
      var drives := Sub(DriveLibrary, Unquote(Sub(ColorDiagnostics, content, true)), true);
      NoSwitchSurvives(Sub(SystemLibrary, drives, true), true);
    }
  }

  // ----- undoing the last pass -----

  /** Replace every occurrence of the inserted text by a slash, from left to right. */
  function Unforward(s: string): string
    decreases |s|
  {
    if s == "" then ""
    else if FORWARD <= s then "/" + Unforward(s[|FORWARD|..])
    else [s[0]] + Unforward(s[1..])
  }

  lemma CopiesToken(t: string, r: string, start: bool)
    requires IsToken(t) && t[0] == '-'
    ensures Sub(LinkerSwitch, t + r, start) == t + Sub(LinkerSwitch, r, false)
  {
    var s, rest := t + r, Sub(LinkerSwitch, r, false);
    assert s[0] == '-' && MatchAt(LinkerSwitch, s).None?;
    hide IsSpace, MatchAt;
    assert s[1..] == t[1..] + r;
    SubInside(LinkerSwitch, t[1..], r);
    assert Sub(LinkerSwitch, s, start) == [s[0]] + Sub(LinkerSwitch, s[1..], false);
    assert [t[0]] + (t[1..] + rest) == t + rest;
  }

  /** Inserted text that was there before is copied. */
  lemma CopiesForward(r: string, start: bool)
    ensures Sub(LinkerSwitch, FORWARD + r, start) == FORWARD + Sub(LinkerSwitch, r, false)
  {
    var first, second := ForwardParts();
    hide IsSpace, Sub;
    var tail := " " + (second + r);
    assert FORWARD + r == first + tail;
    CopiesToken(first, tail, start);
    CopiesSpace(second + r);
    CopiesToken(second, r, true);
    assert first + (" " + (second + Sub(LinkerSwitch, r, false))) == FORWARD + Sub(LinkerSwitch, r, false);
  }

  lemma CopiesSpace(r: string)
    ensures Sub(LinkerSwitch, " " + r, false) == " " + Sub(LinkerSwitch, r, true)
  {
    assert (" " + r)[1..] == r;
  }

  /** A text whose output starts with `t` starts with `t`, unless a switch is forwarded there. */
  lemma TokenWasThere(s: string, t: string, start: bool)
    requires IsToken(t) && t <= Sub(LinkerSwitch, s, start)
    requires !(start && MatchAt(LinkerSwitch, s).Some?)
    ensures t <= s
    ensures Sub(LinkerSwitch, s, start)[|t|..] == Sub(LinkerSwitch, s[|t|..], false)
  {
    hide IsSpace, MatchAt;
    var out := Sub(LinkerSwitch, s, start);
    assert s != "" && out == [s[0]] + Sub(LinkerSwitch, s[1..], IsSpace(s[0]));
    assert t[0] == s[0];
    TokenWasThereInside(s[1..], t[1..]);
    assert s == [s[0]] + s[1..] && t == [t[0]] + t[1..];
    assert s[|t|..] == s[1..][|t| - 1..];
  }

  lemma {:induction false} TokenWasThereInside(s: string, t: string)
    requires (t == "" || IsToken(t)) && t <= Sub(LinkerSwitch, s, false)
    ensures t <= s
    ensures Sub(LinkerSwitch, s, false)[|t|..] == Sub(LinkerSwitch, s[|t|..], false)
    decreases |t|
  {
    hide IsSpace, MatchAt;
    if t != "" {
      var out := Sub(LinkerSwitch, s, false);
      assert s != "" && out == [s[0]] + Sub(LinkerSwitch, s[1..], IsSpace(s[0]));
      assert t[0] == out[0] == s[0];
      assert t[1..] <= out[1..];
      TokenWasThereInside(s[1..], t[1..]);
      assert s[|t|..] == s[1..][|t| - 1..];
    }
  }

  /** Inserted text cannot begin inside copied text: if the output starts with it, so did the input. */
  lemma ForwardWasThere(s: string, start: bool)
    requires !(start && MatchAt(LinkerSwitch, s).Some?)
    requires FORWARD <= Sub(LinkerSwitch, s, start)
    ensures FORWARD <= s
  {
    var first, second := ForwardParts();
    hide IsSpace, MatchAt, Sub;
    var out := Sub(LinkerSwitch, s, start);
    PrefixSplits(first, second, out);
    TokenWasThere(s, first, start);
    var s2 := s[|first|..];
    var out2 := Sub(LinkerSwitch, s2, false);
    SpaceWasThere(s2);
    SecondPartIsNotAll(second, out2[1..]);
    ForwardStarts(s2[1..]);
    TokenWasThere(s2[1..], second, true);
    assert s == first + (" " + s2[1..]);
    assert s2[1..] == second + s2[1..][|second|..];
    assert s == FORWARD + s2[1..][|second|..];
  }

  lemma SecondPartIsNotAll(second: string, out: string)
    requires |second| == 8 && second[6] == '=' && second <= out
    ensures !(FORWARD <= out)
  {
    assert FORWARD[6] == 'e' && out[6] == second[6];
  }

  lemma PrefixSplits(first: string, second: string, out: string)
    requires FORWARD == first + (" " + second) && FORWARD <= out
    ensures first <= out
    ensures |out| > |first| && out[|first|..][0] == ' ' && second <= out[|first|..][1..]
  {
    var rest := out[|FORWARD|..];
    assert out == first + ((" " + second) + rest);
    assert out[|first|..] == (" " + second) + rest;
    assert out[|first|..][1..] == second + rest;
  }

  lemma SpaceWasThere(s: string)
    requires Sub(LinkerSwitch, s, false) != "" && Sub(LinkerSwitch, s, false)[0] == ' '
    ensures s != "" && s[0] == ' '
    ensures Sub(LinkerSwitch, s, false)[1..] == Sub(LinkerSwitch, s[1..], true)
    ensures s == " " + s[1..]
  {
  }

  lemma ForwardStarts(s: string)
    ensures MatchAt(LinkerSwitch, s).Some? ==> FORWARD <= Sub(LinkerSwitch, s, true)
  {
  }

  /** Undoing the last pass gives what undoing gives on the text before it. */
  lemma {:induction false} UnforwardSub(s: string, start: bool)
    ensures Unforward(Sub(LinkerSwitch, s, start)) == Unforward(s)
    decreases |s|
  {
    hide IsSpace;
    if s != "" {
      var out := Sub(LinkerSwitch, s, start);
      if start && MatchAt(LinkerSwitch, s).Some? {
        UnforwardMatch(s);
        SlashIsNoSpace();
        UnforwardSub(s[1..], false);
      } else if FORWARD <= s {
        var r := s[|FORWARD|..];
        assert s == FORWARD + r;
        CopiesForward(r, start);
        UnforwardSub(r, false);
        UnforwardFront(Sub(LinkerSwitch, r, false));
      } else {
        if FORWARD <= out {
          ForwardWasThere(s, start);
        }
        UnforwardSub(s[1..], IsSpace(s[0]));
        var r := Sub(LinkerSwitch, s[1..], IsSpace(s[0]));
        assert out == [s[0]] + r && out[1..] == r;
      }
    }
  }

  lemma UnforwardFront(r: string)
    ensures Unforward(FORWARD + r) == "/" + Unforward(r)
  {
    assert (FORWARD + r)[|FORWARD|..] == r;
  }

  lemma UnforwardMatch(s: string)
    requires MatchAt(LinkerSwitch, s).Some?
    ensures s[0] == '/'
    ensures Unforward(s) == "/" + Unforward(s[1..])
    ensures Unforward(Sub(LinkerSwitch, s, true)) == "/" + Unforward(Sub(LinkerSwitch, s[1..], false))
  {
    assert FORWARD[0] == '-';
    SlashIsNoSpace();
    UnforwardFront(Sub(LinkerSwitch, s[1..], false));
  }

  lemma {:induction false} UnforwardFixed(s: string)
    ensures Contains(s, FORWARD) ==> |Unforward(s)| < |s|
    ensures !Contains(s, FORWARD) ==> Unforward(s) == s
    ensures |Unforward(s)| <= |s|
    decreases |s|
  {
    hide FindFrom;
    if s == "" {
      assert |FORWARD| > 0;
    } else if FORWARD <= s {
      assert Occurs(s, FORWARD, 0);
      UnforwardFixed(s[|FORWARD|..]);
    } else {
      UnforwardFixed(s[1..]);
      ContainsTail(s, FORWARD);
    }
  }

  lemma ContainsTail(s: string, w: string)
    requires s != "" && !(w <= s)
    ensures Contains(s, w) <==> Contains(s[1..], w)
  {
    hide FindFrom;
    if Contains(s, w) {
      var i := Find(s, w).value;
      assert i > 0;
      OccursInTail(s, w, 1, i - 1);
    }
    if Contains(s[1..], w) {
      OccursInTail(s, w, 1, Find(s[1..], w).value);
    }
  }

  /** Forwarding loses nothing, comma values included: putting the slashes back gives the text before
      the pass exactly, if and only if that text did not already hold the inserted text. */
  lemma ForwardingIsReversible(s: string)
    ensures Unforward(Sub(LinkerSwitch, s, true)) == s <==> !Contains(s, FORWARD)
  {
    UnforwardSub(s, true);
    UnforwardFixed(s);
  }
}
