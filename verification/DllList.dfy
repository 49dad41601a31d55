/** The ordered DLL list given to the loader probe through the environment. */
module DllList {
  import opened Wrappers

  const SEPARATOR := ';'
  const BUFFER_SIZE := 4096
  const MAX_LIBRARIES := 64

  predicate IsBlank(c: char) {
    c == ' ' || c == '\t' || c == '\r' || c == '\n'
  }

  predicate AllBlank(s: string) {
    forall i :: 0 <= i < |s| ==> IsBlank(s[i])
  }

  /** The pieces between separators; a text without one is a single piece. */
  function Split(s: string): (pieces: seq<string>)
    ensures |pieces| > 0
  {
    if s == "" then [""]
    else
      var rest := Split(s[1..]);
      if s[0] == SEPARATOR then [""] + rest else [[s[0]] + rest[0]] + rest[1..]
  }

  function Join(pieces: seq<string>): string
    requires |pieces| > 0
  {
    if |pieces| == 1 then pieces[0] else pieces[0] + [SEPARATOR] + Join(pieces[1..])
  }

  /** The position of the next separator. */
  function FindSeparator(s: string, from: nat): (r: Option<nat>)
    requires from <= |s|
    ensures r.Some? ==> from <= r.value < |s| && s[r.value] == SEPARATOR
    ensures forall k :: from <= k < (if r.Some? then r.value else |s|) ==> s[k] != SEPARATOR
    decreases |s| - from
  {
    if from == |s| then None
    else if s[from] == SEPARATOR then Some(from)
    else FindSeparator(s, from + 1)
  }

  function FirstNonBlank(s: string): (r: Option<nat>)
    ensures r.None? <==> AllBlank(s)
    ensures r.Some? ==> r.value < |s| && !IsBlank(s[r.value]) && forall k :: 0 <= k < r.value ==> IsBlank(s[k])
  {
    if s == "" then None
    else if !IsBlank(s[0]) then Some(0)
    else
      match FirstNonBlank(s[1..])
      case None => None
      case Some(i) => Some(i + 1)
  }

  function LastNonBlank(s: string): (r: Option<nat>)
    ensures r.None? <==> AllBlank(s)
    ensures r.Some? ==> r.value < |s| && !IsBlank(s[r.value]) && forall k :: r.value < k < |s| ==> IsBlank(s[k])
  {
    if s == "" then None
    else if !IsBlank(s[|s| - 1]) then Some(|s| - 1)
    else LastNonBlank(s[..|s| - 1])
  }

  function Trim(s: string): string {
    match (FirstNonBlank(s), LastNonBlank(s))
    case (Some(first), Some(last)) => s[first..last + 1]
    case _ => ""
  }

  /** Accepted lists have at most 64 pieces, none of them blank, and yield the trimmed pieces. */
  function Parse(s: string): Option<seq<string>> {
    var pieces := Split(s);
    if |pieces| <= MAX_LIBRARIES && forall p :: p in pieces ==> !AllBlank(p)
    then Some(seq(|pieces|, i requires 0 <= i < |pieces| => Trim(pieces[i])))
    else None
  }

  /** The list variable, or the older single-name variable when it is missing or empty; a value that
      does not fit the buffer is refused. */
  function Setting(dlls: Option<string>, dll: Option<string>): Option<string> {
    var value := if dlls.None? || dlls.value == "" then dll else dlls;
    if value.None? || value.value == "" || |value.value| >= BUFFER_SIZE then None else value
  }

  lemma {:induction false} SplitPiece(piece: string, rest: string)
    requires SEPARATOR !in piece
    ensures Split(piece) == [piece]
    ensures Split(piece + [SEPARATOR] + rest) == [piece] + Split(rest)
  {
    var s := piece + [SEPARATOR] + rest;
    if piece == "" {
      assert s[1..] == rest;
    } else {
      SplitPiece(piece[1..], rest);
      assert s[1..] == piece[1..] + [SEPARATOR] + rest;
      assert piece == [piece[0]] + piece[1..];
    }
  }

  lemma SplitAtSeparator(s: string, begin: nat)
    requires begin <= |s|
    ensures match FindSeparator(s, begin)
      case None => Split(s[begin..]) == [s[begin..]]
      case Some(separator) => Split(s[begin..]) == [s[begin..separator]] + Split(s[separator + 1..])
  {
    hide Split;
    match FindSeparator(s, begin)
    case None => SplitPiece(s[begin..], "");
    case Some(separator) =>
      assert s[begin..] == s[begin..separator] + [SEPARATOR] + s[separator + 1..];
      SplitPiece(s[begin..separator], s[separator + 1..]);
  }

  method ParseList(specification: string) returns (r: Option<seq<string>>)
    ensures r == Parse(specification)
  {
    hide Split, FirstNonBlank, LastNonBlank, FindSeparator;
    var libraries: seq<string> := [];
    var begin := 0;
    ghost var pieces := Split(specification);
    assert specification[0..] == specification;
    while true
      invariant begin <= |specification|
      invariant |libraries| <= MAX_LIBRARIES && |libraries| < |pieces|
      invariant pieces[|libraries|..] == Split(specification[begin..])
      invariant forall i :: 0 <= i < |libraries| ==> !AllBlank(pieces[i]) && libraries[i] == Trim(pieces[i])
      decreases |specification| - begin
    {
      var separator := FindSeparator(specification, begin);
      SplitAtSeparator(specification, begin);
      var item := if separator.None? then specification[begin..] else specification[begin..separator.value];
      assert item == pieces[|libraries|..][0] == pieces[|libraries|];
      var first, last := FirstNonBlank(item), LastNonBlank(item);
      if first.None? || |libraries| >= MAX_LIBRARIES {
        return None;
      }
      libraries := libraries + [item[first.value..last.value + 1]];
      if separator.None? {
        break;
      }
      assert pieces[|libraries|..] == pieces[|libraries| - 1..][1..];
      begin := separator.value + 1;
    }
    assert libraries == seq(|pieces|, i requires 0 <= i < |pieces| => Trim(pieces[i]));
    return Some(libraries);
  }

  ghost predicate IsPadding(s: string) {
    forall i :: 0 <= i < |s| ==> s[i] in {' ', '\t', '\r', '\n'}
  }

  /** A DLL name as it may be listed: no separator, not empty and no blank at either end. */
  ghost predicate Listable(name: string) {
    name != "" && ';' !in name && name[0] !in {' ', '\t', '\r', '\n'} && name[|name| - 1] !in {' ', '\t', '\r', '\n'}
  }

  lemma BlankMeans(c: char)
    ensures IsBlank(c) <==> c in {' ', '\t', '\r', '\n'}
  {
  }

  lemma PaddingIsBlank(s: string)
    ensures IsPadding(s) <==> AllBlank(s)
  {
    forall i | 0 <= i < |s| ensures IsBlank(s[i]) <==> s[i] in {' ', '\t', '\r', '\n'} {
      BlankMeans(s[i]);
    }
  }

  lemma TrimPadded(left: string, name: string, right: string)
    requires Listable(name) && IsPadding(left) && IsPadding(right)
    ensures Trim(left + name + right) == name && !AllBlank(left + name + right)
  {
    PaddingIsBlank(left);
    PaddingIsBlank(right);
    BlankMeans(name[0]);
    BlankMeans(name[|name| - 1]);
    hide IsPadding, IsBlank;
    var s := left + name + right;
    assert s[|left|] == name[0];
    assert s[|left| + |name| - 1] == name[|name| - 1];
    var first, last := FirstNonBlank(s).value, LastNonBlank(s).value;
    assert first == |left| && last == |left| + |name| - 1;
    assert s[first..last + 1] == name;
  }

  ghost predicate IsPadded(piece: string, name: string) {
    exists left, right :: IsPadding(left) && IsPadding(right) && piece == left + name + right
  }

  /** What trimming leaves of a text that is not blank: all of it but the padding. */
  lemma TrimLeaves(s: string)
    requires !IsPadding(s) && ';' !in s
    ensures Listable(Trim(s)) && IsPadded(s, Trim(s))
  {
    PaddingIsBlank(s);
    var first, last := FirstNonBlank(s).value, LastNonBlank(s).value;
    SidesAreBlank(s, first, last);
    var name := s[first..last + 1];
    assert Trim(s) == name;
    hide IsBlank, IsPadding, IsPadded, AllBlank, FirstNonBlank, LastNonBlank, Listable, Trim;
    ListableMiddle(s, first, last);
    Parts(s, first, last + 1);
    PaddedBy(s[..first], name, s[last + 1..]);
  }

  lemma ListableMiddle(s: string, first: nat, last: nat)
    requires first <= last < |s| && ';' !in s && !IsBlank(s[first]) && !IsBlank(s[last])
    ensures Listable(s[first..last + 1])
  {
    BlankMeans(s[first]);
    BlankMeans(s[last]);
    var name := s[first..last + 1];
    assert name[0] == s[first] && name[|name| - 1] == s[last];
  }

  lemma PaddedBy(left: string, name: string, right: string)
    requires IsPadding(left) && IsPadding(right)
    ensures IsPadded(left + name + right, name)
  {
    hide IsPadding;
  }

  lemma SidesAreBlank(s: string, first: nat, last: nat)
    requires FirstNonBlank(s) == Some(first) && LastNonBlank(s) == Some(last)
    ensures first <= last < |s| && IsPadding(s[..first]) && IsPadding(s[last + 1..])
    ensures !IsBlank(s[first]) && !IsBlank(s[last])
  {
    PaddingIsBlank(s[..first]);
    PaddingIsBlank(s[last + 1..]);
    hide IsBlank, IsPadding;
  }

  lemma Parts(s: string, i: nat, j: nat)
    requires i <= j <= |s|
    ensures s == s[..i] + s[i..j] + s[j..]
  {
  }

  /** Exactly the lists of at most 64 pieces, none of them blank, are accepted, and each name is its
      piece without the padding. */
  lemma ParseMeans(s: string)
    ensures Parse(s).Some? <==> |Split(s)| <= 64 && forall p :: p in Split(s) ==> !IsPadding(p)
    ensures Parse(s).Some? ==> |Parse(s).value| == |Split(s)| && forall i :: 0 <= i < |Split(s)| ==>
      Listable(Parse(s).value[i]) && IsPadded(Split(s)[i], Parse(s).value[i])
  {
    JoinSplit(s);
    hide Split, Trim, IsPadding, AllBlank, Listable, IsPadded;
    var pieces := Split(s);
    forall p | p in pieces ensures IsPadding(p) <==> AllBlank(p) {
      PaddingIsBlank(p);
    }
    if Parse(s).Some? {
      forall i | 0 <= i < |pieces| ensures Listable(Trim(pieces[i])) && IsPadded(pieces[i], Trim(pieces[i])) {
        assert pieces[i] in pieces;
        TrimLeaves(pieces[i]);
      }
    }
  }

  /** The list variable counts if it is set and not empty, and otherwise the older single-name variable;
      the value must have 1 to 4095 characters. */
  lemma SettingMeans(dlls: Option<string>, dll: Option<string>, value: string)
    ensures Setting(dlls, dll) == Some(value) <==>
      && 1 <= |value| <= 4095
      && (dlls == Some(value) || ((dlls == None || dlls == Some("")) && dll == Some(value)))
  {
  }

  /** Splitting undoes joining. */
  lemma {:induction false} SplitJoin(pieces: seq<string>)
    requires |pieces| > 0 && forall p :: p in pieces ==> ';' !in p
    ensures Split(Join(pieces)) == pieces
  {
    if |pieces| == 1 {
      SplitPiece(pieces[0], "");
    } else {
      SplitJoin(pieces[1..]);
      SplitPiece(pieces[0], Join(pieces[1..]));
    }
  }

  /** Joining undoes splitting, for every text. */
  lemma {:induction false} JoinSplit(s: string)
    ensures Join(Split(s)) == s
    ensures forall p :: p in Split(s) ==> ';' !in p
  {
    if s != "" {
      JoinSplit(s[1..]);
      var rest := Split(s[1..]);
      if s[0] != SEPARATOR {
        assert Split(s)[1..] == rest[1..];
      } else {
        assert Split(s)[1..] == rest;
      }
    }
  }

  lemma NoSeparator(left: string, name: string, right: string)
    requires Listable(name) && IsPadding(left) && IsPadding(right)
    ensures ';' !in left + name + right
  {
  }

  lemma SplitEmpty()
    ensures Split("") == [""]
  {
  }

  /** Listing 1 to 64 names with any blank padding and reading the setting back gives the same
      names in the same order. */
  lemma RoundTrip(names: seq<string>, left: seq<string>, right: seq<string>, dll: Option<string>)
    requires 1 <= |names| <= 64 && |left| == |names| == |right|
    requires forall i :: 0 <= i < |names| ==> Listable(names[i]) && IsPadding(left[i]) && IsPadding(right[i])
    ensures var padded := seq(|names|, i requires 0 <= i < |names| => left[i] + names[i] + right[i]);
      |Join(padded)| <= 4095 ==>
        Setting(Some(Join(padded)), dll) == Some(Join(padded)) && Parse(Join(padded)) == Some(names)
  {
    hide Split, Join, Trim;
    var padded := seq(|names|, i requires 0 <= i < |names| => left[i] + names[i] + right[i]);
    forall i | 0 <= i < |names|
      ensures Trim(padded[i]) == names[i] && !AllBlank(padded[i]) && ';' !in padded[i]
    {
      TrimPadded(left[i], names[i], right[i]);
      NoSeparator(left[i], names[i], right[i]);
    }
    SplitJoin(padded);
    SplitEmpty();
    assert padded[0] != "";
    assert seq(|padded|, i requires 0 <= i < |padded| => Trim(padded[i])) == names;
  }
}
