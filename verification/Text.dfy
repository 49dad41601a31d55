/** Searching and replacing in text, as the patchers and adapters use it. */
module Text {
  import opened Wrappers

  /** `w` stands in `s` at position `i`. */
  predicate Occurs(s: string, w: string, i: int) {
    0 <= i && i + |w| <= |s| && s[i..i + |w|] == w
  }

  /** The first occurrence. */
  function Find(s: string, w: string): (r: Option<nat>)
    ensures r.Some? ==> Occurs(s, w, r.value) && forall k :: 0 <= k < r.value ==> !Occurs(s, w, k)
    ensures r.None? ==> forall k :: !Occurs(s, w, k)
  {
    FindFrom(s, w, 0)
  }

  function FindFrom(s: string, w: string, i: nat): (r: Option<nat>)
    requires i <= |s|
    ensures r.Some? ==> Occurs(s, w, r.value) && i <= r.value && forall k :: i <= k < r.value ==> !Occurs(s, w, k)
    ensures r.None? ==> forall k :: i <= k ==> !Occurs(s, w, k)
    decreases |s| - i
  {
    if i + |w| > |s| then None
    else if Occurs(s, w, i) then Some(i)
    else if i == |s| then None
    else FindFrom(s, w, i + 1)
  }

  predicate Contains(s: string, w: string) {
    Find(s, w).Some?
  }

  /** How often `w` is found from left to right without overlap; the empty text fits everywhere. */
  function Count(s: string, w: string): nat
    decreases |s|
  {
    if w == "" then |s| + 1
    else match Find(s, w)
      case None => 0
      case Some(i) => 1 + Count(s[i + |w|..], w)
  }

  /** Put `y` in place of the `n` characters at `i`. */
  function ReplaceAt(s: string, i: nat, n: nat, y: string): string
    requires i + n <= |s|
  {
    s[..i] + y + s[i + n..]
  }

  function ReplaceFirst(s: string, w: string, y: string): string {
    match Find(s, w)
    case None => s
    case Some(i) => ReplaceAt(s, i, |w|, y)
  }

  // ----- occurrences around a replaced part -----

  /** Laid over `x` at distance `d`, `q` disagrees with it somewhere. */
  ghost predicate Clash(q: string, x: string, d: int) {
    exists j :: 0 <= j < |q| && 0 <= d + j < |x| && q[j] != x[d + j]
  }

  /** `q` can never overlap `x` in any text. */
  ghost predicate Apart(q: string, x: string) {
    forall d: int :: -|q| < d < |x| ==> Clash(q, x, d)
  }

  /** `w` can only overlap itself completely. */
  ghost predicate SelfApart(w: string) {
    forall d: int :: -|w| < d < |w| && d != 0 ==> Clash(w, w, d)
  }

  ghost predicate Unique(s: string, w: string, i: int) {
    Occurs(s, w, i) && forall k :: Occurs(s, w, k) ==> k == i
  }

  lemma OccurrencesDoNotClash(s: string, q: string, k: int, x: string, i: int)
    requires Occurs(s, q, k) && Occurs(s, x, i)
    ensures !Clash(q, x, k - i)
  {
    forall j | 0 <= j < |q| && 0 <= k - i + j < |x| ensures q[j] == x[k - i + j] {
      assert s[k..k + |q|][j] == s[k + j] == s[i..i + |x|][k - i + j];
    }
  }

  /** Apart texts stand beside each other. */
  lemma ApartOccurrences(s: string, q: string, k: int, x: string, i: int)
    requires Occurs(s, q, k) && Occurs(s, x, i) && Apart(q, x)
    ensures k + |q| <= i || i + |x| <= k
  {
    OccurrencesDoNotClash(s, q, k, x, i);
  }

  lemma FindUnique(s: string, w: string, i: nat)
    requires Unique(s, w, i)
    ensures Find(s, w) == Some(i)
  {
    hide FindFrom;
  }

  lemma OccursInTail(s: string, w: string, n: nat, k: int)
    requires n <= |s| && k >= 0
    ensures Occurs(s[n..], w, k) <==> Occurs(s, w, n + k)
  {
    if n + k + |w| <= |s| {
      assert s[n..][k..k + |w|] == s[n + k..n + k + |w|];
    }
  }

  lemma CountZero(s: string, w: string)
    requires w != "" && forall k :: !Occurs(s, w, k)
    ensures Count(s, w) == 0
  {
    hide FindFrom;
  }

  /** Counting one occurrence means there is exactly one, for texts that cannot overlap themselves. */
  lemma CountIsUnique(s: string, w: string)
    requires w != "" && SelfApart(w)
    ensures Count(s, w) == 1 <==> exists i :: Unique(s, w, i)
  {
    hide FindFrom, Clash;
    if Contains(s, w) {
      var i := Find(s, w).value;
      var rest := s[i + |w|..];
      if Count(s, w) == 1 {
        assert Count(s, w) == 1 + Count(rest, w);
        assert Find(rest, w).None?;
        forall k | Occurs(s, w, k) ensures k == i {
          OccurrencesDoNotClash(s, w, k, w, i);
          if k >= i + |w| {
            OccursInTail(s, w, i + |w|, k - (i + |w|));
          }
        }
        assert Unique(s, w, i);
      }
      if u :| Unique(s, w, u) {
        forall k ensures !Occurs(rest, w, k) {
          if k >= 0 {
            OccursInTail(s, w, i + |w|, k);
          }
        }
        CountZero(rest, w);
      }
    }
  }

  /** Where an occurrence goes when the part `x` at `i` becomes `y`. */
  function Shift(k: int, i: int, x: string, y: string): int {
    if k < i then k else k - |x| + |y|
  }

  /** An occurrence beside the replaced part stays, possibly moved. */
  lemma BesideOccurrence(s: string, i: nat, x: string, y: string, q: string, k: int)
    requires Occurs(s, x, i) && Occurs(s, q, k) && q != ""
    requires k + |q| <= i || i + |x| <= k
    ensures Occurs(ReplaceAt(s, i, |x|, y), q, Shift(k, i, x, y))
  {
    var r, m := ReplaceAt(s, i, |x|, y), Shift(k, i, x, y);
    if k < i {
      assert r[m..m + |q|] == s[..i][k..k + |q|] == s[k..k + |q|];
    } else {
      var tail := s[i + |x|..];
      assert r == (s[..i] + y) + tail;
      assert r[m..m + |q|] == tail[k - i - |x|..k - i - |x| + |q|] == s[k..k + |q|];
    }
  }

  lemma KeptOccurrence(s: string, i: nat, x: string, y: string, q: string, k: int)
    requires Occurs(s, x, i) && Occurs(s, q, k) && Apart(q, x) && q != ""
    ensures Occurs(ReplaceAt(s, i, |x|, y), q, Shift(k, i, x, y))
  {
    ApartOccurrences(s, q, k, x, i);
    BesideOccurrence(s, i, x, y, q, k);
  }

  lemma ReplaceAtOccurs(s: string, i: nat, x: string, y: string)
    requires Occurs(s, x, i)
    ensures Occurs(ReplaceAt(s, i, |x|, y), y, i)
    ensures ReplaceAt(ReplaceAt(s, i, |x|, y), i, |y|, x) == s
  {
    var r := ReplaceAt(s, i, |x|, y);
    assert r[i..i + |y|] == y;
    assert r[..i] == s[..i] && r[i + |y|..] == s[i + |x|..];
    assert s == s[..i] + s[i..i + |x|] + s[i + |x|..];
  }

  /** Replacing `x` by `y` moves the occurrences of a text that is apart from both, and makes none. */
  lemma OccurrencesMove(s: string, i: nat, x: string, y: string, q: string, m: int)
    requires Occurs(s, x, i) && Apart(q, x) && Apart(q, y) && x != "" && y != "" && q != ""
    requires Occurs(ReplaceAt(s, i, |x|, y), q, m)
    ensures Occurs(s, q, Shift(m, i, y, x)) && Shift(Shift(m, i, y, x), i, x, y) == m
  {
    hide Apart;
    ReplaceAtOccurs(s, i, x, y);
    var r := ReplaceAt(s, i, |x|, y);
    KeptOccurrence(r, i, y, x, q, m);
    ApartOccurrences(r, q, m, y, i);
  }

  lemma UniqueMoves(s: string, i: nat, x: string, y: string, q: string, k: int)
    requires Occurs(s, x, i) && Apart(q, x) && Apart(q, y) && x != "" && y != "" && q != ""
    requires Unique(s, q, k)
    ensures Unique(ReplaceAt(s, i, |x|, y), q, Shift(k, i, x, y))
  {
    hide Apart, ReplaceAt;
    KeptOccurrence(s, i, x, y, q, k);
    forall m | Occurs(ReplaceAt(s, i, |x|, y), q, m) ensures m == Shift(k, i, x, y) {
      OccurrencesMove(s, i, x, y, q, m);
    }
  }

  lemma ContainsMoves(s: string, i: nat, x: string, y: string, q: string)
    requires Occurs(s, x, i) && Apart(q, x) && Apart(q, y) && x != "" && y != "" && q != ""
    ensures Contains(ReplaceAt(s, i, |x|, y), q) <==> Contains(s, q)
  {
    hide Apart, ReplaceAt, FindFrom;
    if Contains(s, q) {
      KeptOccurrence(s, i, x, y, q, Find(s, q).value);
    }
    if Contains(ReplaceAt(s, i, |x|, y), q) {
      OccurrencesMove(s, i, x, y, q, Find(ReplaceAt(s, i, |x|, y), q).value);
    }
  }

  /** Replacements at places beside each other commute. */
  lemma ReplacementsCommute(s: string, i: nat, x: string, x': string, j: nat, y: string, y': string)
    requires i + |x| <= j && j + |y| <= |s|
    ensures var j' := j - |x| + |x'|;
      && j' + |y| <= |ReplaceAt(s, i, |x|, x')| && i + |x| <= |ReplaceAt(s, j, |y|, y')|
      && ReplaceAt(ReplaceAt(s, i, |x|, x'), j', |y|, y') == ReplaceAt(ReplaceAt(s, j, |y|, y'), i, |x|, x')
  {
    var a, b, c := s[..i], s[i + |x|..j], s[j + |y|..];
    var j' := j - |x| + |x'|;
    var r, t := ReplaceAt(s, i, |x|, x'), ReplaceAt(s, j, |y|, y');
    assert s[i + |x|..] == b + s[j..];
    assert r == a + x' + (b + s[j..]);
    assert r[..j'] == a + x' + b && r[j' + |y|..] == c;
    assert t[..i] == a && t[i + |x|..] == b + y' + c;
    assert a + x' + b + y' + c == a + x' + (b + y' + c);
  }

  // ----- deciding Apart for texts made of lines -----

  /** One line with its break. */
  ghost predicate IsLine(l: string) {
    l != "" && forall i :: 0 <= i < |l| ==> (l[i] == '\n' <==> i == |l| - 1)
  }

  function Concat(lines: seq<string>): string {
    if lines == [] then "" else lines[0] + Concat(lines[1..])
  }

  lemma ConcatStep(lines: seq<string>)
    requires lines != []
    ensures Concat(lines) == lines[0] + Concat(lines[1..])
  {
  }

  lemma Regroup(a: string, b: string, c: string)
    ensures a + (b + c) == (a + b) + c
  {
  }

  lemma {:induction false} ConcatSplits(a: seq<string>, b: seq<string>)
    ensures Concat(a + b) == Concat(a) + Concat(b)
  {
    if a == [] {
      assert a + b == b;
    } else {
      ConcatStep(a);
      ConcatStep(a + b);
      hide Concat;
      assert (a + b)[0] == a[0] && (a + b)[1..] == a[1..] + b;
      ConcatSplits(a[1..], b);
      Regroup(a[0], Concat(a[1..]), Concat(b));
    }
  }

  ghost predicate AllLines(lines: seq<string>) {
    lines != [] && forall l :: l in lines ==> IsLine(l)
  }

  function FromEnd(s: string, j: nat): char
    requires j < |s|
  {
    s[|s| - 1 - j]
  }

  /** Laid over each other at their ends, the lines disagree. */
  ghost predicate Differ(a: string, b: string) {
    exists j: nat :: j < |a| && j < |b| && FromEnd(a, j) != FromEnd(b, j)
  }

  /** A text whose last line is `last` cannot end where a line `l` of another text ends: either the
      lines disagree, or the break before the shorter line meets the inside of the longer one. */
  ghost predicate CannotEndAt(last: string, alone: bool, l: string, first: bool) {
    Differ(last, l) || (!alone && |l| > |last|) || (!first && |l| < |last|)
  }

  function Last(lines: seq<string>): string
    requires lines != []
  {
    lines[|lines| - 1]
  }

  lemma LineEnds(l: string)
    requires IsLine(l)
    ensures l != "" && FromEnd(l, 0) == '\n'
  {
  }

  /** Line `k` ends at position `n`; the line before it, if there is one, ends where it begins. */
  ghost predicate EndsLine(s: string, n: nat, k: nat, l: string) {
    && |l| <= n + 1 <= |s|
    && s[n + 1 - |l|..n + 1] == l
    && (k == 0 ==> |l| == n + 1)
    && (k > 0 ==> |l| <= n && s[n - |l|] == '\n')
  }

  /** Every break of a text made of lines ends one of them. */
  lemma {:induction false} BreakEndsLine(lines: seq<string>, n: nat) returns (k: nat)
    requires AllLines(lines) && n < |Concat(lines)| && Concat(lines)[n] == '\n'
    ensures k < |lines| && EndsLine(Concat(lines), n, k, lines[k])
    ensures k < |lines| - 1 <==> n < |Concat(lines)| - 1
  {
    hide IsLine;
    var first, rest := lines[0], Concat(lines[1..]);
    assert first in lines;
    if n < |first| {
      FirstBreak(first, rest, n);
      k := 0;
      RestIsEmpty(lines);
    } else {
      assert AllLines(lines[1..]) && Concat(lines) == first + rest && rest[n - |first|] == '\n';
      hide Concat, AllLines, EndsLine;
      k := BreakEndsLine(lines[1..], n - |first|);
      EndsLineBehind(first, rest, n - |first|, k, lines[1..][k]);
      k := k + 1;
    }
  }

  lemma EndsLineBehind(first: string, rest: string, n: nat, k: nat, l: string)
    requires IsLine(first) && EndsLine(rest, n, k, l)
    ensures EndsLine(first + rest, |first| + n, k + 1, l)
  {
    LineEnds(first);
    hide IsLine;
    SliceBehind(first, rest, n + 1 - |l|, n + 1);
    if k == 0 {
      assert (first + rest)[|first| - 1] == FromEnd(first, 0);
    } else {
      assert (first + rest)[|first| + n - |l|] == rest[n - |l|];
    }
  }

  lemma SliceBehind(a: string, b: string, i: nat, j: nat)
    requires i <= j <= |b|
    ensures (a + b)[|a| + i..|a| + j] == b[i..j]
  {
  }

  lemma RestIsEmpty(lines: seq<string>)
    requires AllLines(lines)
    ensures Concat(lines[1..]) == "" <==> |lines| == 1
  {
    if |lines| > 1 {
      assert lines[1] in lines && lines[1..][0] == lines[1];
      LineEnds(lines[1]);
    }
  }

  lemma FirstBreak(first: string, rest: string, n: nat)
    requires IsLine(first) && n < |first| && (first + rest)[n] == '\n'
    ensures n == |first| - 1 && (first + rest)[0..n + 1] == first
  {
    assert first[n] == '\n';
  }

  lemma {:induction false} EndOfLines(lines: seq<string>)
    requires AllLines(lines)
    ensures var s, last := Concat(lines), Last(lines);
      && |last| <= |s|
      && s[|s| - |last|..] == last
      && (|lines| > 1 ==> |last| < |s| && s[|s| - 1 - |last|] == '\n')
  {
    var first, rest := lines[0], Concat(lines[1..]);
    if |lines| == 1 {
      assert Concat(lines) == first + "";
    } else {
      assert Last(lines[1..]) == Last(lines);
      EndOfLines(lines[1..]);
      assert Concat(lines)[|first|..] == rest;
      assert lines[0] in lines;
      var last := Last(lines);
      assert Concat(lines)[|first| + |rest| - |last|..] == rest[|rest| - |last|..];
      if |lines| == 2 {
        assert lines[1..] == [last] && rest == last + "";
        assert Concat(lines)[|first| - 1] == first[|first| - 1];
      } else {
        assert Concat(lines)[|first| + |rest| - 1 - |last|] == rest[|rest| - 1 - |last|];
      }
    }
  }

  lemma ClashAtChar(q: string, x: string, d: int, j: int)
    requires 0 <= j < |q| && 0 <= d + j < |x| && q[j] != x[d + j]
    ensures Clash(q, x, d)
  {
  }

  lemma SuffixAt(s: string, e: nat, l: string, j: nat)
    requires |l| <= e <= |s| && s[e - |l|..e] == l && j < |l|
    ensures s[e - 1 - j] == FromEnd(l, j)
  {
    assert s[e - |l|..e][|l| - 1 - j] == s[e - 1 - j];
  }

  /** `q`, which ends with `last`, laid over `x` so that it ends where the line `l` of `x` ends. */
  lemma ClashAtLine(q: string, last: string, alone: bool, x: string, n: nat, l: string, first: bool)
    requires |last| <= |q| && q[|q| - |last|..] == last
    requires !alone ==> |last| < |q| && q[|q| - 1 - |last|] == '\n'
    requires |l| <= n + 1 <= |x| && x[n + 1 - |l|..n + 1] == l && IsLine(l) && IsLine(last)
    requires first || (|l| <= n && x[n - |l|] == '\n')
    requires CannotEndAt(last, alone, l, first)
    ensures Clash(q, x, n + 1 - |q|)
  {
    hide Clash;
    if Differ(last, l) {
      var j: nat :| j < |last| && j < |l| && FromEnd(last, j) != FromEnd(l, j);
      SuffixAt(q, |q|, last, j);
      SuffixAt(x, n + 1, l, j);
      ClashAtChar(q, x, n + 1 - |q|, |q| - 1 - j);
    } else if !first && |l| < |last| {
      SuffixAt(q, |q|, last, |l|);
      ClashAtChar(q, x, n + 1 - |q|, |q| - 1 - |l|);
    } else {
      SuffixAt(x, n + 1, l, |last|);
      ClashAtChar(q, x, n + 1 - |q|, |q| - 1 - |last|);
    }
  }

  /** The last line of `qs` cannot end at a line of `xs`; with `inner` the last line of `xs` is left out. */
  ghost predicate NeverEndsIn(qs: seq<string>, xs: seq<string>, inner: bool) {
    qs != [] && forall k :: 0 <= k < |xs| && (inner ==> k < |xs| - 1) ==> CannotEndAt(Last(qs), |qs| == 1, xs[k], k == 0)
  }

  lemma LastIsLine(lines: seq<string>)
    requires AllLines(lines)
    ensures IsLine(Last(lines))
  {
    assert Last(lines) in lines;
  }

  /** `q` laid over `x` so that it ends at a break of `x`; `inner` when that is not the last one. */
  lemma ClashAtBreak(qs: seq<string>, xs: seq<string>, n: nat, inner: bool)
    requires AllLines(qs) && AllLines(xs)
    requires n < |Concat(xs)| && Concat(xs)[n] == '\n' && (inner ==> n < |Concat(xs)| - 1)
    requires NeverEndsIn(qs, xs, inner)
    ensures Clash(Concat(qs), Concat(xs), n + 1 - |Concat(qs)|)
  {
    hide Concat, Clash, CannotEndAt, IsLine;
    EndOfLines(qs);
    var k := BreakEndsLine(xs, n);
    var l := xs[k];
    assert IsLine(l) by { assert l in xs; }
    LastIsLine(qs);
    assert |qs| > 1 ==> Concat(qs)[|Concat(qs)| - 1 - |Last(qs)|] == '\n';
    assert CannotEndAt(Last(qs), |qs| == 1, l, k == 0);
    ClashAtLine(Concat(qs), Last(qs), |qs| == 1, Concat(xs), n, l, k == 0);
  }

  /** `q` laid over `x` so that it ends inside `x`; `inner` when it cannot end at the end of `x`. */
  lemma ClashAtEnd(qs: seq<string>, xs: seq<string>, d: int, inner: bool)
    requires AllLines(qs) && AllLines(xs)
    requires -|Concat(qs)| < d && d + |Concat(qs)| <= |Concat(xs)|
    requires inner ==> d + |Concat(qs)| < |Concat(xs)|
    requires NeverEndsIn(qs, xs, inner)
    ensures Clash(Concat(qs), Concat(xs), d)
  {
    var q, x, last := Concat(qs), Concat(xs), Last(qs);
    hide Concat, Clash, NeverEndsIn, IsLine, AllLines;
    var n := d + |q| - 1;
    if x[n] == '\n' {
      ClashAtBreak(qs, xs, n, inner);
    } else {
      EndOfLines(qs);
      LastIsLine(qs);
      LineEnds(last);
      SuffixAt(q, |q|, last, 0);
      ClashAtChar(q, x, d, |q| - 1);
    }
  }

  lemma ClashIsSymmetric(q: string, x: string, d: int)
    requires Clash(x, q, -d)
    ensures Clash(q, x, d)
  {
    var j :| 0 <= j < |x| && 0 <= -d + j < |q| && x[j] != q[-d + j];
    assert q[j - d] != x[d + (j - d)];
  }

  lemma ApartIsSymmetric(q: string, x: string)
    requires Apart(q, x)
    ensures Apart(x, q)
  {
    hide Clash;
    forall d: int | -|x| < d < |q| ensures Clash(x, q, d) {
      assert Clash(q, x, -d);
      ClashIsSymmetric(x, q, d);
    }
  }

  /** Texts made of lines are apart when the last line of neither can end where a line of the other
      does, and they also disagree when laid over each other at their ends. */
  lemma ApartByInnerLines(qs: seq<string>, xs: seq<string>)
    requires AllLines(qs) && AllLines(xs)
    requires NeverEndsIn(qs, xs, true) && NeverEndsIn(xs, qs, true)
    requires Clash(Concat(qs), Concat(xs), |Concat(xs)| - |Concat(qs)|)
    ensures Apart(Concat(qs), Concat(xs))
  {
    hide Concat, Clash, NeverEndsIn, AllLines;
    var q, x := Concat(qs), Concat(xs);
    forall d: int | -|q| < d < |x| ensures Clash(q, x, d) {
      if d + |q| < |x| {
        ClashAtEnd(qs, xs, d, true);
      } else if d + |q| > |x| {
        ClashAtEnd(xs, qs, -d, true);
        ClashIsSymmetric(q, x, d);
      }
    }
  }

  lemma ApartByLines(qs: seq<string>, xs: seq<string>)
    requires AllLines(qs) && AllLines(xs)
    requires NeverEndsIn(qs, xs, false) && NeverEndsIn(xs, qs, true)
    ensures Apart(Concat(qs), Concat(xs))
  {
    assert NeverEndsIn(qs, xs, true);
    hide Concat, Clash, NeverEndsIn;
    ClashOfEnds(qs, xs);
    ApartByInnerLines(qs, xs);
  }

  /** Laid over each other at their ends, texts disagree if their last lines do. */
  lemma ClashOfEnds(qs: seq<string>, xs: seq<string>)
    requires AllLines(qs) && AllLines(xs) && NeverEndsIn(qs, xs, false)
    ensures Clash(Concat(qs), Concat(xs), |Concat(xs)| - |Concat(qs)|)
  {
    hide Concat, Clash, IsLine, NeverEndsIn;
    var q, x := Concat(qs), Concat(xs);
    EndOfLines(xs);
    LastIsLine(xs);
    LineEnds(Last(xs));
    SuffixAt(x, |x|, Last(xs), 0);
    ClashAtBreak(qs, xs, |x| - 1, false);
  }

  /** What stands before a common end decides. */
  lemma ClashBeforeEnd(a: string, b: string, end: string)
    requires Differ(a, b)
    ensures Clash(a + end, b + end, |b| - |a|)
  {
    var j: nat :| j < |a| && j < |b| && FromEnd(a, j) != FromEnd(b, j);
    ClashAtChar(a + end, b + end, |b| - |a|, |a| - 1 - j);
  }

  lemma SelfApartByLines(lines: seq<string>)
    requires AllLines(lines)
    requires NeverEndsIn(lines, lines, true)
    ensures SelfApart(Concat(lines))
  {
    hide Concat, Clash, NeverEndsIn, AllLines;
    var w := Concat(lines);
    forall d: int | -|w| < d < |w| && d != 0 ensures Clash(w, w, d) {
      if d < 0 {
        ClashAtEnd(lines, lines, d, true);
      } else {
        ClashAtEnd(lines, lines, -d, true);
        ClashIsSymmetric(w, w, d);
      }
    }
  }
}
