/** The in-place rebuild of the import path from PYTHONPATH. */
module SitePath {
  import opened Sequences

  /** The entries that end up in front: those not on the path before, each at its last occurrence. */
  function Fresh<T(==)>(entries: seq<T>, prior: seq<T>): seq<T> {
    if entries == [] then []
    else if entries[0] in prior || entries[0] in entries[1..] then Fresh(entries[1..], prior)
    else [entries[0]] + Fresh(entries[1..], prior)
  }

  function NonEmpty(entries: seq<string>): seq<string> {
    if entries == [] then []
    else if entries[0] == "" then NonEmpty(entries[1..])
    else [entries[0]] + NonEmpty(entries[1..])
  }

  function Rebuilt<T(==)>(entries: seq<T>, prior: seq<T>): seq<T> {
    Fresh(entries, prior) + prior
  }

  /** The path after one insertion at the front. */
  function WithFront<T(==)>(entry: T, path: seq<T>): seq<T> {
    if entry in path then path else [entry] + path
  }

  /** The last occurrence of `a` stands before the last occurrence of `b`. */
  ghost predicate LastBefore<T>(entries: seq<T>, a: T, b: T) {
    exists i, j :: 0 <= i < j < |entries| && entries[i] == a && entries[j] == b
      && a !in entries[i + 1..] && b !in entries[j + 1..]
  }

  /** `r` is the old path behind the non-empty entries of `value` that were missing, each once, in the
      order in which they occur last in `value`. */
  ghost predicate BuiltFrom(value: seq<string>, prior: seq<string>, r: seq<string>) {
    && |r| >= |prior|
    && (var front := r[..|r| - |prior|];
      && r == front + prior
      && NoDuplicates(front)
      && (forall e :: e in front <==> e in value && e != "" && e !in prior)
      && (forall p, q :: 0 <= p < q < |front| ==> LastBefore(value, front[p], front[q])))
  }

  class SearchPath {
    var path: seq<string>

    constructor (initial: seq<string>)
      ensures path == initial
    {
      path := initial;
    }

    method Prepend(entry: string)
      modifies this
      ensures path == if entry == "" then old(path) else WithFront(entry, old(path))
    {
      if entry != "" && entry !in path {
        path := [entry] + path;
      }
    }

    /** `value` is the list PYTHONPATH splits into; empty entries are dropped first. */
    method ApplyPythonPath(value: seq<string>)
      modifies this
      ensures path == Rebuilt(NonEmpty(value), old(path))
      ensures BuiltFrom(value, old(path), path)
    {
      hide Rebuilt, NonEmpty, BuiltFrom;
      PathIsBuiltFromValue(value, path);
      var entries := NonEmpty(value);
      NonEmptyElements(value);
      RebuiltFromNothing(old(path));
      var i := |entries|;
      assert entries[i..] == [];
      while i > 0
        invariant 0 <= i <= |entries|
        invariant path == Rebuilt(entries[i..], old(path))
      {
        i := i - 1;
        RebuiltStep(entries, i, old(path));
        assert entries[i] in entries;
        Prepend(entries[i]);
      }
      assert entries[0..] == entries;
    }
  }

  lemma {:induction false} NonEmptyElements(entries: seq<string>)
    ensures forall e :: e in NonEmpty(entries) <==> e in entries && e != ""
  {
    if entries != [] {
      NonEmptyElements(entries[1..]);
      assert entries == [entries[0]] + entries[1..];
    }
  }

  lemma RebuiltFromNothing<T>(prior: seq<T>)
    ensures Rebuilt([], prior) == prior
  {
  }

  /** One turn of the reversed loop. */
  lemma RebuiltStep<T>(entries: seq<T>, i: nat, prior: seq<T>)
    requires i < |entries|
    ensures Rebuilt(entries[i..], prior) == WithFront(entries[i], Rebuilt(entries[i + 1..], prior))
  {
    var rest := entries[i + 1..];
    assert entries[i..][1..] == rest && entries[i..][0] == entries[i];
    FreshElements(rest, prior);
    assert [entries[i]] + Fresh(rest, prior) + prior == [entries[i]] + (Fresh(rest, prior) + prior);
  }

  /** What is put in front: exactly the entries that were missing. */
  lemma {:induction false} FreshElements<T>(entries: seq<T>, prior: seq<T>)
    ensures forall e :: e in Fresh(entries, prior) <==> e in entries && e !in prior
  {
    if entries != [] {
      FreshElements(entries[1..], prior);
      assert entries == [entries[0]] + entries[1..];
    }
  }

  lemma {:induction false} FreshNoDuplicates<T>(entries: seq<T>, prior: seq<T>)
    ensures NoDuplicates(Fresh(entries, prior))
  {
    if entries != [] {
      FreshNoDuplicates(entries[1..], prior);
      FreshElements(entries[1..], prior);
    }
  }

  lemma {:induction false} LastIndex<T>(s: seq<T>, e: T) returns (i: nat)
    requires e in s
    ensures i < |s| && s[i] == e && e !in s[i + 1..]
  {
    if e in s[1..] {
      i := LastIndex(s[1..], e);
      assert s[i + 1 + 1..] == s[1..][i + 1..];
      i := i + 1;
    } else {
      i := 0;
    }
  }

  lemma LastBeforeInTail<T>(entries: seq<T>, a: T, b: T)
    requires entries != [] && LastBefore(entries[1..], a, b)
    ensures LastBefore(entries, a, b)
  {
    var rest := entries[1..];
    var i, j :| 0 <= i < j < |rest| && rest[i] == a && rest[j] == b
      && a !in rest[i + 1..] && b !in rest[j + 1..];
    assert entries[i + 1 + 1..] == rest[i + 1..] && entries[j + 1 + 1..] == rest[j + 1..];
    assert entries[i + 1] == a && entries[j + 1] == b;
  }

  lemma LastBeforeFromHead<T>(entries: seq<T>, b: T)
    requires entries != [] && entries[0] !in entries[1..] && b in entries[1..]
    ensures LastBefore(entries, entries[0], b)
  {
    var j := LastIndex(entries[1..], b);
    assert entries[j + 1 + 1..] == entries[1..][j + 1..];
    assert entries[j + 1] == b;
  }

  lemma {:induction false} FreshElement<T>(entries: seq<T>, prior: seq<T>, k: nat)
    requires k < |Fresh(entries, prior)|
    ensures Fresh(entries, prior)[k] in entries
  {
    if |Fresh(entries, prior)| == |Fresh(entries[1..], prior)| {
      FreshElement(entries[1..], prior, k);
    } else if k > 0 {
      FreshElement(entries[1..], prior, k - 1);
    }
  }

  lemma FreshOrderFromHead<T>(entries: seq<T>, prior: seq<T>, q: nat)
    requires 0 < q < |Fresh(entries, prior)| && |Fresh(entries, prior)| != |Fresh(entries[1..], prior)|
    ensures LastBefore(entries, Fresh(entries, prior)[0], Fresh(entries, prior)[q])
  {
    hide LastBefore;
    FreshElement(entries[1..], prior, q - 1);
    LastBeforeFromHead(entries, Fresh(entries[1..], prior)[q - 1]);
  }

  /** How the front grows when one more entry is put before the list. */
  lemma FreshStep<T>(entries: seq<T>, prior: seq<T>)
    requires Fresh(entries, prior) != []
    ensures entries != []
    ensures Fresh(entries, prior) == Fresh(entries[1..], prior)
      || Fresh(entries, prior) == [entries[0]] + Fresh(entries[1..], prior)
  {
  }

  /** Two entries that are both put in front keep the order of their last occurrences. */
  lemma {:induction false} FreshOrder<T>(entries: seq<T>, prior: seq<T>, p: nat, q: nat)
    requires p < q < |Fresh(entries, prior)|
    ensures LastBefore(entries, Fresh(entries, prior)[p], Fresh(entries, prior)[q])
  {
    hide Fresh, LastBefore;
    FreshStep(entries, prior);
    var rest := entries[1..];
    if |Fresh(entries, prior)| == |Fresh(rest, prior)| {
      FreshOrder(rest, prior, p, q);
      LastBeforeInTail(entries, Fresh(rest, prior)[p], Fresh(rest, prior)[q]);
    } else if p > 0 {
      FreshOrder(rest, prior, p - 1, q - 1);
      LastBeforeInTail(entries, Fresh(rest, prior)[p - 1], Fresh(rest, prior)[q - 1]);
    } else {
      FreshOrderFromHead(entries, prior, q);
    }
  }

  lemma LastBeforeInFront<T>(first: T, rest: seq<T>, a: T, b: T)
    requires LastBefore([first] + rest, a, b)
    ensures LastBefore(rest, a, b) || (a == first && a !in rest && b in rest)
  {
    var s := [first] + rest;
    var i, j :| 0 <= i < j < |s| && s[i] == a && s[j] == b && a !in s[i + 1..] && b !in s[j + 1..];
    assert s[j + 1..] == rest[j..] && s[i + 1..] == rest[i..];
    assert rest[j - 1] == b;
    if i > 0 {
      assert rest[i - 1] == a && rest[i - 1 + 1..] == s[i + 1..] && rest[j - 1 + 1..] == s[j + 1..];
    }
  }

  /** Dropping the empty entries keeps the order of the others. */
  lemma {:induction false} NonEmptyKeepsOrder(value: seq<string>, a: string, b: string)
    requires LastBefore(NonEmpty(value), a, b)
    ensures LastBefore(value, a, b)
  {
    hide LastBefore;
    if value == [] {
      assert !LastBefore<string>([], a, b) by { NothingBefore(a, b); }
    } else if value[0] == "" {
      NonEmptyKeepsOrder(value[1..], a, b);
      LastBeforeInTail(value, a, b);
    } else {
      var rest := NonEmpty(value[1..]);
      LastBeforeInFront(value[0], rest, a, b);
      NonEmptyElements(value[1..]);
      if LastBefore(rest, a, b) {
        NonEmptyKeepsOrder(value[1..], a, b);
        LastBeforeInTail(value, a, b);
      } else {
        LastBeforeFromHead(value, b);
      }
    }
  }

  lemma NothingBefore(a: string, b: string)
    ensures !LastBefore<string>([], a, b)
  {
  }

  /** The rebuilt path in terms of the list as it was given. */
  lemma PathIsBuiltFromValue(value: seq<string>, prior: seq<string>)
    ensures BuiltFrom(value, prior, Rebuilt(NonEmpty(value), prior))
  {
    var entries := NonEmpty(value);
    var front := Fresh(entries, prior);
    FreshElements(entries, prior);
    FreshNoDuplicates(entries, prior);
    NonEmptyElements(value);
    var r := Rebuilt(entries, prior);
    assert r[..|r| - |prior|] == front;
    hide Fresh, NonEmpty, LastBefore, Rebuilt, NoDuplicates;
    forall p, q | 0 <= p < q < |front| ensures LastBefore(value, front[p], front[q]) {
      FreshOrder(entries, prior, p, q);
      NonEmptyKeepsOrder(value, front[p], front[q]);
    }
  }

  /** The old path stays as it was at the end, every entry is on the new path and nothing else is,
      and no duplicate is added. */
  lemma RebuiltPath<T>(entries: seq<T>, prior: seq<T>)
    ensures var r := Rebuilt(entries, prior);
      && |r| >= |prior| && r[|r| - |prior|..] == prior
      && (forall e :: e in r <==> e in prior || e in entries)
      && (NoDuplicates(prior) ==> NoDuplicates(r))
  {
    FreshElements(entries, prior);
    FreshNoDuplicates(entries, prior);
    var front, r := Fresh(entries, prior), Rebuilt(entries, prior);
    assert r[|front|..] == prior;
    forall i, j | 0 <= i < |front| <= j < |r| ensures r[i] != r[j] {
      assert front[i] in front && r[i] == front[i] && prior[j - |front|] in prior && r[j] == prior[j - |front|];
    }
  }

  lemma {:induction false} NothingFresh<T>(entries: seq<T>, path: seq<T>)
    requires forall e :: e in entries ==> e in path
    ensures Fresh(entries, path) == []
  {
    if entries != [] {
      assert entries[0] in entries;
      NothingFresh(entries[1..], path);
    }
  }

  /** A second run changes nothing. */
  lemma RebuildIsIdempotent<T>(entries: seq<T>, prior: seq<T>)
    ensures Rebuilt(entries, Rebuilt(entries, prior)) == Rebuilt(entries, prior)
  {
    RebuiltPath(entries, prior);
    NothingFresh(entries, Rebuilt(entries, prior));
  }
}
