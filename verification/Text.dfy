/** Results and optional values. */
module Outcomes {

  datatype Option<+T> = None | Some(value: T)

  datatype Result<+T, +E> = Ok(value: T) | Err(error: E)
}

/** Duplicate-free sequences and the counting facts about them. */
module Sequences {

  ghost predicate Distinct<T(!new)>(s: seq<T>) {
    forall i, j :: 0 <= i < j < |s| ==> s[i] != s[j]
  }

  function Elements<T>(s: seq<T>): set<T> {
    set x | x in s
  }

  lemma {:induction false} DistinctCount<T(!new)>(s: seq<T>)
    requires Distinct(s)
    ensures |Elements(s)| == |s|
  {
    if s == [] {
      assert Elements(s) == {};
    } else {
      var n := |s| - 1;
      DistinctCount(s[..n]);
      assert Elements(s) == Elements(s[..n]) + {s[n]};
      assert s[n] !in s[..n];
    }
  }

  lemma {:induction false} SubsetCount<T>(a: set<T>, b: set<T>)
    requires a <= b
    ensures |a| <= |b|
  {
    if a != {} {
      var x :| x in a;
      SubsetCount(a - {x}, b - {x});
    }
  }

  /** A duplicate-free sequence drawn from a set is no longer than the set. */
  lemma Pigeonhole<T(!new)>(s: seq<T>, pool: set<T>)
    requires Distinct(s) && forall x :: x in s ==> x in pool
    ensures |s| <= |pool|
  {
    DistinctCount(s);
    SubsetCount(Elements(s), pool);
  }

  /** First occurrences, in order: Python's `dict.fromkeys`. */
  function Dedup(s: seq<string>): seq<string> {
    if s == [] then []
    else
      var n := |s| - 1;
      var d := Dedup(s[..n]);
      if s[n] in d then d else d + [s[n]]
  }

  lemma {:induction false} DedupKeepsAll(s: seq<string>)
    ensures forall x :: x in Dedup(s) <==> x in s
    ensures Distinct(Dedup(s)) && |Dedup(s)| <= |s|
  {
    if s != [] {
      var n := |s| - 1;
      DedupKeepsAll(s[..n]);
      assert s == s[..n] + [s[n]];
    }
  }

  /** What is kept are the first occurrences, in their order. */
  ghost predicate AreFirsts(s: seq<string>, kept: seq<string>, at: seq<nat>) {
    && |at| == |kept| && (forall i, j :: 0 <= i < j < |at| ==> at[i] < at[j])
    && (forall i :: 0 <= i < |at| ==> at[i] < |s| && kept[i] == s[at[i]] && s[at[i]] !in s[..at[i]])
  }

  lemma FirstsStay(s: seq<string>, n: nat, kept: seq<string>, at: seq<nat>)
    requires n <= |s| && AreFirsts(s[..n], kept, at)
    ensures AreFirsts(s, kept, at)
  {
    forall i | 0 <= i < |at|
      ensures at[i] < n && kept[i] == s[at[i]] && s[at[i]] !in s[..at[i]]
    {
      assert s[..n][..at[i]] == s[..at[i]];
    }
  }

  lemma FirstAdded(s: seq<string>, kept: seq<string>, at: seq<nat>, n: nat)
    requires n < |s| && AreFirsts(s, kept, at) && s[n] !in s[..n]
    requires forall i :: 0 <= i < |at| ==> at[i] < n
    ensures AreFirsts(s, kept + [s[n]], at + [n])
  {
  }

  lemma {:induction false} DedupKeepsFirsts(s: seq<string>) returns (at: seq<nat>)
    ensures AreFirsts(s, Dedup(s), at)
  {
    at := [];
    if s != [] {
      var n := |s| - 1;
      at := DedupKeepsFirsts(s[..n]);
      FirstsStay(s, n, Dedup(s[..n]), at);
      DedupKeepsAll(s[..n]);
      if s[n] !in Dedup(s[..n]) {
        FirstAdded(s, Dedup(s[..n]), at, n);
        at := at + [n];
      }
    }
  }

  /** Nothing is dropped from a list without repetitions. */
  lemma {:induction false} DedupOfDistinct(s: seq<string>)
    requires Distinct(s)
    ensures Dedup(s) == s
  {
    if s != [] {
      var n := |s| - 1;
      DedupOfDistinct(s[..n]);
      assert s == s[..n] + [s[n]];
    }
  }
}

/** The order in which Python compares and sorts strings. */
module Text {
  import opened Sequences

  /** Lexicographic order by code point. */
  predicate Less(a: string, b: string) {
    if b == [] then false
    else if a == [] then true
    else a[0] < b[0] || (a[0] == b[0] && Less(a[1..], b[1..]))
  }

  /** The texts agree before position `k`; there the first ends, or has the smaller
      code point. */
  ghost predicate DiffersAt(a: string, b: string, k: nat) {
    k <= |a| && k < |b| && a[..k] == b[..k] && (k == |a| || a[k] < b[k])
  }

  lemma {:induction false} LessIff(a: string, b: string)
    ensures Less(a, b) <==> exists k: nat :: DiffersAt(a, b, k)
  {
    if Less(a, b) {
      var k := FirstDifference(a, b);
    }
    if k: nat :| DiffersAt(a, b, k) {
      DifferenceDecides(a, b, k);
    }
  }

  lemma {:induction false} FirstDifference(a: string, b: string) returns (k: nat)
    requires Less(a, b)
    ensures DiffersAt(a, b, k)
  {
    k := 0;
    if a != [] && a[0] == b[0] {
      var rest := FirstDifference(a[1..], b[1..]);
      k := rest + 1;
      assert a[..k] == [a[0]] + a[1..][..rest] && b[..k] == [b[0]] + b[1..][..rest];
    }
  }

  lemma {:induction false} DifferenceDecides(a: string, b: string, k: nat)
    requires DiffersAt(a, b, k)
    ensures Less(a, b)
  {
    if k > 0 {
      assert a[..k][0] == b[..k][0] && a[1..][..k - 1] == a[..k][1..] && b[1..][..k - 1] == b[..k][1..];
      DifferenceDecides(a[1..], b[1..], k - 1);
    }
  }

  lemma {:induction false} LessIsTotal(a: string, b: string)
    ensures !(Less(a, b) && Less(b, a))
    ensures Less(a, b) || a == b || Less(b, a)
    ensures !Less(a, a)
  {
    if a != [] {
      LessIsTotal(a[1..], a[1..]);
      if b != [] {
        LessIsTotal(a[1..], b[1..]);
        assert a[0] == b[0] && a[1..] == b[1..] ==> a == [a[0]] + a[1..] == b;
      }
    }
  }

  lemma {:induction false} LessIsTransitive(a: string, b: string, c: string)
    requires Less(a, b) && Less(b, c)
    ensures Less(a, c)
  {
    if a != [] && a[0] == b[0] && b[0] == c[0] {
      LessIsTransitive(a[1..], b[1..], c[1..]);
    }
  }

  predicate IsLeast(m: string, pool: set<string>) {
    m in pool && forall x :: x in pool && x != m ==> Less(m, x)
  }

  lemma {:induction false} LeastExists(pool: set<string>) returns (m: string)
    requires pool != {}
    ensures IsLeast(m, pool)
  {
    m :| m in pool;
    if pool != {m} {
      var rest := LeastExists(pool - {m});
      LessIsTotal(m, rest);
      if Less(m, rest) {
        forall x | x in pool && x != m
          ensures Less(m, x)
        {
          if x != rest { LessIsTransitive(m, rest, x); }
        }
      } else {
        m := rest;
      }
    }
  }

  /** Python's `sorted` on a set of strings: its members in ascending order. */
  function Sorted(pool: set<string>): (s: seq<string>)
    ensures forall x :: x in s <==> x in pool
    ensures forall i, j :: 0 <= i < j < |s| ==> Less(s[i], s[j])
  {
    if pool == {} then []
    else
      var m := Least(pool);
      var rest := Sorted(pool - {m});
      assert forall i :: 0 <= i < |rest| ==> rest[i] in rest;
      [m] + rest
  }

  function Least(pool: set<string>): (m: string)
    requires pool != {}
    ensures IsLeast(m, pool)
  {
    assert exists m :: IsLeast(m, pool) by {
      var m := LeastExists(pool);
    }
    assert forall m, n :: IsLeast(m, pool) && IsLeast(n, pool) ==> m == n by {
      forall m, n | IsLeast(m, pool) && IsLeast(n, pool)
        ensures m == n
      {
        LessIsTotal(m, n);
      }
    }
    var m :| IsLeast(m, pool);
    m
  }

  lemma AscendingIsDistinct(s: seq<string>)
    requires forall i, j :: 0 <= i < j < |s| ==> Less(s[i], s[j])
    ensures Distinct(s)
  {
    forall i, j | 0 <= i < j < |s|
      ensures s[i] != s[j]
    {
      LessIsTotal(s[i], s[i]);
    }
  }
}
