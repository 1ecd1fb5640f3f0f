/**
 * The history merger's duplicate filter: `records.filter(duplicate)` keeps
 * element i exactly when i is the first index whose record has the same
 * `uuid` and the same `timestamp`.
 */
module Duplicates {
  import opened Wrappers
  import opened Json
  import opened Seqs

  /** What `duplicate` compares: the `uuid` and `timestamp` properties (None is `undefined`). */
  datatype Key = Key(uuid: Option<Value>, timestamp: Option<Value>)

  function KeyOf(r: Record): Key {
    Key(Get(r, "uuid"), Get(r, "timestamp"))
  }

  /** The keys occurring in s. */
  function Keys(s: seq<Record>): set<Key> {
    set i | 0 <= i < |s| :: KeyOf(s[i])
  }

  /** No two records of s share a key: the invariant of the stored aggregate. */
  predicate DistinctKeys(s: seq<Record>) {
    forall i, j :: 0 <= i < j < |s| ==> KeyOf(s[i]) != KeyOf(s[j])
  }

  /** `s.findIndex(c => c.uuid === k.uuid && c.timestamp === k.timestamp)`, scanning from `from`. */
  function FindIndexFrom(s: seq<Record>, k: Key, from: nat): (i: int)
    requires from <= |s|
    ensures i == -1 || from <= i < |s|
    ensures i >= 0 ==> KeyOf(s[i]) == k
    ensures forall j :: from <= j < |s| && (i == -1 || j < i) ==> KeyOf(s[j]) != k
    decreases |s| - from
  {
    if from == |s| then -1
    else if KeyOf(s[from]) == k then from
    else FindIndexFrom(s, k, from + 1)
  }

  /** `s.findIndex(...)`: the first index carrying key k, or -1 when there is none. */
  function FindIndex(s: seq<Record>, k: Key): (i: int)
    ensures -1 <= i < |s|
    ensures i >= 0 ==> KeyOf(s[i]) == k && forall j :: 0 <= j < i ==> KeyOf(s[j]) != k
    ensures i == -1 <==> k !in Keys(s)
  {
    var i := FindIndexFrom(s, k, 0);
    assert i == -1 ==> k !in Keys(s);
    assert i >= 0 ==> k in Keys(s);
    i
  }

  /** `duplicate(s[i], i, s)`: whether element i is the first occurrence of its key. */
  predicate IsFirstOccurrence(s: seq<Record>, i: nat)
    requires i < |s|
  {
    i == FindIndex(s, KeyOf(s[i]))
  }

  /** `s.filter(duplicate)`, from index i on. */
  function FilterFrom(s: seq<Record>, i: nat): seq<Record>
    requires i <= |s|
    decreases |s| - i
  {
    if i == |s| then []
    else (if IsFirstOccurrence(s, i) then [s[i]] else []) + FilterFrom(s, i + 1)
  }

  function Dedup(s: seq<Record>): seq<Record> {
    FilterFrom(s, 0)
  }

  // ---------------------------------------------------------------------------
  // A reference definition: one pass that remembers the keys it has seen.

  function DedupSeen(s: seq<Record>, seen: set<Key>): seq<Record> {
    if s == [] then []
    else if KeyOf(s[0]) in seen then DedupSeen(s[1..], seen)
    else [s[0]] + DedupSeen(s[1..], seen + {KeyOf(s[0])})
  }

  lemma KeysPrefix(s: seq<Record>, i: nat)
    requires i < |s|
    ensures Keys(s[..i + 1]) == Keys(s[..i]) + {KeyOf(s[i])}
  {
    var a, b := s[..i + 1], s[..i];
    forall k | k in Keys(a) ensures k in Keys(b) + {KeyOf(s[i])} {
      var j :| 0 <= j < |a| && KeyOf(a[j]) == k;
      if j < i { assert KeyOf(b[j]) == k; }
    }
    forall k | k in Keys(b) + {KeyOf(s[i])} ensures k in Keys(a) {
      if k in Keys(b) {
        var j :| 0 <= j < |b| && KeyOf(b[j]) == k;
        assert KeyOf(a[j]) == k;
      } else {
        assert KeyOf(a[i]) == k;
      }
    }
  }

  /** Element i is a first occurrence exactly when its key is not among the earlier ones. */
  lemma FirstOccurrenceIff(s: seq<Record>, i: nat)
    requires i < |s|
    ensures IsFirstOccurrence(s, i) <==> KeyOf(s[i]) !in Keys(s[..i])
  {
    var k := KeyOf(s[i]);
    var f := FindIndex(s, k);
    if k in Keys(s[..i]) {
      var j :| 0 <= j < i && KeyOf(s[..i][j]) == k;
      assert KeyOf(s[j]) == k;
    }
  }

  lemma {:induction false} FilterFromIsDedupSeen(s: seq<Record>, i: nat)
    requires i <= |s|
    ensures FilterFrom(s, i) == DedupSeen(s[i..], Keys(s[..i]))
    decreases |s| - i
  {
    if i < |s| {
      var t, seen := s[i..], Keys(s[..i]);
      assert t[0] == s[i] && t[1..] == s[i + 1..];
      FilterFromIsDedupSeen(s, i + 1);
      KeysPrefix(s, i);
      FirstOccurrenceIff(s, i);
      DedupSeenStep(t, seen);
    }
  }

  /** One step of the reference pass, with the seen-set always extended. */
  lemma DedupSeenStep(t: seq<Record>, seen: set<Key>)
    requires t != []
    ensures DedupSeen(t, seen) ==
      (if KeyOf(t[0]) in seen then [] else [t[0]]) + DedupSeen(t[1..], seen + {KeyOf(t[0])})
  {
    if KeyOf(t[0]) in seen {
      assert seen + {KeyOf(t[0])} == seen;
    }
  }

  /** The index-based filter and the one-pass reference agree on every input. */
  lemma DedupIsDedupSeen(s: seq<Record>)
    ensures Dedup(s) == DedupSeen(s, {})
  {
    FilterFromIsDedupSeen(s, 0);
    assert s[0..] == s;
    assert Keys(s[..0]) == {};
  }

  // ---------------------------------------------------------------------------
  // Properties of the reference pass

  lemma {:induction false} KeysCons(r: Record, s: seq<Record>)
    ensures Keys([r] + s) == {KeyOf(r)} + Keys(s)
  {
    var t := [r] + s;
    forall k | k in Keys(t) ensures k in {KeyOf(r)} + Keys(s) {
      var j :| 0 <= j < |t| && KeyOf(t[j]) == k;
      if j > 0 { assert KeyOf(s[j - 1]) == k; }
    }
    forall k | k in {KeyOf(r)} + Keys(s) ensures k in Keys(t) {
      if k != KeyOf(r) {
        var j :| 0 <= j < |s| && KeyOf(s[j]) == k;
        assert KeyOf(t[j + 1]) == k;
      } else {
        assert KeyOf(t[0]) == k;
      }
    }
  }

  lemma {:induction false} KeysAppend(a: seq<Record>, b: seq<Record>)
    ensures Keys(a + b) == Keys(a) + Keys(b)
  {
    if a == [] {
      assert a + b == b;
    } else {
      assert a + b == [a[0]] + (a[1..] + b);
      assert a == [a[0]] + a[1..];
      KeysCons(a[0], a[1..] + b);
      KeysCons(a[0], a[1..]);
      KeysAppend(a[1..], b);
    }
  }

  lemma {:induction false} DedupSeenProperties(s: seq<Record>, seen: set<Key>)
    ensures var r := DedupSeen(s, seen);
      && DistinctKeys(r)
      && Keys(r) == Keys(s) - seen
      && IsSubsequence(r, s)
  {
    var r := DedupSeen(s, seen);
    if s != [] {
      KeysCons(s[0], s[1..]);
      assert s == [s[0]] + s[1..];
      if KeyOf(s[0]) in seen {
        DedupSeenProperties(s[1..], seen);
      } else {
        var seen' := seen + {KeyOf(s[0])};
        var rest := DedupSeen(s[1..], seen');
        DedupSeenProperties(s[1..], seen');
        KeysCons(s[0], rest);
        assert r == [s[0]] + rest;
        assert r[1..] == rest;
        forall i, j | 0 <= i < j < |r| ensures KeyOf(r[i]) != KeyOf(r[j]) {
          if i == 0 {
            assert r[j] == rest[j - 1] && KeyOf(rest[j - 1]) in Keys(rest);
          } else {
            assert r[i] == rest[i - 1] && r[j] == rest[j - 1];
          }
        }
      }
    }
  }

  lemma {:induction false} DedupSeenAppend(a: seq<Record>, b: seq<Record>, seen: set<Key>)
    ensures DedupSeen(a + b, seen) == DedupSeen(a, seen) + DedupSeen(b, seen + Keys(a))
  {
    if a == [] {
      assert a + b == b;
      assert Keys(a) == {};
      assert seen + Keys(a) == seen;
    } else {
      assert (a + b)[0] == a[0] && (a + b)[1..] == a[1..] + b;
      KeysCons(a[0], a[1..]);
      assert a == [a[0]] + a[1..];
      if KeyOf(a[0]) in seen {
        DedupSeenAppend(a[1..], b, seen);
        assert seen + Keys(a[1..]) == seen + Keys(a);
      } else {
        DedupSeenAppend(a[1..], b, seen + {KeyOf(a[0])});
        assert seen + {KeyOf(a[0])} + Keys(a[1..]) == seen + Keys(a);
      }
    }
  }

  /** A sequence with distinct keys, none of them already seen, passes unchanged. */
  lemma {:induction false} DedupSeenOfDistinct(s: seq<Record>, seen: set<Key>)
    requires DistinctKeys(s) && Keys(s) !! seen
    ensures DedupSeen(s, seen) == s
  {
    if s != [] {
      KeysCons(s[0], s[1..]);
      assert s == [s[0]] + s[1..];
      assert KeyOf(s[0]) in Keys(s);
      var seen' := seen + {KeyOf(s[0])};
      forall k | k in Keys(s[1..]) ensures k !in seen' {
        var j :| 0 <= j < |s[1..]| && KeyOf(s[1..][j]) == k;
        assert KeyOf(s[j + 1]) == k;
      }
      DedupSeenOfDistinct(s[1..], seen');
    }
  }

  /** Records whose keys have all been seen contribute nothing. */
  lemma {:induction false} DedupSeenAllSeen(s: seq<Record>, seen: set<Key>)
    requires Keys(s) <= seen
    ensures DedupSeen(s, seen) == []
  {
    if s != [] {
      KeysCons(s[0], s[1..]);
      assert s == [s[0]] + s[1..];
      DedupSeenAllSeen(s[1..], seen);
    }
  }

  // ---------------------------------------------------------------------------
  // Properties of the filter

  /** Each record the filter keeps is the first record of the whole input carrying its key. */
  lemma {:induction false} FilterFromKeepsFirsts(s: seq<Record>, i: nat, r: Record)
    requires i <= |s| && r in FilterFrom(s, i)
    ensures FindIndex(s, KeyOf(r)) >= 0 && s[FindIndex(s, KeyOf(r))] == r
    decreases |s| - i
  {
    if i < |s| {
      if !(IsFirstOccurrence(s, i) && r == s[i]) {
        FilterFromKeepsFirsts(s, i + 1, r);
      }
    }
  }

  /**
   * The duplicate filter's result has no two records with the same key, is a
   * subsequence of its input (records are only dropped, never altered or
   * reordered), keeps every key of the input, and what it keeps for each key
   * is the first record of the input carrying that key.
   */
  lemma DedupCorrect(s: seq<Record>)
    ensures var r := Dedup(s);
      && DistinctKeys(r)
      && IsSubsequence(r, s)
      && Keys(r) == Keys(s)
      && forall x :: x in r ==> FindIndex(s, KeyOf(x)) >= 0 && s[FindIndex(s, KeyOf(x))] == x
  {
    DedupIsDedupSeen(s);
    DedupSeenProperties(s, {});
    forall x | x in Dedup(s) ensures FindIndex(s, KeyOf(x)) >= 0 && s[FindIndex(s, KeyOf(x))] == x {
      FilterFromKeepsFirsts(s, 0, x);
    }
  }

  /** The first record of the input with each key is kept. */
  lemma FirstOccurrencesKept(s: seq<Record>, i: nat)
    requires i < |s| && IsFirstOccurrence(s, i)
    ensures s[i] in Dedup(s)
  {
    DedupCorrect(s);
    assert KeyOf(s[i]) in Keys(s);
    var r := Dedup(s);
    var j :| 0 <= j < |r| && KeyOf(r[j]) == KeyOf(s[i]);
    assert r[j] in r;
  }

  /** A sequence whose keys are already distinct is left unchanged. */
  lemma DedupOfDistinct(s: seq<Record>)
    requires DistinctKeys(s)
    ensures Dedup(s) == s
  {
    DedupIsDedupSeen(s);
    DedupSeenOfDistinct(s, {});
  }

  /** Filtering twice is filtering once. */
  lemma DedupIdempotent(s: seq<Record>)
    ensures Dedup(Dedup(s)) == Dedup(s)
  {
    DedupCorrect(s);
    DedupOfDistinct(Dedup(s));
  }

  /**
   * Filtering a concatenation keeps the filtered first part as a prefix: a
   * record of `a` is never displaced by a duplicate from `b`, and from `b`
   * only records with keys new to `a` are added.
   */
  lemma DedupAppend(a: seq<Record>, b: seq<Record>)
    ensures Dedup(a + b) == Dedup(a) + DedupSeen(b, Keys(a))
    ensures forall x :: x in DedupSeen(b, Keys(a)) ==> KeyOf(x) !in Keys(a)
  {
    DedupIsDedupSeen(a + b);
    DedupIsDedupSeen(a);
    DedupSeenAppend(a, b, {});
    assert {} + Keys(a) == Keys(a);
    DedupSeenProperties(b, Keys(a));
    var t := DedupSeen(b, Keys(a));
    forall x | x in t ensures KeyOf(x) !in Keys(a) {
      var j :| 0 <= j < |t| && t[j] == x;
      assert KeyOf(x) in Keys(t);
    }
  }
}
