/**
 * The format normaliser of build/main.js (lines 88-106).
 *
 * Every region whose list holds more than one format keeps the first format of each
 * length, sorts those by length, and then drops every format whose template is a
 * prefix of the template of another format of that sorted list. The filter compares
 * against the whole sorted list, not against the formats that survive it, so two
 * formats with equal templates remove each other.
 */
module Normaliser {
  import opened Types
  import opened Strings

  function Lengths(fs: seq<FormatEntry>): set<nat> {
    set e | e in fs :: e.length
  }

  ghost predicate DistinctLengths(fs: seq<FormatEntry>) {
    forall i, j :: 0 <= i < j < |fs| ==> fs[i].length != fs[j].length
  }

  ghost predicate SortedByLength(fs: seq<FormatEntry>) {
    forall i, j :: 0 <= i < j < |fs| ==> fs[i].length <= fs[j].length
  }

  ghost predicate StrictlyAscending(fs: seq<FormatEntry>) {
    forall i, j :: 0 <= i < j < |fs| ==> fs[i].length < fs[j].length
  }

  /** `fs[p]` is the first entry of `fs` with its length. */
  ghost predicate FirstOfItsLength(fs: seq<FormatEntry>, p: int) {
    0 <= p < |fs| && forall q :: 0 <= q < p ==> fs[q].length != fs[p].length
  }

  /** Lines 91-100: the entries whose length has not occurred before, in order. */
  function DedupByLength(fs: seq<FormatEntry>): seq<FormatEntry> {
    if fs == [] then []
    else
      var d := DedupByLength(fs[..|fs| - 1]);
      var e := fs[|fs| - 1];
      if e.length in Lengths(d) then d else d + [e]
  }

  /** Inserts `e` after every entry of `s` that is not longer than it (a stable insertion). */
  function InsertByLength(e: FormatEntry, s: seq<FormatEntry>): seq<FormatEntry> {
    if s == [] then [e]
    else if e.length < s[0].length then [e] + s
    else [s[0]] + InsertByLength(e, s[1..])
  }

  /** `arr.sort((a, b) => a.length - b.length)`, a stable sort by length. */
  function SortByLength(s: seq<FormatEntry>): seq<FormatEntry> {
    if s == [] then [] else InsertByLength(s[|s| - 1], SortByLength(s[..|s| - 1]))
  }

  /** `self.some((kek, j) => j != index && kek.format.startsWith(item.format))`. */
  predicate Dominated(s: seq<FormatEntry>, i: nat)
    requires i < |s|
  {
    exists j :: 0 <= j < |s| && j != i && StartsWith(s[j].format, s[i].format)
  }

  /** `arr.filter(...)` of lines 102-104 over the first `n` entries of `s`. */
  function KeepUndominated(s: seq<FormatEntry>, n: nat): seq<FormatEntry>
    requires n <= |s|
  {
    if n == 0 then []
    else KeepUndominated(s, n - 1) + (if Dominated(s, n - 1) then [] else [s[n - 1]])
  }

  /** The new list of one region (lines 89-105); lists of at most one entry are kept. */
  function Normalise(fs: seq<FormatEntry>): seq<FormatEntry> {
    if |fs| > 1 then
      var s := SortByLength(DedupByLength(fs));
      KeepUndominated(s, |s|)
    else fs
  }

  /** `formatObj` after line 106: every region's list normalised, in iteration order. */
  function NormaliseTable(t: Ordered<seq<FormatEntry>>): Ordered<seq<FormatEntry>>
    requires t.Valid()
  {
    MapValues(t, t.keys, Normalise)
  }

  // ---------------------------------------------------------------------------
  // Deduplication

  lemma LengthsAppend(d: seq<FormatEntry>, e: FormatEntry)
    ensures Lengths(d + [e]) == Lengths(d) + {e.length}
  {
    assert forall x :: x in d + [e] <==> x in d || x == e;
  }

  /** The deduplicated list has pairwise distinct lengths, loses no length of the input,
      and each of its entries is the first of the input with its length. */
  lemma DedupByLengthSpec(fs: seq<FormatEntry>)
    ensures var d := DedupByLength(fs);
      && DistinctLengths(d)
      && Lengths(d) == Lengths(fs)
      && (forall x :: x in d ==> exists p :: FirstOfItsLength(fs, p) && fs[p] == x)
  {
    DedupByLengthLengths(fs);
    DedupByLengthFirsts(fs);
  }

  /** The kept entries have distinct lengths, and every length of the input is kept. */
  lemma {:induction false} DedupByLengthLengths(fs: seq<FormatEntry>)
    ensures DistinctLengths(DedupByLength(fs))
    ensures Lengths(DedupByLength(fs)) == Lengths(fs)
  {
    if fs != [] {
      var prev := fs[..|fs| - 1];
      var e := fs[|fs| - 1];
      DedupByLengthLengths(prev);
      var d0 := DedupByLength(prev);
      LengthsAppend(prev, e);
      assert fs == prev + [e];
      if e.length !in Lengths(d0) {
        LengthsAppend(d0, e);
        var d := d0 + [e];
        forall i, j | 0 <= i < j < |d|
          ensures d[i].length != d[j].length
        {
          if j == |d| - 1 {
            assert d[i] in d0;
          }
        }
      }
    }
  }

  /** Every kept entry is the first of the input with its length. */
  lemma {:induction false} DedupByLengthFirsts(fs: seq<FormatEntry>)
    ensures forall x :: x in DedupByLength(fs) ==> exists p :: FirstOfItsLength(fs, p) && fs[p] == x
  {
    if fs != [] {
      var prev := fs[..|fs| - 1];
      var e := fs[|fs| - 1];
      DedupByLengthFirsts(prev);
      DedupByLengthLengths(prev);
      var d0 := DedupByLength(prev);
      forall x | x in d0
        ensures exists p :: FirstOfItsLength(fs, p) && fs[p] == x
      {
        var p :| FirstOfItsLength(prev, p) && prev[p] == x;
        assert forall q :: 0 <= q <= p ==> fs[q] == prev[q];
        assert FirstOfItsLength(fs, p);
      }
      if e.length !in Lengths(d0) {
        assert e.length !in Lengths(prev);
        forall q | 0 <= q < |fs| - 1
          ensures fs[q].length != e.length
        {
          assert fs[q] == prev[q];
          assert prev[q] in prev;
        }
        assert FirstOfItsLength(fs, |fs| - 1);
      }
    }
  }


  // ---------------------------------------------------------------------------
  // Sorting

  lemma ConsSorted(a: FormatEntry, t: seq<FormatEntry>)
    requires SortedByLength(t) && forall x :: x in t ==> a.length <= x.length
    ensures SortedByLength([a] + t)
  {
    var r := [a] + t;
    forall i, j | 0 <= i < j < |r|
      ensures r[i].length <= r[j].length
    {
      if i == 0 {
        assert r[j] in t;
      } else {
        assert r[i] == t[i - 1] && r[j] == t[j - 1];
      }
    }
  }

  lemma ConsStrict(a: FormatEntry, t: seq<FormatEntry>)
    requires StrictlyAscending(t) && forall x :: x in t ==> a.length < x.length
    ensures StrictlyAscending([a] + t)
  {
    var r := [a] + t;
    forall i, j | 0 <= i < j < |r|
      ensures r[i].length < r[j].length
    {
      if i == 0 {
        assert r[j] in t;
      } else {
        assert r[i] == t[i - 1] && r[j] == t[j - 1];
      }
    }
  }

  lemma SnocStrict(t: seq<FormatEntry>, a: FormatEntry)
    requires StrictlyAscending(t) && forall x :: x in t ==> x.length < a.length
    ensures StrictlyAscending(t + [a])
  {
    var r := t + [a];
    forall i, j | 0 <= i < j < |r|
      ensures r[i].length < r[j].length
    {
      if j == |t| {
        assert r[i] in t;
      }
    }
  }

  lemma {:induction false} InsertByLengthMultiset(e: FormatEntry, s: seq<FormatEntry>)
    ensures multiset(InsertByLength(e, s)) == multiset(s) + multiset{e}
    ensures forall x :: x in InsertByLength(e, s) <==> x in s || x == e
  {
    var r := InsertByLength(e, s);
    if s != [] && e.length >= s[0].length {
      InsertByLengthMultiset(e, s[1..]);
      assert s == [s[0]] + s[1..];
    }
    assert forall x :: x in r <==> x in multiset(r);
  }

  /** The first entry of a sorted list is no longer than any other. */
  lemma HeadShortest(s: seq<FormatEntry>)
    requires SortedByLength(s) && s != []
    ensures forall x :: x in s ==> s[0].length <= x.length
  {
    forall x | x in s
      ensures s[0].length <= x.length
    {
      var k :| 0 <= k < |s| && s[k] == x;
    }
  }

  /** Inserting into a sorted list keeps it sorted. */
  lemma {:induction false} InsertByLengthSorted(e: FormatEntry, s: seq<FormatEntry>)
    requires SortedByLength(s)
    ensures SortedByLength(InsertByLength(e, s))
  {
    if s != [] {
      HeadShortest(s);
      if e.length < s[0].length {
        ConsSorted(e, s);
      } else {
        var t := InsertByLength(e, s[1..]);
        InsertByLengthSorted(e, s[1..]);
        InsertByLengthMultiset(e, s[1..]);
        assert forall x :: x in s[1..] ==> x in s;
        ConsSorted(s[0], t);
      }
    }
  }

  /** Inserting a new length into a strictly ascending list keeps it strictly ascending. */
  lemma {:induction false} InsertByLengthStrict(e: FormatEntry, s: seq<FormatEntry>)
    requires StrictlyAscending(s) && e.length !in Lengths(s)
    ensures StrictlyAscending(InsertByLength(e, s))
  {
    if s != [] {
      assert s[0] in s;
      if e.length < s[0].length {
        forall x | x in s
          ensures e.length < x.length
        {
          var k :| 0 <= k < |s| && s[k] == x;
        }
        ConsStrict(e, s);
      } else {
        var t := InsertByLength(e, s[1..]);
        assert Lengths(s[1..]) <= Lengths(s);
        InsertByLengthStrict(e, s[1..]);
        InsertByLengthMultiset(e, s[1..]);
        assert e.length != s[0].length;
        forall x | x in t
          ensures s[0].length < x.length
        {
          if x != e {
            var k :| 0 <= k < |s[1..]| && s[1..][k] == x;
            assert s[k + 1] == x;
          }
        }
        ConsStrict(s[0], t);
      }
    }
  }

  lemma {:induction false} SortByLengthMultiset(s: seq<FormatEntry>)
    ensures multiset(SortByLength(s)) == multiset(s)
  {
    if s != [] {
      var prev := s[..|s| - 1];
      SortByLengthMultiset(prev);
      InsertByLengthMultiset(s[|s| - 1], SortByLength(prev));
      assert s == prev + [s[|s| - 1]];
    }
  }

  lemma SortByLengthPermutes(s: seq<FormatEntry>)
    ensures multiset(SortByLength(s)) == multiset(s)
    ensures forall x :: x in SortByLength(s) <==> x in s
  {
    SortByLengthMultiset(s);
    forall x
      ensures x in SortByLength(s) <==> x in s
    {
      assert x in SortByLength(s) <==> x in multiset(SortByLength(s));
      assert x in s <==> x in multiset(s);
    }
  }

  lemma {:induction false} SortByLengthSorted(s: seq<FormatEntry>)
    ensures SortedByLength(SortByLength(s))
    ensures DistinctLengths(s) ==> StrictlyAscending(SortByLength(s))
  {
    if s != [] {
      var prev := s[..|s| - 1];
      var e := s[|s| - 1];
      var r0 := SortByLength(prev);
      SortByLengthSorted(prev);
      InsertByLengthSorted(e, r0);
      if DistinctLengths(s) {
        assert DistinctLengths(prev);
        SortByLengthPermutes(prev);
        assert e.length !in Lengths(r0) by {
          forall x | x in r0
            ensures x.length != e.length
          {
            var q :| 0 <= q < |prev| && prev[q] == x;
            assert s[q] == x;
          }
        }
        InsertByLengthStrict(e, r0);
      }
    }
  }

  // ---------------------------------------------------------------------------
  // The prefix filter

  /** An entry survives the filter exactly when no other entry's template starts with its own. */
  lemma {:induction false} KeepUndominatedSpec(s: seq<FormatEntry>, n: nat)
    requires n <= |s|
    ensures forall x :: x in KeepUndominated(s, n) <==> exists i :: 0 <= i < n && s[i] == x && !Dominated(s, i)
    ensures StrictlyAscending(s) ==> StrictlyAscending(KeepUndominated(s, n))
  {
    if n > 0 {
      var m := n - 1;
      var r0 := KeepUndominated(s, m);
      KeepUndominatedSpec(s, m);
      var r := KeepUndominated(s, n);
      assert forall x :: x in r <==> x in r0 || (x == s[m] && !Dominated(s, m));
      forall x | x in r
        ensures exists i :: 0 <= i < n && s[i] == x && !Dominated(s, i)
      {
        if x in r0 {
          var i :| 0 <= i < m && s[i] == x && !Dominated(s, i);
          assert 0 <= i < n;
        } else {
          assert s[m] == x && !Dominated(s, m);
        }
      }
      forall x | exists i :: 0 <= i < n && s[i] == x && !Dominated(s, i)
        ensures x in r
      {
        var i :| 0 <= i < n && s[i] == x && !Dominated(s, i);
        if i < m {
          assert x in r0;
        }
      }
      if StrictlyAscending(s) && !Dominated(s, n - 1) {
        forall x | x in r0
          ensures x.length < s[n - 1].length
        {
          var k :| 0 <= k < n - 1 && s[k] == x && !Dominated(s, k);
        }
        SnocStrict(r0, s[n - 1]);
      }
    }
  }

  /** On a list of distinct lengths, being dominated means another entry has a template
      starting with this one. */
  lemma DominatedIffOtherPrefix(s: seq<FormatEntry>, i: nat)
    requires StrictlyAscending(s) && i < |s|
    ensures Dominated(s, i) <==> exists z :: z in s && z != s[i] && StartsWith(z.format, s[i].format)
  {
    if Dominated(s, i) {
      var j :| 0 <= j < |s| && j != i && StartsWith(s[j].format, s[i].format);
      assert j < i || i < j;
      assert s[j] in s && s[j] != s[i];
    }
    if exists z :: z in s && z != s[i] && StartsWith(z.format, s[i].format) {
      var z :| z in s && z != s[i] && StartsWith(z.format, s[i].format);
      var j :| 0 <= j < |s| && s[j] == z;
    }
  }

  /** On a list of distinct lengths, an entry is kept exactly when no other entry has a
      template starting with its template. */
  lemma KeptIffNoOtherPrefix(s: seq<FormatEntry>, y: FormatEntry)
    requires StrictlyAscending(s) && y in s
    ensures y in KeepUndominated(s, |s|) <==> forall z :: z in s && z != y ==> !StartsWith(z.format, y.format)
  {
    KeepUndominatedSpec(s, |s|);
    var i :| 0 <= i < |s| && s[i] == y;
    DominatedIffOtherPrefix(s, i);
    if y in KeepUndominated(s, |s|) {
      var k :| 0 <= k < |s| && s[k] == y && !Dominated(s, k);
      assert k == i;
    }
  }

  /**
   * Lines 88-105 on a list of more than one format, against the deduplicated list `d`:
   * the output is strictly ascending by length (so its lengths are distinct and sorted);
   * an entry of `d` is kept exactly when no other entry of `d` has a template starting
   * with its template; and every kept entry is the first of the input with its length.
   */
  lemma NormaliseSpec(fs: seq<FormatEntry>)
    requires |fs| > 1
    ensures var d := DedupByLength(fs); var r := Normalise(fs);
      && StrictlyAscending(r)
      && Lengths(d) == Lengths(fs)
      && (forall y :: y in d ==> (y in r <==> forall z :: z in d && z != y ==> !StartsWith(z.format, y.format)))
      && (forall x :: x in r ==> x in d)
      && (forall x :: x in r ==> exists p :: FirstOfItsLength(fs, p) && fs[p] == x)
  {
    DedupByLengthSpec(fs);
    NormaliseAscending(fs);
    NormaliseKeptIff(fs);
    NormaliseFromFirsts(fs);
  }

  /** The output is strictly ascending by length. */
  lemma NormaliseAscending(fs: seq<FormatEntry>)
    requires |fs| > 1
    ensures StrictlyAscending(Normalise(fs))
  {
    var d := DedupByLength(fs);
    var s := SortByLength(d);
    DedupByLengthSpec(fs);
    SortByLengthSorted(d);
    KeepUndominatedSpec(s, |s|);
  }

  /** An entry of the deduplicated list survives exactly when no other entry's template
      starts with its template. */
  lemma NormaliseKeptIff(fs: seq<FormatEntry>)
    requires |fs| > 1
    ensures forall y :: y in DedupByLength(fs) ==>
      (y in Normalise(fs) <==> forall z :: z in DedupByLength(fs) && z != y ==> !StartsWith(z.format, y.format))
  {
    var d := DedupByLength(fs);
    var s := SortByLength(d);
    DedupByLengthSpec(fs);
    SortByLengthPermutes(d);
    SortByLengthSorted(d);
    forall y | y in d
      ensures y in Normalise(fs) <==> forall z :: z in d && z != y ==> !StartsWith(z.format, y.format)
    {
      KeptIffNoOtherPrefix(s, y);
    }
  }

  /** Every surviving entry is the first of the input with its length. */
  lemma NormaliseFromFirsts(fs: seq<FormatEntry>)
    requires |fs| > 1
    ensures forall x :: x in Normalise(fs) ==> x in DedupByLength(fs)
    ensures forall x :: x in Normalise(fs) ==> exists p :: FirstOfItsLength(fs, p) && fs[p] == x
  {
    var d := DedupByLength(fs);
    var s := SortByLength(d);
    DedupByLengthSpec(fs);
    SortByLengthPermutes(d);
    KeepUndominatedSpec(s, |s|);
  }

  /** Two formats of equal template and different length remove each other. */
  lemma EqualTemplatesRemoveEachOther(fs: seq<FormatEntry>, x: FormatEntry, y: FormatEntry)
    requires |fs| > 1
    requires x in DedupByLength(fs) && y in DedupByLength(fs)
    requires x != y && x.format == y.format
    ensures x !in Normalise(fs) && y !in Normalise(fs)
  {
    NormaliseSpec(fs);
  }

  /** Lists of at most one format are left as they are. */
  lemma ShortListsUntouched(fs: seq<FormatEntry>)
    requires |fs| <= 1
    ensures Normalise(fs) == fs
  {
  }

  /** Every region keeps its place in the iteration order and gets its normalised list. */
  lemma NormaliseTableSpec(t: Ordered<seq<FormatEntry>>)
    requires t.Valid()
    ensures var r := NormaliseTable(t);
      && r.Valid() && r.keys == t.keys && r.values.Keys == t.values.Keys
      && forall k :: k in t.values ==> r.values[k] == Normalise(t.values[k])
  {
    MapValuesSpec(t, t.keys, Normalise);
  }

  // ---------------------------------------------------------------------------
  // The loops of lines 88-106

  /** Lines 91-100: a set of the lengths met so far and the array of kept entries. */
  method DedupLengths(fs: seq<FormatEntry>) returns (arr: seq<FormatEntry>)
    ensures arr == DedupByLength(fs)
  {
    var seenLengths: set<nat> := {};
    arr := [];
    for i := 0 to |fs|
      invariant arr == DedupByLength(fs[..i])
      invariant seenLengths == Lengths(arr)
    {
      var item := fs[i];
      assert fs[..i + 1][..i] == fs[..i];
      if item.length !in seenLengths {
        LengthsAppend(arr, item);
        seenLengths := seenLengths + {item.length};
        arr := arr + [item];
      }
    }
    assert fs[..|fs|] == fs;
  }

  /** Lines 88-106: every region's list is replaced by its normalised list. */
  method NormaliseFormats(t: Ordered<seq<FormatEntry>>) returns (r: Ordered<seq<FormatEntry>>)
    requires t.Valid()
    ensures r == NormaliseTable(t)
  {
    r := t;
    for i := 0 to |t.keys|
      invariant r == MapValues(t, t.keys[..i], Normalise)
      invariant t.values.Keys <= r.values.Keys
    {
      var key := t.keys[i];
      assert t.keys[..i + 1][..i] == t.keys[..i];
      var format := r.values[key];
      if |format| > 1 {
        var arr := DedupLengths(format);
        var sorted := SortByLength(arr);
        r := r.Set(key, KeepUndominated(sorted, |sorted|));
      } else {
        assert r.Set(key, format).values == r.values;
      }
    }
    assert t.keys[..|t.keys|] == t.keys;
  }
}
