/**
 * The format interner of build/main.js (lines 107-135).
 *
 * One pass over the regions of the normalised table, in order, and over each region's
 * formats, in order, builds `formatsList`. Each format scans the list from the start
 * for the first slot whose template starts with its own or whose template its own
 * starts with. In the first case the slot is only counted; in the second the slot's
 * template is overwritten with the incoming, longer, template and counted. With no
 * such slot a new slot with `repeatingTimes = 0` is appended. The format records the
 * slot index.
 */
module Interner {
  import opened Types
  import opened Strings

  /** Lines 115 and 120: one template starts with the other. */
  predicate Related(stored: string, f: string) {
    StartsWith(stored, f) || StartsWith(f, stored)
  }

  /** The scan of lines 113-126 from slot `j` on: the first related slot, or -1. */
  function FirstRelatedFrom(slots: seq<Slot>, f: string, j: nat): (r: int)
    decreases |slots| - j
    ensures r == -1 || j <= r < |slots|
    ensures r >= 0 ==> Related(slots[r].format, f)
    ensures forall k :: j <= k < |slots| && (r < 0 || k < r) ==> !Related(slots[k].format, f)
  {
    if j >= |slots| then -1
    else if Related(slots[j].format, f) then j
    else FirstRelatedFrom(slots, f, j + 1)
  }

  function FirstRelated(slots: seq<Slot>, f: string): int {
    FirstRelatedFrom(slots, f, 0)
  }

  /** Lines 112-133 for one format template: the new table and the slot bound to it. */
  function InternOne(slots: seq<Slot>, f: string): (seq<Slot>, nat) {
    var j := FirstRelated(slots, f);
    if j < 0 then (slots + [Slot(f, 0)], |slots|)
    else if StartsWith(slots[j].format, f) then (slots[j := Slot(slots[j].format, slots[j].repeatingTimes + 1)], j)
    else (slots[j := Slot(f, slots[j].repeatingTimes + 1)], j)
  }

  /** The formats of one region, in order; each gets its slot index. */
  function InternList(slots: seq<Slot>, fs: seq<FormatEntry>): (seq<Slot>, seq<FormatEntry>) {
    if fs == [] then (slots, [])
    else
      var prev := InternList(slots, fs[..|fs| - 1]);
      var e := fs[|fs| - 1];
      var next := InternOne(prev.0, e.format);
      (next.0, prev.1 + [e.(index := next.1)])
  }

  /** Lines 108-135 over the first keys of the table. */
  function InternKeys(slots: seq<Slot>, t: Ordered<seq<FormatEntry>>, keys: seq<string>): (r: (seq<Slot>, Ordered<seq<FormatEntry>>))
    requires forall k :: k in keys ==> k in t.values
    ensures t.values.Keys <= r.1.values.Keys
  {
    if keys == [] then (slots, t)
    else
      var prev := InternKeys(slots, t, keys[..|keys| - 1]);
      var k := keys[|keys| - 1];
      var next := InternList(prev.0, prev.1.values[k]);
      (next.0, prev.1.Set(k, next.1))
  }

  /** `formatsList` and the table with every format's slot index, after line 135. */
  function InternTable(t: Ordered<seq<FormatEntry>>): (seq<Slot>, Ordered<seq<FormatEntry>>)
    requires t.Valid()
  {
    InternKeys([], t, t.keys)
  }

  /** A table only grows: no slot disappears, a stored template only changes to a
      template it is a prefix of, and no counter goes down. */
  ghost predicate Grows(before: seq<Slot>, after: seq<Slot>) {
    && |before| <= |after|
    && forall k :: 0 <= k < |before| ==>
         StartsWith(after[k].format, before[k].format) && before[k].repeatingTimes <= after[k].repeatingTimes
  }

  /** Every format is bound to a slot whose template starts with the format's template. */
  ghost predicate Bound(slots: seq<Slot>, fs: seq<FormatEntry>) {
    forall e :: e in fs ==> 0 <= e.index < |slots| && StartsWith(slots[e.index].format, e.format)
  }

  /** Only the slot index of each format changes. */
  ghost predicate SameFormats(fs: seq<FormatEntry>, out: seq<FormatEntry>) {
    |out| == |fs| && forall i :: 0 <= i < |fs| ==> out[i] == fs[i].(index := out[i].index)
  }

  // ---------------------------------------------------------------------------
  // Properties

  lemma PrefixTransitive(a: string, b: string, c: string)
    requires StartsWith(b, a) && StartsWith(c, b)
    ensures StartsWith(c, a)
  {
    assert c[..|a|] == c[..|b|][..|a|];
  }

  lemma GrowsTransitive(a: seq<Slot>, b: seq<Slot>, c: seq<Slot>)
    requires Grows(a, b) && Grows(b, c)
    ensures Grows(a, c)
  {
    forall k | 0 <= k < |a|
      ensures StartsWith(c[k].format, a[k].format)
    {
      PrefixTransitive(a[k].format, b[k].format, c[k].format);
    }
  }

  lemma BoundAfterGrowth(a: seq<Slot>, b: seq<Slot>, fs: seq<FormatEntry>)
    requires Bound(a, fs) && Grows(a, b)
    ensures Bound(b, fs)
  {
    forall e | e in fs
      ensures StartsWith(b[e.index].format, e.format)
    {
      PrefixTransitive(e.format, a[e.index].format, b[e.index].format);
    }
  }

  /**
   * One format: a slot is appended, with `repeatingTimes = 0`, exactly when no slot is
   * related to it in either direction; otherwise the first related slot is chosen, its
   * counter rises by exactly one and no other slot changes. The chosen slot keeps the
   * longer of its template and the format's template (one is a prefix of the other), so it
   * starts with the format's template afterwards, and the table only grows.
   */
  lemma InternOneSpec(slots: seq<Slot>, f: string)
    ensures var (after, i) := InternOne(slots, f);
      && 0 <= i < |after|
      && StartsWith(after[i].format, f)
      && Grows(slots, after)
      && ((forall k :: 0 <= k < |slots| ==> !Related(slots[k].format, f)) <==> |after| == |slots| + 1)
      && (|after| == |slots| + 1 ==> after == slots + [Slot(f, 0)] && i == |slots|)
      && (|after| == |slots| ==>
            && Related(slots[i].format, f)
            && (forall k :: 0 <= k < i ==> !Related(slots[k].format, f))
            && after[i].repeatingTimes == slots[i].repeatingTimes + 1
            && after[i].format == (if StartsWith(slots[i].format, f) then slots[i].format else f)
            && (forall k :: 0 <= k < |slots| && k != i ==> after[k] == slots[k]))
  {
  }

  /** The templates `"0000"` then `"000000"` share one slot, counted once, whose template
      becomes the longer `"000000"`. */
  lemma LongerTemplateWins()
    ensures InternList([], [FormatEntry("0000", 4, -1), FormatEntry("000000", 6, -1)]) ==
      ([Slot("000000", 1)], [FormatEntry("0000", 4, 0), FormatEntry("000000", 6, 0)])
  {
    var fs := [FormatEntry("0000", 4, -1), FormatEntry("000000", 6, -1)];
    assert fs[..1][..0] == [];
    assert InternList([], []) == ([], []);
    assert FirstRelated([], "0000") == -1;
    var first := InternOne([], "0000");
    assert first.0 == [Slot("0000", 0)] && first.1 == 0;
    var l1 := InternList([], fs[..1]);
    assert l1.0 == [Slot("0000", 0)];
    assert l1.1 == [FormatEntry("0000", 4, 0)];
    var one := [Slot("0000", 0)];
    assert !StartsWith("0000", "000000");
    assert "000000"[..4] == "0000";
    assert StartsWith("000000", "0000");
    assert FirstRelated(one, "000000") == 0;
    var second := InternOne(one, "000000");
    assert second.0 == [Slot("000000", 1)] && second.1 == 0;
    assert fs[..1] == fs[..|fs| - 1];
    var whole := InternList([], fs);
    assert whole.0 == second.0;
    assert whole.1 == l1.1 + [fs[1].(index := 0)];
    assert whole.0 == [Slot("000000", 1)];
    assert whole.1 == [FormatEntry("0000", 4, 0), FormatEntry("000000", 6, 0)];
    assert whole == ([Slot("000000", 1)], [FormatEntry("0000", 4, 0), FormatEntry("000000", 6, 0)]);
  }

  /** One region's formats only grow the table. */
  lemma {:induction false} InternListGrows(slots: seq<Slot>, fs: seq<FormatEntry>)
    ensures Grows(slots, InternList(slots, fs).0)
  {
    if fs != [] {
      var prev := fs[..|fs| - 1];
      InternListGrows(slots, prev);
      var s1 := InternList(slots, prev).0;
      InternOneSpec(s1, fs[|fs| - 1].format);
      GrowsTransitive(slots, s1, InternList(slots, fs).0);
    }
  }

  /** One region's formats: each keeps its template and length, is bound to a slot whose
      template starts with its own, and the table only grows. */
  lemma InternListSpec(slots: seq<Slot>, fs: seq<FormatEntry>)
    ensures Grows(slots, InternList(slots, fs).0)
    ensures Bound(InternList(slots, fs).0, InternList(slots, fs).1)
    ensures SameFormats(fs, InternList(slots, fs).1)
  {
    InternListGrows(slots, fs);
    InternListBound(slots, fs);
    InternListSameFormats(slots, fs);
  }

  lemma {:induction false} InternListBound(slots: seq<Slot>, fs: seq<FormatEntry>)
    ensures Bound(InternList(slots, fs).0, InternList(slots, fs).1)
  {
    if fs != [] {
      var prev := fs[..|fs| - 1];
      var e := fs[|fs| - 1];
      InternListBound(slots, prev);
      var (s1, out1) := InternList(slots, prev);
      var (s2, i) := InternOne(s1, e.format);
      InternOneSpec(s1, e.format);
      BoundAfterGrowth(s1, s2, out1);
      var out := out1 + [e.(index := i)];
      assert InternList(slots, fs) == (s2, out);
      assert forall x :: x in out ==> x in out1 || x == e.(index := i);
    }
  }

  lemma {:induction false} InternListSameFormats(slots: seq<Slot>, fs: seq<FormatEntry>)
    ensures SameFormats(fs, InternList(slots, fs).1)
  {
    if fs != [] {
      var prev := fs[..|fs| - 1];
      InternListSameFormats(slots, prev);
      var out1 := InternList(slots, prev).1;
      var out := InternList(slots, fs).1;
      assert out[..|prev|] == out1;
      assert forall i :: 0 <= i < |prev| ==> fs[i] == prev[i];
    }
  }


  ghost predicate AllBound(slots: seq<Slot>, t: Ordered<seq<FormatEntry>>, keys: seq<string>) {
    forall k :: k in keys && k in t.values ==> Bound(slots, t.values[k])
  }

  /** The whole pass keeps every region in its place with the same formats, and binds
      every format of every region to a slot of the final table whose template starts
      with the format's template. */
  lemma {:induction false} InternKeysSpec(slots: seq<Slot>, t: Ordered<seq<FormatEntry>>, keys: seq<string>)
    requires t.Valid()
    requires forall i, j :: 0 <= i < j < |keys| ==> keys[i] != keys[j]
    requires forall k :: k in keys ==> k in t.values
    ensures var (after, r) := InternKeys(slots, t, keys);
      && Grows(slots, after)
      && r.Valid() && r.keys == t.keys && r.values.Keys == t.values.Keys
      && AllBound(after, r, keys)
      && (forall k :: k in t.values && k !in keys ==> r.values[k] == t.values[k])
      && (forall k :: k in keys ==> SameFormats(t.values[k], r.values[k]))
  {
    if keys != [] {
      var prev := keys[..|keys| - 1];
      var k := keys[|keys| - 1];
      assert k !in prev by {
        forall i | 0 <= i < |prev|
          ensures prev[i] != k
        {
        }
      }
      InternKeysSpec(slots, t, prev);
      var (s1, o) := InternKeys(slots, t, prev);
      assert o.values[k] == t.values[k];
      var (s2, l) := InternList(s1, o.values[k]);
      InternListSpec(s1, o.values[k]);
      GrowsTransitive(slots, s1, s2);
      var r := o.Set(k, l);
      assert InternKeys(slots, t, keys) == (s2, r);
      assert r.values == o.values[k := l];
      forall j | j in keys && j in r.values
        ensures Bound(s2, r.values[j])
      {
        if j != k {
          BoundAfterGrowth(s1, s2, o.values[j]);
        }
      }
      assert forall j :: j in keys <==> j in prev || j == k;
    }
  }

  /** After line 135 every format of the table holds a valid slot index, and that
      slot's template starts with the format's template. */
  lemma InternTableSpec(t: Ordered<seq<FormatEntry>>)
    requires t.Valid()
    ensures var (slots, r) := InternTable(t);
      && r.Valid() && r.keys == t.keys && r.values.Keys == t.values.Keys
      && (forall k :: k in r.values ==> Bound(slots, r.values[k]) && SameFormats(t.values[k], r.values[k]))
  {
    InternKeysSpec([], t, t.keys);
  }

  /** Feeding formats whose templates are all prefixes of stored templates creates no
      slot: in particular, re-interning the table's own templates leaves its size alone. */
  lemma {:induction false} ReinternCreatesNoSlot(slots: seq<Slot>, fs: seq<FormatEntry>)
    requires forall e :: e in fs ==> exists k :: 0 <= k < |slots| && StartsWith(slots[k].format, e.format)
    ensures |InternList(slots, fs).0| == |slots|
  {
    if fs != [] {
      var prev := fs[..|fs| - 1];
      var e := fs[|fs| - 1];
      assert forall x :: x in prev ==> x in fs;
      ReinternCreatesNoSlot(slots, prev);
      InternListGrows(slots, prev);
      var s1 := InternList(slots, prev).0;
      var k :| 0 <= k < |slots| && StartsWith(slots[k].format, e.format);
      PrefixTransitive(e.format, slots[k].format, s1[k].format);
      assert Related(s1[k].format, e.format);
      assert FirstRelated(s1, e.format) >= 0;
      assert |InternOne(s1, e.format).0| == |s1|;
    }
  }

  /** The templates of a table, as formats to intern. */
  function Templates(slots: seq<Slot>): (fs: seq<FormatEntry>)
    ensures |fs| == |slots| && forall i :: 0 <= i < |slots| ==> fs[i].format == slots[i].format
  {
    seq(|slots|, i requires 0 <= i < |slots| => FormatEntry(slots[i].format, |slots[i].format|, -1))
  }

  /** Interning the table's own templates again creates no slot. */
  lemma InterningIsIdempotent(slots: seq<Slot>)
    ensures |InternList(slots, Templates(slots)).0| == |slots|
  {
    var fs := Templates(slots);
    forall e | e in fs
      ensures exists k :: 0 <= k < |slots| && StartsWith(slots[k].format, e.format)
    {
      var i :| 0 <= i < |fs| && fs[i] == e;
      assert StartsWith(slots[i].format, e.format);
    }
    ReinternCreatesNoSlot(slots, fs);
  }

  // ---------------------------------------------------------------------------
  // The loops of lines 107-135

  /** Lines 112-133 for one format: the scan for the first related slot, then the slot
      update or the new slot, and the format bound to its slot. */
  method InternFormat(formatsList0: seq<Slot>, format0: FormatEntry) returns (formatsList: seq<Slot>, format: FormatEntry)
    ensures (formatsList, format.index) == InternOne(formatsList0, format0.format)
    ensures format == format0.(index := format.index)
  {
    formatsList := formatsList0;
    format := format0;
    var index := -1;
    var j := 0;
    while j < |formatsList|
      invariant 0 <= j <= |formatsList|
      invariant formatsList == formatsList0 && index == -1
      invariant FirstRelated(formatsList0, format.format) == FirstRelatedFrom(formatsList0, format.format, j)
    {
      var existingFormat := formatsList[j];
      if StartsWith(existingFormat.format, format.format) {
        formatsList := formatsList[j := Slot(existingFormat.format, existingFormat.repeatingTimes + 1)];
        index := j;
        break;
      } else if StartsWith(format.format, existingFormat.format) {
        index := j;
        formatsList := formatsList[j := Slot(format.format, existingFormat.repeatingTimes + 1)];
        break;
      }
      j := j + 1;
    }
    if index < 0 {
      format := format.(index := |formatsList|);
      formatsList := formatsList + [Slot(format.format, 0)];
    } else {
      format := format.(index := index);
    }
  }

  method InternFormats(t: Ordered<seq<FormatEntry>>) returns (formatsList: seq<Slot>, r: Ordered<seq<FormatEntry>>)
    requires t.Valid()
    ensures (formatsList, r) == InternTable(t)
  {
    formatsList := [];
    r := t;
    for ki := 0 to |t.keys|
      invariant (formatsList, r) == InternKeys([], t, t.keys[..ki])
    {
      var key := t.keys[ki];
      assert t.keys[..ki + 1][..ki] == t.keys[..ki];
      var formats := r.values[key];
      ghost var atKey := formatsList;
      var done: seq<FormatEntry> := [];
      for i := 0 to |formats|
        invariant (formatsList, done) == InternList(atKey, formats[..i])
      {
        var format := formats[i];
        assert formats[..i + 1][..i] == formats[..i];
        formatsList, format := InternFormat(formatsList, format);
        done := done + [format];
      }
      assert formats[..|formats|] == formats;
      r := r.Set(key, done);
    }
    assert t.keys[..|t.keys|] == t.keys;
  }
}
