/**
 * The emission loop of build/main.js (lines 188-215), reduced to the values it
 * accumulates over all countries: the longest calling code, the longest number
 * length, and the shared format constants written once each to the constants file.
 *
 * The loop visits the calling codes of the country groups in the order `for...in`
 * gives (ascending numeric for such keys, here the parameter `order`), each code's
 * records in list order, and each record's format entries in order. An entry whose
 * interned template is used more than once (`repeatingTimes` non-zero) refers to a
 * shared constant `format<index>`, emitted on its first use only.
 *
 * A record without formats makes `.reduce` throw, and an entry whose index has no
 * interned template makes `.repeatingTimes` throw: either aborts the run.
 */
module Aggregate {
  import opened Wrappers
  import opened Types
  import opened Resolver

  datatype Stats = Stats(longestCallingCode: nat, longestNumber: nat, shared: seq<nat>)

  /** What a thrown `TypeError` leaves of the run. */
  const Aborted := "TypeError"

  /** The format entries of records `cs` in visiting order; `None` when one has none. */
  function CountryFormats(cs: seq<Country>): Option<seq<FormatEntry>> {
    if cs == [] then Some([])
    else
      match CountryFormats(cs[..|cs| - 1])
      case None => None
      case Some(fs) =>
        var c := cs[|cs| - 1];
        if c.formats.None? then None else Some(fs + c.formats.value)
  }

  /** The format entries of the calling codes `keys` in visiting order. */
  function Visited(groups: Groups, keys: seq<string>): Option<seq<FormatEntry>>
    requires forall k :: k in keys ==> k in groups
  {
    if keys == [] then Some([])
    else
      match Visited(groups, keys[..|keys| - 1])
      case None => None
      case Some(fs) =>
        match CountryFormats(groups[keys[|keys| - 1]])
        case None => None
        case Some(gs) => Some(fs + gs)
  }

  /** The running maximum of lines 195-197. */
  function MaxKeyLength(keys: seq<string>): nat {
    if keys == [] then 0
    else
      var m := MaxKeyLength(keys[..|keys| - 1]);
      if |keys[|keys| - 1]| > m then |keys[|keys| - 1]| else m
  }

  /** The running maximum of lines 205-207. */
  function MaxLength(fs: seq<FormatEntry>): nat {
    if fs == [] then 0
    else
      var m := MaxLength(fs[..|fs| - 1]);
      if fs[|fs| - 1].length > m then fs[|fs| - 1].length else m
  }

  predicate IndicesValid(fs: seq<FormatEntry>, slots: seq<Slot>) {
    forall i :: 0 <= i < |fs| ==> 0 <= fs[i].index < |slots|
  }

  /** The shared constants in order of first use (lines 209-215). */
  function Shared(fs: seq<FormatEntry>, slots: seq<Slot>): seq<nat>
    requires IndicesValid(fs, slots)
  {
    if fs == [] then []
    else
      var s := Shared(fs[..|fs| - 1], slots);
      var x := fs[|fs| - 1].index;
      if slots[x].repeatingTimes > 0 && x !in s then s + [x] else s
  }

  /** The loop of lines 193-215 as a whole. */
  function Summarise(groups: Groups, order: seq<string>, slots: seq<Slot>): Result<Stats, string>
    requires forall k :: k in order ==> k in groups
  {
    match Visited(groups, order)
    case None => Failure(Aborted)
    case Some(fs) =>
      if IndicesValid(fs, slots) then Success(Stats(MaxKeyLength(order), MaxLength(fs), Shared(fs, slots)))
      else Failure(Aborted)
  }

  // ---------------------------------------------------------------------------
  // What the visited entries are

  /** Record `j` of `cs` has the format entry `e`. */
  ghost predicate HasEntry(cs: seq<Country>, j: int, e: FormatEntry) {
    0 <= j < |cs| && cs[j].formats.Some? && e in cs[j].formats.value
  }

  /** Every record has formats exactly when the entries can be collected, and then the
      entries collected are exactly those of the records. */
  lemma {:induction false} CountryFormatsSpec(cs: seq<Country>)
    ensures CountryFormats(cs).Some? <==> forall j :: 0 <= j < |cs| ==> cs[j].formats.Some?
    ensures CountryFormats(cs).Some? ==>
      forall e :: e in CountryFormats(cs).value <==> exists j :: HasEntry(cs, j, e)
  {
    if cs != [] {
      var prev := cs[..|cs| - 1];
      CountryFormatsSpec(prev);
      assert forall j :: 0 <= j < |prev| ==> prev[j] == cs[j];
      if CountryFormats(cs).Some? {
        forall e ensures e in CountryFormats(cs).value <==> exists j :: HasEntry(cs, j, e) {
          if e in CountryFormats(cs).value {
            if e in CountryFormats(prev).value {
              var j :| HasEntry(prev, j, e);
              assert HasEntry(cs, j, e);
            } else {
              assert HasEntry(cs, |cs| - 1, e);
            }
          }
          if exists j :: HasEntry(cs, j, e) {
            var j :| HasEntry(cs, j, e);
            if j < |prev| {
              assert HasEntry(prev, j, e);
            }
          }
        }
      }
    }
  }

  /** Calling code `keys[i]` has, at record `j`, the format entry `e`. */
  ghost predicate GroupHasEntry(groups: Groups, keys: seq<string>, i: int, j: int, e: FormatEntry)
    requires forall k :: k in keys ==> k in groups
  {
    0 <= i < |keys| && HasEntry(groups[keys[i]], j, e)
  }

  /** The same over the calling codes visited. */
  lemma {:induction false} VisitedSpec(groups: Groups, keys: seq<string>)
    requires forall k :: k in keys ==> k in groups
    ensures Visited(groups, keys).Some? <==>
      forall i, j :: 0 <= i < |keys| && 0 <= j < |groups[keys[i]]| ==> groups[keys[i]][j].formats.Some?
    ensures Visited(groups, keys).Some? ==>
      forall e :: e in Visited(groups, keys).value <==> exists i, j :: GroupHasEntry(groups, keys, i, j, e)
  {
    if keys != [] {
      var prev := keys[..|keys| - 1];
      var last := keys[|keys| - 1];
      VisitedSpec(groups, prev);
      CountryFormatsSpec(groups[last]);
      assert forall i :: 0 <= i < |prev| ==> prev[i] == keys[i];
      if Visited(groups, keys).Some? {
        forall e ensures e in Visited(groups, keys).value <==> exists i, j :: GroupHasEntry(groups, keys, i, j, e) {
          if e in Visited(groups, keys).value {
            if e in Visited(groups, prev).value {
              var i, j :| GroupHasEntry(groups, prev, i, j, e);
              assert GroupHasEntry(groups, keys, i, j, e);
            } else {
              var j :| HasEntry(groups[last], j, e);
              assert GroupHasEntry(groups, keys, |keys| - 1, j, e);
            }
          }
          if exists i, j :: GroupHasEntry(groups, keys, i, j, e) {
            var i, j :| GroupHasEntry(groups, keys, i, j, e);
            if i < |prev| {
              assert GroupHasEntry(groups, prev, i, j, e);
            } else {
              assert HasEntry(groups[last], j, e);
            }
          }
        }
      } else if Visited(groups, prev).Some? {
        var j :| 0 <= j < |groups[last]| && groups[last][j].formats.None?;
        assert groups[keys[|keys| - 1]][j].formats.None?;
      }
    }
  }

  // ---------------------------------------------------------------------------
  // The accumulated values

  /** The longest calling code is at least as long as every code and is the length of one. */
  lemma {:induction false} MaxKeyLengthSpec(keys: seq<string>)
    ensures forall i :: 0 <= i < |keys| ==> |keys[i]| <= MaxKeyLength(keys)
    ensures MaxKeyLength(keys) == 0 || exists i :: 0 <= i < |keys| && |keys[i]| == MaxKeyLength(keys)
  {
    if keys != [] {
      var prev := keys[..|keys| - 1];
      MaxKeyLengthSpec(prev);
      assert forall i :: 0 <= i < |prev| ==> prev[i] == keys[i];
      if MaxKeyLength(keys) == MaxKeyLength(prev) && MaxKeyLength(prev) != 0 {
        var i :| 0 <= i < |prev| && |prev[i]| == MaxKeyLength(prev);
        assert |keys[i]| == MaxKeyLength(keys);
      }
    }
  }

  /** The longest number is at least every entry's length and is the length of one. */
  lemma {:induction false} MaxLengthSpec(fs: seq<FormatEntry>)
    ensures forall i :: 0 <= i < |fs| ==> fs[i].length <= MaxLength(fs)
    ensures MaxLength(fs) == 0 || exists i :: 0 <= i < |fs| && fs[i].length == MaxLength(fs)
  {
    if fs != [] {
      var prev := fs[..|fs| - 1];
      MaxLengthSpec(prev);
      assert forall i :: 0 <= i < |prev| ==> prev[i] == fs[i];
      if MaxLength(fs) == MaxLength(prev) && MaxLength(prev) != 0 {
        var i :| 0 <= i < |prev| && prev[i].length == MaxLength(prev);
        assert fs[i].length == MaxLength(fs);
      }
    }
  }

  /** Each shared constant is emitted once, and exactly the templates used more than once
      are emitted. */
  lemma {:induction false} SharedSpec(fs: seq<FormatEntry>, slots: seq<Slot>)
    requires IndicesValid(fs, slots)
    ensures forall a, b :: 0 <= a < b < |Shared(fs, slots)| ==> Shared(fs, slots)[a] != Shared(fs, slots)[b]
    ensures forall x: nat :: x in Shared(fs, slots) <==>
      x < |slots| && slots[x].repeatingTimes > 0 && exists i :: 0 <= i < |fs| && fs[i].index == x
  {
    if fs != [] {
      var prev := fs[..|fs| - 1];
      SharedSpec(prev, slots);
      assert forall i :: 0 <= i < |prev| ==> prev[i] == fs[i];
      forall x: nat ensures x in Shared(fs, slots) <==>
        x < |slots| && slots[x].repeatingTimes > 0 && exists i :: 0 <= i < |fs| && fs[i].index == x
      {
        if x < |slots| && slots[x].repeatingTimes > 0 && exists i :: 0 <= i < |fs| && fs[i].index == x {
          var i :| 0 <= i < |fs| && fs[i].index == x;
          if i < |prev| {
            assert prev[i].index == x;
          }
        }
      }
    }
  }

  /**
   * What a completed loop has accumulated, stated on the country groups themselves: the
   * longest calling code and the longest number bound every code and every format entry,
   * and every entry of a template used more than once names an emitted constant. The loop
   * completes exactly when every visited record has formats and every entry's index has
   * an interned template.
   */
  lemma SummariseSpec(groups: Groups, order: seq<string>, slots: seq<Slot>)
    requires forall k :: k in groups <==> k in order
    ensures Summarise(groups, order, slots).Success? <==>
      (forall i, j :: 0 <= i < |order| && 0 <= j < |groups[order[i]]| ==> groups[order[i]][j].formats.Some?) &&
      (forall i, j, e :: GroupHasEntry(groups, order, i, j, e) ==> 0 <= e.index < |slots|)
    ensures Summarise(groups, order, slots).Success? ==>
      var st := Summarise(groups, order, slots).value;
      && (forall code :: code in groups ==> |code| <= st.longestCallingCode)
      && (forall i, j, e :: GroupHasEntry(groups, order, i, j, e) ==>
            e.length <= st.longestNumber && (slots[e.index].repeatingTimes > 0 ==> e.index in st.shared))
      && (forall a, b :: 0 <= a < b < |st.shared| ==> st.shared[a] != st.shared[b])
  {
    VisitedSpec(groups, order);
    MaxKeyLengthSpec(order);
    match Visited(groups, order)
    case None =>
    case Some(fs) =>
      if IndicesValid(fs, slots) {
        MaxLengthSpec(fs);
        SharedSpec(fs, slots);
        forall code | code in groups ensures |code| <= MaxKeyLength(order) {
          var i :| 0 <= i < |order| && order[i] == code;
        }
        forall i, j, e | GroupHasEntry(groups, order, i, j, e)
          ensures e.length <= MaxLength(fs) && 0 <= e.index < |slots|
          ensures slots[e.index].repeatingTimes > 0 ==> e.index in Shared(fs, slots)
        {
          assert e in fs;
          var p :| 0 <= p < |fs| && fs[p] == e;
        }
      } else {
        var p :| 0 <= p < |fs| && !(0 <= fs[p].index < |slots|);
        assert fs[p] in fs;
      }
  }

  // ---------------------------------------------------------------------------
  // Prefixes, for the early exits of the method below

  lemma {:induction false} CountryFormatsPrefix(cs: seq<Country>, m: nat)
    requires m <= |cs|
    requires CountryFormats(cs).Some?
    ensures CountryFormats(cs[..m]).Some? && CountryFormats(cs[..m]).value <= CountryFormats(cs).value
    decreases |cs| - m
  {
    if m == |cs| {
      assert cs[..m] == cs;
    } else {
      CountryFormatsPrefix(cs, m + 1);
      assert cs[..m + 1][..m] == cs[..m];
    }
  }

  lemma {:induction false} VisitedPrefix(groups: Groups, keys: seq<string>, m: nat)
    requires forall k :: k in keys ==> k in groups
    requires m <= |keys|
    requires Visited(groups, keys).Some?
    ensures Visited(groups, keys[..m]).Some? && Visited(groups, keys[..m]).value <= Visited(groups, keys).value
    decreases |keys| - m
  {
    if m == |keys| {
      assert keys[..m] == keys;
    } else {
      VisitedPrefix(groups, keys, m + 1);
      assert keys[..m + 1][..m] == keys[..m];
    }
  }

  /** A prefix of entries with an index lacking an interned template spoils the whole. */
  lemma IndicesValidPrefix(fs: seq<FormatEntry>, gs: seq<FormatEntry>, slots: seq<Slot>)
    requires fs <= gs
    requires IndicesValid(gs, slots)
    ensures IndicesValid(fs, slots)
  {
    assert forall i :: 0 <= i < |fs| ==> fs[i] == gs[i];
  }

  /** A record without formats, met after the records `cs[..i]`, leaves none for `cs`. */
  lemma MissingFormatsAborts(cs: seq<Country>, i: nat)
    requires i < |cs|
    requires cs[i].formats.None?
    ensures CountryFormats(cs).None?
  {
    if CountryFormats(cs).Some? {
      assert cs[..i + 1][..i] == cs[..i];
      CountryFormatsPrefix(cs, i + 1);
    }
  }

  /** Calling code `keys[n]`, met after the entries `before`, either lacks formats or
      carries an index without an interned template: the whole loop aborts. */
  lemma CodeAborts(groups: Groups, keys: seq<string>, slots: seq<Slot>, n: nat, before: seq<FormatEntry>)
    requires forall k :: k in keys ==> k in groups
    requires n < |keys|
    requires Visited(groups, keys[..n]) == Some(before)
    requires !(CountryFormats(groups[keys[n]]).Some? && IndicesValid(before + CountryFormats(groups[keys[n]]).value, slots))
    ensures Summarise(groups, keys, slots).Failure?
  {
    var whole := Visited(groups, keys);
    if whole.Some? {
      assert keys[..n + 1][..n] == keys[..n];
      VisitedPrefix(groups, keys, n + 1);
      if IndicesValid(whole.value, slots) {
        IndicesValidPrefix(Visited(groups, keys[..n + 1]).value, whole.value, slots);
      }
    }
  }

  /** The values the loop carries agree with the entries visited so far. */
  ghost predicate Tracks(visited: seq<FormatEntry>, slots: seq<Slot>, longestNumber: nat,
                         formatsVariableSet: set<nat>, formatsFile: seq<nat>)
  {
    && IndicesValid(visited, slots)
    && longestNumber == MaxLength(visited)
    && formatsFile == Shared(visited, slots)
    && (forall x :: x in formatsVariableSet <==> x in formatsFile)
  }

  /** One entry more: how the carried values follow the entries visited. */
  lemma TracksStep(seen: seq<FormatEntry>, slots: seq<Slot>, longestNumber: nat,
                   formatsVariableSet: set<nat>, formatsFile: seq<nat>, e: FormatEntry)
    requires Tracks(seen, slots, longestNumber, formatsVariableSet, formatsFile)
    requires 0 <= e.index < |slots|
    ensures IndicesValid(seen + [e], slots)
    ensures MaxLength(seen + [e]) == if e.length > longestNumber then e.length else longestNumber
    ensures Shared(seen + [e], slots) ==
      if slots[e.index].repeatingTimes > 0 && e.index !in formatsVariableSet then formatsFile + [e.index] else formatsFile
  {
    assert (seen + [e])[..|seen|] == seen;
  }

  /**
   * The `reduce` callback of lines 204-223 over one record's format entries, carrying
   * the running maximum and the set and file of emitted constants; `ok` is false when an
   * entry's index has no interned template.
   */
  method ReduceFormats(fs: seq<FormatEntry>, formatsList: seq<Slot>, longestNumber0: nat,
                       formatsVariableSet0: set<nat>, formatsFile0: seq<nat>, ghost visited: seq<FormatEntry>)
    returns (ok: bool, longestNumber: nat, formatsVariableSet: set<nat>, formatsFile: seq<nat>)
    requires Tracks(visited, formatsList, longestNumber0, formatsVariableSet0, formatsFile0)
    ensures ok <==> IndicesValid(visited + fs, formatsList)
    ensures ok ==> Tracks(visited + fs, formatsList, longestNumber, formatsVariableSet, formatsFile)
  {
    longestNumber, formatsVariableSet, formatsFile := longestNumber0, formatsVariableSet0, formatsFile0;
    ghost var seen := visited;
    for k := 0 to |fs|
      invariant seen == visited + fs[..k]
      invariant Tracks(seen, formatsList, longestNumber, formatsVariableSet, formatsFile)
    {
      var e := fs[k];
      if !(0 <= e.index < |formatsList|) {
        assert (visited + fs)[|visited| + k] == e;
        return false, longestNumber, formatsVariableSet, formatsFile;
      }
      TracksStep(seen, formatsList, longestNumber, formatsVariableSet, formatsFile, e);
      if e.length > longestNumber {
        longestNumber := e.length;
      }
      if formatsList[e.index].repeatingTimes > 0 {
        if e.index !in formatsVariableSet {
          formatsVariableSet := formatsVariableSet + {e.index};
          formatsFile := formatsFile + [e.index];
        }
      }
      assert visited + fs[..k + 1] == seen + [e] by {
        assert fs[..k + 1] == fs[..k] + [e];
      }
      seen := seen + [e];
    }
    assert fs[..|fs|] == fs;
    ok := true;
  }

  /**
   * The inner loop of lines 198-232 over the records of one calling code, carrying the
   * running maximum and the set and file of emitted constants; `ok` is false when the
   * loop throws.
   */
  method VisitRecords(item: seq<Country>, formatsList: seq<Slot>, longestNumber0: nat,
                      formatsVariableSet0: set<nat>, formatsFile0: seq<nat>, ghost visited: seq<FormatEntry>)
    returns (ok: bool, longestNumber: nat, formatsVariableSet: set<nat>, formatsFile: seq<nat>)
    requires Tracks(visited, formatsList, longestNumber0, formatsVariableSet0, formatsFile0)
    ensures ok <==> CountryFormats(item).Some? && IndicesValid(visited + CountryFormats(item).value, formatsList)
    ensures ok ==> Tracks(visited + CountryFormats(item).value, formatsList, longestNumber, formatsVariableSet, formatsFile)
  {
    longestNumber, formatsVariableSet, formatsFile := longestNumber0, formatsVariableSet0, formatsFile0;
    ghost var inKey: seq<FormatEntry> := [];
    assert visited + inKey == visited;
    for i := 0 to |item|
      invariant CountryFormats(item[..i]) == Some(inKey)
      invariant Tracks(visited + inKey, formatsList, longestNumber, formatsVariableSet, formatsFile)
    {
      var country := item[i];
      assert item[..i + 1][..i] == item[..i];
      if country.formats.None? {
        MissingFormatsAborts(item, i);
        return false, longestNumber, formatsVariableSet, formatsFile;
      }
      var fs := country.formats.value;
      var fine;
      fine, longestNumber, formatsVariableSet, formatsFile :=
        ReduceFormats(fs, formatsList, longestNumber, formatsVariableSet, formatsFile, visited + inKey);
      assert CountryFormats(item[..i + 1]) == Some(inKey + fs);
      if !fine {
        if CountryFormats(item).Some? {
          CountryFormatsPrefix(item, i + 1);
          if IndicesValid(visited + CountryFormats(item).value, formatsList) {
            IndicesValidPrefix(visited + inKey + fs, visited + CountryFormats(item).value, formatsList);
          }
        }
        return false, longestNumber, formatsVariableSet, formatsFile;
      }
      assert visited + inKey + fs == visited + (inKey + fs);
      inKey := inKey + fs;
    }
    assert item[..|item|] == item;
    ok := true;
  }

  method Accumulate(groups: Groups, order: seq<string>, formatsList: seq<Slot>) returns (r: Result<Stats, string>)
    requires forall k :: k in groups <==> k in order
    requires forall a, b :: 0 <= a < b < |order| ==> order[a] != order[b]
    ensures r == Summarise(groups, order, formatsList)
  {
    var longestNumber := 0;
    var longestCallingCode := 0;
    var formatsVariableSet: set<nat> := {};
    var formatsFile: seq<nat> := [];
    ghost var visited: seq<FormatEntry> := [];
    for n := 0 to |order|
      invariant Visited(groups, order[..n]) == Some(visited)
      invariant longestCallingCode == MaxKeyLength(order[..n])
      invariant Tracks(visited, formatsList, longestNumber, formatsVariableSet, formatsFile)
    {
      var key := order[n];
      assert order[..n + 1][..n] == order[..n];
      if |key| > longestCallingCode {
        longestCallingCode := |key|;
      }
      var ok;
      ok, longestNumber, formatsVariableSet, formatsFile :=
        VisitRecords(groups[key], formatsList, longestNumber, formatsVariableSet, formatsFile, visited);
      if !ok {
        CodeAborts(groups, order, formatsList, n, visited);
        return Failure(Aborted);
      }
      visited := visited + CountryFormats(groups[key]).value;
    }
    assert order[..|order|] == order;
    r := Success(Stats(longestCallingCode, longestNumber, formatsFile));
  }
}
