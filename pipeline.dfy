/**
 * The stages of `run` in build/main.js (lines 47-215) chained as the source chains them:
 * the merger builds `formatObj`, the normaliser rewrites it, the interner binds its
 * formats to `formatsList`, the resolver groups the territories by calling code with
 * the interned lists, and the emission loop summarises the groups.
 *
 * Each stage's precondition is met by the stage before it, a format index that reaches
 * the emission loop always names a slot, and that loop aborts only on a country whose
 * region the merger never registered.
 */
module Pipeline {
  import opened Wrappers
  import opened Types
  import opened Strings
  import Merger
  import Normaliser
  import Interner
  import Resolver
  import Aggregate

  /** What a complete run has built. */
  datatype Output = Output(
    formatObj: Ordered<seq<FormatEntry>>,
    formatsList: seq<Slot>,
    groups: Resolver.Groups,
    stats: Aggregate.Stats)

  /** Lines 47-135: `formatsList` and `formatObj` merged, normalised and interned. Every
      region keeps its place, its list is the normalised merged list with slot indices
      filled in, and every index names a slot whose template starts with the format's. */
  function Prepare(codes: seq<Merger.CallingCodeFiles>): (r: Result<(seq<Slot>, Ordered<seq<FormatEntry>>), string>)
    ensures Merger.Merge(codes).Failure? ==> r == Failure(Merger.Merge(codes).error)
    ensures Merger.Merge(codes).Success? <==> r.Success?
    ensures r.Success? ==>
      var merged := Merger.Merge(codes).value;
      var (slots, t) := r.value;
      && t.Valid() && t.keys == merged.keys && t.values.Keys == merged.values.Keys
      && forall k :: k in t.values ==>
           Interner.Bound(slots, t.values[k]) && Interner.SameFormats(Normaliser.Normalise(merged.values[k]), t.values[k])
  {
    match Merger.Merge(codes)
    case Failure(e) => Failure(e)
    case Success(merged) =>
      Merger.MergeGood(codes);
      Normaliser.NormaliseTableSpec(merged);
      var normalised := Normaliser.NormaliseTable(merged);
      Interner.InternTableSpec(normalised);
      Success(Interner.InternTable(normalised))
  }

  /** The order in which `for...in` visits the calling codes (line 193): each code once. */
  ghost function CodeOrder(codes: set<string>): (r: seq<string>)
    ensures forall k :: k in r <==> k in codes
    ensures forall a, b :: 0 <= a < b < |r| ==> r[a] != r[b]
    decreases codes
  {
    if codes == {} then []
    else
      var k :| k in codes;
      [k] + CodeOrder(codes - {k})
  }

  /** The whole run: the first abort wins. */
  ghost function Run(codes: seq<Merger.CallingCodeFiles>, data: seq<Resolver.Territory>): Result<Output, string> {
    match Prepare(codes)
    case Failure(e) => Failure(e)
    case Success(p) =>
      match Resolver.Resolve(data, p.1)
      case Failure(e) => Failure(e)
      case Success(groups) =>
        match Aggregate.Summarise(groups, CodeOrder(groups.Keys), p.0)
        case Failure(e) => Failure(e)
        case Success(stats) => Success(Output(p.1, p.0, groups, stats))
  }

  /** Every format entry of every record names a slot whose template starts with its own. */
  ghost predicate RecordsBound(groups: Resolver.Groups, slots: seq<Slot>) {
    forall code, c, e :: code in groups && c in groups[code] && c.formats.Some? && e in c.formats.value ==>
      0 <= e.index < |slots| && StartsWith(slots[e.index].format, e.format)
  }

  /** Records drawn from a table whose every list is bound to `slots` are bound to it too. */
  lemma BoundThroughTable(groups: Resolver.Groups, t: Ordered<seq<FormatEntry>>, slots: seq<Slot>)
    requires Resolver.AllFromTable(groups, t)
    requires forall k :: k in t.values ==> Interner.Bound(slots, t.values[k])
    ensures RecordsBound(groups, slots)
  {
    forall code: string, c: Resolver.Country, e: FormatEntry |
      code in groups && c in groups[code] && c.formats.Some? && e in c.formats.value
      ensures 0 <= e.index < |slots| && StartsWith(slots[e.index].format, e.format)
    {
      assert Resolver.FromTable(c, t);
      assert Interner.Bound(slots, t.values[c.iso2]);
    }
  }

  /** The resolver works on the interned table, so its records carry that table's lists,
      and every index they hold names a slot of `formatsList`. */
  lemma ResolvedRecordsBound(codes: seq<Merger.CallingCodeFiles>, data: seq<Resolver.Territory>)
    requires Prepare(codes).Success?
    requires Resolver.Resolve(data, Prepare(codes).value.1).Success?
    ensures Resolver.AllFromTable(Resolver.Resolve(data, Prepare(codes).value.1).value, Prepare(codes).value.1)
    ensures RecordsBound(Resolver.Resolve(data, Prepare(codes).value.1).value, Prepare(codes).value.0)
  {
    var p := Prepare(codes).value;
    Resolver.ResolveFromTable(data, p.1);
    BoundThroughTable(Resolver.Resolve(data, p.1).value, p.1, p.0);
  }

  /** Bound records give the emission loop only indices that name slots. */
  lemma EntriesNameSlots(groups: Resolver.Groups, order: seq<string>, slots: seq<Slot>)
    requires forall k :: k in order ==> k in groups
    requires RecordsBound(groups, slots)
    ensures forall i, j, e :: Aggregate.GroupHasEntry(groups, order, i, j, e) ==> 0 <= e.index < |slots|
  {
    forall i, j, e | Aggregate.GroupHasEntry(groups, order, i, j, e)
      ensures 0 <= e.index < |slots|
    {
      assert groups[order[i]][j] in groups[order[i]];
    }
  }

  /** Visiting every calling code, each record met has formats exactly when every
      record's region is a key of the table the records were drawn from. */
  lemma FormatsEverywhere(groups: Resolver.Groups, t: Ordered<seq<FormatEntry>>, order: seq<string>)
    requires forall k :: k in groups <==> k in order
    requires Resolver.AllFromTable(groups, t)
    ensures (forall i, j :: 0 <= i < |order| && 0 <= j < |groups[order[i]]| ==> groups[order[i]][j].formats.Some?) <==>
      (forall code, c :: code in groups && c in groups[code] ==> c.iso2 in t.values)
  {
    if forall code, c :: code in groups && c in groups[code] ==> c.iso2 in t.values {
      forall i, j | 0 <= i < |order| && 0 <= j < |groups[order[i]]|
        ensures groups[order[i]][j].formats.Some?
      {
        var c := groups[order[i]][j];
        assert c in groups[order[i]];
        assert Resolver.FromTable(c, t);
      }
    }
    if forall i, j :: 0 <= i < |order| && 0 <= j < |groups[order[i]]| ==> groups[order[i]][j].formats.Some? {
      forall code, c | code in groups && c in groups[code]
        ensures c.iso2 in t.values
      {
        var i :| 0 <= i < |order| && order[i] == code;
        var j :| 0 <= j < |groups[code]| && groups[code][j] == c;
        assert Resolver.FromTable(c, t);
      }
    }
  }

  /** Over records drawn from table `t` and bound to `slots`, the emission loop aborts
      exactly when some record's region is not a key of `t`, and then with a `TypeError`. */
  lemma SummariseAbortsOnlyOnMissingFormats(groups: Resolver.Groups, t: Ordered<seq<FormatEntry>>, slots: seq<Slot>)
    requires Resolver.AllFromTable(groups, t)
    requires RecordsBound(groups, slots)
    ensures Aggregate.Summarise(groups, CodeOrder(groups.Keys), slots).Success? <==>
      forall code, c :: code in groups && c in groups[code] ==> c.iso2 in t.values
    ensures Aggregate.Summarise(groups, CodeOrder(groups.Keys), slots).Failure? ==>
      Aggregate.Summarise(groups, CodeOrder(groups.Keys), slots).error == Aggregate.Aborted
  {
    var order := CodeOrder(groups.Keys);
    Aggregate.SummariseSpec(groups, order, slots);
    EntriesNameSlots(groups, order, slots);
    FormatsEverywhere(groups, t, order);
  }

  /**
   * A run aborts in the merger, or in the resolver, or else in the emission loop, and the
   * emission loop aborts exactly when some resolved country's region has no formats:
   * when the merger never registered that region. An abort there is a `TypeError`.
   */
  lemma RunSpec(codes: seq<Merger.CallingCodeFiles>, data: seq<Resolver.Territory>)
    ensures Merger.Merge(codes).Failure? ==> Run(codes, data) == Failure(Merger.Merge(codes).error)
    ensures Prepare(codes).Success? && Resolver.Resolve(data, Prepare(codes).value.1).Failure? ==>
      Run(codes, data) == Failure(Resolver.Resolve(data, Prepare(codes).value.1).error)
    ensures Prepare(codes).Success? && Resolver.Resolve(data, Prepare(codes).value.1).Success? ==>
      var groups := Resolver.Resolve(data, Prepare(codes).value.1).value;
      && (Run(codes, data).Success? <==>
            forall code, c :: code in groups && c in groups[code] ==> c.iso2 in Merger.Merge(codes).value.values)
      && (Run(codes, data).Failure? ==> Run(codes, data).error == Aggregate.Aborted)
      && (Run(codes, data).Success? ==>
            Run(codes, data).value.groups == groups && Run(codes, data).value.formatsList == Prepare(codes).value.0)
  {
    if Prepare(codes).Success? && Resolver.Resolve(data, Prepare(codes).value.1).Success? {
      var (slots, t) := Prepare(codes).value;
      var groups := Resolver.Resolve(data, t).value;
      ResolvedRecordsBound(codes, data);
      SummariseAbortsOnlyOnMissingFormats(groups, t, slots);
      assert t.values.Keys == Merger.Merge(codes).value.values.Keys;
    }
  }
}
