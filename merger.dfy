/**
 * The range/format merger of build/main.js (lines 47-87).
 *
 * For every calling code, in order, the rows of its `ranges.csv` are read in order; a
 * row of type MOBILE or FIXED_LINE_OR_MOBILE registers one format per region of its
 * `Regions` list, taking the regions from last to first. A region gets a masked
 * template from the calling code's `formats.csv` when that file exists and the row
 * names a format id (deduplicated per region by format id, in `formatObj`), and an
 * all-'0' template of the row's length otherwise (deduplicated per region by length,
 * in `withoutFormatObj`). Finally the regions of `withoutFormatObj` that `formatObj`
 * lacks are copied into it.
 *
 * The CSV files arrive already parsed. The first time a region meets a format id that
 * its calling code's `formats.csv` does not define, `formats.find(...)` returns
 * `undefined` and reading `.International` from it throws: the whole run aborts. That
 * is `Failure(id)` here. A region that has already met the id under an earlier calling
 * code does not call the supplier again, and nothing is thrown.
 */
module Merger {
  import opened Wrappers
  import opened Types
  import opened Strings
  import Unique

  /** A row of `formats.csv`. An absent `International` column is the empty string. */
  datatype FormatDef = FormatDef(id: string, international: string)

  /** A row of `ranges.csv`; `format` is the empty string when the row names no format. */
  datatype RangeRow = RangeRow(regions: string, length: string, format: string, kind: string)

  /** The two files of one calling code; `formats` is `None` when `formats.csv` is missing. */
  datatype CallingCodeFiles = CallingCodeFiles(callingCode: string, formats: Option<seq<FormatDef>>, ranges: seq<RangeRow>)

  /** Formats per region. */
  type Table = Ordered<seq<FormatEntry>>

  /** `formatObj` (deduplicated by format id) and `withoutFormatObj` (by length). */
  datatype Registry = Registry(withFormat: Unique.Index<string, FormatEntry>, without: Unique.Index<nat, FormatEntry>)

  function Start(): Registry {
    Registry(Unique.Empty(), Unique.Empty())
  }

  predicate IsMobileRow(row: RangeRow) {
    row.kind == "MOBILE" || row.kind == "FIXED_LINE_OR_MOBILE"
  }

  /** `+arr[arr.length - 1]` with `arr = Length.split(/[-,]/)`. */
  function RowLength(row: RangeRow): Option<nat> {
    ParseLength(LastToken(row.length, {'-', ','}))
  }

  /** `Regions.split(',')`. */
  function RowRegions(row: RangeRow): seq<string> {
    Split(row.regions, {','})
  }

  /** `formats.find(item => item.Id === id)`: the first definition with that id. */
  function FindFormat(formats: seq<FormatDef>, id: string): (r: Option<FormatDef>)
    ensures r.None? <==> forall i :: 0 <= i < |formats| ==> formats[i].id != id
    ensures r.Some? ==> exists i :: 0 <= i < |formats| && formats[i] == r.value && r.value.id == id &&
                                  (forall j :: 0 <= j < i ==> formats[j].id != id)
  {
    if formats == [] then None
    else if formats[0].id == id then Some(formats[0])
    else
      var r := FindFormat(formats[1..], id);
      assert forall i :: 0 < i < |formats| ==> formats[i] == formats[1..][i - 1];
      r
  }

  /** The `getValue` of line 61: the masked `International` template, if it is
      non-empty and free of `{X>}`; an exception if the id is not defined. */
  function FormatSupplier(formats: seq<FormatDef>, id: string, length: nat): Unique.Supplied<FormatEntry> {
    match FindFormat(formats, id)
    case None => Unique.Throws
    case Some(d) =>
      if d.international != "" && !HasOpenPlaceholder(d.international)
      then Unique.Value(FormatEntry(Mask(d.international), length, -1))
      else Unique.Nothing
  }

  /** The value of line 73: `length` copies of the mask symbol. */
  function ZerosEntry(length: nat): FormatEntry {
    FormatEntry(Zeros(length), length, -1)
  }

  /** The body of the region loop (lines 59-78) for one region. */
  function RegisterRegion(reg: Registry, formats: Option<seq<FormatDef>>, id: string, length: nat, iso2: string): Result<Registry, string> {
    if formats.Some? && id != "" then
      var out := FormatSupplier(formats.value, id, length);
      if Unique.IsNew(reg.withFormat, iso2, id) && out.Throws? then Failure(id)
      else Success(reg.(withFormat := Unique.Apply(reg.withFormat, iso2, id, out)))
    else
      Success(reg.(without := Unique.Apply(reg.without, iso2, length, Unique.Value(ZerosEntry(length)))))
  }

  /** The region loop of line 58, which runs from the last region to the first:
      `regions[1..]` are done before `regions[0]`. */
  function RegisterRegions(reg: Registry, formats: Option<seq<FormatDef>>, id: string, length: nat, regions: seq<string>): Result<Registry, string>
    decreases |regions|
  {
    if regions == [] then Success(reg)
    else
      match RegisterRegions(reg, formats, id, length, regions[1..])
      case Failure(e) => Failure(e)
      case Success(r) => RegisterRegion(r, formats, id, length, regions[0])
  }

  /** The `onRecord` callback of line 51 for one row. A length token that is not a
      decimal number registers nothing. */
  function RegisterRow(reg: Registry, formats: Option<seq<FormatDef>>, row: RangeRow): Result<Registry, string> {
    if !IsMobileRow(row) then Success(reg)
    else
      match RowLength(row)
      case None => Success(reg)
      case Some(n) => RegisterRegions(reg, formats, row.format, n, RowRegions(row))
  }

  /** All rows of one `ranges.csv`, in order. */
  function RegisterRows(reg: Registry, formats: Option<seq<FormatDef>>, rows: seq<RangeRow>): Result<Registry, string> {
    if rows == [] then Success(reg)
    else
      match RegisterRows(reg, formats, rows[..|rows| - 1])
      case Failure(e) => Failure(e)
      case Success(r) => RegisterRow(r, formats, rows[|rows| - 1])
  }

  /** The calling-code loop of line 47. */
  function RegisterCodes(reg: Registry, codes: seq<CallingCodeFiles>): Result<Registry, string> {
    if codes == [] then Success(reg)
    else
      match RegisterCodes(reg, codes[..|codes| - 1])
      case Failure(e) => Failure(e)
      case Success(r) =>
        var cc := codes[|codes| - 1];
        RegisterRows(r, cc.formats, cc.ranges)
  }

  /** Lines 83-87 over the first keys of `withoutFormatObj`: a region is copied only
      when `formatObj` does not have it yet. */
  function AddMissing(obj: Table, without: Table, keys: seq<string>): Table
    requires forall k :: k in keys ==> k in without.values
  {
    if keys == [] then obj
    else
      var o := AddMissing(obj, without, keys[..|keys| - 1]);
      var k := keys[|keys| - 1];
      if k in o.values then o else o.Set(k, without.values[k])
  }

  /** A freshly registered format: not interned yet, and no mask character left. */
  predicate Registered(e: FormatEntry) {
    e.index == -1 && forall i :: 0 <= i < |e.format| ==> !IsMaskChar(e.format[i])
  }

  ghost predicate AllRegistered(t: Table) {
    forall k, e :: k in t.values && e in t.values[k] ==> Registered(e)
  }

  ghost predicate Good(reg: Registry) {
    && Unique.Consistent(reg.withFormat) && Unique.Consistent(reg.without)
    && AllRegistered(reg.withFormat.obj) && AllRegistered(reg.without.obj)
  }

  /** The whole merge: `formatObj` after line 87. */
  function Merge(codes: seq<CallingCodeFiles>): Result<Table, string> {
    match RegisterCodes(Start(), codes)
    case Failure(e) => Failure(e)
    case Success(reg) =>
      RegisterCodesGood(Start(), codes);
      Success(AddMissing(reg.withFormat.obj, reg.without.obj, reg.without.obj.keys))
  }

  // ---------------------------------------------------------------------------
  // Properties

  /** Lines 61-70: an id that is not defined throws; a template with `{X>}` (or an empty
      one) yields nothing; otherwise the entry holds the template with every `*` and `X`
      turned into '0', other characters in place, and the row's length. */
  lemma FormatSupplierCases(formats: seq<FormatDef>, id: string, length: nat)
    ensures var out := FormatSupplier(formats, id, length);
      && ((forall i :: 0 <= i < |formats| ==> formats[i].id != id) <==> out.Throws?)
      && (out.Value? ==>
            exists d :: FindFormat(formats, id) == Some(d) && var t := d.international;
              && t != "" && !HasOpenPlaceholder(t) && |out.value.format| == |t| && out.value.length == length
              && out.value.index == -1
              && forall c :: 0 <= c < |t| ==> out.value.format[c] == if IsMaskChar(t[c]) then '0' else t[c])
      && (forall d :: FindFormat(formats, id) == Some(d) && (d.international == "" || HasOpenPlaceholder(d.international)) ==>
            out.Nothing?)
      && (forall d :: FindFormat(formats, id) == Some(d) && d.international != "" && !HasOpenPlaceholder(d.international) ==>
            out == Unique.Value(FormatEntry(Mask(d.international), length, -1)))
  {
  }

  /** A template synthesised without a format is `length` zeros, and is collected for a
      region only the first time that region sees that length. */
  lemma RegisterRegionWithoutFormat(reg: Registry, formats: Option<seq<FormatDef>>, id: string, length: nat, iso2: string)
    requires Good(reg)
    requires formats.None? || id == ""
    ensures RegisterRegion(reg, formats, id, length, iso2).Success?
    ensures var r := RegisterRegion(reg, formats, id, length, iso2).value;
      && r.withFormat == reg.withFormat
      && iso2 in r.without.obj.values
      && (Unique.IsNew(reg.without, iso2, length) ==>
            var l := r.without.obj.values[iso2];
            |l| > 0 && l[|l| - 1].format == Zeros(length) && l[|l| - 1].length == length)
      && (!Unique.IsNew(reg.without, iso2, length) ==> r.without == reg.without)
  {
    var e := ZerosEntry(length);
    if Unique.IsNew(reg.without, iso2, length) {
      Unique.ApplyNewPair(reg.without, iso2, length, Unique.Value(e));
    } else {
      assert iso2 in reg.without.seen;
    }
  }

  /** Rows of other types register nothing. */
  lemma OtherRowsIgnored(reg: Registry, formats: Option<seq<FormatDef>>, row: RangeRow)
    requires !IsMobileRow(row)
    ensures RegisterRow(reg, formats, row) == Success(reg)
  {
  }

  /** `Length = "7,9"` registers the length 9: a row without a format gives a region
      nine zeros. */
  lemma LengthExample(regions: string)
    ensures RowLength(RangeRow(regions, "7,9", "", "MOBILE")) == Some(9)
    ensures RegisterRegion(Start(), None, "", 9, "RU") ==
      Success(Registry(Unique.Empty(), Unique.Index(map["RU" := {9}], Ordered(["RU"], map["RU" := [FormatEntry("000000000", 9, -1)]]))))
  {
    var seps := {'-', ','};
    assert "7,9"[1..] == ",9" && ",9"[1..] == "9" && "9"[1..] == "";
    assert Split("", seps) == [""];
    assert Split("9", seps) == [['9'] + ""] + [""][1..] == ["9"];
    assert Split(",9", seps) == [""] + ["9"];
    var rest := Split(",9", seps);
    assert rest[0] == "" && rest[1..] == ["9"];
    assert Split("7,9", seps) == [['7'] + rest[0]] + rest[1..];
    assert ['7'] + rest[0] == "7";
    assert DecimalValue("9") == 9 by { assert "9"[..0] == []; }
    assert Zeros(9) == "000000000";
    var e := FormatEntry("000000000", 9, -1);
    var ix: Unique.Index<nat, FormatEntry> := Unique.Empty();
    assert Unique.IsNew(ix, "RU", 9);
    var o1 := ix.obj.Set("RU", []);
    assert o1 == Ordered(["RU"], map["RU" := []]);
    assert o1.values["RU"] + [e] == [e];
    assert o1.values["RU" := [e]] == map["RU" := [e]];
    assert ix.seen == map[];
    var s9: set<nat> := {} + {9};
    assert s9 == {9};
    assert ix.seen["RU" := s9] == map["RU" := {9}];
  }

  lemma RegisterRegionGood(reg: Registry, formats: Option<seq<FormatDef>>, id: string, length: nat, iso2: string)
    requires Good(reg)
    ensures var r := RegisterRegion(reg, formats, id, length, iso2); r.Success? ==> Good(r.value)
  {
    var r := RegisterRegion(reg, formats, id, length, iso2);
    if r.Success? {
      if formats.Some? && id != "" {
        var out := FormatSupplier(formats.value, id, length);
        assert out.Value? ==> Registered(out.value);
        ApplyGood(reg.withFormat, iso2, id, out);
        assert r.value == reg.(withFormat := Unique.Apply(reg.withFormat, iso2, id, out));
      } else {
        var out := Unique.Value(ZerosEntry(length));
        assert Registered(out.value);
        ApplyGood(reg.without, iso2, length, out);
        assert r.value == reg.(without := Unique.Apply(reg.without, iso2, length, out));
      }
    }
  }

  lemma ApplyGood<K>(ix: Unique.Index<K, FormatEntry>, key: string, subkey: K, out: Unique.Supplied<FormatEntry>)
    requires Unique.Consistent(ix) && AllRegistered(ix.obj)
    requires out.Value? ==> Registered(out.value)
    ensures Unique.Consistent(Unique.Apply(ix, key, subkey, out))
    ensures AllRegistered(Unique.Apply(ix, key, subkey, out).obj)
  {
    Unique.ApplyConsistent(ix, key, subkey, out);
    RegisteredAfterApply(ix, key, subkey, out);
  }

  lemma RegisteredAfterApply<K>(ix: Unique.Index<K, FormatEntry>, key: string, subkey: K, out: Unique.Supplied<FormatEntry>)
    requires Unique.Consistent(ix) && AllRegistered(ix.obj)
    requires out.Value? ==> Registered(out.value)
    ensures AllRegistered(Unique.Apply(ix, key, subkey, out).obj)
  {
    var r := Unique.Apply(ix, key, subkey, out);
    forall k, e | k in r.obj.values && e in r.obj.values[k]
      ensures Registered(e)
    {
      if k != key {
        Unique.ApplyTouchesOnlyKey(ix, key, subkey, out, k);
      } else if Unique.IsNew(ix, key, subkey) {
        Unique.ApplyNewPair(ix, key, subkey, out);
      }
    }
  }

  lemma {:induction false} RegisterRegionsGood(reg: Registry, formats: Option<seq<FormatDef>>, id: string, length: nat, regions: seq<string>)
    requires Good(reg)
    ensures var r := RegisterRegions(reg, formats, id, length, regions); r.Success? ==> Good(r.value)
    decreases |regions|
  {
    if regions != [] {
      RegisterRegionsGood(reg, formats, id, length, regions[1..]);
      var m := RegisterRegions(reg, formats, id, length, regions[1..]);
      if m.Success? {
        RegisterRegionGood(m.value, formats, id, length, regions[0]);
      }
    }
  }

  lemma {:induction false} RegisterRowsGood(reg: Registry, formats: Option<seq<FormatDef>>, rows: seq<RangeRow>)
    requires Good(reg)
    ensures var r := RegisterRows(reg, formats, rows); r.Success? ==> Good(r.value)
  {
    if rows != [] {
      RegisterRowsGood(reg, formats, rows[..|rows| - 1]);
      var m := RegisterRows(reg, formats, rows[..|rows| - 1]);
      var row := rows[|rows| - 1];
      if m.Success? && IsMobileRow(row) && RowLength(row).Some? {
        RegisterRegionsGood(m.value, formats, row.format, RowLength(row).value, RowRegions(row));
      }
    }
  }

  /** Every registry the calling-code loop reaches is consistent, and holds only
      uninterned, fully masked formats. */
  lemma {:induction false} RegisterCodesGood(reg: Registry, codes: seq<CallingCodeFiles>)
    requires Good(reg)
    ensures var r := RegisterCodes(reg, codes); r.Success? ==> Good(r.value)
  {
    if codes != [] {
      RegisterCodesGood(reg, codes[..|codes| - 1]);
      var m := RegisterCodes(reg, codes[..|codes| - 1]);
      if m.Success? {
        var cc := codes[|codes| - 1];
        RegisterRowsGood(m.value, cc.formats, cc.ranges);
      }
    }
  }

  /** Lines 83-87: regions already in `formatObj` keep their formats and their place;
      the others of `withoutFormatObj` are added after them with their synthesised formats. */
  lemma {:induction false} AddMissingKeepsExisting(obj: Table, without: Table, keys: seq<string>)
    requires obj.Valid()
    requires forall k :: k in keys ==> k in without.values
    ensures var r := AddMissing(obj, without, keys);
      && r.Valid()
      && obj.keys <= r.keys
      && (forall k :: k in r.values <==> k in obj.values || k in keys)
      && (forall k :: k in obj.values ==> r.values[k] == obj.values[k])
      && (forall k :: k in keys && k !in obj.values ==> r.values[k] == without.values[k])
  {
    if keys != [] {
      var prev := keys[..|keys| - 1];
      AddMissingKeepsExisting(obj, without, prev);
      var o := AddMissing(obj, without, prev);
      var k := keys[|keys| - 1];
      assert forall j :: j in keys ==> j in prev || j == k;
      if k !in o.values {
        assert forall j :: j in o.values ==> j in obj.values || j in prev;
      }
    }
  }

  /** The merged table is a well-formed ordered dictionary whose every format is
      uninterned and fully masked; each of its regions comes from one of the two indexes. */
  lemma MergeGood(codes: seq<CallingCodeFiles>)
    ensures var m := Merge(codes); m.Success? ==>
      && m.value.Valid()
      && AllRegistered(m.value)
      && var reg := RegisterCodes(Start(), codes).value;
         (forall k :: k in m.value.values <==> k in reg.withFormat.obj.values || k in reg.without.obj.values)
  {
    var m := Merge(codes);
    if m.Success? {
      var reg := RegisterCodes(Start(), codes).value;
      Unique.EmptyConsistent<string, FormatEntry>();
      Unique.EmptyConsistent<nat, FormatEntry>();
      RegisterCodesGood(Start(), codes);
      var w := reg.without.obj;
      AddMissingKeepsExisting(reg.withFormat.obj, w, w.keys);
    }
  }

  /**
   * Lines 59-70, the format path: the supplier runs only for a (region, id) pair not
   * seen before. The region aborts exactly when the pair is new and `formats.csv` does
   * not define the id; a seen pair changes nothing; a new pair appends exactly the
   * supplier's value, if any, to the region's list. `withoutFormatObj` is untouched.
   */
  lemma RegisterRegionWithFormat(reg: Registry, formats: seq<FormatDef>, id: string, length: nat, iso2: string)
    requires Good(reg)
    requires id != ""
    ensures var r := RegisterRegion(reg, Some(formats), id, length, iso2);
      && (r.Failure? <==> Unique.IsNew(reg.withFormat, iso2, id) && forall i :: 0 <= i < |formats| ==> formats[i].id != id)
      && (r.Failure? ==> r.error == id)
      && (r.Success? ==> r.value.without == reg.without && iso2 in r.value.withFormat.obj.values)
      && (!Unique.IsNew(reg.withFormat, iso2, id) ==> r == Success(reg))
  {
    FormatSupplierCases(formats, id, length);
    var out := FormatSupplier(formats, id, length);
    if Unique.IsNew(reg.withFormat, iso2, id) {
      Unique.ApplyNewPair(reg.withFormat, iso2, id, out);
    } else {
      Unique.ApplySeenIsNoOp(reg.withFormat, iso2, id, out);
    }
  }

  /** On the format path, a new pair whose id is defined appends the supplier's value,
      when there is one, at the end of the region's list, and leaves it as it was otherwise. */
  lemma RegisterRegionAppends(reg: Registry, formats: seq<FormatDef>, id: string, length: nat, iso2: string)
    requires Good(reg)
    requires id != ""
    requires Unique.IsNew(reg.withFormat, iso2, id)
    requires exists i :: 0 <= i < |formats| && formats[i].id == id
    ensures var r := RegisterRegion(reg, Some(formats), id, length, iso2);
      var before := if iso2 in reg.withFormat.obj.values then reg.withFormat.obj.values[iso2] else [];
      var out := FormatSupplier(formats, id, length);
      && r.Success? && iso2 in r.value.withFormat.obj.values
      && r.value.withFormat.obj.values[iso2] == (if out.Value? then before + [out.value] else before)
  {
    FormatSupplierCases(formats, id, length);
    Unique.ApplyNewPair(reg.withFormat, iso2, id, FormatSupplier(formats, id, length));
  }

  /** A row's `formats.csv` exists, the row names a format id, and the file does not define it. */
  predicate UndefinedId(formats: Option<seq<FormatDef>>, id: string) {
    formats.Some? && id != "" && forall i :: 0 <= i < |formats.value| ==> formats.value[i].id != id
  }

  /** A failing region loop fails with the row's own format id, which its file does not define. */
  lemma {:induction false} RegionsFailureSound(reg: Registry, formats: Option<seq<FormatDef>>, id: string, length: nat, regions: seq<string>)
    ensures var r := RegisterRegions(reg, formats, id, length, regions);
      r.Failure? ==> r.error == id && UndefinedId(formats, id)
    decreases |regions|
  {
    if regions != [] {
      RegionsFailureSound(reg, formats, id, length, regions[1..]);
      match RegisterRegions(reg, formats, id, length, regions[1..])
      case Failure(_) =>
      case Success(r0) =>
        if formats.Some? && id != "" {
          FormatSupplierCases(formats.value, id, length);
        }
    }
  }

  /** A failing file fails with the format id of one of its mobile rows, undefined in its `formats.csv`. */
  lemma {:induction false} RowsFailureSound(reg: Registry, formats: Option<seq<FormatDef>>, rows: seq<RangeRow>)
    ensures var r := RegisterRows(reg, formats, rows);
      r.Failure? ==> exists j :: 0 <= j < |rows| && IsMobileRow(rows[j]) && rows[j].format == r.error && UndefinedId(formats, r.error)
  {
    if rows != [] {
      var p := rows[..|rows| - 1];
      RowsFailureSound(reg, formats, p);
      assert forall j :: 0 <= j < |p| ==> p[j] == rows[j];
      match RegisterRows(reg, formats, p)
      case Failure(_) =>
      case Success(r0) =>
        var row := rows[|rows| - 1];
        if IsMobileRow(row) && RowLength(row).Some? {
          RegionsFailureSound(r0, formats, row.format, RowLength(row).value, RowRegions(row));
        }
    }
  }

  /** A failing merge fails with the format id of some calling code's mobile row that the
      code's `formats.csv` does not define. */
  lemma {:induction false} CodesFailureSound(reg: Registry, codes: seq<CallingCodeFiles>)
    ensures var r := RegisterCodes(reg, codes);
      r.Failure? ==>
        exists i, j :: 0 <= i < |codes| && 0 <= j < |codes[i].ranges| &&
          IsMobileRow(codes[i].ranges[j]) && codes[i].ranges[j].format == r.error && UndefinedId(codes[i].formats, r.error)
  {
    if codes != [] {
      var p := codes[..|codes| - 1];
      CodesFailureSound(reg, p);
      assert forall i :: 0 <= i < |p| ==> p[i] == codes[i];
      match RegisterCodes(reg, p)
      case Failure(_) =>
      case Success(r0) =>
        var cc := codes[|codes| - 1];
        RowsFailureSound(r0, cc.formats, cc.ranges);
    }
  }

  /** The merge aborts only on an undefined format id of some mobile row, and reports that id. */
  lemma MergeFailureSound(codes: seq<CallingCodeFiles>)
    ensures Merge(codes).Failure? ==>
      exists i, j :: 0 <= i < |codes| && 0 <= j < |codes[i].ranges| &&
        IsMobileRow(codes[i].ranges[j]) && codes[i].ranges[j].format == Merge(codes).error && UndefinedId(codes[i].formats, Merge(codes).error)
  {
    CodesFailureSound(Start(), codes);
  }

  // ---------------------------------------------------------------------------
  // Failure propagation, for the early exit of the method below

  lemma {:induction false} RegionFailurePropagates(reg: Registry, formats: Option<seq<FormatDef>>, id: string, length: nat, regions: seq<string>, k: nat, e: string)
    requires k <= |regions|
    requires RegisterRegions(reg, formats, id, length, regions[k..]) == Failure(e)
    ensures RegisterRegions(reg, formats, id, length, regions) == Failure(e)
    decreases k
  {
    if k > 0 {
      assert regions[k - 1..][1..] == regions[k..];
      RegionFailurePropagates(reg, formats, id, length, regions, k - 1, e);
    } else {
      assert regions[0..] == regions;
    }
  }

  lemma {:induction false} RowFailurePropagates(reg: Registry, formats: Option<seq<FormatDef>>, rows: seq<RangeRow>, j: nat, e: string)
    requires j <= |rows|
    requires RegisterRows(reg, formats, rows[..j]) == Failure(e)
    ensures RegisterRows(reg, formats, rows) == Failure(e)
    decreases |rows| - j
  {
    if j < |rows| {
      assert rows[..j + 1][..j] == rows[..j];
      RowFailurePropagates(reg, formats, rows, j + 1, e);
    } else {
      assert rows[..j] == rows;
    }
  }

  lemma {:induction false} CodeFailurePropagates(reg: Registry, codes: seq<CallingCodeFiles>, i: nat, e: string)
    requires i <= |codes|
    requires RegisterCodes(reg, codes[..i]) == Failure(e)
    ensures RegisterCodes(reg, codes) == Failure(e)
    decreases |codes| - i
  {
    if i < |codes| {
      assert codes[..i + 1][..i] == codes[..i];
      CodeFailurePropagates(reg, codes, i + 1, e);
    } else {
      assert codes[..i] == codes;
    }
  }

  // ---------------------------------------------------------------------------
  // The loops of lines 47-87

  /** Lines 58-80: one range row's regions, last to first, registered into the two
      indexes; `failed` when a format id has no definition. */
  method RegisterRegionsInto(formatIx: Unique.UniqueIndex<string, FormatEntry>, lengthIx: Unique.UniqueIndex<nat, FormatEntry>,
                             formats: Option<seq<FormatDef>>, id: string, length: nat, regions: seq<string>)
    returns (failed: bool)
    requires formatIx.Valid() && lengthIx.Valid()
    modifies formatIx, lengthIx
    ensures formatIx.Valid() && lengthIx.Valid()
    ensures RegisterRegions(Registry(old(formatIx.State()), old(lengthIx.State())), formats, id, length, regions) ==
      if failed then Failure(id) else Success(Registry(formatIx.State(), lengthIx.State()))
  {
    ghost var atRow := Registry(formatIx.State(), lengthIx.State());
    var k := |regions|;
    while k > 0
      invariant 0 <= k <= |regions|
      invariant formatIx.Valid() && lengthIx.Valid()
      invariant RegisterRegions(atRow, formats, id, length, regions[k..]) ==
        Success(Registry(formatIx.State(), lengthIx.State()))
    {
      k := k - 1;
      var iso2 := regions[k];
      assert regions[k..][1..] == regions[k + 1..];
      if formats.Some? && id != "" {
        var out := FormatSupplier(formats.value, id, length);
        var invoked := formatIx.Add(iso2, id, out);
        if invoked && out.Throws? {
          RegionFailurePropagates(atRow, formats, id, length, regions, k, id);
          return true;
        }
      } else {
        var _ := lengthIx.Add(iso2, length, Unique.Value(ZerosEntry(length)));
      }
    }
    assert regions[0..] == regions;
    failed := false;
  }

  /** Lines 83-87: the regions without explicit formats that the format map lacks are
      copied into it. */
  method CopyMissing(table0: Table, without: Table) returns (table: Table)
    requires forall k :: k in without.keys ==> k in without.values
    ensures table == AddMissing(table0, without, without.keys)
  {
    table := table0;
    for i := 0 to |without.keys|
      invariant table == AddMissing(table0, without, without.keys[..i])
    {
      var key := without.keys[i];
      assert without.keys[..i + 1][..i] == without.keys[..i];
      if key !in table.values {
        table := table.Set(key, without.values[key]);
      }
    }
    assert without.keys[..|without.keys|] == without.keys;
  }

  /** Lines 51-81: the rows of one `ranges.csv` registered into the two indexes; the
      format id that has no definition, if one is met. */
  method RegisterRowsInto(formatIx: Unique.UniqueIndex<string, FormatEntry>, lengthIx: Unique.UniqueIndex<nat, FormatEntry>,
                          formats: Option<seq<FormatDef>>, rows: seq<RangeRow>)
    returns (failure: Option<string>)
    requires formatIx.Valid() && lengthIx.Valid()
    modifies formatIx, lengthIx
    ensures formatIx.Valid() && lengthIx.Valid()
    ensures RegisterRows(Registry(old(formatIx.State()), old(lengthIx.State())), formats, rows) ==
      if failure.Some? then Failure(failure.value) else Success(Registry(formatIx.State(), lengthIx.State()))
  {
    ghost var atCode := Registry(formatIx.State(), lengthIx.State());
    for j := 0 to |rows|
      invariant formatIx.Valid() && lengthIx.Valid()
      invariant RegisterRows(atCode, formats, rows[..j]) == Success(Registry(formatIx.State(), lengthIx.State()))
    {
      var row := rows[j];
      assert rows[..j + 1][..j] == rows[..j];
      var length := RowLength(row);
      if IsMobileRow(row) && length.Some? {
        var failed := RegisterRegionsInto(formatIx, lengthIx, formats, row.format, length.value, RowRegions(row));
        if failed {
          RowFailurePropagates(atCode, formats, rows, j + 1, row.format);
          return Some(row.format);
        }
      }
    }
    assert rows[..|rows|] == rows;
    failure := None;
  }

  /** Lines 28-29 and 47-87: the two indexes are filled calling code by calling code,
      then the regions without explicit formats are merged in. */
  method MergeRanges(codes: seq<CallingCodeFiles>) returns (r: Result<Table, string>)
    ensures r == Merge(codes)
  {
    var formatIx := new Unique.UniqueIndex<string, FormatEntry>();
    var lengthIx := new Unique.UniqueIndex<nat, FormatEntry>();
    for i := 0 to |codes|
      invariant formatIx.Valid() && lengthIx.Valid()
      invariant RegisterCodes(Start(), codes[..i]) == Success(Registry(formatIx.State(), lengthIx.State()))
    {
      var cc := codes[i];
      assert codes[..i + 1][..i] == codes[..i];
      var failure := RegisterRowsInto(formatIx, lengthIx, cc.formats, cc.ranges);
      if failure.Some? {
        CodeFailurePropagates(Start(), codes, i + 1, failure.value);
        return Failure(failure.value);
      }
    }
    assert codes[..|codes|] == codes;
    var table := CopyMissing(Ordered(formatIx.keys, formatIx.lists), Ordered(lengthIx.keys, lengthIx.lists));
    r := Success(table);
  }
}
