/**
 * The country resolver of build/main.js (lines 160-187).
 *
 * The territories of the national-format document are read in order. The world
 * pseudo-region '001' and territories without mobile data are skipped. Every other
 * territory becomes a country record (its mobile pattern with spaces and newlines
 * removed, its region's formats, its leading digits, its main-country flag) and is
 * placed under its calling code: appended when no record there matches it, replacing
 * the first matching record when it is the main country for the code, and dropped
 * otherwise. A record matches by leading digits when the incoming record has them
 * (a non-empty string), and by exact pattern otherwise.
 *
 * The XML document arrives already parsed. A `<mobile>` element without a
 * `<nationalNumberPattern>` makes `.replace` throw on `undefined`: the run aborts,
 * `Failure(id)` here.
 */
module Resolver {
  import opened Wrappers
  import opened Types
  import opened Strings

  /** The `mobile` block of a territory. */
  datatype Mobile = Mobile(nationalNumberPattern: Option<string>)

  /** A parsed `<territory>`: `mobile` is `None` when the block is absent or empty;
      the attributes are `None` when absent. */
  datatype Territory = Territory(
    id: string,
    countryCode: string,
    mobile: Option<Mobile>,
    leadingDigits: Option<string>,
    mainCountryForCode: Option<string>)

  datatype Country = Country(
    iso2: string,
    pattern: string,
    formats: Option<seq<FormatEntry>>,
    leadingDigits: Option<string>,
    mainCountryForCode: bool)

  /** `map`: calling code to its country records. */
  type Groups = map<string, seq<Country>>

  /** JavaScript truthiness of an optional string. */
  predicate Truthy(o: Option<string>) {
    o.Some? && o.value != ""
  }

  /** The predicate handed to `findIndex` on lines 174-176. */
  predicate Matches(existing: Country, incoming: Country) {
    if Truthy(incoming.leadingDigits) then existing.leadingDigits == incoming.leadingDigits
    else existing.pattern == incoming.pattern
  }

  /** `arr.findIndex(...)` from position `j` on. */
  function FindMatchFrom(arr: seq<Country>, c: Country, j: nat): (r: int)
    decreases |arr| - j
    ensures r == -1 || j <= r < |arr|
    ensures r >= 0 ==> Matches(arr[r], c)
    ensures forall k :: j <= k < |arr| && (r < 0 || k < r) ==> !Matches(arr[k], c)
  {
    if j >= |arr| then -1 else if Matches(arr[j], c) then j else FindMatchFrom(arr, c, j + 1)
  }

  function FindMatch(arr: seq<Country>, c: Country): int {
    FindMatchFrom(arr, c, 0)
  }

  /** Lines 165-171: the record of a territory that is not skipped. */
  function MakeCountry(t: Territory, pattern: string, formatObj: Ordered<seq<FormatEntry>>): Country {
    Country(
      t.id,
      StripBlanks(pattern),
      if t.id in formatObj.values then Some(formatObj.values[t.id]) else None,
      t.leadingDigits,
      t.mainCountryForCode == Some("true"))
  }

  /** Lines 172-186: placing a record under its calling code. */
  function Place(groups: Groups, code: string, c: Country): Groups {
    if code in groups then
      var arr := groups[code];
      var i := FindMatch(arr, c);
      if i < 0 then groups[code := arr + [c]]
      else if c.mainCountryForCode then groups[code := arr[i := c]]
      else groups
    else groups[code := [c]]
  }

  /** One iteration of the loop of line 160. */
  function ResolveOne(groups: Groups, t: Territory, formatObj: Ordered<seq<FormatEntry>>): Result<Groups, string> {
    if t.id == "001" || t.mobile.None? then Success(groups)
    else
      match t.mobile.value.nationalNumberPattern
      case None => Failure(t.id)
      case Some(p) => Success(Place(groups, t.countryCode, MakeCountry(t, p, formatObj)))
  }

  /** The loop of line 160 over the first territories. */
  function Resolve(ts: seq<Territory>, formatObj: Ordered<seq<FormatEntry>>): Result<Groups, string> {
    if ts == [] then Success(map[])
    else
      match Resolve(ts[..|ts| - 1], formatObj)
      case Failure(e) => Failure(e)
      case Success(g) => ResolveOne(g, ts[|ts| - 1], formatObj)
  }

  /** No calling code holds two records with the same non-empty leading digits. */
  ghost predicate LeadingDigitsUnique(groups: Groups) {
    forall code, i, j :: code in groups && 0 <= i < j < |groups[code]| && Truthy(groups[code][i].leadingDigits) ==>
      groups[code][i].leadingDigits != groups[code][j].leadingDigits
  }

  /** Every calling code keeps its records: lists never shrink and no code disappears. */
  ghost predicate NoShrink(before: Groups, after: Groups) {
    forall code :: code in before ==> code in after && |before[code]| <= |after[code]|
  }

  // ---------------------------------------------------------------------------
  // Properties

  /**
   * Placing a record under an existing calling code: it is appended exactly when no
   * record there matches it; a match is replaced in place only by a main-country record;
   * otherwise nothing changes. A new calling code gets the record alone. Other codes
   * are untouched.
   */
  lemma PlaceSpec(groups: Groups, code: string, c: Country)
    ensures var r := Place(groups, code, c);
      && r.Keys == groups.Keys + {code}
      && (forall other :: other in groups && other != code ==> r[other] == groups[other])
      && (code !in groups ==> r[code] == [c])
      && (code in groups ==>
            var arr := groups[code];
            && ((forall k :: 0 <= k < |arr| ==> !Matches(arr[k], c)) <==> r[code] == arr + [c])
            && (forall i :: 0 <= i < |arr| && Matches(arr[i], c) && (forall k :: 0 <= k < i ==> !Matches(arr[k], c)) ==>
                  r[code] == if c.mainCountryForCode then arr[i := c] else arr))
  {
    if code in groups {
      var arr := groups[code];
      var i := FindMatch(arr, c);
      if i >= 0 {
        assert r_ne: Place(groups, code, c)[code] != arr + [c] by {
          assert |Place(groups, code, c)[code]| == |arr|;
        }
        forall i' | 0 <= i' < |arr| && Matches(arr[i'], c) && (forall k :: 0 <= k < i' ==> !Matches(arr[k], c))
          ensures i' == i
        {
          if i' < i {
          } else if i < i' {
          }
        }
      }
    }
  }

  /** Placing a record never shrinks a list. */
  lemma PlaceNoShrink(groups: Groups, code: string, c: Country)
    ensures NoShrink(groups, Place(groups, code, c))
  {
  }

  /** Placing a record keeps non-empty leading digits unique per calling code. */
  lemma PlaceKeepsLeadingDigitsUnique(groups: Groups, code: string, c: Country)
    requires LeadingDigitsUnique(groups)
    ensures LeadingDigitsUnique(Place(groups, code, c))
  {
    var r := Place(groups, code, c);
    if code in groups {
      var arr := groups[code];
      var i := FindMatch(arr, c);
      var na := r[code];
      forall a, b | 0 <= a < b < |na| && Truthy(na[a].leadingDigits)
        ensures na[a].leadingDigits != na[b].leadingDigits
      {
        if i < 0 {
          if b == |arr| {
            assert !Matches(arr[a], c);
          }
        } else if c.mainCountryForCode {
          if a == i && Truthy(c.leadingDigits) {
            assert arr[i].leadingDigits == c.leadingDigits;
          } else if b == i && Truthy(c.leadingDigits) {
            assert arr[i].leadingDigits == c.leadingDigits;
          }
        }
      }
      assert forall other :: other in r && other != code ==> r[other] == groups[other];
    }
  }

  /** The world pseudo-region and territories without mobile data change nothing. */
  lemma SkippedTerritories(groups: Groups, t: Territory, formatObj: Ordered<seq<FormatEntry>>)
    requires t.id == "001" || t.mobile.None?
    ensures ResolveOne(groups, t, formatObj) == Success(groups)
  {
  }

  /** Over the whole loop no list ever shrinks and non-empty leading digits stay unique
      per calling code. */
  lemma {:induction false} ResolveSpec(ts: seq<Territory>, formatObj: Ordered<seq<FormatEntry>>)
    ensures Resolve(ts, formatObj).Success? ==> LeadingDigitsUnique(Resolve(ts, formatObj).value)
    ensures forall n :: 0 <= n <= |ts| && Resolve(ts, formatObj).Success? ==>
      Resolve(ts[..n], formatObj).Success? && NoShrink(Resolve(ts[..n], formatObj).value, Resolve(ts, formatObj).value)
  {
    if ts != [] {
      var prev := ts[..|ts| - 1];
      var t := ts[|ts| - 1];
      ResolveSpec(prev, formatObj);
      var m := Resolve(prev, formatObj);
      if m.Success? && Resolve(ts, formatObj).Success? {
        var g := m.value;
        var r := Resolve(ts, formatObj).value;
        if !(t.id == "001" || t.mobile.None?) {
          var c := MakeCountry(t, t.mobile.value.nationalNumberPattern.value, formatObj);
          PlaceKeepsLeadingDigitsUnique(g, t.countryCode, c);
          PlaceNoShrink(g, t.countryCode, c);
        }
        assert NoShrink(g, r);
        forall n | 0 <= n <= |ts|
          ensures Resolve(ts[..n], formatObj).Success? && NoShrink(Resolve(ts[..n], formatObj).value, r)
        {
          if n == |ts| {
            assert ts[..n] == ts;
          } else {
            assert ts[..n] == prev[..n];
          }
        }
      }
    }
  }

  /** Two territories of calling code "7" with one pattern, no leading digits and no
      main-country flag leave one record: the first. */
  lemma SamePatternKeepsFirst(formatObj: Ordered<seq<FormatEntry>>, p: string)
    ensures var ru := Territory("RU", "7", Some(Mobile(Some(p))), None, None);
      var kz := Territory("KZ", "7", Some(Mobile(Some(p))), None, None);
      var r := Resolve([ru, kz], formatObj);
      r.Success? && "7" in r.value && |r.value["7"]| == 1 && r.value["7"][0].iso2 == "RU"
  {
    var ru := Territory("RU", "7", Some(Mobile(Some(p))), None, None);
    var kz := Territory("KZ", "7", Some(Mobile(Some(p))), None, None);
    assert [ru, kz][..1] == [ru];
    assert [ru][..0] == [];
    var g := map["7" := [MakeCountry(ru, p, formatObj)]];
    assert Resolve([ru], formatObj) == Success(g);
    var c := MakeCountry(kz, p, formatObj);
    assert Matches(g["7"][0], c);
    assert FindMatch(g["7"], c) == 0;
  }

  /** Records without leading digits are told apart by pattern, yet two of them can end up
      with the same pattern under one calling code: a main-country record with leading
      digits moves pattern "1" to the front, and a main-country record without leading
      digits then replaces that front record rather than the one already holding "1". */
  lemma DisambiguationKeyRepeats(formatObj: Ordered<seq<FormatEntry>>)
    ensures var b := Territory("B", "7", Some(Mobile(Some("2"))), Some("9"), None);
      var n := Territory("N", "7", Some(Mobile(Some("1"))), None, None);
      var a := Territory("A", "7", Some(Mobile(Some("1"))), Some("9"), Some("true"));
      var e := Territory("E", "7", Some(Mobile(Some("1"))), None, Some("true"));
      var r := Resolve([b, n, a, e], formatObj);
      && r.Success? && "7" in r.value && |r.value["7"]| == 2
      && r.value["7"][0].iso2 == "E" && r.value["7"][1].iso2 == "N"
      && !Truthy(r.value["7"][0].leadingDigits) && !Truthy(r.value["7"][1].leadingDigits)
      && r.value["7"][0].pattern == r.value["7"][1].pattern
  {
    var b := Territory("B", "7", Some(Mobile(Some("2"))), Some("9"), None);
    var n := Territory("N", "7", Some(Mobile(Some("1"))), None, None);
    var a := Territory("A", "7", Some(Mobile(Some("1"))), Some("9"), Some("true"));
    var e := Territory("E", "7", Some(Mobile(Some("1"))), None, Some("true"));
    var ts := [b, n, a, e];
    assert StripBlanks("1") == "1" && StripBlanks("2") == "2";
    var cb, cn := MakeCountry(b, "2", formatObj), MakeCountry(n, "1", formatObj);
    var ca, ce := MakeCountry(a, "1", formatObj), MakeCountry(e, "1", formatObj);
    assert ts[..0] == [];
    assert ts[..1][..0] == [];
    assert Resolve(ts[..1], formatObj) == Success(map["7" := [cb]]);
    assert ts[..2][..1] == ts[..1];
    assert !Matches(cb, cn);
    assert FindMatch([cb], cn) == -1;
    assert ts[..2][1] == n;
    assert ResolveOne(map["7" := [cb]], n, formatObj) == Success(Place(map["7" := [cb]], "7", cn));
    assert [cb] + [cn] == [cb, cn];
    assert map["7" := [cb]]["7" := [cb, cn]] == map["7" := [cb, cn]];
    assert Place(map["7" := [cb]], "7", cn) == map["7" := [cb, cn]];
    assert Resolve(ts[..2], formatObj) == Success(map["7" := [cb, cn]]);
    assert ts[..3][..2] == ts[..2];
    assert Matches(cb, ca);
    assert FindMatch([cb, cn], ca) == 0;
    assert [cb, cn][0 := ca] == [ca, cn];
    assert ts[..3][2] == a;
    assert ResolveOne(map["7" := [cb, cn]], a, formatObj) == Success(Place(map["7" := [cb, cn]], "7", ca));
    assert Place(map["7" := [cb, cn]], "7", ca) == map["7" := [ca, cn]];
    assert Resolve(ts[..3], formatObj) == Success(map["7" := [ca, cn]]);
    assert ts[..4][..3] == ts[..3];
    assert ts[..4] == ts;
    assert Matches(ca, ce);
    assert FindMatch([ca, cn], ce) == 0;
    assert [ca, cn][0 := ce] == [ce, cn];
    assert ResolveOne(map["7" := [ca, cn]], e, formatObj) == Success(Place(map["7" := [ca, cn]], "7", ce));
    assert Place(map["7" := [ca, cn]], "7", ce) == map["7" := [ce, cn]];
    assert Resolve(ts, formatObj) == Success(map["7" := [ce, cn]]);
  }

  /** A record carries formats exactly when its region is a key of the table, and then it
      carries that region's list (`formatObj[_id]` on line 168). */
  ghost predicate FromTable(c: Country, formatObj: Ordered<seq<FormatEntry>>) {
    && (c.formats.Some? <==> c.iso2 in formatObj.values)
    && (c.formats.Some? ==> c.formats.value == formatObj.values[c.iso2])
  }

  ghost predicate AllFromTable(groups: Groups, formatObj: Ordered<seq<FormatEntry>>) {
    forall code, c :: code in groups && c in groups[code] ==> FromTable(c, formatObj)
  }

  lemma PlaceKeepsFromTable(groups: Groups, code: string, c: Country, formatObj: Ordered<seq<FormatEntry>>)
    requires AllFromTable(groups, formatObj) && FromTable(c, formatObj)
    ensures AllFromTable(Place(groups, code, c), formatObj)
  {
    var r := Place(groups, code, c);
    forall k, x | k in r && x in r[k]
      ensures FromTable(x, formatObj)
    {
      if k == code && code in groups {
        var arr := groups[code];
        var i := FindMatch(arr, c);
        if i < 0 {
          assert x in arr || x == c;
        } else if c.mainCountryForCode {
          var j :| 0 <= j < |r[k]| && r[k][j] == x;
          if j != i {
            assert x == arr[j] && arr[j] in arr;
          }
        }
      }
    }
  }

  /** Every resolved record takes its formats from the table it was resolved against. */
  lemma {:induction false} ResolveFromTable(ts: seq<Territory>, formatObj: Ordered<seq<FormatEntry>>)
    ensures Resolve(ts, formatObj).Success? ==> AllFromTable(Resolve(ts, formatObj).value, formatObj)
  {
    if ts != [] {
      var prev := ts[..|ts| - 1];
      ResolveFromTable(prev, formatObj);
      match Resolve(prev, formatObj)
      case Failure(_) =>
      case Success(g) =>
        var t := ts[|ts| - 1];
        if !(t.id == "001" || t.mobile.None?) && t.mobile.value.nationalNumberPattern.Some? {
          PlaceKeepsFromTable(g, t.countryCode, MakeCountry(t, t.mobile.value.nationalNumberPattern.value, formatObj), formatObj);
        }
    }
  }

  // ---------------------------------------------------------------------------
  // Failure propagation, for the early exit of the method below

  lemma {:induction false} FailurePropagates(ts: seq<Territory>, formatObj: Ordered<seq<FormatEntry>>, n: nat, e: string)
    requires n <= |ts|
    requires Resolve(ts[..n], formatObj) == Failure(e)
    ensures Resolve(ts, formatObj) == Failure(e)
    decreases |ts| - n
  {
    if n < |ts| {
      assert ts[..n + 1][..n] == ts[..n];
      FailurePropagates(ts, formatObj, n + 1, e);
    } else {
      assert ts[..n] == ts;
    }
  }

  /** A territory whose `mobile` block has no `nationalNumberPattern`: line 167 throws on it. */
  predicate Aborts(t: Territory) {
    t.id != "001" && t.mobile.Some? && t.mobile.value.nationalNumberPattern.None?
  }

  /**
   * The run aborts exactly when some territory that is not skipped has a mobile block
   * without a pattern, and the error is the id of the first such territory.
   */
  lemma {:induction false} ResolveFailsIff(ts: seq<Territory>, formatObj: Ordered<seq<FormatEntry>>)
    ensures Resolve(ts, formatObj).Failure? <==> exists i :: 0 <= i < |ts| && Aborts(ts[i])
    ensures Resolve(ts, formatObj).Failure? ==>
      exists i :: 0 <= i < |ts| && Aborts(ts[i]) && (forall k :: 0 <= k < i ==> !Aborts(ts[k])) &&
        Resolve(ts, formatObj).error == ts[i].id
  {
    if ts != [] {
      var p := ts[..|ts| - 1];
      ResolveFailsIff(p, formatObj);
      assert forall i :: 0 <= i < |p| ==> p[i] == ts[i];
      if Resolve(p, formatObj).Failure? {
        var i :| 0 <= i < |p| && Aborts(p[i]) && (forall k :: 0 <= k < i ==> !Aborts(p[k])) &&
          Resolve(p, formatObj).error == p[i].id;
        assert Aborts(ts[i]);
      } else {
        var last := |ts| - 1;
        if Aborts(ts[last]) {
          assert forall k :: 0 <= k < last ==> !Aborts(ts[k]);
        }
      }
    }
  }

  // ---------------------------------------------------------------------------
  // The loop of lines 159-187

  method ResolveCountries(data: seq<Territory>, formatObj: Ordered<seq<FormatEntry>>) returns (r: Result<Groups, string>)
    ensures r == Resolve(data, formatObj)
  {
    var groups: Groups := map[];
    for i := 0 to |data|
      invariant Resolve(data[..i], formatObj) == Success(groups)
    {
      var t := data[i];
      assert data[..i + 1][..i] == data[..i];
      if t.id == "001" || t.mobile.None? {
        assert ResolveOne(groups, t, formatObj) == Success(groups);
        continue;
      }
      if t.mobile.value.nationalNumberPattern.None? {
        FailurePropagates(data, formatObj, i + 1, t.id);
        return Failure(t.id);
      }
      var country := MakeCountry(t, t.mobile.value.nationalNumberPattern.value, formatObj);
      if t.countryCode in groups {
        var arr := groups[t.countryCode];
        var index := FindMatch(arr, country);
        if index < 0 {
          arr := arr + [country];
        } else if country.mainCountryForCode {
          arr := arr[index := country];
        }
        assert groups[t.countryCode := arr] == Place(groups, t.countryCode, country);
        groups := groups[t.countryCode := arr];
      } else {
        groups := groups[t.countryCode := [country]];
      }
    }
    assert data[..|data|] == data;
    r := Success(groups);
  }
}
