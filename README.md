# Phone-format generator core, modelled in Dafny

The generator reads Google's libphonenumber metadata. It builds, for every region, the
list of digit-mask templates its mobile numbers are written in. It interns the templates
into one shared table and groups the regions into country records under their calling
codes. Then it emits TypeScript sources: for every country a formats module
(`phoneNumberFormats/<iso2>/index.ts`) and a validation-pattern module
(`phoneValidationPatterns/<iso2>/index.ts`), followed by shared index, type and
constants modules.

The model covers the data pipeline of `build/main.js`:

- **deduplication index** `handleUnique` (`unique.dfy`): a closure that calls a value
  supplier only for a (key, subkey) pair it has not seen yet. It keeps the value only
  when the value is truthy.
- **merger** (`merger.dfy`, lines 47-87): reads the mobile rows of every calling code's
  `ranges.csv` and registers one format per region. The format comes from `formats.csv`
  when both that file and a format id exist; otherwise it is an all-zero template of the
  row's length. Regions that only have the all-zero templates are then copied in.
- **normaliser** (`normaliser.dfy`, lines 88-106): keeps the first format of each length
  and sorts by length. It then drops every format whose template is a prefix of another
  format's template.
- **interner** (`interner.dfy`, lines 107-135): binds every format to a slot of the
  shared `formatsList`. It reuses the first slot whose template is a prefix of the
  format's template, or has the format's template as a prefix. A longer template
  overwrites the stored one.
- **country resolver** (`resolver.dfy`, lines 158-187): turns territories into country
  records and places them under their calling codes.
- **aggregate pass** (`aggregate.dfy`, lines 188-215): computes the longest calling
  code, the longest number length, and the shared constants, each emitted once, in
  order of first use.
- **the whole run** (`pipeline.dfy`, lines 47-215): chains the stages as `run` does. Each
  stage's precondition is met by the stage before it. Every format index that reaches
  the aggregate pass names a slot. That pass aborts exactly when a resolved country's
  region was never registered by the merger.

The other files hold support code:

- `types.dfy`: the shared records. It also models a JavaScript object as an
  insertion-ordered dictionary (`Ordered`).
- `strings.dfy`: the string operations the pipeline uses.
- `wrappers.dfy`: `Option` and `Result`.

Inputs and errors are modelled as follows:

- The parsed CSV and XML inputs are parameters.
- A supplier callback is represented by what it would produce: a truthy value, nothing,
  or a thrown exception.
- A `TypeError` that aborts the run is a `Failure` result.

Each stage has two parts:

- a specification function that folds over its input, with lemmas about that function;
- an imperative method with the loops of the source, proved to compute that function.

`handleUnique` is a class, `Unique.UniqueIndex`. Its `Add` method is proved against the
pure transition `Unique.Apply`.

Where the prose documentation of the generator and its code disagree, the model follows
the code:

- The first time a region meets a format id that its calling code's `formats.csv` does
  not define, `formats.find(...)` returns `undefined`, so reading `.International`
  throws and the run aborts (`Merger.RegisterRegionWithFormat`). The documentation
  says such a region is skipped. The supplier runs only for a (region, id) pair not
  seen before, and `formatObj`'s index is shared by all calling codes. So a region
  that already met the id under an earlier calling code does not throw.
- When a new template extends a stored one, the interner stores the longer template
  (lines 120-123). The documentation's example keeps the shorter one.
- The documentation describes a group invariant that does not hold in general: that no
  two records of a calling code share their disambiguation key (the leading digits when
  present, the pattern otherwise). `Resolver.DisambiguationKeyRepeats` exhibits four
  territories that leave two records without leading digits and with the same pattern.
  What the code does guarantee is proved instead: within a calling code, no two records
  share the same non-empty leading digits (`Resolver.ResolveSpec`).

## Model

| member | source | states |
|---|---|---|
| Unique.UniqueIndex.constructor | build/utils.js:12-13 | a fresh index has empty `map` and `obj`, and is consistent |
| Unique.UniqueIndex.Add | build/utils.js:16-37 | the supplier is invoked exactly when the (key, subkey) pair is new; the new closure state is `Apply` of the old one; consistency is kept |
| Unique.Collect | build/utils.js:29-37 | a new pair gives its key a list if it has none and appends only a truthy value; the other keys and the key order are unchanged |
| Unique.Apply | src/utils.ts:11-39 | one call of the closure on the pure state: characterised by `ApplySeenIsNoOp`, `ApplyNewPair`, `ApplyTouchesOnlyKey` and `ApplyConsistent`, and implemented by `UniqueIndex.Add` |
| Unique.EmptyConsistent | src/utils.ts:5-7 | the initial state is consistent |
| Unique.ApplySeenIsNoOp | src/utils.ts:12-28 | a call with an already seen pair changes neither `map` nor `obj` |
| Unique.ApplyNewPair | src/utils.ts:14-38 | a new pair is recorded under its key whatever the supplier gives, and `obj[key]` gains exactly the truthy value, at its end |
| Unique.ApplyTouchesOnlyKey | src/utils.ts:14-38 | a call leaves every other key's subkeys and list unchanged and only extends the key order |
| Unique.ApplyConsistent | src/utils.ts:11-39 | one call keeps `obj`'s keys equal to `map`'s and each list no longer than its set of subkeys |
| Unique.ApplyAllConsistent | src/utils.ts:4-41 | any sequence of calls keeps the index consistent |
| Unique.ApplyAllKeepsCollected | src/utils.ts:28-38 | once collected, a value stays in place: lists and subkey sets only grow |
| Types.Ordered.Set | build/main.js:85 | assignment keeps distinct keys, puts a new key last and leaves an existing key in place |
| Types.EmptyOrdered | build/utils.js:13 | an empty object has no keys |
| Types.MapValuesSpec | build/main.js:88-106 | rewriting each key once in iteration order keeps the key order and rewrites every key once, others untouched |
| Strings.Split | build/main.js:54-56 | at least one token, no token contains a separator, one token means the whole string |
| Strings.JoinSplit | build/main.js:54 | joining the tokens of a split gives the string back |
| Strings.LastTokenIsFinalSegment | build/main.js:56-57 | the last token is the suffix after the last separator, or the whole string |
| Strings.LastTokenIsSuffix | build/main.js:56 | the last token is a suffix of the string |
| Strings.LastTokenAfterSeparator | build/main.js:56 | a last token shorter than the string is preceded by a separator |
| Strings.ParseLength | build/main.js:57 | a token is read (`Some`) exactly when it consists of decimal digits only; any token holding another character is `None` |
| Strings.ParseLengthDigits | build/main.js:57 | the value of every digit string: the empty token is 0, a leading zero changes nothing, and appending a digit gives ten times the value plus the digit |
| Strings.ParseShowNat | build/main.js:57 | reading back a length's digits gives the length |
| Strings.Mask | build/main.js:65 | every `*` and `X` becomes '0' and every other character stays in place |
| Strings.Zeros | build/main.js:74 | the all-zero template has the row's length |
| Strings.StripBlanks | build/main.js:167 | stripping keeps only non-blank characters of the pattern and leaves a blank-free pattern alone |
| Strings.StripBlanksSpec | build/main.js:167 | stripping filters character by character: a blank goes, any other character stays, and a concatenation strips part by part, so the non-blank characters survive in order |
| Strings.StripBlanksAppend | build/main.js:167 | a concatenation strips part by part |
| Strings.StripBlanksIdempotent | build/main.js:167 | stripping twice strips nothing more |
| Merger.RowLength | build/main.js:56-57 | the last token of the `Length` column split on `-` and `,`, read by `ParseLength`: characterised by `LastTokenIsFinalSegment`, `ParseLength`, `ParseLengthDigits` and `LengthExample` |
| Merger.FindFormat | build/main.js:62 | `find` returns the first definition with the id, and nothing exactly when no definition has it |
| Merger.FormatSupplier | build/main.js:61-70 | the supplier handed to `addToFormatObj`: characterised by `FormatSupplierCases` |
| Merger.FormatSupplierCases | build/main.js:61-70 | an undefined id throws; for the first definition with the id, an empty template or one with `{X>}` yields nothing, and any other template yields exactly its masked form with the row's length, not yet interned |
| Merger.RegisterRegionWithoutFormat | build/main.js:72-77 | without formats or format id, a region registers the all-zero template of that length once per length and `formatObj` is untouched |
| Merger.OtherRowsIgnored | build/main.js:52-53 | rows that are neither MOBILE nor FIXED_LINE_OR_MOBILE change nothing |
| Merger.LengthExample | build/main.js:56-77 | a length list "7,9" gives length 9, and without formats the region registers the nine-digit all-zero template |
| Merger.RegisterRegion | build/main.js:59-78 | one region of a mobile row: characterised by `RegisterRegionWithFormat` and `RegisterRegionAppends` (format path), `RegisterRegionWithoutFormat` (path without formats) and `RegisterRegionGood` (invariant) |
| Merger.RegisterRegions | build/main.js:58-79 | the reverse loop over a row's regions: characterised by `RegisterRegionsGood` and `RegionFailurePropagates`, and implemented by `RegisterRegionsInto` |
| Merger.RegisterRow | build/main.js:51-80 | one row of `ranges.csv`: characterised by `OtherRowsIgnored`, `LengthExample` and `RegisterRowsGood` |
| Merger.RegisterRows | build/main.js:51-81 | the rows of one `ranges.csv`: characterised by `RegisterRowsGood` and `RowFailurePropagates`, and implemented by `RegisterRowsInto` |
| Merger.RegisterCodes | build/main.js:47-82 | the loop over the calling codes: characterised by `RegisterCodesGood` and `CodeFailurePropagates` |
| Merger.RegisterRegionGood | build/main.js:58-79 | registering a region keeps both indexes consistent and every stored entry not yet interned (index -1), with no `*` or `X` left in its template |
| Merger.RegisterRegionsGood | build/main.js:58-79 | the region loop keeps the same invariant |
| Merger.RegisterRowsGood | build/main.js:51-81 | the row loop keeps the same invariant |
| Merger.RegisterCodesGood | build/main.js:47-82 | the calling-code loop keeps the same invariant |
| Merger.AddMissing | build/main.js:83-87 | copying the regions that only have all-zero templates: characterised by `AddMissingKeepsExisting`, and implemented by `CopyMissing` |
| Merger.Merge | build/main.js:47-87 | the whole merger: characterised by `MergeGood` (success) and `MergeFailureSound` (failure), and implemented by `MergeRanges` |
| Merger.AddMissingKeepsExisting | build/main.js:83-87 | regions of `formatObj` keep their lists and place; a missing region is copied from `withoutFormatObj` and placed last |
| Merger.MergeGood | build/main.js:47-87 | the merged table is a valid ordered dictionary of registered entries whose regions are those of either table |
| Merger.RegisterRegionWithFormat | build/main.js:59-70 | with formats and a format id, a region aborts with that id exactly when the (region, id) pair is new and `formats.csv` does not define the id; a seen pair changes nothing; `withoutFormatObj` is untouched |
| Merger.RegisterRegionAppends | build/main.js:59-70 | a new pair whose id is defined appends exactly the supplier's value, if any, at the end of the region's list |
| Merger.RegionsFailureSound | build/main.js:58-70 | a failing region loop fails with the row's format id, which its `formats.csv` does not define |
| Merger.RowsFailureSound | build/main.js:51-70 | a failing file fails with the format id of one of its mobile rows, undefined in its `formats.csv` |
| Merger.CodesFailureSound | build/main.js:47-70 | a failing calling-code loop fails with the format id of some code's mobile row that the code's `formats.csv` does not define |
| Merger.MergeFailureSound | build/main.js:47-87 | the merge aborts only on such an undefined format id, and reports it |
| Merger.RegionFailurePropagates | build/main.js:58-62 | an undefined format id for a later region aborts the whole region loop with that id |
| Merger.RowFailurePropagates | build/main.js:51-62 | an abort in a row aborts the rest of the file |
| Merger.CodeFailurePropagates | build/main.js:47-62 | an abort for a calling code aborts the run |
| Merger.RegisterRegionsInto | build/main.js:58-79 | the in-place region loop over the two indexes computes the registry of `RegisterRegions`, or its failure |
| Merger.RegisterRowsInto | build/main.js:51-81 | the in-place row loop computes `RegisterRows` |
| Merger.CopyMissing | build/main.js:83-87 | the copying loop computes `AddMissing` |
| Merger.MergeRanges | build/main.js:47-87 | the whole merger computes `Merge` |
| Normaliser.DedupByLength | build/main.js:91-100 | the loop with the seen-length set: characterised by `DedupByLengthSpec`, and implemented by `DedupLengths` |
| Normaliser.SortByLength | build/main.js:101 | the sort by length: characterised by `SortByLengthMultiset`, `SortByLengthPermutes` and `SortByLengthSorted` |
| Normaliser.KeepUndominated | build/main.js:102-104 | the `filter` over the sorted list: characterised by `KeepUndominatedSpec` and `DominatedIffOtherPrefix` |
| Normaliser.Normalise | build/main.js:89-105 | one region's list: characterised by `NormaliseSpec` and `ShortListsUntouched` |
| Normaliser.NormaliseTable | build/main.js:88-106 | the loop over `formatObj`: characterised by `NormaliseTableSpec`, and implemented by `NormaliseFormats` |
| Normaliser.LengthsAppend | build/main.js:96-98 | appending an entry adds its length to the set of lengths |
| Normaliser.DedupByLengthSpec | build/main.js:91-100 | the deduplicated list has distinct lengths, the same set of lengths, and only first entries of their length |
| Normaliser.DedupByLengthLengths | build/main.js:91-100 | distinct lengths, covering every length of the input |
| Normaliser.DedupByLengthFirsts | build/main.js:91-100 | every kept entry is the first of its length |
| Normaliser.InsertByLengthMultiset | build/main.js:101 | insertion adds exactly the new entry |
| Normaliser.InsertByLengthSorted | build/main.js:101 | insertion keeps a list sorted by length |
| Normaliser.InsertByLengthStrict | build/main.js:101 | inserting a new length keeps lengths strictly ascending |
| Normaliser.SortByLengthMultiset | build/main.js:101 | sorting is a permutation |
| Normaliser.SortByLengthPermutes | build/main.js:101 | sorting is a permutation with the same members |
| Normaliser.SortByLengthSorted | build/main.js:101 | the sorted list ascends by length, strictly when lengths are distinct |
| Normaliser.KeepUndominatedSpec | build/main.js:102-104 | the filter keeps exactly the entries that no other position's template starts with, in order |
| Normaliser.DominatedIffOtherPrefix | build/main.js:103 | on distinct lengths, an entry is dropped iff another entry's template starts with its template |
| Normaliser.KeptIffNoOtherPrefix | build/main.js:102-104 | an entry survives iff no other entry's template extends it |
| Normaliser.NormaliseSpec | build/main.js:88-106 | a normalised list ascends strictly by length, holds only first-of-length entries, and keeps exactly those that no other such entry extends |
| Normaliser.NormaliseAscending | build/main.js:90-104 | the normalised list ascends strictly by length |
| Normaliser.NormaliseKeptIff | build/main.js:90-104 | a first-of-length entry survives iff no other such entry's template starts with its template |
| Normaliser.NormaliseFromFirsts | build/main.js:90-104 | every survivor is the first entry of its length in the input |
| Normaliser.EqualTemplatesRemoveEachOther | build/main.js:102-104 | two entries with equal templates both drop out |
| Normaliser.ShortListsUntouched | build/main.js:90 | lists of at most one format are left as they are |
| Normaliser.NormaliseTableSpec | build/main.js:88-106 | every region's list is normalised and the region order is kept |
| Normaliser.DedupLengths | build/main.js:91-100 | the loop with the seen-length set computes `DedupByLength` |
| Normaliser.NormaliseFormats | build/main.js:88-106 | the loop over `formatObj` computes `NormaliseTable` |
| Interner.InternOne | build/main.js:111-133 | one format: characterised by `InternOneSpec` and `LongerTemplateWins`, and implemented by `InternFormat` |
| Interner.InternList | build/main.js:110-134 | one region's list: characterised by `InternListSpec` |
| Interner.InternKeys | build/main.js:108-135 | the regions visited so far: characterised by `InternKeysSpec` |
| Interner.InternTable | build/main.js:107-135 | the whole interner: characterised by `InternTableSpec` and `InterningIsIdempotent`, and implemented by `InternFormats` |
| Interner.FirstRelatedFrom | build/main.js:113-126 | the scan finds the first slot whose template is a prefix of the format's template, or extends it; otherwise -1 |
| Interner.PrefixTransitive | build/main.js:115 | the prefix relation is transitive |
| Interner.GrowsTransitive | build/main.js:113-129 | slot templates only grow and the table only gains slots, transitively |
| Interner.BoundAfterGrowth | build/main.js:113-133 | an entry stays bound to a slot that extends its template as the table grows |
| Interner.InternOneSpec | build/main.js:111-133 | a format gets a new slot iff no slot is related; otherwise the first related slot counts one more use and its template becomes the longer of the stored and the new one, and nothing else changes |
| Interner.LongerTemplateWins | build/main.js:120-123 | interning "0000" then "000000" leaves one slot holding "000000", used twice |
| Interner.InternListGrows | build/main.js:110-134 | interning a region's list only grows the table |
| Interner.InternListBound | build/main.js:110-134 | each entry of the list is bound to a slot whose template starts with its own |
| Interner.InternListSameFormats | build/main.js:110-134 | interning changes only the index field of each entry |
| Interner.InternListSpec | build/main.js:110-134 | growth, binding and unchanged templates for one list |
| Interner.InternKeysSpec | build/main.js:108-135 | over the first regions: order kept, table grows, each visited entry bound, other regions untouched |
| Interner.InternTableSpec | build/main.js:107-135 | every entry of every region is bound to a slot extending its template, with the template and region order unchanged |
| Interner.ReinternCreatesNoSlot | build/main.js:113-130 | formats already covered by a slot create no new slot |
| Interner.InterningIsIdempotent | build/main.js:113-130 | re-interning the table's own templates creates no slot |
| Interner.InternFormat | build/main.js:111-133 | the scan with `break` computes `InternOne` and changes only the entry's index |
| Interner.InternFormats | build/main.js:107-135 | the nested loops compute `InternTable` |
| Resolver.MakeCountry | build/main.js:165-171 | the record of a territory: characterised by `PlaceKeepsFromTable` and `ResolveFromTable` (its formats) and by `StripBlanksSpec` (its pattern) |
| Resolver.Place | build/main.js:172-186 | placing a record: characterised by `PlaceSpec`, `PlaceNoShrink` and `PlaceKeepsLeadingDigitsUnique` |
| Resolver.ResolveOne | build/main.js:161-186 | one territory: characterised by `SkippedTerritories`, `ResolveFailsIff` and `PlaceSpec` |
| Resolver.Resolve | build/main.js:158-187 | the loop over the territories: characterised by `ResolveSpec`, `ResolveFailsIff` and `ResolveFromTable`, and implemented by `ResolveCountries` |
| Resolver.FindMatchFrom | build/main.js:174-176 | `findIndex` gives the first matching record, or -1 when none matches |
| Resolver.PlaceSpec | build/main.js:172-186 | a record is appended iff none matches; the first match is replaced only by a main-country record; a new code gets the record alone; other codes are untouched |
| Resolver.PlaceNoShrink | build/main.js:172-186 | placing never removes a code or a record |
| Resolver.PlaceKeepsLeadingDigitsUnique | build/main.js:172-186 | placing keeps non-empty leading digits unique per calling code |
| Resolver.SkippedTerritories | build/main.js:162-164 | the '001' region and territories without mobile data change nothing |
| Resolver.ResolveSpec | build/main.js:160-187 | the resolved groups keep non-empty leading digits unique per code, and every earlier state's lists survive |
| Resolver.SamePatternKeepsFirst | build/main.js:174-181 | of two non-main territories with one calling code and the same pattern, only the first is kept |
| Resolver.DisambiguationKeyRepeats | build/main.js:172-186 | two records of one calling code can end up with no leading digits and the same pattern |
| Resolver.PlaceKeepsFromTable | build/main.js:168-186 | placing keeps every record's formats equal to its region's list in the table |
| Resolver.ResolveFromTable | build/main.js:160-187 | every resolved record carries its region's list when the table has the region, and no formats otherwise |
| Resolver.ResolveFailsIff | build/main.js:160-167 | the loop aborts exactly when some territory other than '001' has a mobile block without a pattern, and the error is the id of the first such territory |
| Resolver.FailurePropagates | build/main.js:160-167 | once the loop has aborted on a prefix of the territories, the whole loop aborts with the same error |
| Resolver.ResolveCountries | build/main.js:158-187 | the loop over the territories computes `Resolve` |
| Aggregate.CountryFormats | build/main.js:198-204 | the entries of one code's records: characterised by `CountryFormatsSpec` |
| Aggregate.Visited | build/main.js:193-204 | the entries of all visited codes: characterised by `VisitedSpec` |
| Aggregate.MaxKeyLength | build/main.js:195-197 | `longestCallingCode`: characterised by `MaxKeyLengthSpec` |
| Aggregate.MaxLength | build/main.js:205-207 | `longestNumber`: characterised by `MaxLengthSpec` |
| Aggregate.Shared | build/main.js:209-215 | the constants file's variables: characterised by `SharedSpec` |
| Aggregate.Summarise | build/main.js:188-215 | the emission loop's accumulated values: characterised by `SummariseSpec`, and implemented by `Accumulate` |
| Aggregate.CountryFormatsSpec | build/main.js:198-204 | the entries can be collected iff every record has formats, and then they are exactly the records' entries |
| Aggregate.VisitedSpec | build/main.js:193-204 | the same over all visited calling codes |
| Aggregate.MaxKeyLengthSpec | build/main.js:195-197 | the longest calling code bounds every code and is attained, or is 0 |
| Aggregate.MaxLengthSpec | build/main.js:205-207 | the longest number bounds every entry's length and is attained, or is 0 |
| Aggregate.SharedSpec | build/main.js:209-215 | the constants emitted are distinct and are exactly the used slots with a non-zero use count |
| Aggregate.SummariseSpec | build/main.js:188-215 | the pass succeeds iff every record has formats and every index names a slot; then the maxima bound every code and entry and each shared slot used is emitted exactly once |
| Aggregate.CountryFormatsPrefix | build/main.js:198-204 | collecting fewer records yields a prefix of the entries |
| Aggregate.VisitedPrefix | build/main.js:193-204 | visiting fewer codes yields a prefix of the entries |
| Aggregate.IndicesValidPrefix | build/main.js:209 | valid indices stay valid on a prefix |
| Aggregate.MissingFormatsAborts | build/main.js:203-204 | a record without formats aborts |
| Aggregate.CodeAborts | build/main.js:193-210 | a calling code whose records abort makes the pass fail |
| Aggregate.TracksStep | build/main.js:205-215 | one entry updates the longest number, the set and the constants file as the specification functions say |
| Aggregate.ReduceFormats | build/main.js:204-223 | the reduce over one record's entries succeeds iff the indices are valid and then keeps the running values exact |
| Aggregate.VisitRecords | build/main.js:198-224 | the loop over one code's records does the same for their entries |
| Aggregate.Accumulate | build/main.js:188-215 | the emission loop's accumulated values are `Summarise` |
| Pipeline.Prepare | build/main.js:47-135 | the merged table, normalised and interned: same regions in the same order, each list the normalised merged list with only the slot indices filled in, every index naming a slot whose template extends the entry's |
| Pipeline.CodeOrder | build/main.js:193 | the emission loop visits every calling code exactly once |
| Pipeline.Run | build/main.js:47-215 | the whole run, first abort wins: characterised by `RunSpec` |
| Pipeline.BoundThroughTable | build/main.js:168-209 | records drawn from an interned table hold only indices that name slots extending their templates |
| Pipeline.ResolvedRecordsBound | build/main.js:107-209 | the resolver, run on the interned table, gives records carrying that table's lists, every index of which names a slot |
| Pipeline.EntriesNameSlots | build/main.js:204-210 | every entry the emission loop reads has an index naming a slot |
| Pipeline.FormatsEverywhere | build/main.js:168-204 | every visited record has formats exactly when every record's region is a key of the table |
| Pipeline.SummariseAbortsOnlyOnMissingFormats | build/main.js:188-215 | on such records the emission loop aborts, with a `TypeError`, exactly when some record's region has no formats |
| Pipeline.RunSpec | build/main.js:47-215 | a run aborts with the merger's or the resolver's failure when those fail; otherwise it aborts, with a `TypeError`, exactly when some resolved country's region was never registered by the merger |

## Left out

- File and network input (the repository download, `getFile`, `core.info`), CSV and XML parsing: the parsed records are parameters.
- The `Main Region` filter of `metadata.csv` (line 42): the calling codes given to the merger are those that remain.
- Text emission: the TypeScript sources, import lines, file names, `prettier` formatting and the `handleGenerate` writer are not part of this model. Only the values the emission loop accumulates are modelled.
- The country-name dictionaries (`nameDictionary`, `iso2Dictionary`, the `RU` override), `toUpperCase` of ISO codes and the `countries` set only label output.
- The disambiguation regular expression built for non-main records (lines 225-227) is text for the emitted module.
- Strings.ParseLength: reads decimal digits only. In JavaScript, unary `+` turns any token that is not a plain decimal number (surrounding whitespace, a sign, a fraction, a binary, octal or hexadecimal literal, an exponent, `Infinity`, ...) into some number or into NaN (`+" 9"` is 9, `+"9.5"` is 9.5, `+"0b11"` is 3, `+"a"` is NaN); here every such token is `None`.
- Merger.RowLength: the model skips a row whose last length token is not a plain decimal number. The source registers such a row with whatever number or NaN unary `+` gives. On the format path (lines 61-69) it stores the masked `International` template with that length. On the path without formats (lines 72-77) it stores a template of `Array.from({ length })` zeros, which is empty for NaN, with that length.
- Merger.FormatDef: an absent `International` column is the empty string, which the source treats the same way as `undefined` (falsy).
- Resolver.Territory: the `countryCode` attribute is always present. An absent one would group records under the key "undefined".
- Pipeline.CodeOrder: visits each calling code once in an order the model leaves unspecified, not in `for...in`'s ascending numeric order. The properties proved of the emission loop hold for every order; the order of the shared constants in the constants file depends on it.
- Pipeline.Run: a specification of the whole run, not a method. It picks the visiting order rather than computing it, and no single method chains the stage methods; each stage's method is proved against its own stage function.
- Aggregate.Accumulate: the `for...in` order of the calling-code object (ascending numeric for such keys) is the parameter `order`, a permutation of the codes.
- Keys named like `Object.prototype` members (`key in obj` finds inherited properties) are not modelled: every dictionary holds only its own keys.
- Format entries are values. In the source each entry is a distinct object, created by its supplier call once per region. The interner writes each entry's index into that object in place. No object is reachable from two regions, so the model reassigns the entry instead and nothing else changes.
- Interner.InternFormats: the slot objects of `formatsList` are updated in place in the source; the model reassigns a sequence of slot values.
