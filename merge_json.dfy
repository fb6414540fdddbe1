/** Model of frontend/messages/tools/merge_json.py: merging a new
    translation file `xx.json` into its base copy (`copy_xx.json`, else
    `xx_copy.json`), sorting the result recursively by key, discovering the
    two-letter pairs of a directory and validating the command line.

    A directory is the set of its file names, or a map from file name to the
    parsed content of the file. */
module MergeJson {
  import opened Text
  import opened JsonModel

  // ---------- merge_json ----------

  /** What merging the items of one group leaves behind: no item is lost or
      moved, the new items are added, and an item present in both takes the
      new value only with `overwrite`. */
  ghost predicate ItemsMerged(baseItems: Members, items: Members, overwrite: bool, merged: Members) {
    && UniqueKeys(merged)
    && KeepsOrder(baseItems, merged)
    && Keys(merged) == Keys(baseItems) + Keys(items)
    && forall k :: Lookup(merged, k) ==
         if k in Keys(items) && (overwrite || k !in Keys(baseItems)) then Lookup(items, k)
         else Lookup(baseItems, k)
  }

  /** The value a group holds after `merge_json`, given the value `current`
      it holds in the base and the value `offered` under the same key in the
      new data (`Null` when absent):
      - a group not offered as a dict is left as it is;
      - a group absent from the base is added whole;
      - a non-dict base group is kept, or replaced whole with `overwrite`;
      - a dict base group has the offered items merged into it. */
  ghost predicate GroupOutcome(current: Option<Json>, offered: Json, overwrite: bool, after: Option<Json>) {
    if !offered.Obj? then after == current
    else if current.None? then after == Some(offered)
    else if !current.value.Obj? then after == (if overwrite then Some(offered) else current)
    else
      && after.Some? && after.value.Obj?
      && ItemsMerged(current.value.members, offered.members, overwrite, after.value.members)
  }

  function ValueOrNull(v: Option<Json>): Json {
    if v.Some? then v.value else Null
  }

  /** What merging `newData` into `base` leaves behind: no group is lost or
      moved, the dict groups of `newData` are added, and every group follows
      `GroupOutcome`. */
  ghost predicate GroupsMerged(base: Members, newData: Members, overwrite: bool, merged: Members) {
    && UniqueKeys(merged)
    && KeepsOrder(base, merged)
    && Keys(merged) == Keys(base) + DictKeys(newData)
    && forall g :: GroupOutcome(Lookup(base, g), ValueOrNull(Lookup(newData, g)), overwrite, Lookup(merged, g))
  }

  /** The inner loop of `merge_json`: the items of one new group go into the
      existing dict group. */
  method MergeItems(baseItems: Members, items: Members, overwrite: bool) returns (merged: Members)
    requires UniqueKeys(baseItems) && UniqueKeys(items)
    ensures ItemsMerged(baseItems, items, overwrite, merged)
  {
    merged := baseItems;
    for i := 0 to |items|
      invariant ItemsMerged(baseItems, items[..i], overwrite, merged)
    {
      var (key, value) := items[i];
      UniqueKeyNotInPrefix(items, i);
      forall k ensures Lookup(items[..i + 1], k) ==
        if k in Keys(items[..i]) then Lookup(items[..i], k)
        else if k == key then Some(value) else None
      {
        LookupSnoc(items, i, k);
      }
      if Lookup(merged, key).None? || overwrite {
        merged := Assign(merged, key, value);
      }
    }
    assert items[..|items|] == items;
  }

  /** A dict stored in a member list whose dicts have unique keys has unique keys. */
  lemma DictAtHasUniqueKeys(ms: Members, g: string)
    requires UniqueKeys(ms) && GroupsUnique(ms) && IsDictAt(ms, g)
    ensures UniqueKeys(ItemsAt(ms, g))
  {
    var i := KeyIndex(ms, g);
    LookupAtIndex(ms, i);
  }

  /** One turn of the outer loop of `merge_json` keeps `GroupsMerged` for
      the processed prefix of `new_data`. */
  lemma MergeStep(base: Members, newData: Members, i: nat, overwrite: bool, merged: Members, after: Members)
    requires UniqueKeys(newData) && i < |newData|
    requires GroupsMerged(base, newData[..i], overwrite, merged)
    requires UniqueKeys(after) && KeepsOrder(merged, after)
    requires Keys(after) == Keys(merged) + (if newData[i].1.Obj? then {newData[i].0} else {})
    requires forall g :: g != newData[i].0 ==> Lookup(after, g) == Lookup(merged, g)
    requires GroupOutcome(Lookup(base, newData[i].0), newData[i].1, overwrite, Lookup(after, newData[i].0))
    ensures GroupsMerged(base, newData[..i + 1], overwrite, after)
  {
    UniqueKeyNotInPrefix(newData, i);
    MergeStepShape(base, newData, i, merged, after);
    forall g ensures GroupOutcome(Lookup(base, g), ValueOrNull(Lookup(newData[..i + 1], g)), overwrite, Lookup(after, g)) {
      MergeStepGroup(base, newData, i, overwrite, merged, after, g);
    }
  }

  /** The groups after a turn of the outer loop: still unique, base groups
      still first and in order, and one more key when the group is a dict. */
  lemma MergeStepShape(base: Members, newData: Members, i: nat, merged: Members, after: Members)
    requires i < |newData| && newData[i].0 !in Keys(newData[..i])
    requires KeepsOrder(base, merged) && Keys(merged) == Keys(base) + DictKeys(newData[..i])
    requires KeepsOrder(merged, after)
    requires Keys(after) == Keys(merged) + (if newData[i].1.Obj? then {newData[i].0} else {})
    ensures KeepsOrder(base, after)
    ensures Keys(after) == Keys(base) + DictKeys(newData[..i + 1])
  {
    DictKeysSnoc(newData, i);
  }

  /** The outcome of one group after a turn of the outer loop. */
  lemma MergeStepGroup(base: Members, newData: Members, i: nat, overwrite: bool, merged: Members, after: Members, g: string)
    requires i < |newData| && newData[i].0 !in Keys(newData[..i])
    requires GroupOutcome(Lookup(base, g), ValueOrNull(Lookup(newData[..i], g)), overwrite, Lookup(merged, g))
    requires Keys(merged) == Keys(base) + DictKeys(newData[..i])
    requires g != newData[i].0 ==> Lookup(after, g) == Lookup(merged, g)
    requires GroupOutcome(Lookup(base, newData[i].0), newData[i].1, overwrite, Lookup(after, newData[i].0))
    ensures GroupOutcome(Lookup(base, g), ValueOrNull(Lookup(newData[..i + 1], g)), overwrite, Lookup(after, g))
  {
    LookupSnoc(newData, i, g);
  }

  /** The dict-valued keys of a prefix extended by one entry with a fresh key. */
  lemma DictKeysSnoc(ms: Members, n: nat)
    requires n < |ms| && ms[n].0 !in Keys(ms[..n])
    ensures DictKeys(ms[..n + 1]) == DictKeys(ms[..n]) + (if ms[n].1.Obj? then {ms[n].0} else {})
  {
    forall g ensures g in DictKeys(ms[..n + 1]) <==> g in DictKeys(ms[..n]) || (ms[n].1.Obj? && g == ms[n].0) {
      LookupSnoc(ms, n, g);
    }
  }

  /** `merge_json(base_data, new_data, overwrite)`: every dict-valued group of
      `new_data` is merged into the base, group by group, in order. */
  method Merge(base: Members, newData: Members, overwrite: bool) returns (merged: Members)
    requires UniqueKeys(base) && GroupsUnique(base) && UniqueKeys(newData) && GroupsUnique(newData)
    ensures GroupsMerged(base, newData, overwrite, merged)
  {
    merged := base;
    for i := 0 to |newData|
      invariant GroupsMerged(base, newData[..i], overwrite, merged)
    {
      var (group, items) := newData[i];
      UniqueKeyNotInPrefix(newData, i);
      assert Lookup(merged, group) == Lookup(base, group);
      var before := merged;
      if items.Obj? {
        LookupAtIndex(newData, i);
        var current := Lookup(merged, group);
        if current.None? {
          merged := Assign(merged, group, items);
        } else if !current.value.Obj? {
          if overwrite {
            merged := Assign(merged, group, items);
          }
        } else {
          DictAtHasUniqueKeys(base, group);
          var m := MergeItems(current.value.members, items.members, overwrite);
          merged := Assign(merged, group, Obj(m));
        }
      }
      assert Lookup(before, group) == Lookup(base, group);
      MergeStep(base, newData, i, overwrite, before, merged);
    }
    assert newData[..|newData|] == newData;
  }

  /** Nothing is removed by a merge: the result holds the base groups, in
      their places, and the dict groups of `new_data`. */
  lemma MergeRemovesNothing(base: Members, newData: Members, overwrite: bool, merged: Members)
    requires GroupsMerged(base, newData, overwrite, merged)
    ensures Keys(merged) == Keys(base) + DictKeys(newData)
    ensures forall i :: 0 <= i < |base| ==> merged[i].0 == base[i].0
  {
  }

  /** A group that `new_data` does not hold as a dict (a string, a list, ...,
      or nothing) keeps its base entry. */
  lemma MergeSkipsNonDictGroups(base: Members, newData: Members, overwrite: bool, merged: Members)
    requires GroupsMerged(base, newData, overwrite, merged)
    ensures forall g :: !IsDictAt(newData, g) ==> Lookup(merged, g) == Lookup(base, g)
  {
    forall g | !IsDictAt(newData, g) ensures Lookup(merged, g) == Lookup(base, g) {
      assert GroupOutcome(Lookup(base, g), ValueOrNull(Lookup(newData, g)), overwrite, Lookup(merged, g));
    }
  }

  /** A non-dict base group met by a dict group is kept without
      `overwrite` and replaced by the new dict with it. */
  lemma MergeNonDictBaseGroup(base: Members, newData: Members, overwrite: bool, merged: Members)
    requires GroupsMerged(base, newData, overwrite, merged)
    ensures forall g :: IsDictAt(newData, g) && g in Keys(base) && !IsDictAt(base, g) ==>
      Lookup(merged, g) == if overwrite then Lookup(newData, g) else Lookup(base, g)
  {
    forall g | IsDictAt(newData, g) && g in Keys(base) && !IsDictAt(base, g)
      ensures Lookup(merged, g) == if overwrite then Lookup(newData, g) else Lookup(base, g)
    {
      assert GroupOutcome(Lookup(base, g), ValueOrNull(Lookup(newData, g)), overwrite, Lookup(merged, g));
    }
  }

  /** Without `overwrite`, every item already present in a dict base group
      keeps its base value. */
  lemma MergeKeepsExistingItems(base: Members, newData: Members, merged: Members)
    requires GroupsMerged(base, newData, false, merged)
    ensures forall g, k :: IsDictAt(base, g) && k in Keys(ItemsAt(base, g)) ==>
      IsDictAt(merged, g) && Lookup(ItemsAt(merged, g), k) == Lookup(ItemsAt(base, g), k)
  {
    forall g, k | IsDictAt(base, g) && k in Keys(ItemsAt(base, g))
      ensures IsDictAt(merged, g) && Lookup(ItemsAt(merged, g), k) == Lookup(ItemsAt(base, g), k)
    {
      assert GroupOutcome(Lookup(base, g), ValueOrNull(Lookup(newData, g)), false, Lookup(merged, g));
    }
  }

  /** With `overwrite`, every item of every dict group of `new_data` ends up
      in the result with the new value, whether the base group was absent, a
      dict or something else. */
  lemma MergeOverwriteTakesNewItems(base: Members, newData: Members, merged: Members)
    requires GroupsMerged(base, newData, true, merged)
    ensures forall g, k :: IsDictAt(newData, g) && k in Keys(ItemsAt(newData, g)) ==>
      IsDictAt(merged, g) && Lookup(ItemsAt(merged, g), k) == Lookup(ItemsAt(newData, g), k)
  {
    forall g, k | IsDictAt(newData, g) && k in Keys(ItemsAt(newData, g))
      ensures IsDictAt(merged, g) && Lookup(ItemsAt(merged, g), k) == Lookup(ItemsAt(newData, g), k)
    {
      assert GroupOutcome(Lookup(base, g), ValueOrNull(Lookup(newData, g)), true, Lookup(merged, g));
    }
  }

  // ---------- sort_json ----------

  predicate SortedByKey(ms: Members) {
    forall i :: 0 < i < |ms| ==> LexLeq(ms[i - 1].0, ms[i].0)
  }

  /** Every object at every level has its keys in ascending order. */
  predicate DeepSorted(j: Json)
    decreases j
  {
    match j
    case Arr(items) => forall i :: 0 <= i < |items| ==> DeepSorted(items[i])
    case Obj(ms) => SortedByKey(ms) && forall i :: 0 <= i < |ms| ==> DeepSorted(ms[i].1)
    case _ => true
  }

  /** One step of sorting by key: `x` goes before the first member whose key
      is not smaller, so members with equal keys keep their order. */
  function InsertByKey(x: (string, Json), s: Members): (r: Members)
    ensures |r| == |s| + 1
    ensures multiset(r) == multiset(s) + multiset{x}
    ensures r[0] == x || (|s| > 0 && r[0] == s[0])
    ensures SortedByKey(s) ==> SortedByKey(r)
  {
    if |s| == 0 || LexLeq(x.0, s[0].0) then [x] + s
    else
      LexLeqTotal(x.0, s[0].0);
      assert [s[0]] + s[1..] == s;
      [s[0]] + InsertByKey(x, s[1..])
  }

  /** Inserting a member with a fresh key adds exactly that key and value. */
  lemma {:induction false} InsertByKeyLookup(x: (string, Json), s: Members)
    ensures Keys(InsertByKey(x, s)) == Keys(s) + {x.0}
    ensures x.0 !in Keys(s) ==> forall k :: Lookup(InsertByKey(x, s), k) == if k == x.0 then Some(x.1) else Lookup(s, k)
    ensures UniqueKeys(s) && x.0 !in Keys(s) ==> UniqueKeys(InsertByKey(x, s))
    decreases |s|
  {
    if |s| == 0 || LexLeq(x.0, s[0].0) {
      if UniqueKeys(s) && x.0 !in Keys(s) {
        UniqueCons(x, s);
      }
    } else {
      var rest := InsertByKey(x, s[1..]);
      InsertByKeyLookup(x, s[1..]);
      assert [s[0]] + s[1..] == s;
      if UniqueKeys(s) && x.0 !in Keys(s) {
        UniqueTail(s);
        UniqueCons(s[0], rest);
      }
    }
  }

  /** `sorted(d.items())`: the members ordered by key. */
  function SortByKey(ms: Members): (r: Members)
    ensures SortedByKey(r)
    ensures |r| == |ms| && multiset(r) == multiset(ms)
  {
    if |ms| == 0 then []
    else
      assert [ms[0]] + ms[1..] == ms;
      InsertByKey(ms[0], SortByKey(ms[1..]))
  }

  /** Sorting keeps the keys, and with unique keys every lookup. */
  lemma {:induction false} SortByKeyLookup(ms: Members)
    ensures Keys(SortByKey(ms)) == Keys(ms)
    ensures UniqueKeys(ms) ==> UniqueKeys(SortByKey(ms)) && forall k :: Lookup(SortByKey(ms), k) == Lookup(ms, k)
    decreases |ms|
  {
    if |ms| > 0 {
      var rest := SortByKey(ms[1..]);
      assert SortByKey(ms) == InsertByKey(ms[0], rest);
      SortByKeyLookup(ms[1..]);
      InsertByKeyLookup(ms[0], rest);
      assert Keys(ms) == {ms[0].0} + Keys(ms[1..]);
      if UniqueKeys(ms) {
        UniqueTail(ms);
        forall k ensures Lookup(SortByKey(ms), k) == Lookup(ms, k) {
          if k != ms[0].0 {
            assert Lookup(ms, k) == Lookup(ms[1..], k);
          }
        }
      }
    }
  }

  /** `sort_json(data)`: objects are rebuilt with their keys in order and
      their values sorted, arrays keep their order with their elements
      sorted, anything else is returned as it is. */
  function SortJson(j: Json): (r: Json)
    ensures j.Arr? <==> r.Arr?
    ensures j.Obj? <==> r.Obj?
    ensures !j.Arr? && !j.Obj? ==> r == j
    ensures j.Arr? ==> |r.items| == |j.items| && forall i :: 0 <= i < |j.items| ==> r.items[i] == SortJson(j.items[i])
    ensures j.Obj? ==> |r.members| == |j.members| && Keys(r.members) == Keys(j.members)
    decreases j
  {
    match j
    case Arr(items) => Arr(seq(|items|, i requires 0 <= i < |items| => SortJson(items[i])))
    case Obj(ms) =>
      var sortedValues := seq(|ms|, i requires 0 <= i < |ms| => (ms[i].0, SortJson(ms[i].1)));
      SameKeyColumn(ms, sortedValues);
      SortByKeyLookup(sortedValues);
      Obj(SortByKey(sortedValues))
    case _ => j
  }

  /** Two member lists with the same key at every index have the same keys. */
  lemma {:induction false} SameKeyColumn(a: Members, b: Members)
    requires |a| == |b| && forall i :: 0 <= i < |a| ==> a[i].0 == b[i].0
    ensures Keys(a) == Keys(b)
    decreases |a|
  {
    if |a| > 0 {
      SameKeyColumn(a[1..], b[1..]);
    }
  }

  /** The result of `sort_json` is sorted at every level. */
  lemma {:induction false} SortJsonSorted(j: Json)
    ensures DeepSorted(SortJson(j))
    decreases j
  {
    match j
    case Arr(items) =>
      forall i | 0 <= i < |items| ensures DeepSorted(SortJson(items[i])) {
        SortJsonSorted(items[i]);
      }
    case Obj(ms) =>
      var sortedValues := seq(|ms|, i requires 0 <= i < |ms| => (ms[i].0, SortJson(ms[i].1)));
      var r := SortByKey(sortedValues);
      assert SortJson(j) == Obj(r);
      forall i | 0 <= i < |r| ensures DeepSorted(r[i].1) {
        assert r[i] in multiset(sortedValues);
        var n :| 0 <= n < |sortedValues| && sortedValues[n] == r[i];
        SortJsonSorted(ms[n].1);
      }
    case _ =>
  }

  /** With unique keys, `sort_json` keeps every key of an object and stores
      under it the sorted original value. */
  lemma SortJsonKeepsMembers(ms: Members)
    requires UniqueKeys(ms)
    ensures UniqueKeys(SortJson(Obj(ms)).members)
    ensures forall k :: Lookup(SortJson(Obj(ms)).members, k) ==
                       if k in Keys(ms) then Some(SortJson(Lookup(ms, k).value)) else None
  {
    var sortedValues := seq(|ms|, i requires 0 <= i < |ms| => (ms[i].0, SortJson(ms[i].1)));
    assert SortJson(Obj(ms)) == Obj(SortByKey(sortedValues));
    assert UniqueKeys(sortedValues);
    SortByKeyLookup(sortedValues);
    SameKeyColumn(ms, sortedValues);
    forall k ensures Lookup(sortedValues, k) ==
      if k in Keys(ms) then Some(SortJson(Lookup(ms, k).value)) else None
    {
      if k in Keys(ms) {
        var i := KeyIndex(ms, k);
        LookupAtIndex(ms, i);
        LookupAtIndex(sortedValues, i);
      }
    }
  }

  /** Sorting members that are already in key order changes nothing. */
  lemma {:induction false} SortByKeyOfSorted(ms: Members)
    requires SortedByKey(ms)
    ensures SortByKey(ms) == ms
    decreases |ms|
  {
    if |ms| > 0 {
      SortByKeyOfSorted(ms[1..]);
      assert [ms[0]] + ms[1..] == ms;
    }
  }

  /** `sort_json` leaves a value that is already sorted at every level as it is. */
  lemma {:induction false} SortJsonOfSorted(j: Json)
    requires DeepSorted(j)
    ensures SortJson(j) == j
    decreases j
  {
    match j
    case Arr(items) =>
      forall i | 0 <= i < |items| ensures SortJson(items[i]) == items[i] {
        SortJsonOfSorted(items[i]);
      }
      assert seq(|items|, i requires 0 <= i < |items| => SortJson(items[i])) == items;
    case Obj(ms) =>
      forall i | 0 <= i < |ms| ensures SortJson(ms[i].1) == ms[i].1 {
        SortJsonOfSorted(ms[i].1);
      }
      assert seq(|ms|, i requires 0 <= i < |ms| => (ms[i].0, SortJson(ms[i].1))) == ms;
      SortByKeyOfSorted(ms);
    case _ =>
  }

  /** Sorting twice is sorting once. */
  lemma SortJsonIdempotent(j: Json)
    ensures SortJson(SortJson(j)) == SortJson(j)
  {
    SortJsonSorted(j);
    SortJsonOfSorted(SortJson(j));
  }

  // ---------- locating files ----------

  const BasePrefix := "copy_"
  const BaseSuffix := "_copy"

  /** The base files tried for a pair, in order of preference. */
  function BaseCandidates(letters: string): seq<string> {
    [BasePrefix + letters + ".json", letters + BaseSuffix + ".json"]
  }

  /** The base file of a pair in directory `dir`: `copy_xx.json` when it
      exists, else `xx_copy.json` when that exists. */
  function BaseFileFor(dir: set<string>, letters: string): (r: Option<string>)
    ensures r.Some? ==> r.value in dir && r.value in BaseCandidates(letters)
    ensures r.None? <==> forall c :: c in BaseCandidates(letters) ==> c !in dir
    ensures BaseCandidates(letters)[0] in dir ==> r == Some(BaseCandidates(letters)[0])
  {
    var candidates := BaseCandidates(letters);
    if candidates[0] in dir then Some(candidates[0])
    else if candidates[1] in dir then Some(candidates[1])
    else None
  }

  /** `find_base_file`: the first candidate that exists. */
  method FindBaseFile(dir: set<string>, letters: string) returns (found: Option<string>)
    ensures found == BaseFileFor(dir, letters)
  {
    var candidates := BaseCandidates(letters);
    for i := 0 to |candidates|
      invariant forall j :: 0 <= j < i ==> candidates[j] !in dir
    {
      if candidates[i] in dir {
        return Some(candidates[i]);
      }
    }
    return None;
  }

  /** A new-data file name: two ASCII letters and the extension `.json`,
      matched case-sensitively. */
  predicate IsNewFileName(f: string) {
    |f| == 7 && IsTwoLetters(f[..2]) && f[2..] == ".json"
  }

  /** The new-data file names are exactly two letters followed by a
      lower-case `.json`: the file `process_pair` looks for. */
  lemma NewFileNames(letters: string, f: string)
    ensures IsNewFileName(letters + ".json") <==> IsTwoLetters(letters)
    ensures IsNewFileName(f) ==> f == f[..2] + ".json"
  {
    if |letters| == 2 {
      assert (letters + ".json")[..2] == letters && (letters + ".json")[2..] == ".json";
    }
  }

  /** The pairs `collect_two_letter_pairs` reports for a directory: the
      lower-cased letters of every new-data file name for which a base file
      with those lower-cased letters exists. */
  ghost function PairsOf(files: set<string>, scanned: set<string>): set<string> {
    set f | f in scanned && IsNewFileName(f) && BaseFileFor(files, Lower(f[..2])).Some? :: Lower(f[..2])
  }

  /** `collect_two_letter_pairs`: scans the listing in whatever order it
      comes and collects the pairs. */
  method CollectTwoLetterPairs(files: set<string>) returns (pairs: set<string>)
    ensures pairs == PairsOf(files, files)
    ensures forall l :: l in pairs ==> IsTwoLetters(l) && IsLowerCase(l)
  {
    pairs := {};
    var remaining := files;
    while remaining != {}
      invariant remaining <= files
      invariant pairs == PairsOf(files, files - remaining)
      decreases remaining
    {
      var f :| f in remaining;
      ghost var scanned := files - remaining;
      if IsNewFileName(f) {
        var letters := Lower(f[..2]);
        var base := FindBaseFile(files, letters);
        if base.Some? {
          pairs := pairs + {letters};
        }
      }
      remaining := remaining - {f};
      assert files - remaining == scanned + {f};
    }
    forall l | l in pairs ensures IsTwoLetters(l) && IsLowerCase(l) {
      var f :| f in files && IsNewFileName(f) && l == Lower(f[..2]);
    }
  }

  /** A new-data file with upper-case letters next to a lower-case base file
      is reported as a pair whose new-data file does not exist, so
      `process_pair` then skips it. */
  lemma DiscoveredPairWithoutNewFile()
    ensures "ab" in PairsOf({"AB.json", "copy_ab.json"}, {"AB.json", "copy_ab.json"})
    ensures "ab" + ".json" !in {"AB.json", "copy_ab.json"}
  {
    var files := {"AB.json", "copy_ab.json"};
    assert IsNewFileName("AB.json");
    assert Lower("AB.json"[..2]) == "ab";
    assert BaseCandidates("ab")[0] == "copy_ab.json";
    assert BaseFileFor(files, "ab") == Some("copy_ab.json");
    assert "ab" + ".json" == "ab.json";
  }

  /** The pairs discovered when the letters keep their case. */
  ghost function MergeablePairsOf(files: set<string>, scanned: set<string>): set<string> {
    set f | f in scanned && IsNewFileName(f) && BaseFileFor(files, f[..2]).Some? :: f[..2]
  }

  /** `collect_two_letter_pairs` with the letters kept as they are spelled in
      the file name: every reported pair has both its new-data file and a
      base file, so `process_pair` merges it. */
  method CollectMergeablePairs(files: set<string>) returns (pairs: set<string>)
    ensures pairs == MergeablePairsOf(files, files)
    ensures forall l :: l in pairs ==> IsTwoLetters(l) && l + ".json" in files && BaseFileFor(files, l).Some?
  {
    pairs := {};
    var remaining := files;
    while remaining != {}
      invariant remaining <= files
      invariant pairs == MergeablePairsOf(files, files - remaining)
      decreases remaining
    {
      var f :| f in remaining;
      ghost var scanned := files - remaining;
      if IsNewFileName(f) {
        var letters := f[..2];
        var base := FindBaseFile(files, letters);
        if base.Some? {
          pairs := pairs + {letters};
        }
      }
      remaining := remaining - {f};
      assert files - remaining == scanned + {f};
    }
    forall l | l in pairs ensures IsTwoLetters(l) && l + ".json" in files && BaseFileFor(files, l).Some? {
      var f :| f in files && IsNewFileName(f) && l == f[..2] && BaseFileFor(files, f[..2]).Some?;
      assert f == f[..2] + f[2..];
    }
  }

  // ---------- process_pair ----------

  /** Where `process_pair` writes the merged data. */
  datatype OutputTarget =
    | InPlace(baseFile: string)                 // `--in-place`: the base file itself
    | ExplicitFile(path: string)                // `--out FILE`
    | MergedFile(dir: Option<string>, name: string) // `merged_xx.json` in `--out-dir`, or in the scanned directory

  datatype PairOutcome =
    | BaseMissing                     // skipped, returns False
    | NewDataMissing                  // skipped, returns False
    | NotAnObject(file: string)       // `load_json` exits with status 1
    | Written(target: OutputTarget, data: Json)

  /** `process_pair`: the base and new-data files must both exist and hold
      JSON objects; the merged data is sorted and written to the chosen
      target. `files` maps every file of the directory to its parsed
      content. */
  method ProcessPair(files: map<string, Json>, letters: string, overwrite: bool,
                     outDir: Option<string>, inPlace: bool, explicitOut: Option<string>)
    returns (outcome: PairOutcome)
    requires forall f :: f in files ==> WellFormed(files[f])
    ensures outcome == BaseMissing <==> BaseFileFor(files.Keys, letters).None?
    ensures outcome == NewDataMissing <==>
      BaseFileFor(files.Keys, letters).Some? && letters + ".json" !in files
    ensures outcome.Written? <==>
      && BaseFileFor(files.Keys, letters).Some? && letters + ".json" in files
      && files[BaseFileFor(files.Keys, letters).value].Obj? && files[letters + ".json"].Obj?
    ensures outcome.NotAnObject? ==>
      && BaseFileFor(files.Keys, letters).Some? && letters + ".json" in files
      && outcome.file == (if !files[BaseFileFor(files.Keys, letters).value].Obj?
                          then BaseFileFor(files.Keys, letters).value else letters + ".json")
      && !files[outcome.file].Obj?
    ensures outcome.Written? ==>
      var base := BaseFileFor(files.Keys, letters).value;
      && base in files && files[base].Obj?
      && letters + ".json" in files && files[letters + ".json"].Obj?
      && outcome.data.Obj? && DeepSorted(outcome.data)
      && Keys(outcome.data.members) == Keys(files[base].members) + DictKeys(files[letters + ".json"].members)
      && (exists merged :: GroupsMerged(files[base].members, files[letters + ".json"].members, overwrite, merged)
                           && outcome.data == SortJson(Obj(merged)))
      && outcome.target == if inPlace then InPlace(base)
                           else if Truthy(explicitOut) then ExplicitFile(explicitOut.value)
                           else MergedFile(if Truthy(outDir) then outDir else None, "merged_" + letters + ".json")
  {
    var baseFile := FindBaseFile(files.Keys, letters);
    if baseFile.None? {
      return BaseMissing;
    }
    var newFile := letters + ".json";
    if newFile !in files {
      return NewDataMissing;
    }
    var baseData, newData := files[baseFile.value], files[newFile];
    if !baseData.Obj? {
      return NotAnObject(baseFile.value);
    }
    if !newData.Obj? {
      return NotAnObject(newFile);
    }
    WellFormedObject(baseData.members);
    WellFormedObject(newData.members);
    var merged := Merge(baseData.members, newData.members, overwrite);
    var sorted := SortJson(Obj(merged));
    SortJsonSorted(Obj(merged));
    var target;
    if inPlace {
      target := InPlace(baseFile.value);
    } else if Truthy(explicitOut) {
      target := ExplicitFile(explicitOut.value);
    } else {
      target := MergedFile(if Truthy(outDir) then outDir else None, "merged_" + letters + ".json");
    }
    return Written(target, sorted);
  }

  // ---------- parse_args ----------

  datatype CliArgs = CliArgs(letters: Option<string>, all: bool, out: Option<string>)

  datatype ArgsVerdict =
    | Proceed
    | OutWithAll        // `--out` cannot be used with `--all`
    | LettersMissing    // neither letters nor `--all`
    | LettersMalformed  // letters that are not exactly two ASCII letters

  /** The validation in `parse_args`. */
  function ValidateArgs(args: CliArgs): (v: ArgsVerdict)
    ensures v == Proceed <==>
      (args.all && !Truthy(args.out)) || (!args.all && args.letters.Some? && IsTwoLetters(args.letters.value))
    ensures v == OutWithAll <==> args.all && Truthy(args.out)
    ensures v == LettersMissing <==> !args.all && !Truthy(args.letters)
    ensures v == LettersMalformed <==> !args.all && Truthy(args.letters) && !IsTwoLetters(args.letters.value)
  {
    if args.all then
      if Truthy(args.out) then OutWithAll else Proceed
    else if !Truthy(args.letters) then LettersMissing
    else if !IsTwoLetters(args.letters.value) then LettersMalformed
    else Proceed
  }
}
