/** Model of frontend/messages/tools/prune_copies.py: every other
    `copy_??.json` of a directory is cut down to the groups and items of a
    chosen base copy, without adding anything. */
module PruneCopies {
  import opened Text
  import opened JsonModel

  /** The items of a target group whose keys the base group also has, in
      the target's order and with the target's values. */
  function KeepItems(targetItems: Members, baseItems: Members): (kept: Members)
    ensures Keys(kept) == Keys(targetItems) * Keys(baseItems)
    ensures forall k :: Lookup(kept, k) == if k in Keys(baseItems) then Lookup(targetItems, k) else None
    ensures |kept| <= |targetItems|
    ensures UniqueKeys(targetItems) ==> UniqueKeys(kept)
  {
    if |targetItems| == 0 then []
    else
      var rest := KeepItems(targetItems[1..], baseItems);
      if targetItems[0].0 in Keys(baseItems) then
        if UniqueKeys(targetItems) then
          UniqueTail(targetItems);
          UniqueCons(targetItems[0], rest);
          [targetItems[0]] + rest
        else
          [targetItems[0]] + rest
      else
        rest
  }

  /** Filtering twice by the same base items is filtering once. */
  lemma {:induction false} KeepItemsIdempotent(targetItems: Members, baseItems: Members)
    ensures KeepItems(KeepItems(targetItems, baseItems), baseItems) == KeepItems(targetItems, baseItems)
    decreases |targetItems|
  {
    if |targetItems| > 0 {
      KeepItemsIdempotent(targetItems[1..], baseItems);
    }
  }

  /** What one base group contributes: the target's items that the base group
      also has, provided both are dicts and something is kept. */
  function PrunedGroup(baseGroup: Json, targetGroup: Option<Json>): Option<Json> {
    if baseGroup.Obj? && targetGroup.Some? && targetGroup.value.Obj?
       && |KeepItems(targetGroup.value.members, baseGroup.members)| > 0
    then Some(Obj(KeepItems(targetGroup.value.members, baseGroup.members)))
    else None
  }

  /** `prune_to_base(base, target)`: a fresh dict built by walking the base
      groups in order. */
  function PruneToBase(base: Members, target: Members): (pruned: Members)
    requires UniqueKeys(base)
    ensures Keys(pruned) <= Keys(base)
    ensures UniqueKeys(pruned)
  {
    if |base| == 0 then []
    else
      UniqueTail(base);
      var rest := PruneToBase(base[1..], target);
      var group := PrunedGroup(base[0].1, Lookup(target, base[0].0));
      if group.Some? then
        UniqueCons((base[0].0, group.value), rest);
        [(base[0].0, group.value)] + rest
      else
        rest
  }

  /** Group by group, the pruned dict holds exactly what `PrunedGroup` keeps. */
  lemma {:induction false} PruneToBaseLookup(base: Members, target: Members, g: string)
    requires UniqueKeys(base)
    ensures Lookup(PruneToBase(base, target), g) ==
      if g in Keys(base) then PrunedGroup(Lookup(base, g).value, Lookup(target, g)) else None
    decreases |base|
  {
    if |base| > 0 {
      UniqueTail(base);
      PruneToBaseLookup(base[1..], target, g);
    }
  }

  /** The properties the tool promises of a pruned copy: every group kept is
      a dict in both files and is not empty, every item kept is in the base
      group and carries the target's value, and every item that both files
      have in a shared dict group is kept. */
  lemma PruneToBaseProperties(base: Members, target: Members)
    requires UniqueKeys(base)
    ensures var pruned := PruneToBase(base, target);
      && (forall g :: g in Keys(pruned) ==> IsDictAt(base, g) && IsDictAt(target, g))
      && (forall g :: g in Keys(pruned) ==> IsDictAt(pruned, g) && |ItemsAt(pruned, g)| > 0)
      && (forall g, k :: IsDictAt(pruned, g) && k in Keys(ItemsAt(pruned, g)) ==>
            k in Keys(ItemsAt(base, g)) && IsDictAt(target, g)
            && Lookup(ItemsAt(pruned, g), k) == Lookup(ItemsAt(target, g), k))
      && (forall g, k ::
            (IsDictAt(base, g) && IsDictAt(target, g)
             && k in Keys(ItemsAt(base, g)) && k in Keys(ItemsAt(target, g))) ==>
            IsDictAt(pruned, g) && k in Keys(ItemsAt(pruned, g)))
  {
    var pruned := PruneToBase(base, target);
    forall g ensures Lookup(pruned, g) ==
      if g in Keys(base) then PrunedGroup(Lookup(base, g).value, Lookup(target, g)) else None
    {
      PruneToBaseLookup(base, target, g);
    }
  }

  /** Only the target's entries under the base's keys matter. */
  lemma {:induction false} PruneToBaseLooksOnlyAtBaseKeys(base: Members, t1: Members, t2: Members)
    requires UniqueKeys(base)
    requires forall g :: g in Keys(base) ==> Lookup(t1, g) == Lookup(t2, g)
    ensures PruneToBase(base, t1) == PruneToBase(base, t2)
    decreases |base|
  {
    if |base| > 0 {
      UniqueTail(base);
      PruneToBaseLooksOnlyAtBaseKeys(base[1..], t1, t2);
    }
  }

  /** Pruning an already pruned copy gives it back unchanged. */
  lemma {:induction false} PruneToBaseIdempotent(base: Members, target: Members)
    requires UniqueKeys(base)
    ensures PruneToBase(base, PruneToBase(base, target)) == PruneToBase(base, target)
    decreases |base|
  {
    if |base| > 0 {
      UniqueTail(base);
      var (g, b) := base[0];
      var pruned := PruneToBase(base, target);
      var rest := PruneToBase(base[1..], target);
      PruneToBaseIdempotent(base[1..], target);
      var group := PrunedGroup(b, Lookup(target, g));
      if group.Some? {
        assert pruned == [(g, group.value)] + rest;
        KeepItemsIdempotent(Lookup(target, g).value.members, b.members);
        assert PrunedGroup(b, Lookup(pruned, g)) == group;
        forall g' | g' in Keys(base[1..]) ensures Lookup(pruned, g') == Lookup(rest, g') {
        }
        PruneToBaseLooksOnlyAtBaseKeys(base[1..], pruned, rest);
      } else {
        assert pruned == rest;
        assert Lookup(pruned, g).None?;
      }
    }
  }

  // ---------- the per-file report in main ----------

  /** The number of groups whose value is a dict. */
  function DictGroupCount(ms: Members): (n: nat)
    ensures n <= |ms|
    ensures n == |ms| <==> forall i :: 0 <= i < |ms| ==> ms[i].1.Obj?
  {
    if |ms| == 0 then 0 else (if ms[0].1.Obj? then 1 else 0) + DictGroupCount(ms[1..])
  }

  /** The number of items over all groups whose value is a dict. */
  function DictItemCount(ms: Members): (n: nat)
    ensures n == 0 <==> forall i :: 0 <= i < |ms| && ms[i].1.Obj? ==> ms[i].1.members == []
  {
    if |ms| == 0 then 0
    else (if ms[0].1.Obj? then |ms[0].1.members| else 0) + DictItemCount(ms[1..])
  }

  datatype FileReport =
    | SkippedNotAnObject
    | NoChanges
    | Removed(groupsRemoved: nat, itemsRemoved: nat, written: bool)

  /** How many fewer there are after than before, never below zero. */
  function Shrink(before: nat, after: nat): nat {
    if before >= after then before - after else 0
  }

  /** What `main` reports for one target file and whether it writes it back. */
  function Report(base: Members, data: Json, dryRun: bool): (r: FileReport)
    requires UniqueKeys(base)
    ensures r == SkippedNotAnObject <==> !data.Obj?
    ensures r.Removed? ==> (r.groupsRemoved > 0 || r.itemsRemoved > 0) && (r.written <==> !dryRun)
    ensures data.Obj? ==>
      (r == NoChanges <==>
        && DictGroupCount(data.members) <= |PruneToBase(base, data.members)|
        && DictItemCount(data.members) <= DictItemCount(PruneToBase(base, data.members)))
  {
    if !data.Obj? then SkippedNotAnObject
    else
      var pruned := PruneToBase(base, data.members);
      var groupsRemoved := Shrink(DictGroupCount(data.members), |pruned|);
      var itemsRemoved := Shrink(DictItemCount(data.members), DictItemCount(pruned));
      if groupsRemoved == 0 && itemsRemoved == 0 then NoChanges
      else Removed(groupsRemoved, itemsRemoved, !dryRun)
  }

  /** A file is written only when something is removed and it is not a dry
      run; a copy that is already pruned reports no changes. */
  lemma ReportWritesOnlyChanges(base: Members, target: Members, dryRun: bool)
    requires UniqueKeys(base)
    ensures var r := Report(base, Obj(target), dryRun);
      r.Removed? ==> (r.groupsRemoved > 0 || r.itemsRemoved > 0) && (r.written <==> !dryRun)
    ensures Report(base, Obj(PruneToBase(base, target)), dryRun) == NoChanges
  {
    var pruned := PruneToBase(base, target);
    PruneToBaseIdempotent(base, target);
    AllDictCounts(pruned, base, target);
  }

  /** The counts look at dict groups only: a copy whose one surplus is a
      non-dict group reports no changes and keeps that group on disk, although
      its pruned form drops it. */
  lemma NonDictSurplusGoesUnreported(dryRun: bool)
    ensures Report([], Obj([("note", Str("x"))]), dryRun) == NoChanges
    ensures PruneToBase([], [("note", Str("x"))]) == []
    ensures Processed([], Obj([("note", Str("x"))]), dryRun) == Obj([("note", Str("x"))])
  {
    var target: Members := [("note", Str("x"))];
    assert DictGroupCount(target) == 0 by {
      assert target[1..] == [];
    }
    assert DictItemCount(target) == 0 by {
      assert target[1..] == [];
    }
  }

  /** In a pruned copy every group is a dict, so the dict-group count is its length. */
  lemma AllDictCounts(pruned: Members, base: Members, target: Members)
    requires UniqueKeys(base) && pruned == PruneToBase(base, target)
    ensures DictGroupCount(pruned) == |pruned|
  {
    PruneToBaseProperties(base, target);
    forall i | 0 <= i < |pruned| ensures pruned[i].1.Obj? {
      KeyAtIndex(pruned, i);
      LookupAtIndex(pruned, i);
    }
  }

  /** Every group is a dict. */
  predicate AllDictGroups(ms: Members) {
    forall i :: 0 <= i < |ms| ==> ms[i].1.Obj?
  }

  /** The report the tool's documentation describes, where a non-dict group
      of a target is surplus to be dropped like any other: the groups removed
      are counted over every group of the target, not only its dict groups.
      A target holding a non-dict group is then always reported as changed,
      so it is written back without that group unless it is a dry run. */
  function ReportCountingAllGroups(base: Members, data: Json, dryRun: bool): (r: FileReport)
    requires UniqueKeys(base)
    ensures r == SkippedNotAnObject <==> !data.Obj?
    ensures r.Removed? ==> (r.groupsRemoved > 0 || r.itemsRemoved > 0) && (r.written <==> !dryRun)
    ensures data.Obj? && UniqueKeys(data.members) && !AllDictGroups(data.members) ==>
      r.Removed? && r.groupsRemoved > 0 && (r.written <==> !dryRun)
  {
    if !data.Obj? then SkippedNotAnObject
    else
      var pruned := PruneToBase(base, data.members);
      NonDictGroupShrinks(base, data.members);
      var groupsRemoved := Shrink(|data.members|, |pruned|);
      var itemsRemoved := Shrink(DictItemCount(data.members), DictItemCount(pruned));
      if groupsRemoved == 0 && itemsRemoved == 0 then NoChanges
      else Removed(groupsRemoved, itemsRemoved, !dryRun)
  }

  /** A target with unique keys and a non-dict group has more groups than
      its pruned copy, which holds dict groups only. */
  lemma NonDictGroupShrinks(base: Members, target: Members)
    requires UniqueKeys(base)
    ensures UniqueKeys(target) && !AllDictGroups(target) ==> |PruneToBase(base, target)| < |target|
    ensures AllDictGroups(PruneToBase(base, target))
  {
    var pruned := PruneToBase(base, target);
    AllDictCounts(pruned, base, target);
    if UniqueKeys(target) && !AllDictGroups(target) {
      var i :| 0 <= i < |target| && !target[i].1.Obj?;
      LookupAtIndex(target, i);
      PruneToBaseProperties(base, target);
      KeyAtIndex(target, i);
      assert Keys(pruned) <= Keys(target);
      assert target[i].0 in Keys(target) - Keys(pruned);
      UniqueKeysCount(pruned);
      UniqueKeysCount(target);
      assert Keys(target) == (Keys(target) - Keys(pruned)) + Keys(pruned);
      assert (Keys(target) - Keys(pruned)) * Keys(pruned) == {};
    }
  }

  // ---------- what the counts of a report measure ----------

  /** The number of items the group `g` holds when it is a dict, zero otherwise. */
  function GroupSize(ms: Members, g: string): nat {
    if IsDictAt(ms, g) then |ItemsAt(ms, g)| else 0
  }

  /** The sizes in `of` of the groups named in `groups`, added up. */
  function SizesAt(groups: Members, of: Members): nat {
    if |groups| == 0 then 0 else GroupSize(of, groups[0].0) + SizesAt(groups[1..], of)
  }

  /** The items pruning drops: for every dict group of the target, the items
      it holds less the items the same group holds in the pruned copy. */
  function ItemsDropped(target: Members, pruned: Members): int {
    if |target| == 0 then 0
    else
      (if target[0].1.Obj? then |target[0].1.members| - GroupSize(pruned, target[0].0) else 0)
      + ItemsDropped(target[1..], pruned)
  }

  /** What a report counts, for a target as `json.load` produces it: the
      groups removed are the target's dict groups the pruned copy no longer
      has, the items removed are the items pruning drops from the target's
      dict groups, and "no changes" means neither happens. */
  lemma ReportCounts(base: Members, target: Members, dryRun: bool)
    requires UniqueKeys(base) && UniqueKeys(target)
    ensures var r := Report(base, Obj(target), dryRun);
      var pruned := PruneToBase(base, target);
      && (r.Removed? ==> r.groupsRemoved == |DictKeys(target) - Keys(pruned)|)
      && (r.Removed? ==> r.itemsRemoved == ItemsDropped(target, pruned))
      && (r == NoChanges <==> DictKeys(target) <= Keys(pruned) && ItemsDropped(target, pruned) == 0)
  {
    GroupsRemovedCount(base, target);
    ItemsRemovedCount(base, target);
  }

  /** The dict groups of a pruned copy are among the target's, so the
      dict-group count drops by the number of target dict groups left out. */
  lemma GroupsRemovedCount(base: Members, target: Members)
    requires UniqueKeys(base) && UniqueKeys(target)
    ensures var pruned := PruneToBase(base, target);
      && |pruned| <= DictGroupCount(target)
      && DictGroupCount(target) - |pruned| == |DictKeys(target) - Keys(pruned)|
  {
    var pruned := PruneToBase(base, target);
    PruneToBaseProperties(base, target);
    var all := DictKeys(target);
    var kept := Keys(pruned);
    assert kept <= all;
    DictGroupCountIsDictKeys(target);
    UniqueKeysCount(pruned);
    assert all == (all - kept) + kept;
    assert (all - kept) * kept == {};
  }

  /** With unique keys, the dict-group count is the number of dict keys. */
  lemma {:induction false} DictGroupCountIsDictKeys(ms: Members)
    requires UniqueKeys(ms)
    ensures DictGroupCount(ms) == |DictKeys(ms)|
    decreases |ms|
  {
    if |ms| > 0 {
      UniqueTail(ms);
      DictGroupCountIsDictKeys(ms[1..]);
      DictKeysCons(ms);
    }
  }

  /** The dict keys of a list whose head key does not recur: the head's key
      when its value is a dict, and the dict keys of the tail. */
  lemma DictKeysCons(ms: Members)
    requires |ms| > 0 && ms[0].0 !in Keys(ms[1..])
    ensures DictKeys(ms) == (if ms[0].1.Obj? then {ms[0].0} else {}) + DictKeys(ms[1..])
    ensures ms[0].0 !in DictKeys(ms[1..])
  {
    forall k | k != ms[0].0 ensures IsDictAt(ms, k) == IsDictAt(ms[1..], k) {
      assert Lookup(ms, k) == Lookup(ms[1..], k);
    }
  }

  /** Pruning never adds items, and the item count drops by `ItemsDropped`. */
  lemma ItemsRemovedCount(base: Members, target: Members)
    requires UniqueKeys(base) && UniqueKeys(target)
    ensures var pruned := PruneToBase(base, target);
      && DictItemCount(pruned) <= DictItemCount(target)
      && DictItemCount(target) - DictItemCount(pruned) == ItemsDropped(target, pruned)
  {
    var pruned := PruneToBase(base, target);
    PruneToBaseProperties(base, target);
    forall i | 0 <= i < |target|
      ensures !target[i].1.Obj? ==> GroupSize(pruned, target[i].0) == 0
      ensures target[i].1.Obj? ==> GroupSize(pruned, target[i].0) <= |target[i].1.members|
    {
      var g := target[i].0;
      LookupAtIndex(target, i);
      PruneToBaseLookup(base, target, g);
    }
    ItemsDroppedSplit(target, pruned);
    ItemsDroppedNonNegative(target, pruned);
    forall k | GroupSize(pruned, k) != 0 ensures k in Keys(target) && k in Keys(pruned) {
      assert IsDictAt(pruned, k);
    }
    SizesAtSameSupport(target, pruned, pruned);
    SizesAtSelf(pruned);
  }

  /** Over groups that are either dicts or absent from the pruned copy, the
      dropped items are the dict item count less the pruned sizes. */
  lemma {:induction false} ItemsDroppedSplit(ts: Members, pruned: Members)
    requires forall i :: 0 <= i < |ts| && !ts[i].1.Obj? ==> GroupSize(pruned, ts[i].0) == 0
    ensures ItemsDropped(ts, pruned) == DictItemCount(ts) - SizesAt(ts, pruned)
    decreases |ts|
  {
    if |ts| > 0 {
      ItemsDroppedSplit(ts[1..], pruned);
    }
  }

  lemma {:induction false} ItemsDroppedNonNegative(ts: Members, pruned: Members)
    requires forall i :: 0 <= i < |ts| && ts[i].1.Obj? ==> GroupSize(pruned, ts[i].0) <= |ts[i].1.members|
    ensures ItemsDropped(ts, pruned) >= 0
    decreases |ts|
  {
    if |ts| > 0 {
      ItemsDroppedNonNegative(ts[1..], pruned);
    }
  }

  /** With unique keys, a list's own group sizes add up to its item count. */
  lemma {:induction false} SizesAtSelf(ms: Members)
    requires UniqueKeys(ms)
    ensures SizesAt(ms, ms) == DictItemCount(ms)
    decreases |ms|
  {
    if |ms| > 0 {
      UniqueTail(ms);
      SizesAtSelf(ms[1..]);
      forall i | 0 <= i < |ms[1..]| ensures GroupSize(ms, ms[1..][i].0) == GroupSize(ms[1..], ms[1..][i].0) {
        KeyAtIndex(ms[1..], i);
        assert Lookup(ms, ms[1..][i].0) == Lookup(ms[1..], ms[1..][i].0);
      }
      SizesAtCongruent(ms[1..], ms, ms[1..]);
    }
  }

  lemma {:induction false} SizesAtCongruent(groups: Members, of1: Members, of2: Members)
    requires forall i :: 0 <= i < |groups| ==> GroupSize(of1, groups[i].0) == GroupSize(of2, groups[i].0)
    ensures SizesAt(groups, of1) == SizesAt(groups, of2)
    decreases |groups|
  {
    if |groups| > 0 {
      SizesAtCongruent(groups[1..], of1, of2);
    }
  }

  lemma {:induction false} SizesAtZero(groups: Members, of: Members)
    requires forall i :: 0 <= i < |groups| ==> GroupSize(of, groups[i].0) == 0
    ensures SizesAt(groups, of) == 0
    decreases |groups|
  {
    if |groups| > 0 {
      SizesAtZero(groups[1..], of);
    }
  }

  lemma {:induction false} SizesAtAppend(xs: Members, ys: Members, of: Members)
    ensures SizesAt(xs + ys, of) == SizesAt(xs, of) + SizesAt(ys, of)
    decreases |xs|
  {
    if |xs| == 0 {
      assert xs + ys == ys;
    } else {
      assert (xs + ys)[0] == xs[0] && (xs + ys)[1..] == xs[1..] + ys;
      SizesAtAppend(xs[1..], ys, of);
    }
  }

  /** Two lists with unique keys that name the same non-empty groups of `of`
      add up to the same size, whatever their order. */
  lemma {:induction false} SizesAtSameSupport(a: Members, b: Members, of: Members)
    requires UniqueKeys(a) && UniqueKeys(b)
    requires forall k :: GroupSize(of, k) != 0 ==> (k in Keys(a) <==> k in Keys(b))
    ensures SizesAt(a, of) == SizesAt(b, of)
    decreases |a|
  {
    if |a| == 0 {
      forall i | 0 <= i < |b| ensures GroupSize(of, b[i].0) == 0 {
        KeyAtIndex(b, i);
      }
      SizesAtZero(b, of);
    } else {
      var k := a[0].0;
      UniqueTail(a);
      if GroupSize(of, k) == 0 {
        SizesAtSameSupport(a[1..], b, of);
      } else {
        var i := KeyIndex(b, k);
        var rest := b[..i] + b[i + 1..];
        RemoveEntry(b, i);
        assert b == (b[..i] + [b[i]]) + b[i + 1..];
        SizesAtAppend(b[..i] + [b[i]], b[i + 1..], of);
        SizesAtAppend(b[..i], [b[i]], of);
        SizesAtAppend(b[..i], b[i + 1..], of);
        assert SizesAt([b[i]], of) == GroupSize(of, k) by {
          assert [b[i]][1..] == [];
        }
        SizesAtSameSupport(a[1..], rest, of);
      }
    }
  }

  /** Taking out the entry at index `i` of a list with unique keys removes
      exactly its key and keeps the keys unique. */
  lemma RemoveEntry(ms: Members, i: nat)
    requires UniqueKeys(ms) && i < |ms|
    ensures UniqueKeys(ms[..i] + ms[i + 1..])
    ensures Keys(ms[..i] + ms[i + 1..]) == Keys(ms) - {ms[i].0}
  {
    RemoveEntryUnique(ms, i);
    RemoveEntryKeys(ms, i);
  }

  lemma RemoveEntryUnique(ms: Members, i: nat)
    requires UniqueKeys(ms) && i < |ms|
    ensures UniqueKeys(ms[..i] + ms[i + 1..])
  {
    var rest := ms[..i] + ms[i + 1..];
    forall p, q | 0 <= p < q < |rest| ensures rest[p].0 != rest[q].0 {
      var p' := if p < i then p else p + 1;
      var q' := if q < i then q else q + 1;
      assert rest[p] == ms[p'] && rest[q] == ms[q'];
    }
  }

  lemma RemoveEntryKeys(ms: Members, i: nat)
    requires UniqueKeys(ms) && i < |ms|
    ensures Keys(ms[..i] + ms[i + 1..]) == Keys(ms) - {ms[i].0}
  {
    KeysAppend(ms[..i], ms[i + 1..]);
    KeysAround(ms, i);
    UniqueKeyNotInPrefix(ms, i);
    UniqueKeyNotInSuffix(ms, i);
  }

  /** The keys of a list are those before index `i`, the one at `i`, and
      those after it. */
  lemma KeysAround(ms: Members, i: nat)
    requires i < |ms|
    ensures Keys(ms) == Keys(ms[..i]) + {ms[i].0} + Keys(ms[i + 1..])
  {
    var tail := ms[i..];
    assert ms == ms[..i] + tail;
    KeysAppend(ms[..i], tail);
    KeysCons(tail);
    assert tail[1..] == ms[i + 1..];
  }

  lemma KeysCons(ms: Members)
    requires |ms| > 0
    ensures Keys(ms) == {ms[0].0} + Keys(ms[1..])
  {
  }

  /** In a list with unique keys, the key at index `i` does not occur later. */
  lemma UniqueKeyNotInSuffix(ms: Members, i: nat)
    requires UniqueKeys(ms) && i < |ms|
    ensures ms[i].0 !in Keys(ms[i + 1..])
  {
    if ms[i].0 in Keys(ms[i + 1..]) {
      var j := KeyIndex(ms[i + 1..], ms[i].0);
    }
  }

  // ---------- target selection and the main loop ----------

  /** A copy file name: the prefix `copy_`, two ASCII letters and the
      extension `.json`, prefix and extension in any case. */
  predicate IsCopyName(f: string) {
    |f| == 12 && EqualsIgnoreCase(f[..5], "copy_") && IsTwoLetters(f[5..7]) && EqualsIgnoreCase(f[7..], ".json")
  }

  function BaseFileName(letters: string): string {
    "copy_" + letters + ".json"
  }

  /** The base file name is itself a copy name, which is why `main` excludes
      it from the targets, and every copy name is the base file name of its
      own letters up to case. */
  lemma CopyNamesAreBaseFileNames(letters: string, f: string)
    ensures IsTwoLetters(letters) ==> IsCopyName(BaseFileName(letters))
    ensures IsCopyName(f) ==> EqualsIgnoreCase(f, BaseFileName(f[5..7]))
  {
    var b := BaseFileName(letters);
    if |letters| == 2 {
      assert b[..5] == "copy_" && b[5..7] == letters && b[7..] == ".json";
    }
    if IsCopyName(f) {
      var g := BaseFileName(f[5..7]);
      assert f == f[..5] + f[5..7] + f[7..];
      LowerOfConcat(f[..5] + f[5..7], f[7..]);
      LowerOfConcat(f[..5], f[5..7]);
      LowerOfConcat("copy_" + f[5..7], ".json");
      LowerOfConcat("copy_", f[5..7]);
    }
  }

  /** The copies `main` prunes: every `copy_??.json` other than the base,
      both compared case-insensitively. */
  function Targets(names: set<string>, letters: string): (targets: set<string>)
    ensures targets <= names
    ensures forall f :: f in targets ==> IsCopyName(f) && !EqualsIgnoreCase(f, BaseFileName(letters))
    ensures forall f :: f in names && IsCopyName(f) && !EqualsIgnoreCase(f, BaseFileName(letters)) ==> f in targets
  {
    set f | f in names && IsCopyName(f) && Lower(f) != Lower(BaseFileName(letters))
  }

  /** The base file never prunes itself, whatever the case of its name. */
  lemma BaseIsNeverATarget(names: set<string>, letters: string, f: string)
    requires EqualsIgnoreCase(f, BaseFileName(letters))
    ensures f !in Targets(names, letters)
  {
  }

  /** The reference structure of the base: its groups whose value is a
      dict, in order, each with its value; every other group is dropped. */
  function DictGroupsOf(ms: Members): (r: Members)
    ensures forall i :: 0 <= i < |r| ==> r[i].1.Obj?
    ensures Keys(r) <= Keys(ms)
    ensures UniqueKeys(ms) ==> UniqueKeys(r)
    ensures UniqueKeys(ms) ==> forall k :: Lookup(r, k) == if IsDictAt(ms, k) then Lookup(ms, k) else None
  {
    if |ms| == 0 then []
    else
      var rest := DictGroupsOf(ms[1..]);
      if ms[0].1.Obj? then
        if UniqueKeys(ms) then
          UniqueTail(ms);
          UniqueCons(ms[0], rest);
          [ms[0]] + rest
        else
          [ms[0]] + rest
      else if UniqueKeys(ms) then
        UniqueTail(ms);
        rest
      else
        rest
  }

  /** The content of a target file once `main` has dealt with it: the pruned
      dict when the report says it is written, the file as it was otherwise. */
  function Processed(base: Members, data: Json, dryRun: bool): (r: Json)
    requires UniqueKeys(base)
    ensures r != data ==> data.Obj? && !dryRun && Report(base, data, dryRun).Removed?
  {
    var report := Report(base, data, dryRun);
    if report.Removed? && report.written then Obj(PruneToBase(base, data.members)) else data
  }

  datatype PruneRun =
    | BadLetters        // exit 1: not exactly two letters
    | BaseNotFound      // exit 1: the base file does not exist
    | BaseNotAnObject   // exit 1: the base file is not a JSON object
    | NothingToDo       // no other copy files
    | Pruned(reports: map<string, FileReport>)

  /** The loop of `main` over the target files, one file at a time. */
  method PruneTargets(files: map<string, Json>, base: Members, targets: set<string>, dryRun: bool)
    returns (reports: map<string, FileReport>, after: map<string, Json>)
    requires UniqueKeys(base) && targets <= files.Keys
    ensures after.Keys == files.Keys
    ensures reports.Keys == targets
    ensures forall f :: f in reports ==> reports[f] == Report(base, files[f], dryRun)
    ensures forall f :: f in files ==>
      after[f] == if f in reports then Processed(base, files[f], dryRun) else files[f]
  {
    after := files;
    reports := map[];
    var remaining := targets;
    while remaining != {}
      invariant remaining <= targets
      invariant after.Keys == files.Keys
      invariant reports.Keys == targets - remaining
      invariant forall f :: f in reports ==> reports[f] == Report(base, files[f], dryRun)
      invariant forall f :: f in files ==>
        after[f] == if f in reports then Processed(base, files[f], dryRun) else files[f]
      decreases remaining
    {
      var f :| f in remaining;
      var data := after[f];
      var report := Report(base, data, dryRun);
      if report.Removed? && report.written {
        after := after[f := Obj(PruneToBase(base, data.members))];
      }
      reports := reports[f := report];
      remaining := remaining - {f};
    }
  }

  /** `main`: validates the letters, loads the base, and prunes every target
      file in turn, writing it back when something was removed and it is not
      a dry run. `files` maps every file of the directory to its parsed
      content; `after` is the directory when `main` ends. */
  method PruneDirectory(files: map<string, Json>, letters: string, dryRun: bool)
    returns (run: PruneRun, after: map<string, Json>)
    requires forall f :: f in files ==> WellFormed(files[f])
    ensures after.Keys == files.Keys
    ensures !run.Pruned? ==> after == files
    ensures run == BadLetters <==> !IsTwoLetters(letters)
    ensures run == BaseNotFound <==> IsTwoLetters(letters) && BaseFileName(letters) !in files
    ensures run == BaseNotAnObject <==>
      IsTwoLetters(letters) && BaseFileName(letters) in files && !files[BaseFileName(letters)].Obj?
    ensures run == NothingToDo <==>
      && IsTwoLetters(letters) && BaseFileName(letters) in files && files[BaseFileName(letters)].Obj?
      && Targets(files.Keys, letters) == {}
    ensures run.Pruned? ==> BaseFileName(letters) in files && files[BaseFileName(letters)].Obj?
    ensures run.Pruned? ==> run.reports.Keys == Targets(files.Keys, letters) != {}
    ensures run.Pruned? ==>
      var base := DictGroupsOf(files[BaseFileName(letters)].members);
      UniqueKeys(base)
      && (forall f :: f in run.reports ==> run.reports[f] == Report(base, files[f], dryRun))
      && (forall f :: f in files ==>
            after[f] == if f in run.reports then Processed(base, files[f], dryRun) else files[f])
  {
    after := files;
    if !IsTwoLetters(letters) {
      return BadLetters, after;
    }
    var baseName := BaseFileName(letters);
    if baseName !in files {
      return BaseNotFound, after;
    }
    var baseData := files[baseName];
    if !baseData.Obj? {
      return BaseNotAnObject, after;
    }
    WellFormedObject(baseData.members);
    var base := DictGroupsOf(baseData.members);
    var targets := Targets(files.Keys, letters);
    if targets == {} {
      return NothingToDo, after;
    }
    var reports;
    reports, after := PruneTargets(files, base, targets, dryRun);
    return Pruned(reports), after;
  }
}
