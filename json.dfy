/** The JSON values the translation tools load and write. An object keeps
    its members in order, as a Python `dict` keeps insertion order; its
    keys are unique in every value `json.load` produces. */
module JsonModel {
  import opened Text

  datatype Json =
    | Null
    | Bool(b: bool)
    | Number(literal: string)
    | Str(s: string)
    | Arr(items: seq<Json>)
    | Obj(members: Members)

  type Members = seq<(string, Json)>

  /** `d.get(k)`: the value stored under `k`, if any. */
  function Lookup(ms: Members, k: string): (r: Option<Json>)
    ensures r.Some? <==> k in Keys(ms)
  {
    if |ms| == 0 then None
    else if ms[0].0 == k then Some(ms[0].1)
    else Lookup(ms[1..], k)
  }

  /** `d.keys()` as a set. */
  function Keys(ms: Members): set<string> {
    if |ms| == 0 then {} else {ms[0].0} + Keys(ms[1..])
  }

  predicate UniqueKeys(ms: Members) {
    forall i, j :: 0 <= i < j < |ms| ==> ms[i].0 != ms[j].0
  }

  /** `isinstance(d.get(k), dict)`. */
  predicate IsDictAt(ms: Members, k: string) {
    Lookup(ms, k).Some? && Lookup(ms, k).value.Obj?
  }

  /** The members of the dict stored under `k`. */
  function ItemsAt(ms: Members, k: string): Members
    requires IsDictAt(ms, k)
  {
    Lookup(ms, k).value.members
  }

  /** The keys whose value is a dict. */
  function DictKeys(ms: Members): set<string> {
    set k | k in Keys(ms) && IsDictAt(ms, k)
  }

  /** Every dict stored directly in `ms` has unique keys. */
  predicate GroupsUnique(ms: Members) {
    forall i :: 0 <= i < |ms| && ms[i].1.Obj? ==> UniqueKeys(ms[i].1.members)
  }

  /** A value that `json.load` can produce: every object at every level has
      unique keys. */
  predicate WellFormed(j: Json)
    decreases j
  {
    match j
    case Arr(items) => forall i :: 0 <= i < |items| ==> WellFormed(items[i])
    case Obj(ms) => UniqueKeys(ms) && forall i :: 0 <= i < |ms| ==> WellFormed(ms[i].1)
    case _ => true
  }

  /** A well-formed object has unique keys, and so has every dict in it. */
  lemma WellFormedObject(ms: Members)
    requires WellFormed(Obj(ms))
    ensures UniqueKeys(ms) && GroupsUnique(ms)
  {
    forall i | 0 <= i < |ms| && ms[i].1.Obj? ensures UniqueKeys(ms[i].1.members) {
      assert WellFormed(ms[i].1);
    }
  }

  /** The first `|before|` keys of `after` are the keys of `before`, in order: an
      update that never moves or removes an existing entry. */
  predicate KeepsOrder(before: Members, after: Members) {
    |before| <= |after| && forall i :: 0 <= i < |before| ==> after[i].0 == before[i].0
  }

  /** Python's `d[k] = v`: an existing key keeps its position and takes the
      new value, a new key is appended. */
  function Assign(ms: Members, k: string, v: Json): (r: Members)
    ensures Lookup(r, k) == Some(v)
    ensures forall k' :: k' != k ==> Lookup(r, k') == Lookup(ms, k')
    ensures Keys(r) == Keys(ms) + {k}
    ensures KeepsOrder(ms, r)
    ensures k in Keys(ms) ==> |r| == |ms|
    ensures UniqueKeys(ms) ==> UniqueKeys(r)
  {
    if |ms| == 0 then [(k, v)]
    else if ms[0].0 == k then [(k, v)] + ms[1..]
    else
      var rest := Assign(ms[1..], k, v);
      if UniqueKeys(ms) then
        UniqueTail(ms);
        UniqueCons(ms[0], rest);
        [ms[0]] + rest
      else
        [ms[0]] + rest
  }

  /** The tail of a list with unique keys has unique keys and lacks the head's key. */
  lemma UniqueTail(ms: Members)
    requires UniqueKeys(ms) && |ms| > 0
    ensures UniqueKeys(ms[1..]) && ms[0].0 !in Keys(ms[1..])
  {
    if ms[0].0 in Keys(ms[1..]) {
      var i := KeyIndex(ms[1..], ms[0].0);
    }
  }

  /** Putting an entry with a fresh key in front keeps the keys unique. */
  lemma UniqueCons(x: (string, Json), ms: Members)
    requires UniqueKeys(ms) && x.0 !in Keys(ms)
    ensures UniqueKeys([x] + ms)
  {
    forall j | 0 <= j < |ms|
      ensures ms[j].0 != x.0
    {
      KeyAtIndex(ms, j);
    }
  }

  /** A key of `ms` is found at some index. */
  lemma {:induction false} KeyIndex(ms: Members, k: string) returns (i: nat)
    requires k in Keys(ms)
    ensures i < |ms| && ms[i].0 == k
    decreases |ms|
  {
    if ms[0].0 == k {
      i := 0;
    } else {
      var j := KeyIndex(ms[1..], k);
      i := j + 1;
    }
  }

  lemma {:induction false} KeyAtIndex(ms: Members, i: nat)
    requires i < |ms|
    ensures ms[i].0 in Keys(ms)
    decreases i
  {
    if i > 0 {
      KeyAtIndex(ms[1..], i - 1);
    }
  }

  /** With unique keys, the entry at index `i` is what a lookup finds. */
  lemma {:induction false} LookupAtIndex(ms: Members, i: nat)
    requires UniqueKeys(ms) && i < |ms|
    ensures Lookup(ms, ms[i].0) == Some(ms[i].1)
    decreases i
  {
    if i > 0 {
      LookupAtIndex(ms[1..], i - 1);
    }
  }

  /** Lookup in a prefix extended by one entry. */
  lemma {:induction false} LookupSnoc(ms: Members, n: nat, k: string)
    requires n < |ms|
    ensures Keys(ms[..n + 1]) == Keys(ms[..n]) + {ms[n].0}
    ensures Lookup(ms[..n + 1], k) ==
      if k in Keys(ms[..n]) then Lookup(ms[..n], k)
      else if k == ms[n].0 then Some(ms[n].1)
      else None
    decreases n
  {
    if n > 0 {
      LookupSnoc(ms[1..], n - 1, k);
      assert ms[1..][..n] == ms[..n + 1][1..];
      assert ms[1..][..n - 1] == ms[..n][1..];
    }
  }

  /** With unique keys there are as many keys as entries. */
  lemma {:induction false} UniqueKeysCount(ms: Members)
    requires UniqueKeys(ms)
    ensures |Keys(ms)| == |ms|
    decreases |ms|
  {
    if |ms| > 0 {
      UniqueTail(ms);
      UniqueKeysCount(ms[1..]);
    }
  }

  /** The keys of two lists put one after the other. */
  lemma {:induction false} KeysAppend(xs: Members, ys: Members)
    ensures Keys(xs + ys) == Keys(xs) + Keys(ys)
    decreases |xs|
  {
    if |xs| == 0 {
      assert xs + ys == ys;
    } else {
      assert (xs + ys)[0] == xs[0] && (xs + ys)[1..] == xs[1..] + ys;
      KeysAppend(xs[1..], ys);
    }
  }

  /** In a list with unique keys, the key at index `n` does not occur earlier. */
  lemma UniqueKeyNotInPrefix(ms: Members, n: nat)
    requires UniqueKeys(ms) && n < |ms|
    ensures ms[n].0 !in Keys(ms[..n])
  {
    if ms[n].0 in Keys(ms[..n]) {
      var i := KeyIndex(ms[..n], ms[n].0);
    }
  }
}
