/** The group tables of the partitioner (`std::map<int, std::vector<int>>`):
    an ordered map from a group id to the ids of its member nodes. The key
    order is kept explicitly, because every loop over such a table visits the
    groups in increasing id order. */
module GroupTable {

  datatype Table = Table(keys: seq<int>, members: map<int, seq<nat>>)

  predicate StrictlySorted(ks: seq<int>) {
    forall i, j :: 0 <= i < j < |ks| ==> ks[i] < ks[j]
  }

  /** The key sequence lists exactly the keys of the map, in increasing order. */
  ghost predicate Valid(t: Table) {
    StrictlySorted(t.keys) && forall k :: k in t.members <==> k in t.keys
  }

  const Empty: Table := Table([], map[])

  /** Members of group `key`, empty when the group does not exist. */
  function Get(t: Table, key: int): seq<nat> {
    if key in t.members then t.members[key] else []
  }

  /** `ks` with `k` inserted at its place, unless it is already there. */
  function InsertKey(ks: seq<int>, k: int): seq<int>
  {
    if ks == [] then [k]
    else if k < ks[0] then [k] + ks
    else if k == ks[0] then ks
    else [ks[0]] + InsertKey(ks[1..], k)
  }

  /** Insertion adds exactly `k`. */
  lemma {:induction false} InsertKeyMembers(ks: seq<int>, k: int, x: int)
    ensures x in InsertKey(ks, k) <==> x in ks || x == k
  {
    if ks != [] && k > ks[0] {
      InsertKeyMembers(ks[1..], k, x);
      assert ks == [ks[0]] + ks[1..];
    }
  }

  lemma SortedTail(ks: seq<int>)
    requires ks != [] && StrictlySorted(ks)
    ensures StrictlySorted(ks[1..])
    ensures forall x :: x in ks[1..] ==> ks[0] < x
  {
    var tail := ks[1..];
    forall i, j | 0 <= i < j < |tail|
      ensures tail[i] < tail[j]
    {
      assert tail[i] == ks[i + 1] && tail[j] == ks[j + 1];
    }
  }

  /** Insertion keeps a sorted key list sorted. */
  lemma {:induction false} InsertKeySorted(ks: seq<int>, k: int)
    requires StrictlySorted(ks)
    ensures StrictlySorted(InsertKey(ks, k))
  {
    if ks != [] && k < ks[0] {
      var r := [k] + ks;
      forall i, j | 0 <= i < j < |r|
        ensures r[i] < r[j]
      {
        assert r[j] == ks[j - 1];
        if i > 0 {
          assert r[i] == ks[i - 1];
        } else if j > 1 {
          assert ks[0] < ks[j - 1];
        }
      }
    } else if ks != [] && k > ks[0] {
      var tail := ks[1..];
      SortedTail(ks);
      InsertKeySorted(tail, k);
      var rest := InsertKey(tail, k);
      var r := [ks[0]] + rest;
      forall i, j | 0 <= i < j < |r|
        ensures r[i] < r[j]
      {
        assert r[j] == rest[j - 1];
        InsertKeyMembers(tail, k, rest[j - 1]);
        if i > 0 {
          assert r[i] == rest[i - 1];
        }
      }
    }
  }

  /** Insertion leaves a sorted list alone when `k` is already there. */
  lemma {:induction false} InsertKeyPresent(ks: seq<int>, k: int)
    requires StrictlySorted(ks)
    requires k in ks
    ensures InsertKey(ks, k) == ks
  {
    if k != ks[0] {
      SortedTail(ks);
      assert k in ks[1..] by {
        assert ks == [ks[0]] + ks[1..];
      }
      InsertKeyPresent(ks[1..], k);
      assert ks == [ks[0]] + ks[1..];
    }
  }

  /** Insertion keeps a sorted key list sorted, adds exactly `k`, and leaves
      the list alone when `k` is already there. */
  lemma InsertKeySpec(ks: seq<int>, k: int)
    requires StrictlySorted(ks)
    ensures StrictlySorted(InsertKey(ks, k))
    ensures forall x :: x in InsertKey(ks, k) <==> x in ks || x == k
    ensures k in ks ==> InsertKey(ks, k) == ks
  {
    InsertKeySorted(ks, k);
    forall x {
      InsertKeyMembers(ks, k, x);
    }
    if k in ks {
      InsertKeyPresent(ks, k);
    }
  }

  /** Node `node` joins group `key`; a new group is created when needed
      (the `find`/`push_back`/insert sequence of the label scan). */
  function Add(t: Table, key: int, node: nat): (r: Table)
    requires Valid(t)
    ensures Valid(r)
    ensures r.members == t.members[key := Get(t, key) + [node]]
    ensures key in t.members ==> r.keys == t.keys
  {
    InsertKeySpec(t.keys, key);
    Table(InsertKey(t.keys, key), t.members[key := Get(t, key) + [node]])
  }

  /** Keys of `ks` added to `base` one by one. */
  function InsertKeys(base: seq<int>, ks: seq<int>): (r: seq<int>)
    requires StrictlySorted(base)
    ensures StrictlySorted(r)
    ensures forall x :: x in r <==> x in base || x in ks
    decreases |ks|
  {
    if ks == [] then base
    else
      InsertKeySpec(base, ks[0]);
      InsertKeys(InsertKey(base, ks[0]), ks[1..])
  }

  /** `m.insert(first.begin(), first.end())` followed by
      `m.insert(second.begin(), second.end())` on an empty map: `insert`
      never overwrites, so on a shared key the entry of `first` stays. */
  function InsertBoth(first: Table, second: Table): (r: Table)
    requires Valid(first) && Valid(second)
    ensures Valid(r)
    ensures forall k :: k in r.members <==> k in first.members || k in second.members
    ensures forall k :: k in first.members ==> r.members[k] == first.members[k]
    ensures forall k :: k in second.members && k !in first.members ==> r.members[k] == second.members[k]
  {
    Table(InsertKeys(first.keys, second.keys), second.members + first.members)
  }
}
