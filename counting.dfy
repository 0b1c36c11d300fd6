/** The `collections.Counter` that `pep` fills: counts keyed by status, whose
    items come out in the order the keys were first counted. */
module Counting {

  /** The value of a counter: its keys in first-counted order and their counts. */
  datatype Counts = Counts(keys: seq<string>, counts: map<string, nat>)
  {
    /** Keys are distinct, exactly the keys of `counts`, and each was counted. */
    ghost predicate Valid()
    {
      (forall i, j :: 0 <= i < j < |keys| ==> keys[i] != keys[j]) &&
      (forall k :: k in counts <==> k in keys) &&
      (forall k :: k in counts ==> counts[k] >= 1)
    }

    /** `counter[key]`: a key never counted reads as 0. */
    function Get(key: string): nat
    {
      if key in counts then counts[key] else 0
    }

    /** `counter[key] += 1`. */
    function Add(key: string): Counts
    {
      Counts(if key in counts then keys else keys + [key], counts[key := Get(key) + 1])
    }

    /** `sum(counter.values())`. */
    function Total(): nat
    {
      SumOver(keys, counts)
    }
  }

  const Empty: Counts := Counts([], map[])

  /** The sum of the counts of `keys`; a key without a count adds 0. */
  function SumOver(keys: seq<string>, counts: map<string, nat>): nat
    decreases |keys|
  {
    if keys == [] then 0
    else
      var last := keys[|keys| - 1];
      SumOver(keys[..|keys| - 1], counts) + (if last in counts then counts[last] else 0)
  }

  /** Changing the count of a key outside `keys` leaves their sum alone. */
  lemma {:induction false} SumOverOtherKey(keys: seq<string>, counts: map<string, nat>, key: string, n: nat)
    requires key !in keys
    ensures SumOver(keys, counts[key := n]) == SumOver(keys, counts)
    decreases |keys|
  {
    if keys != [] {
      SumOverOtherKey(keys[..|keys| - 1], counts, key, n);
    }
  }

  /** Counting one more of a key that occurs once in `keys` adds one to the sum. */
  lemma {:induction false} SumOverBump(keys: seq<string>, counts: map<string, nat>, key: string)
    requires key in counts
    requires forall i, j :: 0 <= i < j < |keys| ==> keys[i] != keys[j]
    requires key in keys
    ensures SumOver(keys, counts[key := counts[key] + 1]) == SumOver(keys, counts) + 1
    decreases |keys|
  {
    var front := keys[..|keys| - 1];
    if keys[|keys| - 1] == key {
      assert key !in front;
      SumOverOtherKey(front, counts, key, counts[key] + 1);
    } else {
      assert key in front;
      SumOverBump(front, counts, key);
    }
  }

  /** `counter[key] += 1` adds one to the count of `key` and to no other, and
      a key counted for the first time joins the end of the order. */
  lemma AddMeaning(c: Counts, key: string)
    ensures c.Valid() ==> c.Add(key).Valid()
    ensures c.Add(key).Get(key) == c.Get(key) + 1
    ensures forall k :: k != key ==> c.Add(key).Get(k) == c.Get(k)
    ensures key in c.counts ==> c.Add(key).keys == c.keys
    ensures key !in c.counts ==> c.Add(key).keys == c.keys + [key]
  {
  }

  /** Counting a key for the first time adds one to the sum. */
  lemma SumOverNewKey(keys: seq<string>, counts: map<string, nat>, key: string)
    requires key !in keys
    ensures SumOver(keys + [key], counts[key := 1]) == SumOver(keys, counts) + 1
  {
    assert (keys + [key])[..|keys|] == keys;
    SumOverOtherKey(keys, counts, key, 1);
  }

  /** Every `counter[key] += 1` adds exactly one to the total. */
  lemma AddIncreasesTotal(c: Counts, key: string)
    requires c.Valid()
    ensures c.Add(key).Total() == c.Total() + 1
  {
    if key in c.counts {
      assert key in c.keys;
      SumOverBump(c.keys, c.counts, key);
    } else {
      assert key !in c.keys;
      SumOverNewKey(c.keys, c.counts, key);
    }
  }

  /** The `Counter` object, updated in place by `+= 1`. */
  class StatusCounter {
    var keys: seq<string>
    var counts: map<string, nat>

    /** The counter's current value. */
    function Value(): Counts
      reads this
    {
      Counts(keys, counts)
    }

    ghost predicate Valid()
      reads this
    {
      Value().Valid()
    }

    /** `Counter()`: nothing counted yet. */
    constructor ()
      ensures Valid() && Value() == Empty
    {
      keys := [];
      counts := map[];
    }

    /** `counter[key] += 1`. */
    method Increment(key: string)
      requires Valid()
      modifies this
      ensures Valid() && Value() == old(Value()).Add(key)
      ensures Value().Total() == old(Value()).Total() + 1
    {
      ghost var before := Value();
      var n := if key in counts then counts[key] + 1 else 1;
      if key !in counts {
        keys := keys + [key];
      }
      counts := counts[key := n];
      assert Value() == before.Add(key);
      AddMeaning(before, key);
      AddIncreasesTotal(before, key);
    }
  }
}
