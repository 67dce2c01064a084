/**
 * The `email_recipients` dictionaries of the views and the flattening of
 * them into one message list.
 *
 * Keys are identities or meta-course names, so strings.
 *
 * A Python dict remembers the order in which its keys were first inserted,
 * so a dict is modelled as the sequence of its keys in that order plus a
 * map.  Two policies occur:
 *   - FirstPerKey: a value is stored only under a key not yet present
 *     (approval requests: one message per foreign instructor);
 *   - Grouping: every value is appended to the tuple already stored under
 *     its key (decision messages: all messages, grouped per requestor; and
 *     the pending requests grouped per meta-course name).
 */
module Batching {

  predicate NoDuplicates(s: seq<string>)
  {
    forall i, j :: 0 <= i < j < |s| ==> s[i] != s[j]
  }

  /** The elements of `s` without repetition, each where it first occurs:
      the key order of a dict filled from `s`. */
  function Distinct(s: seq<string>): seq<string>
    decreases |s|
  {
    if s == [] then []
    else
      var init := Distinct(s[..|s| - 1]);
      var last := s[|s| - 1];
      if last in init then init else init + [last]
  }

  /** Distinct keeps every element of `s`, adds none, and repeats none. */
  lemma {:induction false} DistinctElements(s: seq<string>)
    ensures forall x :: x in Distinct(s) <==> x in s
    ensures NoDuplicates(Distinct(s))
    decreases |s|
  {
    if s != [] {
      var init := s[..|s| - 1];
      assert s == init + [s[|s| - 1]];
      DistinctElements(init);
    }
  }

  lemma DistinctSnoc(s: seq<string>, x: string)
    ensures Distinct(s + [x]) == if x in s then Distinct(s) else Distinct(s) + [x]
  {
    assert (s + [x])[..|s|] == s;
    DistinctElements(s);
  }

  /** The position where `x` first occurs in `s`. */
  function FirstIndex(s: seq<string>, x: string): (i: nat)
    requires x in s
    ensures i < |s| && s[i] == x && x !in s[..i]
  {
    if s[0] == x then 0
    else
      var i := 1 + FirstIndex(s[1..], x);
      assert s[..i] == [s[0]] + s[1..][..i - 1];
      i
  }

  lemma {:induction false} FirstIndexSnoc(s: seq<string>, y: string, x: string)
    requires x in s
    ensures FirstIndex(s + [y], x) == FirstIndex(s, x)
    decreases |s|
  {
    if s[0] != x {
      assert (s + [y])[1..] == s[1..] + [y];
      FirstIndexSnoc(s[1..], y, x);
    }
  }

  lemma {:induction false} FirstIndexOfNewcomer(s: seq<string>, x: string)
    requires x !in s
    ensures FirstIndex(s + [x], x) == |s|
    decreases |s|
  {
    if s != [] {
      assert (s + [x])[1..] == s[1..] + [x];
      FirstIndexOfNewcomer(s[1..], x);
    }
  }

  /** Distinct keeps the order in which the elements are first seen. */
  lemma {:induction false} DistinctFirstSeenOrder(s: seq<string>)
    ensures forall i :: 0 <= i < |Distinct(s)| ==> Distinct(s)[i] in s
    ensures forall i, j :: 0 <= i < j < |Distinct(s)| ==>
              FirstIndex(s, Distinct(s)[i]) < FirstIndex(s, Distinct(s)[j])
    decreases |s|
  {
    DistinctElements(s);
    if s != [] {
      var init := s[..|s| - 1];
      var last := s[|s| - 1];
      assert s == init + [last];
      DistinctFirstSeenOrder(init);
      DistinctElements(init);
      var d0 := Distinct(init);
      var d := Distinct(s);
      forall x | x in init
        ensures FirstIndex(s, x) == FirstIndex(init, x)
      {
        FirstIndexSnoc(init, last, x);
      }
      forall i, j | 0 <= i < j < |d|
        ensures FirstIndex(s, d[i]) < FirstIndex(s, d[j])
      {
        assert d[i] in init;
        if j < |d0| {
          assert d[j] == d0[j] && d[i] == d0[i];
        } else {
          // d[j] is `last`, seen for the first time at the very end.
          assert last !in init && d[j] == last;
          FirstIndexOfNewcomer(init, last);
        }
      }
    }
  }

  // ---------------------------------------------------------------------
  // Key/value entries, in the order they were added to a dict.

  function Keys<V>(entries: seq<(string, V)>): (ks: seq<string>)
    ensures |ks| == |entries|
    decreases |entries|
  {
    if entries == [] then [] else Keys(entries[..|entries| - 1]) + [entries[|entries| - 1].0]
  }

  function Values<V>(entries: seq<(string, V)>): (vs: seq<V>)
    ensures |vs| == |entries|
    decreases |entries|
  {
    if entries == [] then [] else Values(entries[..|entries| - 1]) + [entries[|entries| - 1].1]
  }

  /** The dict `d` after `d[k] = d[k] + (v,)` (or `(v,)` for a new key), entry by entry. */
  function GroupsOf<V>(entries: seq<(string, V)>): map<string, seq<V>>
    decreases |entries|
  {
    if entries == [] then map[]
    else
      var g := GroupsOf(entries[..|entries| - 1]);
      var (k, v) := entries[|entries| - 1];
      g[k := (if k in g then g[k] else []) + [v]]
  }

  /** The dict has a group for exactly the keys that were added. */
  lemma {:induction false} GroupsOfDomain<V>(entries: seq<(string, V)>)
    ensures forall k :: k in GroupsOf(entries) <==> k in Keys(entries)
    decreases |entries|
  {
    if entries != [] {
      var init := entries[..|entries| - 1];
      assert Keys(entries) == Keys(init) + [entries[|entries| - 1].0];
      GroupsOfDomain(init);
    }
  }

  /** The values filed under `k`, in the order they were added. */
  function Bucket<V>(entries: seq<(string, V)>, k: string): seq<V>
    decreases |entries|
  {
    if entries == [] then []
    else
      var init := Bucket(entries[..|entries| - 1], k);
      if entries[|entries| - 1].0 == k then init + [entries[|entries| - 1].1] else init
  }

  lemma DictSnoc<V>(entries: seq<(string, V)>, k: string, v: V)
    ensures k in GroupsOf(entries) <==> k in Keys(entries)
    ensures Keys(entries + [(k, v)]) == Keys(entries) + [k]
    ensures Values(entries + [(k, v)]) == Values(entries) + [v]
    ensures Distinct(Keys(entries + [(k, v)])) ==
              if k in Keys(entries) then Distinct(Keys(entries)) else Distinct(Keys(entries)) + [k]
    ensures GroupsOf(entries + [(k, v)]) ==
              GroupsOf(entries)[k := (if k in Keys(entries) then GroupsOf(entries)[k] else []) + [v]]
  {
    assert (entries + [(k, v)])[..|entries|] == entries;
    DistinctSnoc(Keys(entries), k);
    GroupsOfDomain(entries);
  }

  /** Each group holds exactly the values added under its key, in the order they were added. */
  lemma {:induction false} GroupsAreBuckets<V>(entries: seq<(string, V)>)
    ensures forall k :: k in GroupsOf(entries) ==> GroupsOf(entries)[k] == Bucket(entries, k)
    decreases |entries|
  {
    if entries != [] {
      var init := entries[..|entries| - 1];
      GroupsAreBuckets(init);
      assert entries == init + [entries[|entries| - 1]];
      forall k | k in GroupsOf(entries)
        ensures GroupsOf(entries)[k] == Bucket(entries, k)
      {
        if k != entries[|entries| - 1].0 {
          assert k in GroupsOf(init);
        } else if k !in GroupsOf(init) {
          GroupsOfDomain(init);
          BucketOfAbsentKey(init, k);
        }
      }
    }
  }

  lemma {:induction false} BucketOfAbsentKey<V>(entries: seq<(string, V)>, k: string)
    requires k !in Keys(entries)
    ensures Bucket(entries, k) == []
    decreases |entries|
  {
    if entries != [] {
      var init := entries[..|entries| - 1];
      assert Keys(entries) == Keys(init) + [entries[|entries| - 1].0];
      BucketOfAbsentKey(init, k);
    }
  }

  /** `for key in d.keys(): for v in d[key]: out = out + (v,)`. */
  function FlattenGroups<V>(keys: seq<string>, groups: map<string, seq<V>>): seq<V>
    requires forall k :: k in keys ==> k in groups
    decreases |keys|
  {
    if keys == [] then []
    else FlattenGroups(keys[..|keys| - 1], groups) + groups[keys[|keys| - 1]]
  }

  /** The flattened dict filled from `entries`: requestor by requestor in
      first-seen order, each requestor's values in the order they were added. */
  function Grouped<V>(entries: seq<(string, V)>): seq<V>
  {
    KeysHaveGroups(entries);
    FlattenGroups(Distinct(Keys(entries)), GroupsOf(entries))
  }

  lemma KeysHaveGroups<V>(entries: seq<(string, V)>)
    ensures forall k :: k in Distinct(Keys(entries)) ==> k in GroupsOf(entries)
  {
    DistinctElements(Keys(entries));
    GroupsOfDomain(entries);
  }

  lemma {:induction false} FlattenIgnoresOtherKeys<V>(keys: seq<string>, groups: map<string, seq<V>>, k: string, b: seq<V>)
    requires forall x :: x in keys ==> x in groups
    requires k !in keys
    ensures FlattenGroups(keys, groups[k := b]) == FlattenGroups(keys, groups)
    decreases |keys|
  {
    if keys != [] {
      FlattenIgnoresOtherKeys(keys[..|keys| - 1], groups, k, b);
    }
  }

  lemma {:induction false} FlattenAppend<V>(keys: seq<string>, groups: map<string, seq<V>>, k: string, v: V)
    requires forall x :: x in keys ==> x in groups
    requires NoDuplicates(keys) && k in keys
    ensures multiset(FlattenGroups(keys, groups[k := groups[k] + [v]]))
         == multiset(FlattenGroups(keys, groups)) + multiset{v}
    decreases |keys|
  {
    var init := keys[..|keys| - 1];
    var last := keys[|keys| - 1];
    var groups' := groups[k := groups[k] + [v]];
    if last == k {
      assert forall i :: 0 <= i < |init| ==> init[i] == keys[i] && keys[i] != keys[|keys| - 1];
      FlattenIgnoresOtherKeys(init, groups, k, groups[k] + [v]);
    } else {
      assert k in init;
      FlattenAppend(init, groups, k, v);
    }
  }

  /** Adding one entry adds its value to the flattened dict and nothing else. */
  lemma GroupedSnoc<V>(entries: seq<(string, V)>, k: string, v: V)
    ensures multiset(Grouped(entries + [(k, v)])) == multiset(Grouped(entries)) + multiset{v}
  {
    DictSnoc(entries, k, v);
    if k in Keys(entries) {
      GroupedSnocKnownKey(entries, k, v);
    } else {
      GroupedSnocNewKey(entries, k, v);
    }
  }

  lemma GroupedSnocKnownKey<V>(entries: seq<(string, V)>, k: string, v: V)
    requires k in Keys(entries)
    ensures multiset(Grouped(entries + [(k, v)])) == multiset(Grouped(entries)) + multiset{v}
  {
    DictSnoc(entries, k, v);
    KeysHaveGroups(entries);
    DistinctElements(Keys(entries));
    var d0 := Distinct(Keys(entries));
    var g0 := GroupsOf(entries);
    assert Grouped(entries + [(k, v)]) == FlattenGroups(d0, g0[k := g0[k] + [v]]);
    FlattenAppend(d0, g0, k, v);
  }

  lemma GroupedSnocNewKey<V>(entries: seq<(string, V)>, k: string, v: V)
    requires k !in Keys(entries)
    ensures Grouped(entries + [(k, v)]) == Grouped(entries) + [v]
  {
    DictSnoc(entries, k, v);
    KeysHaveGroups(entries);
    var d0 := Distinct(Keys(entries));
    var g0 := GroupsOf(entries);
    var g1 := g0[k := [] + [v]];
    assert Grouped(entries + [(k, v)]) == FlattenGroups(d0 + [k], g1);
    assert (d0 + [k])[..|d0|] == d0;
    assert FlattenGroups(d0 + [k], g1) == FlattenGroups(d0, g1) + g1[k];
    FlattenIgnoresOtherKeys(d0, g0, k, [] + [v]);
  }

  /** Grouping loses nothing and adds nothing: the flattened dict is a
      permutation of the values added, so it is just as long. */
  lemma {:induction false} GroupedKeepsEverything<V>(entries: seq<(string, V)>)
    ensures multiset(Grouped(entries)) == multiset(Values(entries))
    ensures |Grouped(entries)| == |entries|
    decreases |entries|
  {
    if entries != [] {
      var init := entries[..|entries| - 1];
      var (k, v) := entries[|entries| - 1];
      assert entries == init + [(k, v)];
      GroupedKeepsEverything(init);
      GroupedSnoc(init, k, v);
      DictSnoc(init, k, v);
      assert |multiset(Grouped(entries))| == |Grouped(entries)|;
    }
  }

  lemma AppendAssociative<T>(a: seq<T>, b: seq<T>, c: seq<T>)
    ensures a + b + c == a + (b + c)
  {
  }

  // ---------------------------------------------------------------------
  // The dicts themselves.

  /** `email_recipients` of the request batches: `if key not in d: d[key] = value`.
      `offered` is every key put so far, in order. */
  class FirstPerKey<V> {
    var keys: seq<string>
    var values: map<string, V>
    ghost var offered: seq<string>

    ghost predicate Valid()
      reads this
    {
      keys == Distinct(offered) && forall k :: k in values <==> k in keys
    }

    constructor ()
      ensures Valid() && keys == [] && values == map[] && offered == []
    {
      keys := [];
      values := map[];
      offered := [];
    }

    /** The first value put under a key stays; later ones are dropped. */
    method PutIfAbsent(k: string, v: V)
      requires Valid()
      modifies this
      ensures Valid()
      ensures offered == old(offered) + [k]
      ensures k in old(values) ==> values == old(values)
      ensures k !in old(values) ==> values == old(values)[k := v]
    {
      DistinctSnoc(offered, k);
      if k !in values {
        keys := keys + [k];
        values := values[k := v];
      }
      offered := offered + [k];
    }

    /** `for key in d.keys(): out = out + (d[key],)`. */
    method Flatten() returns (all: seq<V>)
      requires Valid()
      ensures |all| == |keys|
      ensures forall i :: 0 <= i < |keys| ==> all[i] == values[keys[i]]
    {
      all := [];
      var i := 0;
      while i < |keys|
        invariant 0 <= i <= |keys|
        invariant |all| == i
        invariant forall j :: 0 <= j < i ==> all[j] == values[keys[j]]
      {
        all := all + [values[keys[i]]];
        i := i + 1;
      }
    }
  }

  /** `email_recipients` of the decision batch: `d[key] = d[key] + (value,)`,
      or `d[key] = (value,)` for a key not yet present.  `entries` is every
      (key, value) appended so far, in order. */
  class Grouping<V> {
    var keys: seq<string>
    var groups: map<string, seq<V>>
    ghost var entries: seq<(string, V)>

    ghost predicate Valid()
      reads this
    {
      keys == Distinct(Keys(entries)) && groups == GroupsOf(entries)
    }

    constructor ()
      ensures Valid() && keys == [] && groups == map[] && entries == []
    {
      keys := [];
      groups := map[];
      entries := [];
    }

    method Append(k: string, v: V)
      requires Valid()
      modifies this
      ensures Valid()
      ensures entries == old(entries) + [(k, v)]
    {
      DictSnoc(entries, k, v);
      if k in groups {
        groups := groups[k := groups[k] + [v]];
      } else {
        assert [] + [v] == [v];
        keys := keys + [k];
        groups := groups[k := [v]];
      }
      entries := entries + [(k, v)];
    }

    /** `for key in d.keys(): for v in d[key]: out = out + (v,)`. */
    method Flatten() returns (all: seq<V>)
      requires Valid()
      ensures all == Grouped(entries)
    {
      var ks, gs := keys, groups;
      KeysHaveGroups(entries);
      all := [];
      var i := 0;
      while i < |ks|
        invariant 0 <= i <= |ks|
        invariant all == FlattenGroups(ks[..i], gs)
      {
        var group := gs[ks[i]];
        ghost var done := all;
        var j := 0;
        while j < |group|
          invariant 0 <= j <= |group|
          invariant all == done + group[..j]
        {
          assert group[..j + 1] == group[..j] + [group[j]];
          AppendAssociative(done, group[..j], [group[j]]);
          all := all + [group[j]];
          j := j + 1;
        }
        assert group[..j] == group;
        assert ks[..i + 1][..i] == ks[..i];
        i := i + 1;
      }
      assert ks[..|ks|] == ks;
    }
  }
}
