/** What `group_by_user` computes, stated on values: the distinct authors in
    first-seen order, each author's commits in input order, and the
    insertion-ordered Python dict the loop fills. Generic in the element type,
    with the author as a key function, so that both scripts share it. */
module Grouping {
  import opened Text

  /** The distinct keys of `xs`, each at the place it is first seen. */
  function Keys<T>(xs: seq<T>, key: T -> string): seq<string>
  {
    if xs == [] then []
    else
      var ks := Keys(xs[..|xs| - 1], key);
      if key(xs[|xs| - 1]) in ks then ks else ks + [key(xs[|xs| - 1])]
  }

  /** The elements of `xs` with key `k`, in input order. */
  function Group<T>(xs: seq<T>, key: T -> string, k: string): seq<T>
  {
    if xs == [] then []
    else Group(xs[..|xs| - 1], key, k) + (if key(xs[|xs| - 1]) == k then [xs[|xs| - 1]] else [])
  }

  /** One more loop step over `xs`: a key not seen before is appended. */
  lemma KeysStep<T>(xs: seq<T>, i: nat, key: T -> string)
    requires i < |xs|
    ensures Keys(xs[..i + 1], key) ==
      if key(xs[i]) in Keys(xs[..i], key) then Keys(xs[..i], key) else Keys(xs[..i], key) + [key(xs[i])]
  {
    assert xs[..i + 1][..i] == xs[..i];
  }

  /** One more loop step over `xs`: the element joins the end of its own group only. */
  lemma GroupStep<T>(xs: seq<T>, i: nat, key: T -> string, k: string)
    requires i < |xs|
    ensures Group(xs[..i + 1], key, k) ==
      if key(xs[i]) == k then Group(xs[..i], key, k) + [xs[i]] else Group(xs[..i], key, k)
  {
    assert xs[..i + 1][..i] == xs[..i];
  }

  /** The position of the first element with key `k`, or `|xs|` when there is none. */
  function FirstAt<T>(xs: seq<T>, key: T -> string, k: string): (p: nat)
    ensures p <= |xs|
    ensures p < |xs| ==> key(xs[p]) == k
    ensures forall q :: 0 <= q < p ==> key(xs[q]) != k
  {
    if xs == [] then 0
    else if key(xs[0]) == k then 0
    else 1 + FirstAt(xs[1..], key, k)
  }

  lemma FirstAtUnique<T>(xs: seq<T>, key: T -> string, k: string, p: nat)
    requires p <= |xs| && (p < |xs| ==> key(xs[p]) == k)
    requires forall q :: 0 <= q < p ==> key(xs[q]) != k
    ensures FirstAt(xs, key, k) == p
  {
  }

  /** No key is listed twice, and the keys are exactly those of the elements. */
  lemma {:induction false} KeysMembers<T>(xs: seq<T>, key: T -> string)
    ensures Distinct(Keys(xs, key))
    ensures forall k :: k in Keys(xs, key) <==> exists i :: 0 <= i < |xs| && key(xs[i]) == k
  {
    if xs != [] {
      var init := xs[..|xs| - 1];
      KeysMembers(init, key);
      assert forall i :: 0 <= i < |init| ==> init[i] == xs[i];
    }
  }

  /** First-seen order: of two keys, the one listed first occurs first in `xs`. */
  lemma {:induction false} KeysFirstSeen<T>(xs: seq<T>, key: T -> string)
    ensures forall i :: 0 <= i < |Keys(xs, key)| ==> FirstAt(xs, key, Keys(xs, key)[i]) < |xs|
    ensures forall i, j :: 0 <= i < j < |Keys(xs, key)| ==>
      FirstAt(xs, key, Keys(xs, key)[i]) < FirstAt(xs, key, Keys(xs, key)[j])
  {
    if xs != [] {
      var init := xs[..|xs| - 1];
      var ks := Keys(init, key);
      KeysFirstSeen(init, key);
      KeysMembers(init, key);
      forall i | 0 <= i < |ks| ensures FirstAt(xs, key, ks[i]) == FirstAt(init, key, ks[i]) {
        var p := FirstAt(init, key, ks[i]);
        FirstAtUnique(xs, key, ks[i], p);
      }
      var last := key(xs[|xs| - 1]);
      if last !in ks {
        forall q | 0 <= q < |init| ensures key(xs[q]) != last {
          assert init[q] == xs[q];
        }
        FirstAtUnique(xs, key, last, |init|);
        assert Keys(xs, key) == ks + [last];
      }
    }
  }

  /** A key is listed exactly when its group is not empty: no summary is empty. */
  lemma {:induction false} KeysHaveGroups<T>(xs: seq<T>, key: T -> string, k: string)
    ensures k in Keys(xs, key) <==> Group(xs, key, k) != []
  {
    if xs != [] {
      KeysHaveGroups(xs[..|xs| - 1], key, k);
    }
  }

  /** Grouping a concatenation concatenates the groups: order within a group is kept. */
  lemma {:induction false} GroupAppend<T>(xs: seq<T>, ys: seq<T>, key: T -> string, k: string)
    ensures Group(xs + ys, key, k) == Group(xs, key, k) + Group(ys, key, k)
    decreases |ys|
  {
    if ys == [] {
      assert xs + ys == xs;
    } else {
      var yi := ys[..|ys| - 1];
      assert (xs + ys)[..|xs + ys| - 1] == xs + yi;
      GroupAppend(xs, yi, key, k);
    }
  }

  /** Every element lands in the group of its own key, as often as it occurs,
      and in no other group. */
  lemma {:induction false} GroupCount<T>(xs: seq<T>, key: T -> string, k: string)
    ensures forall x :: multiset(Group(xs, key, k))[x] == if key(x) == k then multiset(xs)[x] else 0
  {
    if xs != [] {
      var init := xs[..|xs| - 1];
      GroupCount(init, key, k);
      assert xs == init + [xs[|xs| - 1]];
    }
  }

  /** A group holds exactly the elements of the input that have its key. */
  lemma GroupMembers<T>(xs: seq<T>, key: T -> string, k: string)
    ensures forall x :: x in Group(xs, key, k) <==> x in xs && key(x) == k
  {
    GroupCount(xs, key, k);
    forall x ensures x in Group(xs, key, k) <==> x in xs && key(x) == k {
      assert x in Group(xs, key, k) <==> x in multiset(Group(xs, key, k));
      assert x in xs <==> x in multiset(xs);
    }
  }

  /** The groups of the keys `ks`, one after the other. */
  function Groups<T>(xs: seq<T>, key: T -> string, ks: seq<string>): seq<T>
  {
    if ks == [] then [] else Groups(xs, key, ks[..|ks| - 1]) + Group(xs, key, ks[|ks| - 1])
  }

  /** Adding one element to the input adds it once to the groups of distinct
      keys when its key is among them, and not at all otherwise. */
  lemma {:induction false} GroupsStep<T>(xs: seq<T>, x: T, key: T -> string, ks: seq<string>)
    requires Distinct(ks)
    ensures multiset(Groups(xs + [x], key, ks)) ==
      multiset(Groups(xs, key, ks)) + if key(x) in ks then multiset{x} else multiset{}
  {
    if ks != [] {
      var ki := ks[..|ks| - 1];
      var last := ks[|ks| - 1];
      assert Distinct(ki);
      GroupsStep(xs, x, key, ki);
      GroupSnoc(xs, x, key, last);
      assert key(x) in ks <==> key(x) in ki || key(x) == last;
      if key(x) == last {
        assert key(x) !in ki;
      }
      var added := if key(x) in ks then multiset{x} else multiset{};
      var toInit := if key(x) in ki then multiset{x} else multiset{};
      var toLast := multiset(if key(x) == last then [x] else []);
      assert added == toInit + toLast;
      SumOfSteps(multiset(Groups(xs, key, ki)), multiset(Group(xs, key, last)), toInit, toLast);
    }
  }

  lemma SumOfSteps<T>(front: multiset<T>, back: multiset<T>, toFront: multiset<T>, toBack: multiset<T>)
    ensures (front + toFront) + (back + toBack) == (front + back) + (toFront + toBack)
  {
  }

  /** One element more at the end joins the end of its own group only. */
  lemma GroupSnoc<T>(xs: seq<T>, x: T, key: T -> string, k: string)
    ensures Group(xs + [x], key, k) == Group(xs, key, k) + if key(x) == k then [x] else []
  {
    assert (xs + [x])[..|xs + [x]| - 1] == xs;
  }

  /** Keys that no element has contribute nothing. */
  lemma {:induction false} GroupAbsent<T>(xs: seq<T>, key: T -> string, k: string)
    requires forall i :: 0 <= i < |xs| ==> key(xs[i]) != k
    ensures Group(xs, key, k) == []
  {
    if xs != [] {
      GroupAbsent(xs[..|xs| - 1], key, k);
    }
  }

  /** The groups of all keys hold every element exactly as often as the input does. */
  lemma {:induction false} Partition<T>(xs: seq<T>, key: T -> string)
    ensures multiset(Groups(xs, key, Keys(xs, key))) == multiset(xs)
  {
    if xs != [] {
      var init := xs[..|xs| - 1];
      var x := xs[|xs| - 1];
      var ks := Keys(init, key);
      assert xs == init + [x];
      assert multiset(xs) == multiset(init) + multiset{x};
      Partition(init, key);
      KeysMembers(xs, key);
      if key(x) in ks {
        GroupsStep(init, x, key, ks);
      } else {
        var ks' := ks + [key(x)];
        assert Keys(xs, key) == ks';
        GroupsStep(init, x, key, ks');
        KeysMembers(init, key);
        GroupAbsent(init, key, key(x));
        assert ks'[..|ks'| - 1] == ks;
        assert Groups(init, key, ks') == Groups(init, key, ks) + [];
      }
    }
  }

  /** The insertion-ordered dict of Python 3.7+: `keys` in insertion order. */
  datatype OrderedDict<V> = OrderedDict(keys: seq<string>, entries: map<string, V>)
  {
    /** Each key once, and the same keys in both parts. */
    ghost predicate Valid()
    {
      Distinct(keys) && forall k :: k in entries <==> k in keys
    }

    /** `d[k] = v`: a new key goes to the end, an existing one keeps its place. */
    function Put(k: string, v: V): OrderedDict<V>
    {
      if k in entries then OrderedDict(keys, entries[k := v])
      else OrderedDict(keys + [k], entries[k := v])
    }

    /** Storing keeps the dict well formed, keeps the order of the keys already
        there, adds a new key at the end, and maps `k` to `v` leaving every other
        key as it was. */
    lemma PutValid(k: string, v: V)
      requires Valid()
      ensures Put(k, v).Valid()
      ensures keys <= Put(k, v).keys
      ensures Put(k, v).keys == if k in keys then keys else keys + [k]
      ensures k in Put(k, v).entries && Put(k, v).entries[k] == v
      ensures forall j :: j in entries && j != k ==> j in Put(k, v).entries && Put(k, v).entries[j] == entries[j]
    {
    }
  }

  /** Storing a new value under a new key: the key goes to the end, and when no
      key held that value before, no two keys share a value afterwards either. */
  lemma PutNew<V>(d: OrderedDict<V>, k: string, v: V)
    requires d.Valid() && k !in d.entries
    requires forall a, b :: a in d.entries && b in d.entries && a != b ==> d.entries[a] != d.entries[b]
    requires forall a :: a in d.entries ==> d.entries[a] != v
    ensures d.Put(k, v) == OrderedDict(d.keys + [k], d.entries[k := v])
    ensures var e := d.Put(k, v).entries;
      forall a, b :: a in e && b in e && a != b ==> e[a] != e[b]
  {
    var e := d.Put(k, v).entries;
    forall a, b | a in e && b in e && a != b ensures e[a] != e[b] {
      if a == k {
        assert e[b] == d.entries[b];
      } else if b == k {
        assert e[a] == d.entries[a];
      } else {
        assert e[a] == d.entries[a] && e[b] == d.entries[b];
      }
    }
  }

  /** `{}`. */
  function EmptyDict<V>(): (d: OrderedDict<V>)
    ensures d.Valid() && d.keys == []
  {
    OrderedDict([], map[])
  }
}
