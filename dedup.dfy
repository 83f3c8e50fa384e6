/**
 * De-duplication by key, keeping the first element of each key: the
 * `seen`-set loop of `_year_columns` and pandas' `drop_duplicates(keep="first")`.
 */
module Dedup {

  /** The keys of the elements of `xs`. */
  function Keys<T, K>(xs: seq<T>, key: T -> K): set<K> {
    set i | 0 <= i < |xs| :: key(xs[i])
  }

  /** Element `k` of `xs` is the first one with its key. */
  ghost predicate FirstAt<T, K>(xs: seq<T>, k: nat, key: T -> K) {
    k < |xs| && forall j :: 0 <= j < k ==> key(xs[j]) != key(xs[k])
  }

  lemma KeysSnoc<T, K>(xs: seq<T>, x: T, key: T -> K)
    ensures Keys(xs + [x], key) == Keys(xs, key) + {key(x)}
  {
    var ys := xs + [x];
    forall kk | kk in Keys(ys, key)
      ensures kk in Keys(xs, key) + {key(x)}
    {
      var i :| 0 <= i < |ys| && key(ys[i]) == kk;
      if i < |xs| {
        assert ys[i] == xs[i];
      }
    }
    forall kk | kk in Keys(xs, key)
      ensures kk in Keys(ys, key)
    {
      var i :| 0 <= i < |xs| && key(xs[i]) == kk;
      assert ys[i] == xs[i];
    }
    assert ys[|xs|] == x;
  }

  /** `xs` with every element whose key occurred before it removed. */
  function KeepFirst<T, K(==)>(xs: seq<T>, key: T -> K): (r: seq<T>)
    ensures |r| <= |xs|
    ensures Keys(r, key) == Keys(xs, key)
    ensures forall i, j :: 0 <= i < j < |r| ==> key(r[i]) != key(r[j])
    ensures forall i :: 0 <= i < |r| ==> r[i] in xs
  {
    if xs == [] then []
    else
      var init := xs[..|xs| - 1];
      var x := xs[|xs| - 1];
      var p := KeepFirst(init, key);
      KeysSnoc(init, x, key);
      KeysSnoc(p, x, key);
      assert xs == init + [x];
      if key(x) in Keys(init, key) then p
      else
        assert forall i :: 0 <= i < |p| ==> key(p[i]) in Keys(p, key);
        p + [x]
  }

  /** The key of every element of `xs` is the key of some element kept. */
  lemma KeyKept<T, K>(xs: seq<T>, key: T -> K, x: T)
    requires x in xs
    ensures key(x) in Keys(KeepFirst(xs, key), key)
  {
    var p :| 0 <= p < |xs| && xs[p] == x;
    assert key(xs[p]) in Keys(xs, key);
  }

  /** The position of the first element of `xs` with key `kk`. */
  ghost function FirstIndexOf<T, K>(xs: seq<T>, kk: K, key: T -> K): (k: nat)
    requires kk in Keys(xs, key)
    ensures FirstAt(xs, k, key) && key(xs[k]) == kk
  {
    if key(xs[0]) == kk then 0
    else
      assert kk in Keys(xs[1..], key) by {
        var i :| 0 <= i < |xs| && key(xs[i]) == kk;
        assert xs[1..][i - 1] == xs[i];
      }
      var k := FirstIndexOf(xs[1..], kk, key);
      assert forall j :: 1 <= j <= k ==> xs[j] == xs[1..][j - 1];
      k + 1
  }

  /** `KeepFirst` keeps exactly the first element of each key, in their order in `xs`: every
      element kept is the first of its key, every first element is kept, and the order of
      `xs` is the order of the result. */
  lemma {:induction false} KeepFirstSpec<T, K>(xs: seq<T>, key: T -> K)
    ensures var r := KeepFirst(xs, key);
      forall i :: 0 <= i < |r| ==> key(r[i]) in Keys(xs, key) && r[i] == xs[FirstIndexOf(xs, key(r[i]), key)]
    ensures forall k :: 0 <= k < |xs| && FirstAt(xs, k, key) ==> xs[k] in KeepFirst(xs, key)
  {
    var r := KeepFirst(xs, key);
    forall i | 0 <= i < |r|
      ensures key(r[i]) in Keys(xs, key) && r[i] == xs[FirstIndexOf(xs, key(r[i]), key)]
    {
      assert key(r[i]) in Keys(r, key);
      KeptIsFirst(xs, key, i);
    }
    forall k | 0 <= k < |xs| && FirstAt(xs, k, key)
      ensures xs[k] in r
    {
      FirstIsKept(xs, key, k);
    }
  }

  lemma {:induction false} KeptIsFirst<T, K>(xs: seq<T>, key: T -> K, i: nat)
    requires i < |KeepFirst(xs, key)|
    ensures key(KeepFirst(xs, key)[i]) in Keys(xs, key)
    ensures KeepFirst(xs, key)[i] == xs[FirstIndexOf(xs, key(KeepFirst(xs, key)[i]), key)]
  {
    var r := KeepFirst(xs, key);
    var kk := key(r[i]);
    assert kk in Keys(r, key);
    var init := xs[..|xs| - 1];
    var x := xs[|xs| - 1];
    var p := KeepFirst(init, key);
    assert xs == init + [x];
    if i < |p| {
      assert r[i] == p[i];
      KeptIsFirst(init, key, i);
      var k := FirstIndexOf(init, kk, key);
      FirstIndexOfPrefix(init, x, kk, key);
    } else {
      assert r == p + [x] && r[i] == x;
      assert kk !in Keys(init, key);
      FirstIndexOfNew(init, x, key);
    }
  }

  lemma FirstIndexOfPrefix<T, K>(init: seq<T>, x: T, kk: K, key: T -> K)
    requires kk in Keys(init, key)
    ensures kk in Keys(init + [x], key)
    ensures FirstIndexOf(init + [x], kk, key) == FirstIndexOf(init, kk, key)
  {
    var xs := init + [x];
    KeysSnoc(init, x, key);
    var k := FirstIndexOf(init, kk, key);
    var k' := FirstIndexOf(xs, kk, key);
    assert xs[k] == init[k];
  }

  lemma FirstIndexOfNew<T, K>(init: seq<T>, x: T, key: T -> K)
    requires key(x) !in Keys(init, key)
    ensures key(x) in Keys(init + [x], key)
    ensures FirstIndexOf(init + [x], key(x), key) == |init|
  {
    var xs := init + [x];
    KeysSnoc(init, x, key);
    var k := FirstIndexOf(xs, key(x), key);
  }

  lemma {:induction false} FirstIsKept<T, K>(xs: seq<T>, key: T -> K, k: nat)
    requires FirstAt(xs, k, key)
    ensures xs[k] in KeepFirst(xs, key)
  {
    var init := xs[..|xs| - 1];
    var x := xs[|xs| - 1];
    var p := KeepFirst(init, key);
    assert xs == init + [x];
    if k < |init| {
      assert init[k] == xs[k];
      assert FirstAt(init, k, key) by {
        forall j | 0 <= j < k
          ensures key(init[j]) != key(init[k])
        {
          assert init[j] == xs[j];
        }
      }
      FirstIsKept(init, key, k);
    }
  }

  /** Kept elements keep the relative order of their first positions in `xs`. */
  lemma {:induction false} KeptInOrder<T, K>(xs: seq<T>, key: T -> K, i: nat, j: nat)
    requires i < j < |KeepFirst(xs, key)|
    ensures var r := KeepFirst(xs, key);
      key(r[i]) in Keys(xs, key) && key(r[j]) in Keys(xs, key) &&
      FirstIndexOf(xs, key(r[i]), key) < FirstIndexOf(xs, key(r[j]), key)
  {
    var r := KeepFirst(xs, key);
    var init := xs[..|xs| - 1];
    var x := xs[|xs| - 1];
    var p := KeepFirst(init, key);
    assert xs == init + [x];
    KeptIsFirst(xs, key, i);
    KeptIsFirst(xs, key, j);
    if j < |p| {
      assert r[i] == p[i] && r[j] == p[j];
      KeptInOrder(init, key, i, j);
      FirstIndexOfPrefix(init, x, key(r[i]), key);
      FirstIndexOfPrefix(init, x, key(r[j]), key);
    } else {
      assert r == p + [x] && r[j] == x && r[i] == p[i];
      KeptIsFirst(init, key, i);
      FirstIndexOfPrefix(init, x, key(r[i]), key);
      FirstIndexOfNew(init, x, key);
    }
  }
}
