/**
  * A Python `dict` with string keys, as the list of its items in insertion
  * order: lookup, `d[k] = v` (which keeps the position of an existing key
  * and appends a new one) and `d.pop(k, None)`.
  */
module PyDict {
  import opened Wrappers

  type Dict<V> = seq<(string, V)>

  function Keys<V>(d: Dict<V>): (r: seq<string>)
    ensures |r| == |d| && forall i | 0 <= i < |d| :: r[i] == d[i].0
  {
    seq(|d|, i requires 0 <= i < |d| => d[i].0)
  }

  /** No key occurs twice, as in every real dict. */
  predicate UniqueKeys<V>(d: Dict<V>) {
    forall i, j | 0 <= i < j < |d| :: d[i].0 != d[j].0
  }

  /** The position of key `k`, or `|d|` when it is absent. */
  function Position<V>(d: Dict<V>, k: string): (i: nat)
    ensures i <= |d|
    ensures i < |d| ==> d[i].0 == k
    ensures forall j | 0 <= j < i :: d[j].0 != k
  {
    if d == [] then 0
    else if d[0].0 == k then 0
    else 1 + Position(d[1..], k)
  }

  /** `Position` is the first occurrence. */
  lemma PositionIs<V>(d: Dict<V>, k: string, i: nat)
    requires i <= |d|
    requires i < |d| ==> d[i].0 == k
    requires forall j | 0 <= j < i :: d[j].0 != k
    ensures Position(d, k) == i
  {
  }

  /** `d.get(k)` */
  function Get<V>(d: Dict<V>, k: string): (r: Option<V>)
    ensures r.Some? <==> k in Keys(d)
  {
    var i := Position(d, k);
    if i < |d| then Some(d[i].1) else None
  }

  /** `d[k] = v` */
  function Set<V>(d: Dict<V>, k: string, v: V): Dict<V> {
    var i := Position(d, k);
    if i < |d| then d[i := (k, v)] else d + [(k, v)]
  }

  /** `d.pop(k, None)`: the value that was there, and the dict without it. */
  function Pop<V>(d: Dict<V>, k: string): (r: (Option<V>, Dict<V>))
    ensures r.0 == Get(d, k)
  {
    var i := Position(d, k);
    if i < |d| then (Some(d[i].1), d[..i] + d[i + 1..]) else (None, d)
  }

  /** `ks` with every occurrence of `k` removed. */
  function Without(ks: seq<string>, k: string): (r: seq<string>)
    ensures forall x :: x in r <==> x in ks && x != k
  {
    if ks == [] then []
    else (if ks[0] == k then [] else [ks[0]]) + Without(ks[1..], k)
  }

  /** A key is present exactly when its position is before the end. */
  lemma KeyPosition<V>(d: Dict<V>, k: string)
    ensures k in Keys(d) <==> Position(d, k) < |d|
  {
    if k in Keys(d) {
      var i :| 0 <= i < |d| && Keys(d)[i] == k;
      assert Position(d, k) <= i;
    }
  }

  /** Keys keep the order of their items. */
  lemma KeysConcat<V>(a: Dict<V>, b: Dict<V>)
    ensures Keys(a + b) == Keys(a) + Keys(b)
  {
  }

  /** `Without` works item by item: it distributes over concatenation ... */
  lemma {:induction false} WithoutConcat(xs: seq<string>, ys: seq<string>, k: string)
    ensures Without(xs + ys, k) == Without(xs, k) + Without(ys, k)
    decreases |xs|
  {
    if xs == [] {
      assert xs + ys == ys;
    } else {
      assert (xs + ys)[1..] == xs[1..] + ys;
      WithoutConcat(xs[1..], ys, k);
    }
  }

  /** ... and keeps a single key exactly when it is not `k`. */
  lemma WithoutOne(x: string, k: string)
    ensures Without([x], k) == if x == k then [] else [x]
  {
  }

  /** After `d[k] = v`, looking up `k` gives `v` and every other key is
      unaffected. */
  lemma SetGet<V>(d: Dict<V>, k: string, v: V)
    ensures Get(Set(d, k, v), k) == Some(v)
    ensures forall k' | k' != k :: Get(Set(d, k, v), k') == Get(d, k')
  {
    var r := Set(d, k, v);
    var i := Position(d, k);
    PositionIs(r, k, i);
    forall k' | k' != k ensures Get(r, k') == Get(d, k') {
      var j := Position(d, k');
      if i < |d| || j < |d| {
        PositionIs(r, k', j);
      } else {
        PositionIs(r, k', |d| + 1);
      }
    }
  }

  /** `d[k] = v` keeps an existing key in its place and appends a new one;
      distinct keys stay distinct. */
  lemma SetKeys<V>(d: Dict<V>, k: string, v: V)
    ensures Keys(Set(d, k, v)) == if k in Keys(d) then Keys(d) else Keys(d) + [k]
    ensures UniqueKeys(d) ==> UniqueKeys(Set(d, k, v))
  {
    var i := Position(d, k);
    if i == |d| {
      assert Keys(Set(d, k, v)) == Keys(d) + [k];
    }
  }

  /** After `d.pop(k, None)` on a dict with distinct keys, `k` is gone,
      every other key is unaffected, and the remaining keys keep their
      order. */
  lemma PopGet<V>(d: Dict<V>, k: string)
    requires UniqueKeys(d)
    ensures UniqueKeys(Pop(d, k).1)
    ensures Get(Pop(d, k).1, k) == None
    ensures forall k' | k' != k :: Get(Pop(d, k).1, k') == Get(d, k')
    ensures Keys(Pop(d, k).1) == Without(Keys(d), k)
  {
    var i := Position(d, k);
    if i < |d| {
      var r := d[..i] + d[i + 1..];
      assert Pop(d, k).1 == r;
      RemoveAt(d, i);
      forall k' | k' != k ensures Get(r, k') == Get(d, k') {
        RemoveAtGet(d, i, k');
      }
      KeysWithoutAt(d, k, i);
    } else {
      WithoutAbsent(Keys(d), k);
    }
  }

  /** Removing the item at `i` shifts the later items down by one; with
      distinct keys, its key is gone and the others stay distinct. */
  lemma RemoveAt<V>(d: Dict<V>, i: nat)
    requires UniqueKeys(d) && i < |d|
    ensures var r := d[..i] + d[i + 1..];
            && |r| == |d| - 1
            && (forall j | 0 <= j < |r| :: r[j] == if j < i then d[j] else d[j + 1])
            && UniqueKeys(r)
            && d[i].0 !in Keys(r)
  {
    var r := d[..i] + d[i + 1..];
    assert forall j | 0 <= j < |r| :: r[j] == if j < i then d[j] else d[j + 1];
  }

  /** Removing the item at `i` does not change the lookup of another key. */
  lemma RemoveAtGet<V>(d: Dict<V>, i: nat, k': string)
    requires UniqueKeys(d) && i < |d| && d[i].0 != k'
    ensures Get(d[..i] + d[i + 1..], k') == Get(d, k')
  {
    var r := d[..i] + d[i + 1..];
    RemoveAt(d, i);
    var j := Position(d, k');
    if j < i {
      PositionIs(r, k', j);
    } else if j < |d| {
      PositionIs(r, k', j - 1);
    } else {
      PositionIs(r, k', |r|);
    }
  }

  lemma {:induction false} WithoutAbsent(ks: seq<string>, k: string)
    requires k !in ks
    ensures Without(ks, k) == ks
    decreases |ks|
  {
    if ks != [] {
      WithoutAbsent(ks[1..], k);
      assert [ks[0]] + ks[1..] == ks;
    }
  }

  /** Removing the one item with key `k` removes `k` from the keys. */
  lemma {:induction false} KeysWithoutAt<V>(d: Dict<V>, k: string, i: nat)
    requires UniqueKeys(d) && i < |d| && d[i].0 == k
    ensures Keys(d[..i] + d[i + 1..]) == Without(Keys(d), k)
    decreases i
  {
    if i == 0 {
      assert d[..0] + d[1..] == d[1..];
      assert Keys(d)[1..] == Keys(d[1..]);
      assert k !in Keys(d[1..]);
      WithoutAbsent(Keys(d[1..]), k);
    } else {
      KeysWithoutAt(d[1..], k, i - 1);
      assert d[1..][..i - 1] + d[1..][i..] == (d[..i] + d[i + 1..])[1..];
      assert Keys(d)[1..] == Keys(d[1..]);
      assert Keys(d[..i] + d[i + 1..]) == [d[0].0] + Keys((d[..i] + d[i + 1..])[1..]);
    }
  }
}
