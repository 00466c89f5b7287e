/** A JavaScript object used as a dictionary with string keys that are not
    array indices: its entries keep insertion order, and assigning an existing
    key replaces the value in place. */
module OrderedDict {
  import opened Text

  type Dict<V> = seq<(string, V)>

  /** No key appears twice. */
  predicate Keyed<V>(d: Dict<V>) {
    forall i, j :: 0 <= i < j < |d| ==> d[i].0 != d[j].0
  }

  function Keys<V>(d: Dict<V>): (ks: seq<string>)
    ensures |ks| == |d| && forall i :: 0 <= i < |d| ==> ks[i] == d[i].0
  {
    seq(|d|, i requires 0 <= i < |d| => d[i].0)
  }

  /** The value stored under `k`, if any. */
  function Find<V>(d: Dict<V>, k: string): (r: Option<V>)
    ensures r.None? <==> k !in Keys(d)
  {
    if |d| == 0 then None
    else if d[0].0 == k then Some(d[0].1)
    else
      assert Keys(d) == [d[0].0] + Keys(d[1..]);
      Find(d[1..], k)
  }

  /** `obj[k] = v` */
  function Put<V>(d: Dict<V>, k: string, v: V): (r: Dict<V>)
    ensures PutEffect(d, k, v, r)
  {
    if |d| == 0 then [(k, v)]
    else if d[0].0 == k then
      ReplaceFront(d, k, v);
      [(k, v)] + d[1..]
    else
      var rest := Put(d[1..], k, v);
      KeepFront(d, k, v, rest);
      [d[0]] + rest
  }

  /** What `obj[k] = v` does: an existing key keeps its place, a new key goes
      last; `k` now reads `v` and every other key reads what it did. */
  ghost predicate PutEffect<V>(d: Dict<V>, k: string, v: V, r: Dict<V>) {
    && (k in Keys(d) ==> Keys(r) == Keys(d))
    && (k !in Keys(d) ==> Keys(r) == Keys(d) + [k])
    && Find(r, k) == Some(v)
    && (forall k' :: k' != k ==> Find(r, k') == Find(d, k'))
  }

  lemma ReplaceFront<V>(d: Dict<V>, k: string, v: V)
    requires |d| > 0 && d[0].0 == k
    ensures PutEffect(d, k, v, [(k, v)] + d[1..])
  {
    ConsLaws((k, v), d[1..]);
    ConsLaws(d[0], d[1..]);
    assert d == [d[0]] + d[1..];
  }

  lemma KeepFront<V>(d: Dict<V>, k: string, v: V, rest: Dict<V>)
    requires |d| > 0 && d[0].0 != k && PutEffect(d[1..], k, v, rest)
    ensures PutEffect(d, k, v, [d[0]] + rest)
  {
    ConsLaws(d[0], rest);
    ConsLaws(d[0], d[1..]);
    assert d == [d[0]] + d[1..];
  }

  /** Keys and lookups of a dictionary with one more entry in front. */
  lemma ConsLaws<V>(e: (string, V), d: Dict<V>)
    ensures Keys([e] + d) == [e.0] + Keys(d)
    ensures forall k :: Find([e] + d, k) == if e.0 == k then Some(e.1) else Find(d, k)
  {
    KeysCons(e, d);
    forall k ensures Find([e] + d, k) == if e.0 == k then Some(e.1) else Find(d, k) {
      FindCons(e, d, k);
    }
  }

  lemma KeysCons<V>(e: (string, V), d: Dict<V>)
    ensures Keys([e] + d) == [e.0] + Keys(d)
  {
    var x := [e] + d;
    assert |Keys(x)| == |[e.0] + Keys(d)|;
    forall i | 0 <= i < |x| ensures Keys(x)[i] == ([e.0] + Keys(d))[i] {
      if i > 0 { assert x[i] == d[i - 1]; }
    }
  }

  lemma FindCons<V>(e: (string, V), d: Dict<V>, k: string)
    ensures Find([e] + d, k) == if e.0 == k then Some(e.1) else Find(d, k)
  {
    hide Keys;
    var x := [e] + d;
    assert x[1..] == d;
    assert x[0] == e;
  }

  /** Assignment keeps the keys distinct. */
  lemma PutKeyed<V>(d: Dict<V>, k: string, v: V)
    requires Keyed(d)
    ensures Keyed(Put(d, k, v))
  {
    var r := Put(d, k, v);
    forall i, j | 0 <= i < j < |r| ensures r[i].0 != r[j].0 {
      assert r[i].0 == Keys(r)[i] && r[j].0 == Keys(r)[j];
      if k !in Keys(d) && j == |d| {
        assert Keys(r)[i] == Keys(d)[i];
      } else {
        assert Keys(r)[i] == Keys(d)[i] && Keys(r)[j] == Keys(d)[j];
      }
    }
  }

  /** `{ k: v }` */
  function Single<V>(k: string, v: V): (r: Dict<V>)
    ensures Keyed(r) && Keys(r) == [k] && Find(r, k) == Some(v)
  {
    [(k, v)]
  }

  /** Assigning `value(x)` under `key(x)` for every element of `xs`, in order. */
  function PutAll<X, V>(d: Dict<V>, xs: seq<X>, key: X -> string, value: X -> V): Dict<V>
    decreases |xs|
  {
    if |xs| == 0 then d else PutAll(Put(d, key(xs[0]), value(xs[0])), xs[1..], key, value)
  }

  lemma {:induction false} PutAllKeyed<X, V>(d: Dict<V>, xs: seq<X>, key: X -> string, value: X -> V)
    requires Keyed(d)
    ensures Keyed(PutAll(d, xs, key, value))
    decreases |xs|
  {
    if |xs| > 0 {
      PutKeyed(d, key(xs[0]), value(xs[0]));
      PutAllKeyed(Put(d, key(xs[0]), value(xs[0])), xs[1..], key, value);
    }
  }

  /** After assigning every element, a key of one of them holds the value of
      the last element with that key; any other key is untouched. */
  lemma {:induction false} PutAllFind<X, V>(d: Dict<V>, xs: seq<X>, key: X -> string, value: X -> V, k: string)
    ensures (forall i :: 0 <= i < |xs| ==> key(xs[i]) != k) ==> Find(PutAll(d, xs, key, value), k) == Find(d, k)
    ensures forall i :: 0 <= i < |xs| && key(xs[i]) == k && (forall j :: i < j < |xs| ==> key(xs[j]) != k) ==>
      Find(PutAll(d, xs, key, value), k) == Some(value(xs[i]))
    decreases |xs|
  {
    if |xs| > 0 {
      var d1 := Put(d, key(xs[0]), value(xs[0]));
      PutAllFind(d1, xs[1..], key, value, k);
      forall i | 0 <= i < |xs| && key(xs[i]) == k && (forall j :: i < j < |xs| ==> key(xs[j]) != k)
        ensures Find(PutAll(d, xs, key, value), k) == Some(value(xs[i]))
      {
        if i > 0 {
          assert xs[1..][i - 1] == xs[i];
          assert forall j :: i - 1 < j < |xs[1..]| ==> key(xs[1..][j]) != k by {
            forall j | i - 1 < j < |xs[1..]| ensures key(xs[1..][j]) != k {
              assert xs[1..][j] == xs[j + 1];
            }
          }
        } else {
          assert forall j :: 0 <= j < |xs[1..]| ==> key(xs[1..][j]) != k by {
            forall j | 0 <= j < |xs[1..]| ensures key(xs[1..][j]) != k {
              assert xs[1..][j] == xs[j + 1];
            }
          }
        }
      }
      if forall i :: 0 <= i < |xs| ==> key(xs[i]) != k {
        assert forall i :: 0 <= i < |xs[1..]| ==> key(xs[1..][i]) != k by {
          forall i | 0 <= i < |xs[1..]| ensures key(xs[1..][i]) != k {
            assert xs[1..][i] == xs[i + 1];
          }
        }
      }
    }
  }

  /** Assigning one more element after the others. */
  lemma {:induction false} PutAllSnoc<X, V>(d: Dict<V>, xs: seq<X>, x: X, key: X -> string, value: X -> V)
    ensures PutAll(d, xs + [x], key, value) == Put(PutAll(d, xs, key, value), key(x), value(x))
    decreases |xs|
  {
    if |xs| == 0 {
      assert ([] + [x])[1..] == [];
    } else {
      assert (xs + [x])[1..] == xs[1..] + [x];
      PutAllSnoc(Put(d, key(xs[0]), value(xs[0])), xs[1..], x, key, value);
    }
  }
}
