/** Plain JavaScript objects as ordered lists of own properties, with the two operations the
    metadata route performs on them: reading a property and building an object literal with a
    spread, `{ a, ...m, b }`. */
module JsObjects {
  import opened JsValues

  /** The keys of a property list, in order. */
  function Keys(ps: seq<Prop>): (ks: seq<string>)
    ensures |ks| == |ps|
    ensures forall i :: 0 <= i < |ps| ==> ks[i] == ps[i].key
    decreases |ps|
  {
    if ps == [] then [] else [ps[0].key] + Keys(ps[1..])
  }

  /** No key occurs twice, as in every object JavaScript builds. */
  predicate DistinctKeys(ps: seq<Prop>)
  {
    forall i, j :: 0 <= i < j < |ps| ==> ps[i].key != ps[j].key
  }

  /** `o[k]` for an own property list: the value under `k`, or `undefined`. */
  function Get(ps: seq<Prop>, k: string): (v: JsValue)
    ensures k !in Keys(ps) ==> v == Undefined
    decreases |ps|
  {
    if ps == [] then Undefined
    else if ps[0].key == k then ps[0].value
    else Get(ps[1..], k)
  }

  /** Defining property `k` as `v` on an object: an existing property keeps its place and takes
      the new value, a new one goes last. */
  function Put(ps: seq<Prop>, k: string, v: JsValue): (r: seq<Prop>)
    ensures k in Keys(ps) ==> Keys(r) == Keys(ps)
    ensures k !in Keys(ps) ==> Keys(r) == Keys(ps) + [k]
    decreases |ps|
  {
    if ps == [] then [Prop(k, v)]
    else if ps[0].key == k then [Prop(k, v)] + ps[1..]
    else
      var tail := Put(ps[1..], k, v);
      assert ([ps[0]] + tail)[1..] == tail;
      [ps[0]] + tail
  }

  /** The spread `{...base, ...src}`: every property of `src`, in order, defined on `base`. */
  function Spread(base: seq<Prop>, src: seq<Prop>): seq<Prop>
    decreases |src|
  {
    if src == [] then base else Spread(Put(base, src[0].key, src[0].value), src[1..])
  }

  lemma {:induction false} GetPut(ps: seq<Prop>, k: string, v: JsValue, k': string)
    requires DistinctKeys(ps)
    ensures Get(Put(ps, k, v), k') == if k' == k then v else Get(ps, k')
    decreases |ps|
  {
    if ps != [] && ps[0].key != k {
      GetPut(ps[1..], k, v, k');
    }
  }

  /** In a list with distinct keys, each entry's key reads back its value. */
  lemma {:induction false} GetAt(ps: seq<Prop>, i: nat)
    requires DistinctKeys(ps) && i < |ps|
    ensures Get(ps, ps[i].key) == ps[i].value
    decreases i
  {
    if i > 0 {
      assert ps[0].key != ps[i].key;
      assert ps[1..][i - 1] == ps[i];
      GetAt(ps[1..], i - 1);
    }
  }

  /** Whatever the list, the property just defined reads back as its new value. */
  lemma {:induction false} GetPutSame(ps: seq<Prop>, k: string, v: JsValue)
    ensures Get(Put(ps, k, v), k) == v
    decreases |ps|
  {
    if ps != [] && ps[0].key != k {
      GetPutSame(ps[1..], k, v);
    }
  }

  lemma {:induction false} PutKeepsDistinct(ps: seq<Prop>, k: string, v: JsValue)
    requires DistinctKeys(ps)
    ensures DistinctKeys(Put(ps, k, v))
  {
    var r := Put(ps, k, v);
    var ks := Keys(r);
    if k in Keys(ps) {
      assert Keys(r) == Keys(ps);
    } else {
      assert Keys(r) == Keys(ps) + [k];
      forall i, j | 0 <= i < j < |r| ensures r[i].key != r[j].key {
        assert ks[i] == r[i].key && ks[j] == r[j].key;
        if j == |ps| {
          assert ks[i] == Keys(ps)[i];
        } else {
          assert ks[i] == ps[i].key && ks[j] == ps[j].key;
        }
      }
    }
  }

  lemma {:induction false} SpreadKeepsDistinct(base: seq<Prop>, src: seq<Prop>)
    requires DistinctKeys(base)
    ensures DistinctKeys(Spread(base, src))
    decreases |src|
  {
    if src != [] {
      PutKeepsDistinct(base, src[0].key, src[0].value);
      SpreadKeepsDistinct(Put(base, src[0].key, src[0].value), src[1..]);
    }
  }

  /** After `{...base, ...src}`, a key of `src` has `src`'s value and every other key keeps its
      value from `base`. */
  lemma {:induction false} GetSpread(base: seq<Prop>, src: seq<Prop>, k: string)
    requires DistinctKeys(base) && DistinctKeys(src)
    ensures Get(Spread(base, src), k) == if k in Keys(src) then Get(src, k) else Get(base, k)
    decreases |src|
  {
    if src != [] {
      var b' := Put(base, src[0].key, src[0].value);
      PutKeepsDistinct(base, src[0].key, src[0].value);
      GetPut(base, src[0].key, src[0].value, k);
      GetSpread(b', src[1..], k);
      assert Keys(src) == [src[0].key] + Keys(src[1..]);
      if k == src[0].key {
        assert k !in Keys(src[1..]) by {
          forall i | 0 <= i < |src[1..]| ensures Keys(src[1..])[i] != k {
            assert src[1..][i] == src[i + 1];
          }
        }
      }
    }
  }

  /** A spread never moves a key of `base`: the keys of `{...base, ...src}` start with those of
      `base`, in their order, and the rest come from `src`. */
  lemma {:induction false} SpreadKeys(base: seq<Prop>, src: seq<Prop>)
    ensures Keys(base) <= Keys(Spread(base, src))
    ensures forall k :: k in Keys(Spread(base, src)) <==> k in Keys(base) || k in Keys(src)
    decreases |src|
  {
    if src != [] {
      var b' := Put(base, src[0].key, src[0].value);
      SpreadKeys(b', src[1..]);
      assert Keys(src) == [src[0].key] + Keys(src[1..]);
    }
  }
}
