/**
 * Ruby values, keys and insertion-ordered hashes, as the attribute pipeline
 * sees them.
 *
 * A Ruby `Hash` is modelled as a sequence of key/value pairs in insertion
 * order. Ruby never holds two pairs with the same key (`Distinct`); `Store`
 * is `merge(key => value)` (replace in place, or append), and `ToH` is
 * `Array#to_h`, a left fold of `Store` over the pairs, so a later pair's
 * value wins while the key keeps the position of its first occurrence.
 */
module Hashes {

  datatype Option<+T> = None | Some(value: T) {
    /** The wrapped value, or `default` when there is none. */
    function GetOr(default: T): T {
      if Some? then value else default
    }
  }

  /** A hash key: a String or a Symbol (only these answer `to_sym`). */
  datatype Key = StrKey(text: string) | SymKey(text: string)

  /** `key.to_sym`: a String becomes the Symbol with the same text. */
  function ToSym(k: Key): (s: Key)
    ensures s.SymKey? && s.text == k.text
    ensures k.SymKey? ==> s == k
  {
    SymKey(k.text)
  }

  /** The Ruby objects the pipeline moves around. */
  datatype Value = Nil | Bool(b: bool) | Int(i: int) | Str(s: string) | Sym(s: string)

  /** Ruby truthiness: every object except `nil` and `false`. */
  predicate Truthy(v: Value) {
    v != Nil && v != Bool(false)
  }

  type Hash<V> = seq<(Key, V)>

  /** `hash.keys`, in insertion order. */
  function Keys<V>(h: Hash<V>): (ks: seq<Key>)
    ensures |ks| == |h|
  {
    if h == [] then [] else [h[0].0] + Keys(h[1..])
  }

  lemma {:induction false} KeysAt<V>(h: Hash<V>, i: nat)
    requires i < |h|
    ensures Keys(h)[i] == h[i].0
  {
    if i > 0 {
      assert h[1..][i - 1] == h[i];
      KeysAt(h[1..], i - 1);
    }
  }

  lemma {:induction false} KeysAppend<V>(a: Hash<V>, b: Hash<V>)
    ensures Keys(a + b) == Keys(a) + Keys(b)
  {
    if a == [] {
      assert a + b == b;
    } else {
      assert (a + b)[1..] == a[1..] + b;
      KeysAppend(a[1..], b);
    }
  }

  /** `hash.keys.include?(k)` */
  predicate HasKey<V>(h: Hash<V>, k: Key) {
    k in Keys(h)
  }

  lemma HasKeyAt<V>(h: Hash<V>, k: Key)
    ensures HasKey(h, k) <==> exists i :: 0 <= i < |h| && h[i].0 == k
  {
    if HasKey(h, k) {
      var i :| 0 <= i < |h| && Keys(h)[i] == k;
      KeysAt(h, i);
    }
    if i :| 0 <= i < |h| && h[i].0 == k {
      KeysAt(h, i);
    }
  }

  lemma HasKeyBack<V>(h: Hash<V>, k: Key)
    requires h != []
    ensures HasKey(h, k) <==> HasKey(h[..|h| - 1], k) || h[|h| - 1].0 == k
  {
    assert h == h[..|h| - 1] + [h[|h| - 1]];
    KeysAppend(h[..|h| - 1], [h[|h| - 1]]);
  }

  /** No element occurs twice. */
  predicate NoDups<T(==)>(s: seq<T>) {
    forall i, j :: 0 <= i < j < |s| ==> s[i] != s[j]
  }

  /** Every key occurs once: what every Ruby Hash satisfies. */
  predicate Distinct<V>(h: Hash<V>) {
    NoDups(Keys(h))
  }

  /** `hash[k]` as an option: the value stored under `k`, if any. */
  function Lookup<V>(h: Hash<V>, k: Key): (r: Option<V>)
    ensures r.None? <==> !HasKey(h, k)
  {
    if h == [] then None
    else if h[0].0 == k then Some(h[0].1)
    else Lookup(h[1..], k)
  }

  /** In a hash without repeated keys, the pair at `i` is the one found for its key. */
  lemma {:induction false} LookupAt<V>(h: Hash<V>, i: nat)
    requires Distinct(h) && i < |h|
    ensures Lookup(h, h[i].0) == Some(h[i].1)
  {
    if i > 0 {
      KeysAt(h, 0);
      KeysAt(h, i);
      assert Keys(h)[1..] == Keys(h[1..]);
      assert h[1..][i - 1] == h[i];
      LookupAt(h[1..], i - 1);
    }
  }

  /** `hash[k]`: the stored value, or nil when `k` is absent. */
  function Get(h: Hash<Value>, k: Key): (v: Value)
    ensures HasKey(h, k) ==> Lookup(h, k) == Some(v)
    ensures !HasKey(h, k) ==> v == Nil
  {
    Lookup(h, k).GetOr(Nil)
  }

  /** `hash.fetch(k) { default }` */
  function Fetch<V>(h: Hash<V>, k: Key, default: V): (v: V)
    ensures HasKey(h, k) ==> Lookup(h, k) == Some(v)
    ensures !HasKey(h, k) ==> v == default
  {
    Lookup(h, k).GetOr(default)
  }

  /**
   * `hash.merge(k => v)`: a new hash in which `k` maps to `v`. An existing
   * key keeps its position; a new key goes to the end.
   */
  function Store<V>(h: Hash<V>, k: Key, v: V): (r: Hash<V>)
    ensures Keys(r) == if HasKey(h, k) then Keys(h) else Keys(h) + [k]
    ensures Lookup(r, k) == Some(v)
    ensures forall j :: j != k ==> Lookup(r, j) == Lookup(h, j)
  {
    if h == [] then [(k, v)]
    else if h[0].0 == k then [(k, v)] + h[1..]
    else [h[0]] + Store(h[1..], k, v)
  }

  /** Storing a new key appends exactly one pair. */
  lemma {:induction false} StoreAppends<V>(h: Hash<V>, k: Key, v: V)
    requires !HasKey(h, k)
    ensures Store(h, k, v) == h + [(k, v)]
  {
    if h != [] {
      StoreAppends(h[1..], k, v);
      assert [h[0]] + (h[1..] + [(k, v)]) == h + [(k, v)];
    }
  }

  /** Storing under `k` leaves every pair with another key where it was. */
  lemma {:induction false} StoreKeepsOthers<V>(h: Hash<V>, k: Key, v: V, i: nat)
    requires i < |h| && h[i].0 != k
    ensures i < |Store(h, k, v)| && Store(h, k, v)[i] == h[i]
  {
    if i > 0 && h[0].0 != k {
      assert h[1..][i - 1] == h[i];
      StoreKeepsOthers(h[1..], k, v, i - 1);
    }
  }

  /** Every pair after storing is either the stored one or the pair that was there. */
  lemma {:induction false} StoreAt<V>(h: Hash<V>, k: Key, v: V, i: nat)
    requires i < |Store(h, k, v)|
    ensures Store(h, k, v)[i] == (k, v) || (i < |h| && Store(h, k, v)[i] == h[i])
  {
    if i > 0 && h != [] && h[0].0 != k {
      assert Store(h, k, v)[i] == Store(h[1..], k, v)[i - 1];
      StoreAt(h[1..], k, v, i - 1);
    }
  }

  /** Storing under a key that is already present replaces its pair in place. */
  lemma {:induction false} StoreReplacesAt<V>(h: Hash<V>, k: Key, v: V, i: nat)
    requires i < |h| && h[i].0 == k
    requires forall j :: 0 <= j < i ==> h[j].0 != k
    ensures i < |Store(h, k, v)| && Store(h, k, v)[i] == (k, v)
  {
    if i > 0 {
      assert h[1..][i - 1] == h[i];
      StoreReplacesAt(h[1..], k, v, i - 1);
    }
  }

  /** Storing keeps a hash free of repeated keys. */
  lemma StoreDistinct<V>(h: Hash<V>, k: Key, v: V)
    requires Distinct(h)
    ensures Distinct(Store(h, k, v))
  {
    if !HasKey(h, k) {
      var ks := Keys(h) + [k];
      forall i, j | 0 <= i < j < |ks| ensures ks[i] != ks[j] {
        if j < |h| {
          assert ks[i] == Keys(h)[i] && ks[j] == Keys(h)[j];
        }
      }
    }
  }

  /** The value of the LAST pair whose key is `k`, if any. */
  function LookupLast<V>(ps: seq<(Key, V)>, k: Key): (r: Option<V>)
    ensures r.None? <==> !HasKey(ps, k)
  {
    if ps == [] then None
    else
      HasKeyBack(ps, k);
      if ps[|ps| - 1].0 == k then Some(ps[|ps| - 1].1)
      else LookupLast(ps[..|ps| - 1], k)
  }

  /** The pair at `i` is the last one with its key, so its value is the one found. */
  lemma {:induction false} LookupLastAt<V>(ps: seq<(Key, V)>, i: nat)
    requires i < |ps|
    requires forall j :: i < j < |ps| ==> ps[j].0 != ps[i].0
    ensures LookupLast(ps, ps[i].0) == Some(ps[i].1)
  {
    if i < |ps| - 1 {
      var init := ps[..|ps| - 1];
      assert init[i] == ps[i];
      LookupLastAt(init, i);
    }
  }

  /** Whatever `LookupLast` finds was stored by some pair with that key. */
  lemma {:induction false} LookupLastFrom<V>(ps: seq<(Key, V)>, k: Key)
    requires LookupLast(ps, k).Some?
    ensures exists i :: 0 <= i < |ps| && ps[i].0 == k && ps[i].1 == LookupLast(ps, k).value
  {
    var n := |ps| - 1;
    if ps[n].0 != k {
      var init := ps[..n];
      LookupLastFrom(init, k);
      var i :| 0 <= i < |init| && init[i].0 == k && init[i].1 == LookupLast(init, k).value;
      assert ps[i] == init[i];
    }
  }

  /**
   * `pairs.to_h`: pairs are merged in order into an empty hash, so the result
   * has one pair per key and, for each key, the value of its last pair.
   */
  function ToH<V>(ps: seq<(Key, V)>): (h: Hash<V>)
    ensures Distinct(h)
    ensures forall k :: HasKey(h, k) <==> HasKey(ps, k)
    ensures forall k :: Lookup(h, k) == LookupLast(ps, k)
  {
    if ps == [] then []
    else
      var init := ps[..|ps| - 1];
      var prev := ToH(init);
      var h := Store(prev, ps[|ps| - 1].0, ps[|ps| - 1].1);
      StoreDistinct(prev, ps[|ps| - 1].0, ps[|ps| - 1].1);
      forall k ensures HasKey(h, k) <==> HasKey(ps, k) {
        HasKeyBack(ps, k);
      }
      h
  }

  /** Converting pairs whose keys are already distinct changes nothing. */
  lemma {:induction false} ToHDistinct<V>(ps: seq<(Key, V)>)
    requires Distinct(ps)
    ensures ToH(ps) == ps
  {
    if ps != [] {
      var n := |ps| - 1;
      var init := ps[..n];
      var last := ps[n];
      assert ps == init + [last];
      KeysAppend(init, [last]);
      assert Keys(init) == Keys(ps)[..n];
      assert Distinct(init);
      ToHDistinct(init);
      assert !HasKey(init, last.0) by {
        assert Keys(ps)[n] == last.0;
        assert forall i :: 0 <= i < n ==> Keys(init)[i] == Keys(ps)[i];
      }
      StoreAppends(init, last.0, last.1);
    }
  }
}
