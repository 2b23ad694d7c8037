/** `Pair<K, V>`: two mutable fields, their accessors, and two ways to build the swapped pair. */
module Pair {

  class Pair<K, V> {
    var k: K
    var v: V

    /** `new Pair(k, v)`: `getK()` is `k` and `getV()` is `v`. */
    constructor (k: K, v: V)
      ensures GetK() == k && GetV() == v
    {
      this.k := k;
      this.v := v;
    }

    function GetK(): K
      reads this
    {
      k
    }

    function GetV(): V
      reads this
    {
      v
    }

    /** `setK(k)`: the first field becomes `k`, the second is untouched. */
    method SetK(k: K)
      modifies this
      ensures GetK() == k && GetV() == old(GetV())
    {
      this.k := k;
    }

    /** `setV(v)`: the second field becomes `v`, the first is untouched. */
    method SetV(v: V)
      modifies this
      ensures GetV() == v && GetK() == old(GetK())
    {
      this.v := v;
    }

    /** `getSwapped()`: a new pair `(v, k)`; the receiver is not changed. */
    method GetSwapped() returns (r: Pair<V, K>)
      ensures fresh(r) && r.GetK() == GetV() && r.GetV() == GetK()
    {
      r := new Pair(v, k);
    }

    /** `Pair.swap(pair)`: a new pair holding `pair`'s fields in the other order. */
    static method Swap(pair: Pair<K, V>) returns (r: Pair<V, K>)
      ensures fresh(r) && r.GetK() == pair.GetV() && r.GetV() == pair.GetK()
    {
      r := new Pair(pair.GetV(), pair.GetK());
    }
  }

  /** `swap(p)` and `p.getSwapped()` build pairs with the same fields. */
  method SwapMatchesGetSwapped<K, V>(p: Pair<K, V>) returns (viaSwap: Pair<V, K>, viaGetSwapped: Pair<V, K>)
    ensures viaSwap.GetK() == viaGetSwapped.GetK() && viaSwap.GetV() == viaGetSwapped.GetV()
    ensures viaSwap.GetK() == p.GetV() && viaSwap.GetV() == p.GetK()
  {
    viaSwap := Pair.Swap(p);
    viaGetSwapped := p.GetSwapped();
  }

  /** `swap(swap(p))` holds the fields of `p`: swapping is an involution. */
  method SwapTwice<K, V>(p: Pair<K, V>) returns (q: Pair<K, V>)
    ensures q.GetK() == p.GetK() && q.GetV() == p.GetV()
  {
    var once := Pair.Swap(p);
    q := Pair.Swap(once);
  }
}
