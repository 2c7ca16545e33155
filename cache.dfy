/**
 * The memo cache of the `cache` decorator: a dictionary from a grid's key to
 * the count the search returned for it, written once per key, on a miss.
 */
module Cache {
  import opened Wrappers
  import opened Grid
  import opened Encoding
  import opened Scan
  import opened Counting

  /**
   * Entry `k` holding `v` is justified by grid `b`: the search can reach `b`,
   * `b` has key `k`, and `v` is the number of accepted fillings of `b`.
   */
  ghost predicate Justified(k: Key, v: nat, b: Board) {
    ScanShaped(b) && Encode(b) == k && v == |Solutions(b)|
  }

  /** Every entry of `t` is justified by the grid `o` records for it. */
  ghost predicate AllJustified(t: map<Key, nat>, o: map<Key, Board>) {
    t.Keys == o.Keys && forall k | k in o :: Justified(k, t[k], o[k])
  }

  /** Adding a justified entry keeps every entry justified. */
  lemma StoreJustified(t: map<Key, nat>, o: map<Key, Board>, e: Key, v: nat, b: Board)
    requires AllJustified(t, o) && Justified(e, v, b)
    ensures AllJustified(t[e := v], o[e := b])
  {
    var t', o' := t[e := v], o[e := b];
    assert t'.Keys == t.Keys + {e} && o'.Keys == o.Keys + {e};
    forall k | k in o'
      ensures Justified(k, t'[k], o'[k])
    {
      if k != e {
        assert t'[k] == t[k] && o'[k] == o[k];
      }
    }
  }

  /** Every entry of `t0` is still in `t1` with the same value. */
  ghost predicate Keeps(t0: map<Key, nat>, t1: map<Key, nat>) {
    forall k | k in t0 :: k in t1 && t1[k] == t0[k]
  }

  /** Every key `t1` adds to `t0` records fewer than `w` symbols still to place. */
  ghost predicate AddsBelow(t0: map<Key, nat>, t1: map<Key, nat>, w: int) {
    forall k | k in t1 && k !in t0 :: Weight(k) < w
  }

  /**
   * A key of weight `w` that was not there before the search below its grid
   * is not there after it either, and storing it keeps both properties.
   */
  lemma StoreFresh(t0: map<Key, nat>, t1: map<Key, nat>, e: Key, v: nat, w: int)
    requires Keeps(t0, t1) && AddsBelow(t0, t1, w)
    requires e !in t0 && Weight(e) == w
    ensures e !in t1
    ensures Keeps(t0, t1[e := v]) && AddsBelow(t0, t1[e := v], w + 1)
  {
  }

  class MemoCache {
    /** The dictionary `d` the decorator closes over. */
    var table: map<Key, nat>
    /** For each key, a grid the search stored it for. */
    ghost var origin: map<Key, Board>

    /** Every key was stored for a reachable grid with that key, and its value is that grid's count. */
    ghost predicate Valid()
      reads this
    {
      AllJustified(table, origin)
    }

    /** Decorating `bt` creates an empty dictionary. */
    constructor()
      ensures Valid() && table == map[]
    {
      table := map[];
      origin := map[];
    }

    /** Looks `e` up; None stands for the KeyError of a miss. */
    method Lookup(e: Key) returns (r: Option<nat>)
      ensures r.Some? <==> e in table
      ensures r.Some? ==> r.value == table[e]
    {
      if e in table {
        r := Some(table[e]);
      } else {
        r := None;
      }
    }

    /** Records the count computed on a miss; the key is new, so nothing is overwritten. */
    method Store(e: Key, v: nat, ghost b: Board)
      requires Valid() && e !in table
      requires Justified(e, v, b)
      modifies this
      ensures Valid()
      ensures table == old(table)[e := v]
    {
      StoreJustified(table, origin, e, v, b);
      table := table[e := v];
      origin := origin[e := b];
    }
  }
}
