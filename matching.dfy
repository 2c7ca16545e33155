/**
 * Index bijections: two sequences holding the same multiset are rearrangements
 * of each other, and rearranging a sequence keeps its multiset.
 */
module Matching {
  /** `sigma` and `tau` are mutually inverse maps on 0 .. n-1. */
  ghost predicate Bijection(sigma: seq<nat>, tau: seq<nat>, n: nat) {
    |sigma| == n && |tau| == n
    && (forall l | 0 <= l < n :: sigma[l] < n && tau[sigma[l]] == l)
    && (forall j | 0 <= j < n :: tau[j] < n && sigma[tau[j]] == j)
  }

  /** Position `i` of a sequence with position `k` removed, as a position of the full sequence. */
  function Up(i: nat, k: nat): nat {
    if i < k then i else i + 1
  }

  /** Position `j != k` of a sequence, as a position once position `k` is removed. */
  function Down(j: nat, k: nat): nat
    requires j != k
  {
    if j < k then j else j - 1
  }

  /** Taking the element at `k` out of `t` takes one copy of it out of the multiset. */
  lemma TakeOut<T>(t: seq<T>, k: nat)
    requires k < |t|
    ensures multiset(t) == multiset(t[..k] + t[k + 1..]) + multiset{t[k]}
  {
    assert t == t[..k] + [t[k]] + t[k + 1..];
  }

  lemma Cancel<T>(a: multiset<T>, b: multiset<T>, x: T)
    requires a + multiset{x} == b + multiset{x}
    ensures a == b
  {
    forall o
      ensures a[o] == b[o]
    {
      assert (a + multiset{x})[o] == (b + multiset{x})[o];
    }
  }

  /** The bijection on n + 1 positions that sends the last position to `k` and otherwise follows the smaller one. */
  lemma Extend(sigma: seq<nat>, tau: seq<nat>, n: nat, k: nat) returns (sigma': seq<nat>, tau': seq<nat>)
    requires Bijection(sigma, tau, n) && k <= n
    ensures Bijection(sigma', tau', n + 1)
    ensures sigma'[n] == k && forall l | 0 <= l < n :: sigma'[l] == Up(sigma[l], k)
  {
    sigma' := seq(n + 1, l requires 0 <= l <= n => if l < n then Up(sigma[l], k) else k);
    tau' := seq(n + 1, j requires 0 <= j <= n => if j == k then n else tau[Down(j, k)]);
    forall l | 0 <= l < n + 1
      ensures sigma'[l] < n + 1 && tau'[sigma'[l]] == l
    {
      if l < n {
        assert Down(Up(sigma[l], k), k) == sigma[l];
      }
    }
    forall j | 0 <= j < n + 1
      ensures tau'[j] < n + 1 && sigma'[tau'[j]] == j
    {
      if j != k {
        assert Up(Down(j, k), k) == j;
      }
    }
  }

  /** Two sequences with the same multiset are matched position to position by a bijection. */
  lemma {:induction false} Match<T>(s: seq<T>, t: seq<T>) returns (sigma: seq<nat>, tau: seq<nat>)
    requires multiset(s) == multiset(t)
    ensures |s| == |t| && Bijection(sigma, tau, |t|)
    ensures forall l | 0 <= l < |t| :: s[sigma[l]] == t[l]
    decreases |t|
  {
    assert |s| == |multiset(s)| == |multiset(t)| == |t|;
    if |t| == 0 {
      sigma, tau := [], [];
    } else {
      var n := |t| - 1;
      var x := t[n];
      assert x in multiset(s);
      var k :| 0 <= k < |s| && s[k] == x;
      var s', t' := s[..k] + s[k + 1..], t[..n];
      TakeOut(s, k);
      assert t == t' + [x];
      assert multiset(t) == multiset(t') + multiset{x};
      Cancel(multiset(s'), multiset(t'), x);
      var sg, ta := Match(s', t');
      sigma, tau := Extend(sg, ta, n, k);
      forall l | 0 <= l < |t|
        ensures s[sigma[l]] == t[l]
      {
        if l < n {
          assert s[Up(sg[l], k)] == s'[sg[l]];
        }
      }
    }
  }

  /** The sequence whose position `l` holds position `sigma[l]` of `y`. */
  function Permute<T>(y: seq<T>, sigma: seq<nat>): (z: seq<T>)
    requires forall l | 0 <= l < |sigma| :: sigma[l] < |y|
    ensures |z| == |sigma| && forall l | 0 <= l < |sigma| :: z[l] == y[sigma[l]]
  {
    seq(|sigma|, l requires 0 <= l < |sigma| => y[sigma[l]])
  }

  /** The bijection on n positions obtained by removing position `k`, which `sigma` sends to the last one. */
  lemma Shrink(sigma: seq<nat>, tau: seq<nat>, n: nat, k: nat) returns (sigma': seq<nat>, tau': seq<nat>)
    requires Bijection(sigma, tau, n + 1) && k <= n && sigma[k] == n
    ensures Bijection(sigma', tau', n)
    ensures sigma' == sigma[..k] + sigma[k + 1..]
  {
    sigma' := sigma[..k] + sigma[k + 1..];
    assert forall l | 0 <= l < n :: sigma'[l] == sigma[Up(l, k)];
    tau' := seq(n, j requires 0 <= j < n => Down(tau[j], k));
    forall l | 0 <= l < n
      ensures sigma'[l] < n && tau'[sigma'[l]] == l
    {
      assert tau[sigma[Up(l, k)]] == Up(l, k);
    }
    forall j | 0 <= j < n
      ensures tau'[j] < n && sigma'[tau'[j]] == j
    {
      assert sigma[tau[j]] == j;
      assert Up(Down(tau[j], k), k) == tau[j];
    }
  }

  /** Rearranging a sequence by a bijection keeps its multiset. */
  lemma {:induction false} PermuteMultiset<T>(y: seq<T>, sigma: seq<nat>, tau: seq<nat>)
    requires Bijection(sigma, tau, |y|)
    ensures multiset(Permute(y, sigma)) == multiset(y)
    decreases |y|
  {
    if |y| > 0 {
      var n := |y| - 1;
      var k := tau[n];
      var sg, ta := Shrink(sigma, tau, n, k);
      var z := Permute(y, sigma);
      var y' := y[..n];
      var z' := Permute(y', sg);
      PermuteMultiset(y', sg, ta);
      assert z' == z[..k] + z[k + 1..];
      assert z == z[..k] + [z[k]] + z[k + 1..];
      assert y == y' + [y[n]];
    }
  }

  /** A map that is one-to-one on `a` and sends `a` into `b` shows that `b` is at least as large as `a`. */
  lemma {:induction false} InjectionCard<T, U>(a: set<T>, b: set<U>, f: T -> U)
    requires forall x | x in a :: f(x) in b
    requires forall x, y | x in a && y in a && f(x) == f(y) :: x == y
    ensures |a| <= |b|
    decreases |a|
  {
    if a != {} {
      var x :| x in a;
      InjectionCard(a - {x}, b - {f(x)}, f);
    }
  }
}
