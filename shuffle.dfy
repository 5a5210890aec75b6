/**
 * `shuffleCards`: for `i` from the number of pool children down to 0, the
 * child at index `Math.random() * i | 0` is appended to the pool again,
 * which moves it to the last position.
 */
module Shuffle {

  /** A non-negative fraction `num / den`. */
  datatype Fraction = Fraction(num: nat, den: nat)

  /** A value `Math.random()` can return: a number in [0, 1). */
  type Draw = f: Fraction | f.num < f.den witness Fraction(0, 1)

  lemma MulCancel(a: nat, b: nat, c: nat)
    requires a * c < b * c
    ensures a < b
  {
  }

  /** Division with remainder has one answer: `a = q * b + r` with `r < b` gives `a / b == q`. */
  lemma DivUnique(a: nat, b: nat, q: nat, r: nat)
    requires 0 < b && a == q * b + r && r < b
    ensures a / b == q
  {
    var q', r' := a / b, a % b;
    assert a == q' * b + r' && r' < b;
    MulCancel(q, q' + 1, b);
    MulCancel(q', q + 1, b);
  }

  /** `a * b`, as repeated addition. */
  function Times(a: nat, b: nat): nat
    decreases b
  {
    if b == 0 then 0 else Times(a, b - 1) + a
  }

  lemma {:induction false} TimesIsProduct(a: nat, b: nat)
    ensures Times(a, b) == a * b
    decreases b
  {
    if b > 0 {
      TimesIsProduct(a, b - 1);
    }
  }

  /** The integer part of `a / b`, as repeated subtraction. */
  function Quotient(a: nat, b: nat): nat
    requires 0 < b
    decreases a
  {
    if a < b then 0 else Quotient(a - b, b) + 1
  }

  lemma {:induction false} QuotientIsDivision(a: nat, b: nat)
    requires 0 < b
    ensures Quotient(a, b) == a / b
    decreases a
  {
    if a < b {
      DivUnique(a, b, 0, a);
    } else {
      QuotientIsDivision(a - b, b);
      var q, r := (a - b) / b, (a - b) % b;
      assert a - b == q * b + r && r < b;
      DivUnique(a, b, q + 1, r);
    }
  }

  /** Scaling by `i > 0` keeps a strict order. */
  lemma {:induction false} TimesLess(a: nat, b: nat, i: nat)
    requires a < b && 0 < i
    ensures Times(a, i) < Times(b, i)
    decreases i
  {
    if i > 1 {
      TimesLess(a, b, i - 1);
    }
  }

  /** A quotient is below `i` when the dividend is below `i` divisors. */
  lemma {:induction false} QuotientBelow(a: nat, b: nat, i: nat)
    requires 0 < b && a < Times(b, i)
    ensures Quotient(a, b) < i
    decreases a
  {
    if a >= b {
      QuotientBelow(a - b, b, i - 1);
    }
  }

  /** For `num < den`, the integer part of `num * i / den` is below `i`, and 0 when `i` is 0. */
  lemma ScaledBelow(num: nat, den: nat, i: nat)
    requires num < den
    ensures i == 0 ==> Quotient(Times(num, i), den) == 0
    ensures 0 < i ==> Quotient(Times(num, i), den) < i
  {
    if 0 < i {
      TimesLess(num, den, i);
      QuotientBelow(Times(num, i), den, i);
    }
  }

  /**
   * `Math.random() * i | 0`: the product truncated towards zero, computed
   * here by repeated addition and subtraction. The result is a valid child
   * index whenever `i` children are in range, and 0 when `i` is 0.
   */
  function PickIndex(d: Draw, i: nat): (k: nat)
    ensures i == 0 ==> k == 0
    ensures i > 0 ==> k < i
  {
    ScaledBelow(d.num, d.den, i);
    Quotient(Times(d.num, i), d.den)
  }

  /** The index is the floor of `num * i / den`, the truncation of the non-negative product. */
  lemma PickIndexIsFloor(d: Draw, i: nat)
    ensures PickIndex(d, i) == d.num * i / d.den
  {
    TimesIsProduct(d.num, i);
    QuotientIsDivision(d.num * i, d.den);
  }

  /** Every index in [0, i - 1] is produced by some value of `Math.random()`. */
  lemma EveryIndexReachable(i: nat, k: nat)
    requires k < i
    ensures PickIndex(Fraction(k, i), i) == k
  {
    TimesIsProduct(k, i);
    QuotientIsDivision(k * i, i);
    DivUnique(k * i, i, k, 0);
  }

  /**
   * `container.appendChild(container.children[k])`: the child at `k` is
   * detached and becomes the last child; the others close up in order.
   */
  function MoveToEnd<T>(s: seq<T>, k: nat): (r: seq<T>)
    requires k < |s|
    ensures |r| == |s| && r[|s| - 1] == s[k]
    ensures multiset(r) == multiset(s)
  {
    assert s == s[..k] + [s[k]] + s[k + 1..];
    s[..k] + s[k + 1..] + [s[k]]
  }

  /** The children before `k` stay where they are; those after it move up by one. */
  lemma MoveToEndKeepsOrder<T>(s: seq<T>, k: nat)
    requires k < |s|
    ensures forall j :: 0 <= j < k ==> MoveToEnd(s, k)[j] == s[j]
    ensures forall j :: k <= j < |s| - 1 ==> MoveToEnd(s, k)[j] == s[j + 1]
  {
  }

  /**
   * The indices the loop reads: iteration `m` (counting from 0) runs with
   * `i = n - m` on the draw `ds[m]`, so all but the last lie below `i` and
   * the last is 0.
   */
  function Picks(ds: seq<Draw>, n: nat): (ks: seq<nat>)
    requires n < |ds|
    ensures |ks| == n + 1
    ensures forall m :: 0 <= m < n ==> ks[m] < n - m
    ensures ks[n] == 0
  {
    seq(n + 1, m requires 0 <= m <= n => PickIndex(ds[m], n - m))
  }

  /** Iteration `m`, run with `i = n - m`, adds the next index `Picks` lists. */
  lemma PicksNext(ds: seq<Draw>, n: nat, m: nat, i: nat, ks: seq<nat>, k: nat)
    requires n < |ds| && m <= n && i == n - m
    requires ks == Picks(ds, n)[..m] && k == PickIndex(ds[m], i)
    ensures ks + [k] == Picks(ds, n)[..m + 1]
  {
    var p := Picks(ds, n);
    assert p[..m + 1] == p[..m] + [p[m]];
  }

  /** Every index is in range for a container of `n` children. */
  predicate InRange(ks: seq<nat>, n: nat)
  {
    forall j :: 0 <= j < |ks| ==> ks[j] < n
  }

  /** The pool after the loop steps with the indices `ks`, in order. */
  function Moves<T>(s: seq<T>, ks: seq<nat>): (r: seq<T>)
    requires InRange(ks, |s|)
    ensures |r| == |s|
    decreases |ks|
  {
    if ks == [] then s
    else MoveToEnd(Moves(s, ks[..|ks| - 1]), ks[|ks| - 1])
  }

  /** One more step with index `k`. */
  lemma MovesAppend<T>(s: seq<T>, ks: seq<nat>, k: nat)
    requires InRange(ks, |s|) && k < |s|
    ensures InRange(ks + [k], |s|)
    ensures Moves(s, ks + [k]) == MoveToEnd(Moves(s, ks), k)
  {
    assert (ks + [k])[..|ks|] == ks;
  }

  lemma {:induction false} MovesArePermutation<T>(s: seq<T>, ks: seq<nat>)
    requires InRange(ks, |s|)
    ensures multiset(Moves(s, ks)) == multiset(s)
    decreases |ks|
  {
    if ks != [] {
      MovesArePermutation(s, ks[..|ks| - 1]);
    }
  }

  /** The loop's indices fit a non-empty pool at every iteration. */
  lemma PicksInRange(ds: seq<Draw>, n: nat)
    requires 0 < n < |ds|
    ensures InRange(Picks(ds, n), n)
  {
  }

  /** The pool after `shuffleCards`: all `|s| + 1` iterations, `i = |s|` down to 0. */
  function Shuffled<T>(s: seq<T>, ds: seq<Draw>): seq<T>
    requires 0 < |s| < |ds|
  {
    PicksInRange(ds, |s|);
    Moves(s, Picks(ds, |s|))
  }

  /** Once all `|s| + 1` indices of `Picks` are applied, the pool is the shuffled pool. */
  lemma AllPicksShuffle<T>(s: seq<T>, ds: seq<Draw>, ks: seq<nat>)
    requires 0 < |s| < |ds| && |ks| == |s| + 1
    requires ks == Picks(ds, |s|)[..|ks|] && InRange(ks, |s|)
    ensures Moves(s, ks) == Shuffled(s, ds)
  {
    var p := Picks(ds, |s|);
    assert p[..|ks|] == p;
  }

  /** The shuffle rearranges the pool: same cards, same multiplicities, same length. */
  lemma ShuffledIsPermutation<T>(s: seq<T>, ds: seq<Draw>)
    requires 0 < |s| < |ds|
    ensures multiset(Shuffled(s, ds)) == multiset(s)
    ensures |Shuffled(s, ds)| == |s|
  {
    PicksInRange(ds, |s|);
    MovesArePermutation(s, Picks(ds, |s|));
  }

  /** The first `m` iterations read the draws `ds[0]`, ..., `ds[m - 1]` and no others. */
  lemma PicksUsePrefix(ds: seq<Draw>, ds': seq<Draw>, n: nat, m: nat)
    requires n < |ds| && n < |ds'| && m <= n + 1
    requires ds[..m] == ds'[..m]
    ensures Picks(ds, n)[..m] == Picks(ds', n)[..m]
  {
    forall j | 0 <= j < m
      ensures Picks(ds, n)[j] == Picks(ds', n)[j]
    {
      assert ds[j] == ds[..m][j] && ds'[j] == ds'[..m][j];
    }
  }

  /**
   * The loop reads `n + 1` values of `Math.random()`, but the draw read at
   * `i = 0` has no effect: the first `n` values fix every index.
   */
  lemma PicksUseDraws(ds: seq<Draw>, ds': seq<Draw>, n: nat)
    requires n < |ds| && n < |ds'|
    requires ds[..n] == ds'[..n]
    ensures Picks(ds, n) == Picks(ds', n)
  {
    var p, p' := Picks(ds, n), Picks(ds', n);
    PicksUsePrefix(ds, ds', n, n);
    assert p == p[..n] + [p[n]] && p' == p'[..n] + [p'[n]];
  }

  /** Re-appending child 0 rotates the sequence by one. */
  lemma MoveToEndFirst<T>(t: seq<T>)
    requires 0 < |t|
    ensures MoveToEnd(t, 0) == t[1..] + [t[0]]
  {
    assert t[..0] + t[1..] == t[1..];
  }

  /** The last of the steps `ks`, with `m + 1` steps in all. */
  lemma MovesLast<T>(s: seq<T>, ks: seq<nat>, m: nat)
    requires InRange(ks, |s|) && |ks| == m + 1
    ensures InRange(ks[..m], |s|)
    ensures Moves(s, ks) == MoveToEnd(Moves(s, ks[..m]), ks[m])
  {
    assert ks[..|ks| - 1] == ks[..m];
  }

  /** A last step with index 0 moves the first child to the end. */
  lemma MovesLastZero<T>(s: seq<T>, ks: seq<nat>, m: nat)
    requires 0 < |s| && InRange(ks, |s|) && |ks| == m + 1 && ks[m] == 0
    ensures InRange(ks[..m], |s|) &&
      var t := Moves(s, ks[..m]);
      Moves(s, ks) == t[1..] + [t[0]]
  {
    MovesLast(s, ks, m);
    MoveToEndFirst(Moves(s, ks[..m]));
  }

  /** The last iteration (`i = 0`) always moves the first child to the end. */
  lemma LastIterationRotates<T>(s: seq<T>, ds: seq<Draw>)
    requires 0 < |s| < |ds|
    ensures var ks := Picks(ds, |s|);
      InRange(ks[..|s|], |s|) &&
      var t := Moves(s, ks[..|s|]);
      Shuffled(s, ds) == t[1..] + [t[0]]
  {
    PicksInRange(ds, |s|);
    MovesLastZero(s, Picks(ds, |s|), |s|);
  }

  /** Two random sources that agree on the first `|s|` values give the same order. */
  lemma ShuffleUsesDraws<T>(s: seq<T>, ds: seq<Draw>, ds': seq<Draw>)
    requires 0 < |s| < |ds| && |s| < |ds'|
    requires ds[..|s|] == ds'[..|s|]
    ensures Shuffled(s, ds) == Shuffled(s, ds')
  {
    PicksUseDraws(ds, ds', |s|);
  }
}
