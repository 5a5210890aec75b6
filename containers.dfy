/**
 * The card containers of the page (the pool and the slots) as sequences of
 * card ids in document order, and what `appendChild` does to them when it
 * moves an element that already has a parent: the element is detached from
 * wherever it was and becomes the last child of the new parent.
 */
module Containers {

  datatype Option<T> = None | Some(value: T)

  /** All containers' children, one container after the other (document order). */
  function Concat<T>(cs: seq<seq<T>>): seq<T>
  {
    if cs == [] then [] else cs[0] + Concat(cs[1..])
  }

  /** Every element occurs exactly once: a DOM node has one parent and one position. */
  predicate Distinct<T(==)>(s: seq<T>)
  {
    forall x | x in multiset(s) :: multiset(s)[x] == 1
  }

  /** `s` with every occurrence of `c` detached, the other elements in their order. */
  function Erase<T(==)>(s: seq<T>, c: T): (r: seq<T>)
    ensures c !in r
    ensures c !in s ==> r == s
  {
    if s == [] then []
    else (if s[0] == c then [] else [s[0]]) + Erase(s[1..], c)
  }

  /** Detaching `c` removes all its copies and no other element. */
  lemma {:induction false} EraseCounts<T>(s: seq<T>, c: T)
    ensures multiset(Erase(s, c)) == multiset(s)[c := 0]
  {
    if s != [] {
      assert s == [s[0]] + s[1..];
      EraseCounts(s[1..], c);
    }
  }

  /** `c` detached from every container. */
  function EraseAll<T(==)>(cs: seq<seq<T>>, c: T): seq<seq<T>>
  {
    seq(|cs|, j requires 0 <= j < |cs| => Erase(cs[j], c))
  }

  /**
   * `target.appendChild(c)`: `c` leaves the container that held it and
   * becomes the last child of container `t`.
   */
  function MoveCard<T(==)>(cs: seq<seq<T>>, c: T, t: nat): (r: seq<seq<T>>)
    requires t < |cs|
    ensures |r| == |cs|
    ensures |r[t]| > 0 && r[t][|r[t]| - 1] == c
    ensures multiset(r[t])[c] == 1
    ensures forall j :: 0 <= j < |r| && j != t ==> c !in r[j]
  {
    var e := EraseAll(cs, c);
    e[t := e[t] + [c]]
  }

  /** Index of the first element of `s` that is in `marked` (what `querySelector` finds). */
  function FirstMarked<T(==)>(s: seq<T>, marked: set<T>): (r: Option<nat>)
    ensures r.Some? ==> r.value < |s| && s[r.value] in marked
    ensures r.Some? ==> forall j :: 0 <= j < r.value ==> s[j] !in marked
    ensures r.None? ==> forall j :: 0 <= j < |s| ==> s[j] !in marked
  {
    if s == [] then None
    else if s[0] in marked then Some(0)
    else
      match FirstMarked(s[1..], marked)
      case None => None
      case Some(k) => Some(k + 1)
  }

  /** Replacing the first container by a rearrangement of it keeps the board's cards. */
  lemma ReplaceFirst<T>(cs: seq<seq<T>>, p: seq<T>)
    requires cs != [] && multiset(p) == multiset(cs[0])
    ensures multiset(Concat(cs[0 := p])) == multiset(Concat(cs))
    ensures Distinct(Concat(cs)) ==> Distinct(Concat(cs[0 := p]))
  {
    var u := cs[0 := p];
    assert u[1..] == cs[1..];
    ConcatCons(u);
    ConcatCons(cs);
  }

  lemma {:induction false} ConcatCons<T>(cs: seq<seq<T>>)
    requires cs != []
    ensures multiset(Concat(cs)) == multiset(cs[0]) + multiset(Concat(cs[1..]))
  {
  }

  /** Detaching `c` everywhere removes all its copies and nothing else. */
  lemma {:induction false} ConcatEraseAll<T>(cs: seq<seq<T>>, c: T)
    ensures multiset(Concat(EraseAll(cs, c))) == multiset(Concat(cs))[c := 0]
  {
    if cs != [] {
      var e := EraseAll(cs, c);
      assert e[1..] == EraseAll(cs[1..], c);
      ConcatEraseAll(cs[1..], c);
      EraseCounts(cs[0], c);
      ConcatCons(e);
      ConcatCons(cs);
    }
  }

  /** Appending one child to one container adds exactly that child to the whole board. */
  lemma {:induction false} ConcatAppendAt<T>(cs: seq<seq<T>>, t: nat, c: T)
    requires t < |cs|
    ensures multiset(Concat(cs[t := cs[t] + [c]])) == multiset(Concat(cs)) + multiset{c}
  {
    var u := cs[t := cs[t] + [c]];
    ConcatCons(u);
    ConcatCons(cs);
    if t == 0 {
      assert u[1..] == cs[1..];
    } else {
      assert u[1..] == cs[1..][t - 1 := cs[t] + [c]];
      ConcatAppendAt(cs[1..], t - 1, c);
    }
  }

  /** After a move the moved card occurs exactly once on the board; every other card as often as before. */
  lemma MoveCardCards<T>(cs: seq<seq<T>>, c: T, t: nat)
    requires t < |cs|
    ensures multiset(Concat(MoveCard(cs, c, t))) == multiset(Concat(cs))[c := 1]
  {
    ConcatEraseAll(cs, c);
    ConcatAppendAt(EraseAll(cs, c), t, c);
  }

  /**
   * Moving a card that is on a board where every card is in exactly one place
   * keeps the same cards on the board, each still in exactly one place.
   */
  lemma MoveCardPreservesCards<T>(cs: seq<seq<T>>, c: T, t: nat)
    requires t < |cs| && Distinct(Concat(cs)) && c in Concat(cs)
    ensures multiset(Concat(MoveCard(cs, c, t))) == multiset(Concat(cs))
    ensures Distinct(Concat(MoveCard(cs, c, t)))
  {
    MoveCardCards(cs, c, t);
    assert c in multiset(Concat(cs));
  }

  lemma EraseCons<T>(x: T, s: seq<T>, c: T)
    ensures Erase([x] + s, c) == (if x == c then [] else [x]) + Erase(s, c)
  {
    assert ([x] + s)[0] == x && ([x] + s)[1..] == s;
  }

  /** Detaching distributes over concatenation. */
  lemma {:induction false} EraseAppend<T>(a: seq<T>, b: seq<T>, c: T)
    ensures Erase(a + b, c) == Erase(a, c) + Erase(b, c)
  {
    if a == [] {
      assert a + b == b;
    } else {
      assert (a + b)[0] == a[0] && (a + b)[1..] == a[1..] + b;
      EraseAppend(a[1..], b, c);
      AppendAssoc(if a[0] == c then [] else [a[0]], Erase(a[1..], c), Erase(b, c));
    }
  }

  lemma AppendAssoc<T>(x: seq<T>, y: seq<T>, z: seq<T>)
    ensures x + (y + z) == (x + y) + z
  {
  }

  /** Container `j` after a move: `c` detached, and appended when `j` is the target. */
  lemma MoveCardAt<T>(cs: seq<seq<T>>, c: T, t: nat, j: nat)
    requires t < |cs| && j < |cs|
    ensures MoveCard(cs, c, t)[j] == if j == t then Erase(cs[j], c) + [c] else Erase(cs[j], c)
  {
  }

  /** Detaching `c` from a container that ends with its only copy gives back the rest. */
  lemma EraseAppendCard<T>(a: seq<T>, c: T)
    requires c !in a
    ensures Erase(a + [c], c) == a
  {
    EraseAppend(a, [c], c);
    EraseCons(c, [], c);
    assert [c] == [c] + [];
  }

  /** Detaching the only copy of `c` closes up the two sides around it. */
  lemma EraseSingle<T>(before: seq<T>, c: T, after: seq<T>)
    requires c !in before && c !in after
    ensures Erase(before + [c] + after, c) == before + after
  {
    EraseAppend(before + [c], after, c);
    EraseAppendCard(before, c);
  }

  /** A drop leaves every other card in the container it was in, in the same order. */
  lemma MoveKeepsOthers<T>(cs: seq<seq<T>>, c: T, t: nat)
    requires t < |cs|
    ensures EraseAll(MoveCard(cs, c, t), c) == EraseAll(cs, c)
  {
    var r := MoveCard(cs, c, t);
    var lhs, rhs := EraseAll(r, c), EraseAll(cs, c);
    assert |lhs| == |rhs|;
    forall j | 0 <= j < |cs|
      ensures lhs[j] == rhs[j]
    {
      MoveCardAt(cs, c, t, j);
      if j == t {
        EraseAppendCard(Erase(cs[t], c), c);
      }
    }
  }

  /** On a board where every card occurs once, a child occurs neither before nor after its own position. */
  lemma OnceInContainer<T>(cs: seq<seq<T>>, t: nat, k: nat)
    requires Distinct(Concat(cs)) && t < |cs| && k < |cs[t]|
    ensures cs[t][k] !in cs[t][..k] && cs[t][k] !in cs[t][k + 1..]
  {
    var s, c := cs[t], cs[t][k];
    assert s == s[..k] + [c] + s[k + 1..];
    assert multiset(s) == multiset(s[..k]) + multiset{c} + multiset(s[k + 1..]);
    ConcatContains(cs, t);
    assert c in multiset(Concat(cs));
    assert multiset(s)[c] <= 1;
  }

  /** The first container and another one together hold no more copies of `x` than the whole board. */
  lemma ConcatCountsHead<T>(cs: seq<seq<T>>, j: nat, x: T)
    requires 0 < j < |cs|
    ensures multiset(cs[0])[x] + multiset(cs[j])[x] <= multiset(Concat(cs))[x]
  {
    ConcatCons(cs);
    ConcatContains(cs[1..], j - 1);
  }

  /** What holds for two containers after the first holds for them on the whole board. */
  lemma ConcatCountsStep<T>(cs: seq<seq<T>>, i: nat, j: nat, x: T)
    requires 0 < i < j < |cs|
    requires multiset(cs[1..][i - 1])[x] + multiset(cs[1..][j - 1])[x] <= multiset(Concat(cs[1..]))[x]
    ensures multiset(cs[i])[x] + multiset(cs[j])[x] <= multiset(Concat(cs))[x]
  {
    assert cs[1..][i - 1] == cs[i] && cs[1..][j - 1] == cs[j];
    ConcatCons(cs);
  }

  /** Two different containers together hold no more copies of `x` than the whole board. */
  lemma {:induction false} ConcatCountsPair<T>(cs: seq<seq<T>>, i: nat, j: nat, x: T)
    requires i < j < |cs|
    ensures multiset(cs[i])[x] + multiset(cs[j])[x] <= multiset(Concat(cs))[x]
    decreases i
  {
    if i == 0 {
      ConcatCountsHead(cs, j, x);
    } else {
      ConcatCountsPair(cs[1..], i - 1, j - 1, x);
      ConcatCountsStep(cs, i, j, x);
    }
  }

  lemma {:induction false} ConcatContains<T>(cs: seq<seq<T>>, j: nat)
    requires j < |cs|
    ensures multiset(cs[j]) <= multiset(Concat(cs))
  {
    ConcatCons(cs);
    if j > 0 {
      ConcatContains(cs[1..], j - 1);
    }
  }

  /** On a board where every card occurs once, a card in one container is in no other. */
  lemma UniqueContainer<T>(cs: seq<seq<T>>, c: T, i: nat, j: nat)
    requires Distinct(Concat(cs))
    requires i < |cs| && j < |cs| && i != j && c in cs[i]
    ensures c !in cs[j]
  {
    if i < j {
      ConcatCountsPair(cs, i, j, c);
    } else {
      ConcatCountsPair(cs, j, i, c);
    }
    var m := multiset(Concat(cs));
    assert multiset(cs[i])[c] >= 1;
    assert c in m && m[c] == 1;
    assert multiset(cs[j])[c] == 0;
  }
}
