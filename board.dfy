/**
 * The page's drag-and-drop board and its event handlers. The DOM is
 * abstracted to the pool container (`.mixed-cards`) and the slots
 * (`.card-slot`), each an ordered sequence of card ids, the per-slot classes
 * `active-zone` and `over-zone`, and the per-card classes `dragged` and
 * `drag-feedback`. Document order is the pool followed by the slots.
 */
module Metamorphosis {
  import opened Containers
  import opened Shuffle

  type CardId = nat

  /**
   * `e.relatedTarget` of a `dragleave` event: null, or an element whose
   * enclosing drop zone is (or is not) the zone being left.
   */
  datatype RelatedTarget = NullTarget | Element(inThisZone: bool)

  /** The condition under which `dropZoneLeaveHandler` removes `over-zone`. */
  predicate LeaveClearsOver(marked: bool, related: RelatedTarget)
  {
    marked && related.Element? && !related.inThisZone
  }

  class Board {
    var pool: seq<CardId>
    var slots: seq<seq<CardId>>
    var active: seq<bool>
    var over: seq<bool>
    var dragged: set<CardId>
    var feedback: set<CardId>

    /** The containers in document order: the pool, then each slot. */
    function Zones(): seq<seq<CardId>>
      reads this
    {
      [pool] + slots
    }

    /** Every card on the board, in document order. */
    function Cards(): seq<CardId>
      reads this
    {
      Concat(Zones())
    }

    /** One flag pair per slot, and every card in exactly one place. */
    ghost predicate Valid()
      reads this
    {
      |active| == |slots| && |over| == |slots| && Distinct(Cards())
    }

    predicate NoZoneHighlighted()
      reads this
    {
      (forall j :: 0 <= j < |active| ==> !active[j]) &&
      (forall j :: 0 <= j < |over| ==> !over[j])
    }

    /**
     * The page as loaded: the cards of the pool and of each slot, every card
     * in exactly one place, and no class set.
     */
    constructor (cards: seq<CardId>, slotCards: seq<seq<CardId>>)
      requires Distinct(Concat([cards] + slotCards))
      ensures Valid() && NoZoneHighlighted()
      ensures pool == cards && slots == slotCards
      ensures dragged == {} && feedback == {}
    {
      pool := cards;
      slots := slotCards;
      active := seq(|slotCards|, _ => false);
      over := seq(|slotCards|, _ => false);
      dragged := {};
      feedback := {};
    }

    /**
     * `shuffleCards`: `draws` are the successive values of `Math.random()`.
     * The loop runs `|pool| + 1` iterations. On an empty pool the one
     * iteration finds no child 0 and `appendChild` throws: `ok` is false and
     * nothing changes.
     */
    method ShuffleCards(draws: seq<Draw>) returns (ok: bool, ghost steps: nat)
      requires Valid() && |pool| < |draws|
      modifies this`pool
      ensures Valid()
      ensures ok <==> |old(pool)| > 0
      ensures ok ==> pool == Shuffled(old(pool), draws) && steps == |old(pool)| + 1
      ensures !ok ==> pool == old(pool) && steps == 0
      ensures multiset(pool) == multiset(old(pool)) && |pool| == |old(pool)|
    {
      var n := |pool|;
      if n == 0 {
        return false, 0;
      }
      ghost var start := pool;
      ghost var ks: seq<nat> := [];
      var i: int := n;
      while i >= 0
        invariant -1 <= i <= n && |ks| == n - i
        invariant ks == Picks(draws, n)[..|ks|]
        invariant InRange(ks, n)
        invariant pool == Moves(start, ks)
      {
        var k := PickIndex(draws[n - i], i);
        PicksNext(draws, n, |ks|, i, ks, k);
        MovesAppend(start, ks, k);
        pool := MoveToEnd(pool, k);
        ks := ks + [k];
        i := i - 1;
      }
      AllPicksShuffle(start, draws, ks);
      ok, steps := true, |ks|;
      ShuffledIsPermutation(start, draws);
      PoolReplaced(start, slots, pool);
    }

    /**
     * `setDropZonesHighlight(highlight)`: on every slot, either add
     * `active-zone`, or remove both `active-zone` and `over-zone`.
     */
    method SetDropZonesHighlight(highlight: bool)
      requires Valid()
      modifies this`active, this`over
      ensures Valid()
      ensures forall j :: 0 <= j < |slots| ==> active[j] == highlight
      ensures highlight ==> over == old(over)
      ensures !highlight ==> forall j :: 0 <= j < |slots| ==> !over[j]
    {
      var j := 0;
      while j < |slots|
        invariant 0 <= j <= |slots|
        invariant |active| == |slots| && |over| == |slots|
        invariant forall m :: 0 <= m < j ==> active[m] == highlight
        invariant highlight ==> over == old(over)
        invariant !highlight ==> forall m :: 0 <= m < j ==> !over[m]
      {
        if highlight {
          active := active[j := true];
        } else {
          active := active[j := false];
          over := over[j := false];
        }
        j := j + 1;
      }
    }

    /** `dragStartHandler` on card `c`: highlight every slot, mark `c` as `dragged` and `drag-feedback`. */
    method DragStart(c: CardId)
      requires Valid()
      modifies this`active, this`over, this`dragged, this`feedback
      ensures Valid()
      ensures forall j :: 0 <= j < |slots| ==> active[j]
      ensures over == old(over)
      ensures dragged == old(dragged) + {c} && feedback == old(feedback) + {c}
    {
      SetDropZonesHighlight(true);
      dragged := dragged + {c};
      feedback := feedback + {c};
    }

    /** The zero-delay timer set by `dragStartHandler`: `c` loses `drag-feedback`. */
    method ClearDragFeedback(c: CardId)
      requires Valid()
      modifies this`feedback
      ensures Valid()
      ensures feedback == old(feedback) - {c}
    {
      feedback := feedback - {c};
    }

    /** `dragEndHandler` on card `c`: no slot stays highlighted, `c` is no longer `dragged`. */
    method DragEnd(c: CardId)
      requires Valid()
      modifies this`active, this`over, this`dragged
      ensures Valid() && NoZoneHighlighted()
      ensures dragged == old(dragged) - {c}
    {
      SetDropZonesHighlight(false);
      dragged := dragged - {c};
    }

    /** `dropZoneEnterHandler` on slot `s`; `marked` says the drag carries the `type/dragged-box` data. */
    method Enter(s: nat, marked: bool)
      requires Valid() && s < |slots|
      modifies this`over
      ensures Valid()
      ensures over == if marked then old(over)[s := true] else old(over)
    {
      if marked {
        over := over[s := true];
      }
    }

    /** `dropZoneLeaveHandler` on slot `s`. */
    method Leave(s: nat, marked: bool, related: RelatedTarget)
      requires Valid() && s < |slots|
      modifies this`over
      ensures Valid()
      ensures over == if LeaveClearsOver(marked, related) then old(over)[s := false] else old(over)
    {
      if marked && related.Element? && !related.inThisZone {
        over := over[s := false];
      }
    }

    /**
     * `dropZoneDropHandler` on slot `s`: the first `dragged` card in document
     * order becomes the last child of the slot. With no `dragged` card
     * `appendChild(null)` throws: `ok` is false and nothing changes.
     */
    method Drop(s: nat) returns (ok: bool)
      requires Valid() && s < |slots|
      modifies this`pool, this`slots
      ensures Valid()
      ensures ok <==> FirstMarked(old(Cards()), dragged).Some?
      ensures ok ==> Zones() == MoveCard(old(Zones()), old(Cards())[FirstMarked(old(Cards()), dragged).value], s + 1)
      ensures !ok ==> pool == old(pool) && slots == old(slots)
      ensures multiset(Cards()) == multiset(old(Cards()))
    {
      var cs := Zones();
      var doc := Concat(cs);
      var found := FirstMarked(doc, dragged);
      if found.None? {
        return false;
      }
      var c := doc[found.value];
      var moved := MoveCard(cs, c, s + 1);
      SplitMoved(cs, c, s + 1);
      pool, slots := moved[0], moved[1..];
      ok := true;
    }
  }

  /** Replacing the pool by a rearrangement of it keeps every card in exactly one place. */
  lemma PoolReplaced(p: seq<CardId>, slots: seq<seq<CardId>>, q: seq<CardId>)
    requires multiset(q) == multiset(p) && Distinct(Concat([p] + slots))
    ensures Distinct(Concat([q] + slots))
  {
    ReplaceFirst([p] + slots, q);
    assert ([p] + slots)[0 := q] == [q] + slots;
  }

  /** A non-empty sequence is its head followed by its tail. */
  lemma SplitHead<T>(r: seq<T>)
    requires r != []
    ensures [r[0]] + r[1..] == r
  {
  }

  /** The board after a drop, split back into the pool and the slots, still holds each card once. */
  lemma SplitMoved(cs: seq<seq<CardId>>, c: CardId, t: nat)
    requires 0 < t < |cs| && Distinct(Concat(cs)) && c in Concat(cs)
    ensures var r := MoveCard(cs, c, t);
      [r[0]] + r[1..] == r &&
      multiset(Concat([r[0]] + r[1..])) == multiset(Concat(cs)) &&
      Distinct(Concat([r[0]] + r[1..]))
  {
    MoveCardPreservesCards(cs, c, t);
    SplitHead(MoveCard(cs, c, t));
  }

  /**
   * `appendChild` moving a child of the same container: the drop's move and
   * the shuffle's step are the same operation.
   */
  lemma AppendChildAgrees(cs: seq<seq<CardId>>, t: nat, k: nat)
    requires t < |cs| && k < |cs[t]| && Distinct(Concat(cs))
    ensures MoveCard(cs, cs[t][k], t)[t] == MoveToEnd(cs[t], k)
  {
    var s, c := cs[t], cs[t][k];
    assert s == s[..k] + [c] + s[k + 1..];
    OnceInContainer(cs, t, k);
    EraseSingle(s[..k], c, s[k + 1..]);
    MoveCardAt(cs, c, t, t);
  }
}
