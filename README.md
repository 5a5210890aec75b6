# Metamorphosis card game: drag-and-drop board and card shuffle

This project models the two pieces of logic in `metamorphosis.js`, the script of a
browser card game in which the player drags cards from a shuffled pool into slots:

- **`shuffleCards`**. The loop runs `i` from the number of pool children down to 0. At
  each step the child at index `Math.random() * i | 0` is re-appended to the pool,
  which moves it to the last position.
- **The drag-and-drop handlers** (`dragStartHandler`, `dragEndHandler`,
  `dropZoneEnterHandler`, `dropZoneLeaveHandler`, `dropZoneDropHandler` and their
  helper `setDropZonesHighlight`). They are modelled as a small state machine over an
  abstract board:
  - the pool container (`.mixed-cards`) and the slots (`.card-slot`), each an ordered
    sequence of card ids;
  - per slot, the classes `active-zone` and `over-zone`;
  - per card, the classes `dragged` and `drag-feedback`.

The model has three modules:

- `Containers` (containers.dfy) holds the board as values: a sequence of containers.
  - `MoveCard` is what `appendChild` does to an element that already has a parent: the
    element is detached and becomes the last child of the target.
  - `FirstMarked` is what `querySelector('.dragged')` finds: the first card in document
    order that has the class.
  - Next to them are lemmas saying that a move keeps every card on the board exactly
    once and leaves every other card in its container and order.
- `Shuffle` (shuffle.dfy) holds the shuffle as values.
  - `PickIndex` is the random index expression.
  - `MoveToEnd` is one loop step.
  - `Picks` lists the index each iteration computes, `Moves` applies a list of indices,
    and `Shuffled` is the whole loop.
  - Lemmas prove that the result is a permutation and give the range of every index.
    The loop reads `n + 1` values of `Math.random()`, and lemmas prove that the first
    `m` iterations depend only on the first `m` values. The value read at `i = 0`
    has no effect, so the first `n` values fix the result.
- `Metamorphosis` (board.dfy) holds the class `Board`. Its fields are the containers
  and flags above, and its methods are the handlers and the shuffle loop. Each method
  keeps the invariant `Valid()`: one flag pair per slot, and every card in exactly one
  place. Each method also states the new state in terms of the old state and of the
  functions above.

Inputs that come from the browser are parameters:

- The successive values of `Math.random()` are a sequence of `Draw`s. A `Draw` is a
  fraction `num / den` with `num < den`, so it lies in [0, 1).
- Whether the drag's `dataTransfer` carries the `type/dragged-box` type is a boolean
  `marked`.
- `e.relatedTarget` of a leave event is `NullTarget`, or `Element(inThisZone)`.
  `inThisZone` stands for `e.relatedTarget.closest('.drop-zone')` being the zone that
  is being left.
- The deferred removal of `drag-feedback` (a zero-delay timer) is its own step,
  `ClearDragFeedback`.

Errors are modelled as results. Two calls throw a `TypeError` in the browser, and in
both cases nothing has changed yet, so in the model `ok` is false and the state is
unchanged:

- `children[0]` of an empty pool is `undefined`, so `appendChild` throws.
- `querySelector('.dragged')` returns `null` when no card is dragged, so
  `appendChild(null)` throws.

The code has no scoring and no placement check, and the model follows the code:

- There is no category check, no win state and no limit of one card per slot. A drop
  appends the dragged card to the slot whatever the slot already holds.
- `dropZoneEnterHandler` tests only for the drag data type, not whether the card
  belongs in the slot.
- `dragStartHandler` never refuses a drag. A second `dragstart` without a `dragend`
  leaves two cards `dragged`. `Drop` then moves the first of them in document order.
- The random index lies in [0, i - 1] for `i >= 1` and is 0 for `i = 0`, not in [0, i].
  So the last iteration (`i = 0`) always moves the first child to the end
  (`Shuffle.LastIterationRotates`).
- Only the slots (`.card-slot`) get drop handlers. The model assumes that the pool
  element `.mixed-cards` is not also a `.card-slot`, so the pool is never a drop
  target and `Drop`, `Enter` and `Leave` take a slot index.

## Model

| member | source | states |
|---|---|---|
| `Shuffle.PickIndex` | metamorphosis.js:170 | the index `Math.random() * i`, truncated to an integer, is 0 when `i` is 0 and lies in [0, i - 1] when `i >= 1`, so it is a valid index into a non-empty pool at every iteration |
| `Shuffle.PickIndexIsFloor` | metamorphosis.js:170 | the index is the floor of `num * i / den`, which is what `| 0` gives for a non-negative product |
| `Shuffle.EveryIndexReachable` | metamorphosis.js:170 | every index in [0, i - 1] is produced by some value of `Math.random()`, so the range above is exact |
| `Shuffle.MoveToEnd` | metamorphosis.js:170 | re-appending child `k`: same length, child `k` is now last, same multiset of cards |
| `Shuffle.MoveToEndKeepsOrder` | metamorphosis.js:170 | the children before `k` keep their positions and those after it move up by one, so all other children keep their relative order |
| `Shuffle.Picks` | metamorphosis.js:169-170 | iteration `m` runs with `i = n - m`, so of the `n + 1` indices the loop computes, index `m` lies below `n - m` for `m < n` and the last one is 0 |
| `Shuffle.PicksNext` | metamorphosis.js:169-170 | iteration `m`, run with `i = n - m` on the random value `ds[m]`, computes index `m` of `Picks` |
| `Shuffle.MovesAppend` | metamorphosis.js:169-171 | one more iteration re-appends the child at its index to the pool reached so far |
| `Shuffle.MovesArePermutation` | metamorphosis.js:169-171 | any number of iterations, with any valid indices, leaves the same multiset of cards |
| `Shuffle.AllPicksShuffle` | metamorphosis.js:169-171 | once the loop has run with all `n + 1` indices of `Picks`, the pool is the shuffled pool |
| `Shuffle.ShuffledIsPermutation` | metamorphosis.js:169-171 | the whole shuffle is a permutation of the pool: same multiset, same length |
| `Shuffle.PicksUsePrefix` | metamorphosis.js:169-170 | the indices of the first `m` iterations depend only on the first `m` random values |
| `Shuffle.PicksUseDraws` | metamorphosis.js:169-170 | all `n + 1` indices are fixed by the first `n` random values: the value read at `i = 0` has no effect |
| `Shuffle.ShuffleUsesDraws` | metamorphosis.js:169-170 | two random sources that agree on their first `n` values give the same order |
| `Shuffle.MoveToEndFirst` | metamorphosis.js:170 | re-appending child 0 rotates the children by one |
| `Shuffle.MovesLastZero` | metamorphosis.js:169-170 | a last iteration whose index is 0 moves the first child of the pool it finds to the end |
| `Shuffle.LastIterationRotates` | metamorphosis.js:169-170 | the iteration for `i = 0` always moves the first child to the end |
| `Metamorphosis.PoolReplaced` | metamorphosis.js:168-171 | rearranging the pool keeps every card of the board in exactly one place |
| `Metamorphosis.Board.ShuffleCards` | metamorphosis.js:167-172 | on a non-empty pool, the loop runs `n + 1` iterations and leaves the pool equal to `Shuffled(old pool, draws)`, a permutation of it. On an empty pool the call fails and the pool is unchanged. The slots are untouched and every card stays in exactly one place |
| `Metamorphosis.Board.constructor` | metamorphosis.js:6-7 | the page as loaded, with the pool and slot contents given: every card in exactly one place and no class set |
| `Metamorphosis.Board.SetDropZonesHighlight` | metamorphosis.js:143-153 | with `true`, every slot is `active` and `over` is untouched. With `false`, no slot is `active` or `over` |
| `Metamorphosis.Board.DragStart` | metamorphosis.js:55-63 | every slot is `active`, `over` is unchanged, and the card is added to `dragged` and `drag-feedback` |
| `Metamorphosis.Board.ClearDragFeedback` | metamorphosis.js:160-164 | the deferred step removes `drag-feedback` from that card only and keeps `Valid()` |
| `Metamorphosis.Board.DragEnd` | metamorphosis.js:77-80 | no slot is `active` or `over` afterwards, and the card is no longer `dragged` |
| `Metamorphosis.Board.Enter` | metamorphosis.js:86-98 | `over` is set on the entered slot exactly when the drag data type is present. Otherwise no flag changes |
| `Metamorphosis.Board.Leave` | metamorphosis.js:114-121 | `over` is cleared on that slot exactly when the type is present, `relatedTarget` is not null and its enclosing drop zone is not this slot. Otherwise no flag changes |
| `Metamorphosis.Board.Drop` | metamorphosis.js:126-137 | when some card is `dragged`, the first one in document order is moved to the end of the target slot (`MoveCard`). With none, the call fails and nothing changes. The cards on the board are the same, and each is in exactly one place |
| `Containers.FirstMarked` | metamorphosis.js:129 | `querySelector('.dragged')`: the index of a marked card such that no earlier card is marked, or none exactly when no card is marked |
| `Containers.Erase` | metamorphosis.js:130 | detaching a card leaves no copy of it and changes nothing when the card is absent |
| `Containers.EraseCounts` | metamorphosis.js:130 | detaching a card removes all its copies and no other card |
| `Containers.MoveCard` | metamorphosis.js:130 | after `appendChild` the card is the last child of the target, is there exactly once and is in no other container |
| `Containers.MoveCardCards` | metamorphosis.js:130 | after a move the board holds the moved card exactly once and every other card as often as before |
| `Containers.MoveCardPreservesCards` | metamorphosis.js:129-130 | moving a card of a board where each card is in exactly one place keeps the same cards, each still in exactly one place |
| `Containers.MoveKeepsOthers` | metamorphosis.js:130 | with the moved card taken away, every container is exactly as before: all other cards keep their container and their order |
| `Containers.UniqueContainer` | metamorphosis.js:126-137 | on a valid board a card that is in one container is in no other |
| `Metamorphosis.AppendChildAgrees` | metamorphosis.js:130 | re-appending a child to its own container is the shuffle step `MoveToEnd`. The drop and the shuffle use one operation |

## Left out

- Listener registration and the `draggable` attribute (metamorphosis.js:1-47) only connect the DOM to the handlers.
- `dataTransfer.setData` payloads (metamorphosis.js:60-61): only the presence of the `type/dragged-box` type matters, and it is the `marked` input.
- `preventDefault` calls (metamorphosis.js:96, 107, 135) change browser defaults, not board state.
- `dragHandler` and `dropZoneOverHandler` (metamorphosis.js:70-72, 104-109) change nothing.
- `Math.random()` is an input. Probability and uniformity are not modelled.
- Floating point is not modelled. `Math.random() * i | 0` is taken as the exact floor of `num * i / den`. That also assumes the product stays below 2^31, where `| 0` truncates.
- The timer behind `deferredOriginChanges` is not modelled. Its callback is the separate step `ClearDragFeedback`, and no order with the other events is imposed.
- The markup is not part of this model. The constructor takes the initial contents of the pool and of each slot as parameters and requires only that every card is in exactly one place; which cards the page starts with is not modelled.
- Document order is assumed to be the pool followed by the slots in order. This decides which card `querySelector('.dragged')` returns when several cards are `dragged`.
- The pool element is assumed not to be a `.card-slot`, so it gets no drop handlers. Under that assumption the drop, enter and leave handlers act on slots only.
- Exceptions are modelled as `ok = false` with nothing changed. Their propagation is not modelled. For example, an empty pool makes `initDragAndDrop` stop before any listener is registered.
- `closest('.drop-zone')` is folded into the `inThisZone` input.
- Scoring, category compatibility and the win state: the source has no code for them.
