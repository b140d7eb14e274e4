/**
 * The selection rule of the progress store (database.py), stated on the
 * history of one user: the sequence of catalog positions already delivered,
 * oldest first.  The Store module's methods are specified by these functions.
 */
module Selection {
  import opened Seqs
  import opened Wrappers

  /** Every recorded position is a position of a catalog of `total` words. */
  predicate InCatalog(sent: seq<int>, total: int) {
    forall i | 0 <= i < |sent| :: 0 <= sent[i] < total
  }

  /**
   * The scan of `range(total)` from `from` on: the first position not yet
   * sent, or None when the scan runs to its end.
   */
  function FirstUnsent(sent: seq<int>, total: int, from: nat): (r: Option<nat>)
    decreases total - from
    ensures r.Some? ==> from <= r.value < total && r.value !in sent
    ensures r.Some? ==> forall v | from <= v < r.value :: v in sent
    ensures r.None? <==> forall v | from <= v < total :: v in sent
  {
    if from >= total then None
    else if from !in sent then Some(from)
    else FirstUnsent(sent, total, from + 1)
  }

  /**
   * The position `get_next_word_id` returns: 0 once the user has been sent
   * at least `total` words, otherwise the lowest unsent position.
   * Whenever the catalog is not empty the position indexes it.
   */
  function NextWordId(sent: seq<int>, total: int): (w: nat)
    ensures total >= 1 ==> w < total
  {
    if |sent| >= total then 0
    else match FirstUnsent(sent, total, 0)
      case Some(w) => w
      case None => 0
  }

  /**
   * The user's history once `get_next_word_id` has run: emptied on
   * exhaustion, untouched otherwise.  Afterwards there is always room for
   * one more position of a non-empty catalog.
   */
  function AfterSelect(sent: seq<int>, total: int): (r: seq<int>)
    ensures r == sent || r == []
    ensures total >= 1 ==> |r| < total
  {
    if |sent| >= total then [] else sent
  }

  /**
   * The user's history once `add_word_to_history` has run: insert-or-ignore
   * under the uniqueness of (user, position).
   */
  function Recorded(sent: seq<int>, w: int): (r: seq<int>)
    ensures forall x :: x in r <==> x in sent || x == w
    ensures |sent| <= |r| && r[..|sent|] == sent
    ensures |r| == if w in sent then |sent| else |sent| + 1
    ensures NoDup(sent) ==> NoDup(r)
  {
    if w in sent then sent else sent + [w]
  }

  /**
   * The user's history after a `send_next_word` whose send went through:
   * the selected position is recorded; before exhaustion the old history is
   * kept as a prefix, and after it the new cycle holds that position alone.
   */
  function Deliver(sent: seq<int>, total: int): (r: seq<int>)
    ensures NextWordId(sent, total) in r
    ensures |sent| < total ==> |sent| <= |r| <= |sent| + 1 && r[..|sent|] == sent
    ensures |sent| >= total ==> r == [NextWordId(sent, total)]
  {
    Recorded(AfterSelect(sent, total), NextWordId(sent, total))
  }

  /** The user's history after `k` successful deliveries, starting from none. */
  function Delivered(k: nat, total: int): seq<int> {
    if k == 0 then [] else Deliver(Delivered(k - 1, total), total)
  }

  /**
   * With distinct positions and fewer than `total` of them, the scan finds
   * a gap (its fallback is never reached) and the selected position is the
   * least position of the catalog not yet sent.
   */
  lemma LeastUnsent(sent: seq<int>, total: int)
    requires NoDup(sent)
    requires |sent| < total
    ensures FirstUnsent(sent, total, 0).Some?
    ensures 0 <= NextWordId(sent, total) < total
    ensures NextWordId(sent, total) !in sent
    ensures forall v | 0 <= v < NextWordId(sent, total) :: v in sent
  {
    if FirstUnsent(sent, total, 0).None? {
      AllPresentNeedsRoom(sent, total);
    }
  }

  /** Recording the same position twice adds nothing the second time. */
  lemma RecordIdempotent(sent: seq<int>, w: int)
    ensures Recorded(Recorded(sent, w), w) == Recorded(sent, w)
  {
  }

  /** Asking again without recording anything yields the same position. */
  lemma SelectionIsStable(sent: seq<int>, total: int)
    ensures NextWordId(AfterSelect(sent, total), total) == NextWordId(sent, total)
  {
  }

  /** Before exhaustion a successful delivery appends exactly the selected, new position. */
  lemma DeliverAppends(sent: seq<int>, total: int)
    requires NoDup(sent)
    requires |sent| < total
    ensures NextWordId(sent, total) !in sent
    ensures Deliver(sent, total) == sent + [NextWordId(sent, total)]
  {
    LeastUnsent(sent, total);
  }

  /**
   * Deliveries keep the history a set of distinct catalog positions, so it
   * never holds more than `total` of them.
   */
  lemma DeliverKeepsInCatalog(sent: seq<int>, total: int)
    requires total >= 1
    requires NoDup(sent) && InCatalog(sent, total)
    ensures NoDup(Deliver(sent, total)) && InCatalog(Deliver(sent, total), total)
    ensures |Deliver(sent, total)| <= total
  {
    var r := Deliver(sent, total);
    var w := NextWordId(sent, total);
    forall i | 0 <= i < |r| ensures 0 <= r[i] < total {
      assert r[i] in r;
      if r[i] != w {
        assert r[i] in sent;
      }
    }
    BoundedDistinct(r, total);
  }

  /** When exactly the positions `0..k-1` have been sent, the next one is `k`. */
  lemma NextAfterPrefix(k: nat, total: int)
    requires k < total
    ensures NextWordId(Positions(k), total) == k
  {
    PositionsDistinct(k);
    InPositions(k);
    LeastUnsent(Positions(k), total);
    assert k !in Positions(k);
  }

  /** During the first cycle the history after `k` deliveries is exactly `0..k-1`, in that order. */
  lemma {:induction false} FirstCycle(k: nat, total: int)
    requires k <= total
    ensures Delivered(k, total) == Positions(k)
  {
    if k > 0 {
      var prev := Positions(k - 1);
      FirstCycle(k - 1, total);
      assert Delivered(k, total) == Deliver(prev, total);
      PositionsDistinct(k - 1);
      DeliverAppends(prev, total);
      NextAfterPrefix(k - 1, total);
      PositionsSnoc(k - 1);
    }
  }

  /**
   * Delivery number `k` (counting from 0) to a fresh user is position `k`
   * during the first cycle, and position 0 right after it.
   */
  lemma DeliveryOrder(k: nat, total: int)
    requires 1 <= total && k <= total
    ensures NextWordId(Delivered(k, total), total) == if k < total then k else 0
  {
    FirstCycle(k, total);
    if k < total {
      NextAfterPrefix(k, total);
    }
  }

  /** Once every position was delivered, the next delivery restarts the cycle with position 0 alone. */
  lemma CycleRestarts(total: int)
    requires total >= 1
    ensures NextWordId(Delivered(total, total), total) == 0
    ensures Delivered(total + 1, total) == [0]
  {
    FirstCycle(total, total);
  }

  /** A catalog of three words: deliveries yield 0, 1, 2, then 0 again with a history of one position. */
  lemma ThreeWordCatalog()
    ensures NextWordId(Delivered(0, 3), 3) == 0
    ensures NextWordId(Delivered(1, 3), 3) == 1
    ensures NextWordId(Delivered(2, 3), 3) == 2
    ensures NextWordId(Delivered(3, 3), 3) == 0
    ensures |Delivered(4, 3)| == 1
  {
    DeliveryOrder(0, 3);
    DeliveryOrder(1, 3);
    DeliveryOrder(2, 3);
    DeliveryOrder(3, 3);
    CycleRestarts(3);
  }
}
