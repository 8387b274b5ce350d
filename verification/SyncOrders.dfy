/** The order of a sync plan, in numbers, and exactly when absorbing it meets a packet out of order. */
module SyncOrders {
  import opened Wrappers
  import opened Bytes
  import opened Sorting
  import opened Transfer
  import opened SplitSyncs

  // ----- Where a batch is refused ------------------------------------------------------------

  /** The packets before the `i`-th go through, and it is refused with this error. */
  predicate RefusedAt(c: Catalog, q: seq<Packet>, i: nat, e: TransferError) {
    && i < |q| && AbsorbAll(c, q[..i]).1.Ok?
    && Absorb(AbsorbAll(c, q[..i]).0, q[i]).1 == Err(e)
  }

  /** A batch is refused where its first packet is. */
  lemma {:induction false} RefusedWhere(c: Catalog, q: seq<Packet>) returns (i: nat)
    requires AbsorbAll(c, q).1.Err?
    ensures RefusedAt(c, q, i, AbsorbAll(c, q).1.error)
    decreases |q|
  {
    var (next, o) := Absorb(c, q[0]);
    if o.Err? {
      i := 0;
      assert q[..0] == [];
    } else {
      var k := RefusedWhere(next, q[1..]);
      i := k + 1;
      assert q[..i][0] == q[0] && q[..i][1..] == q[1..][..k];
    }
  }

  lemma RefusalEnds(c: Catalog, q: seq<Packet>, i: nat, e: TransferError)
    requires RefusedAt(c, q, i, e)
    ensures AbsorbAll(c, q).1 == Err(e)
  {
    assert q == q[..i] + q[i..];
    AbsorbAllAppend(c, q[..i], q[i..]);
  }

  // ----- Out of order ------------------------------------------------------------------------

  predicate SameNumber(p: Packet, q: Packet) {
    p.originatingNode == q.originatingNode && p.originSequence == q.originSequence
  }

  /**
   What comes before the `i`-th packet goes through; it is a valid packet with an id not seen before,
   and shares origin and number with one of those.
   */
  ghost predicate StumblesAt(c: Catalog, q: seq<Packet>, i: nat) {
    && i < |q| && AbsorbAll(c, q[..i]).1.Ok? && Validate(q[i]).Ok?
    && (forall k :: 0 <= k < i ==> q[k].packetId != q[i].packetId)
    && exists k :: 0 <= k < i && SameNumber(q[k], q[i])
  }

  /** A packet of a plan is refused as out of order only there. */
  lemma OutOfOrderStumbles(c: Catalog, ps: seq<Packet>, i: nat, e: TransferError)
    requires RefusedAt(c, Plan(c, ps), i, e) && e.OutOfOrderSequence?
    ensures StumblesAt(c, Plan(c, ps), i)
  {
    var plan := Plan(c, ps);
    PlanHolds(c, ps);
    assert plan[i] in plan;
    NotSeen(c, plan, i, e);
    var k := MarkedBefore(c, plan, i, e);
    PlanGoesUp(c, ps);
    assert InSequence(plan[k], plan[i]);
    assert SameNumber(plan[k], plan[i]);
  }

  lemma NotSeen(c: Catalog, q: seq<Packet>, i: nat, e: TransferError)
    requires RefusedAt(c, q, i, e) && e.OutOfOrderSequence?
    ensures forall k :: 0 <= k < i ==> q[k].packetId != q[i].packetId
  {
    AbsorbAllMonotone(c, q[..i], "");
    assert forall k :: 0 <= k < i ==> q[..i][k] in q[..i];
  }

  /** The mark that a refused packet is not above was set by one before it. */
  lemma MarkedBefore(c: Catalog, q: seq<Packet>, i: nat, e: TransferError) returns (k: nat)
    requires RefusedAt(c, q, i, e) && e.OutOfOrderSequence? && Selected(c, q[i])
    ensures k < i && q[k].originatingNode == q[i].originatingNode && q[i].originSequence <= q[k].originSequence
  {
    MarkIsOf(c, q[..i], q[i].originatingNode);
    var mark := HighWater(AbsorbAll(c, q[..i]).0, q[i].originatingNode);
    var j :| 0 <= j < i && q[..i][j].originatingNode == q[i].originatingNode && q[..i][j].originSequence == mark;
    k := j;
  }

  /** And there it is. */
  lemma StumbleIsOutOfOrder(c: Catalog, ps: seq<Packet>, i: nat)
    requires IdsIdentify(ps) && StumblesAt(c, Plan(c, ps), i)
    ensures exists e: TransferError :: e.OutOfOrderSequence? && RefusedAt(c, Plan(c, ps), i, e)
  {
    var plan := Plan(c, ps);
    var front, p := plan[..i], plan[i];
    PlanHolds(c, ps);
    assert p in plan;
    var k :| 0 <= k < i && SameNumber(plan[k], p);
    assert plan[k] in plan && front[k] in front;
    IdsIdentifyPart(ps, front);
    MarkPasses(c, front, plan[k]);
    if p.packetId in AbsorbAll(c, front).0.appliedPackets {
      NothingElseApplied(c, front, p.packetId);
    }
    var last := HighWater(AbsorbAll(c, front).0, p.originatingNode);
    assert RefusedAt(c, plan, i, OutOfOrderSequence(p.originatingNode, p.originSequence, last));
  }

  ghost predicate EndsOutOfOrder(c: Catalog, ps: seq<Packet>) {
    AbsorbAll(c, Plan(c, ps)).1.Err? && AbsorbAll(c, Plan(c, ps)).1.error.OutOfOrderSequence?
  }

  /** Absorbing a plan ends out of order iff it comes to such a packet. */
  lemma OutOfOrderIff(c: Catalog, ps: seq<Packet>)
    requires IdsIdentify(ps)
    ensures EndsOutOfOrder(c, ps) <==> exists i :: 0 <= i < |Plan(c, ps)| && StumblesAt(c, Plan(c, ps), i)
  {
    var plan := Plan(c, ps);
    if EndsOutOfOrder(c, ps) {
      var i := RefusedWhere(c, plan);
      OutOfOrderStumbles(c, ps, i, AbsorbAll(c, plan).1.error);
    }
    if i :| 0 <= i < |plan| && StumblesAt(c, plan, i) {
      StumbleIsOutOfOrder(c, ps, i);
      var e: TransferError :| e.OutOfOrderSequence? && RefusedAt(c, plan, i, e);
      RefusalEnds(c, plan, i, e);
    }
  }

  /** So it never does, whatever ids there are, where no two packets share origin and number. */
  lemma OwnNumbersStayInOrder(c: Catalog, ps: seq<Packet>)
    requires forall p, q :: p in ps && q in ps && SameNumber(p, q) ==> p == q
    ensures !EndsOutOfOrder(c, ps)
  {
    var plan := Plan(c, ps);
    PlanHolds(c, ps);
    assert forall k :: 0 <= k < |plan| ==> plan[k] in plan;
    if EndsOutOfOrder(c, ps) {
      var i := RefusedWhere(c, plan);
      OutOfOrderStumbles(c, ps, i, AbsorbAll(c, plan).1.error);
    }
  }
}
