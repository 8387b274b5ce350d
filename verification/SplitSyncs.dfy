/** Packets delivered in two syncs: when a node ends where one sync of all of them would leave it. */
module SplitSyncs {
  import opened Wrappers
  import opened Bytes
  import opened Sorting
  import opened Transfer

  /** What a sync leaves of a catalog. */
  function Synced(c: Catalog, ps: seq<Packet>): Catalog {
    AbsorbAll(c, Plan(c, ps)).0
  }

  predicate Succeeds(c: Catalog, ps: seq<Packet>) {
    AbsorbAll(c, Plan(c, ps)).1.Ok?
  }

  lemma PlanHolds(c: Catalog, ps: seq<Packet>)
    ensures Ascending(Plan(c, ps), Before)
    ensures forall p :: p in Plan(c, ps) <==> p in ps && Selected(c, p)
  {
    SortedPackets(Selection(c, ps));
  }

  // ----- What a sync applies -----------------------------------------------------------------

  lemma AppliedBy(c: Catalog, ps: seq<Packet>, id: string) returns (p: Packet)
    requires id in Synced(c, ps).appliedPackets && id !in c.appliedPackets
    ensures p in ps && Selected(c, p) && p.packetId == id
  {
    var plan := Plan(c, ps);
    PlanHolds(c, ps);
    NothingElseApplied(c, plan, id);
    var i :| 0 <= i < |plan| && plan[i].packetId == id;
    p := plan[i];
    assert p in plan;
  }

  /** Of packets with ids of their own, a sync that succeeds applies exactly those that it selects. */
  lemma SyncApplies(c: Catalog, ps: seq<Packet>, whole: seq<Packet>, p: Packet)
    requires IdsIdentify(whole) && p in whole && (forall x :: x in ps ==> x in whole) && Succeeds(c, ps)
    ensures p.packetId in Synced(c, ps).appliedPackets
       <==> p.packetId in c.appliedPackets || (p in ps && Selected(c, p))
  {
    PlanHolds(c, ps);
    AbsorbAllMonotone(c, Plan(c, ps), p.originatingNode);
    if p.packetId in Synced(c, ps).appliedPackets && p.packetId !in c.appliedPackets {
      var x := AppliedBy(c, ps, p.packetId);
      SameIdSamePacket(whole, x, p);
    }
  }

  /** The mark of an origin is the old one, or the number of a packet of that origin. */
  lemma {:induction false} MarkIsOf(c: Catalog, q: seq<Packet>, node: string)
    ensures var mark := HighWater(AbsorbAll(c, q).0, node);
            mark == HighWater(c, node)
            || exists i :: 0 <= i < |q| && q[i].originatingNode == node && q[i].originSequence == mark
    decreases |q|
  {
    if q == [] {
    } else {
      var (next, o) := Absorb(c, q[0]);
      if o.Ok? {
        var mark := HighWater(AbsorbAll(c, q).0, node);
        MarkIsOf(next, q[1..], node);
        if i :| 0 <= i < |q[1..]| && q[1..][i].originatingNode == node && q[1..][i].originSequence == mark {
          assert q[i + 1] == q[1..][i];
        }
      } else {
        RefusalIsCleanIff(c, q[0]);
      }
    }
  }

  /** It is at or past every packet that was applied. */
  lemma {:induction false} MarkPasses(c: Catalog, q: seq<Packet>, p: Packet)
    requires IdsIdentify(q) && p in q && p.packetId !in c.appliedPackets && AbsorbAll(c, q).1.Ok?
    ensures p.originSequence <= HighWater(AbsorbAll(c, q).0, p.originatingNode)
    decreases |q|
  {
    var next := Absorb(c, q[0]).0;
    if q[0] == p {
      AbsorbAllMonotone(next, q[1..], p.originatingNode);
    } else {
      assert q == [q[0]] + q[1..];
      var i :| 0 <= i < |q| && q[i] == p;
      assert q[0].packetId != q[i].packetId;
      assert forall i :: 0 <= i < |q[1..]| ==> q[1..][i] == q[i + 1];
      MarkPasses(next, q[1..], p);
    }
  }

  lemma IdsIdentifyPart(whole: seq<Packet>, ps: seq<Packet>)
    requires IdsIdentify(whole) && forall x :: x in ps ==> x in whole
    ensures IdsIdentify(ps)
  {
    forall i, j | 0 <= i < |ps| && 0 <= j < |ps| && ps[i].packetId == ps[j].packetId ensures ps[i] == ps[j] {
      assert ps[i] in ps && ps[j] in ps;
      SameIdSamePacket(whole, ps[i], ps[j]);
    }
  }

  // ----- The packets applied -----------------------------------------------------------------

  /** What comes only second has, in each origin, later numbers than what came first. */
  ghost predicate NumbersFollow(c: Catalog, a: seq<Packet>, b: seq<Packet>) {
    forall p, q :: p in a && q in b && q !in a && Selected(c, p) && Selected(c, q) ==>
      p.originatingNode == q.originatingNode ==> p.originSequence < q.originSequence
  }

  /** A packet that comes only second is still selected then. */
  lemma StillSelected(c: Catalog, a: seq<Packet>, b: seq<Packet>, q: Packet)
    requires IdsIdentify(a + b) && Succeeds(c, a) && NumbersFollow(c, a, b)
    requires q in b && q !in a && Selected(c, q)
    ensures Selected(Synced(c, a), q)
  {
    SyncApplies(c, a, a + b, q);
    PlanHolds(c, a);
    var plan, mark := Plan(c, a), HighWater(Synced(c, a), q.originatingNode);
    MarkIsOf(c, plan, q.originatingNode);
    if mark != HighWater(c, q.originatingNode) {
      var i :| 0 <= i < |plan| && plan[i].originatingNode == q.originatingNode && plan[i].originSequence == mark;
      assert plan[i] in plan;
    }
  }

  /** Only then is what came first of its origin below it. */
  lemma SelectedFollows(c: Catalog, a: seq<Packet>, b: seq<Packet>, p: Packet, q: Packet)
    requires IdsIdentify(a + b) && Succeeds(c, a) && p in a && Selected(c, p)
    requires p.originatingNode == q.originatingNode && Selected(Synced(c, a), q)
    ensures p.originSequence < q.originSequence
  {
    PlanHolds(c, a);
    IdsIdentifyPart(a + b, Plan(c, a));
    MarkPasses(c, Plan(c, a), p);
  }

  /**
   Where all three succeed, two syncs apply the packets that one sync of all of them applies iff what
   comes only second has, in each origin, later numbers than what came first.
   */
  lemma SplitAppliesAllIff(c: Catalog, a: seq<Packet>, b: seq<Packet>)
    requires IdsIdentify(a + b) && Succeeds(c, a + b) && Succeeds(c, a) && Succeeds(Synced(c, a), b)
    ensures AfterTwo(c, a, b).appliedPackets == Synced(c, a + b).appliedPackets <==> NumbersFollow(c, a, b)
  {
    var mid, two, one := Synced(c, a), AfterTwo(c, a, b), Synced(c, a + b);
    forall id | id in two.appliedPackets ensures id in one.appliedPackets {
      TwoWithinOne(c, a, b, id);
    }
    if NumbersFollow(c, a, b) {
      forall id | id in one.appliedPackets ensures id in two.appliedPackets {
        OneWithinTwo(c, a, b, id);
      }
    }
    if two.appliedPackets == one.appliedPackets {
      forall p, q | p in a && q in b && q !in a && Selected(c, p) && Selected(c, q)
                    && p.originatingNode == q.originatingNode
        ensures p.originSequence < q.originSequence
      {
        SyncApplies(c, a + b, a + b, q);
        SyncApplies(c, a, a + b, q);
        SyncApplies(mid, b, a + b, q);
        SelectedFollows(c, a, b, p, q);
      }
    }
  }

  lemma TwoWithinOne(c: Catalog, a: seq<Packet>, b: seq<Packet>, id: string)
    requires IdsIdentify(a + b) && Succeeds(c, a + b) && id in AfterTwo(c, a, b).appliedPackets
    ensures id in Synced(c, a + b).appliedPackets
  {
    var mid := Synced(c, a);
    AbsorbAllMonotone(c, Plan(c, a + b), "");
    if id in c.appliedPackets {
    } else if id in mid.appliedPackets {
      var p := AppliedBy(c, a, id);
      SyncApplies(c, a + b, a + b, p);
    } else {
      var p := AppliedBy(mid, b, id);
      AbsorbAllMonotone(c, Plan(c, a), p.originatingNode);
      SyncApplies(c, a + b, a + b, p);
    }
  }

  lemma OneWithinTwo(c: Catalog, a: seq<Packet>, b: seq<Packet>, id: string)
    requires IdsIdentify(a + b) && Succeeds(c, a) && Succeeds(Synced(c, a), b) && NumbersFollow(c, a, b)
    requires id in Synced(c, a + b).appliedPackets
    ensures id in AfterTwo(c, a, b).appliedPackets
  {
    var mid := Synced(c, a);
    AbsorbAllMonotone(c, Plan(c, a), "");
    AbsorbAllMonotone(mid, Plan(mid, b), "");
    if id !in c.appliedPackets {
      var p := AppliedBy(c, a + b, id);
      SyncApplies(c, a, a + b, p);
      if p !in a {
        StillSelected(c, a, b, p);
        SyncApplies(mid, b, a + b, p);
      }
    }
  }

  // ----- The whole catalog -------------------------------------------------------------------

  /** What comes only second stands, in a plan of all, behind what came first. */
  ghost predicate Follows(c: Catalog, a: seq<Packet>, b: seq<Packet>) {
    && NumbersFollow(c, a, b)
    && forall p, q :: p in a && q in b && q !in a && Selected(c, p) && Selected(c, q) ==> Before(p, q)
  }

  /** One batch after another. */
  lemma {:induction false} AbsorbAllAppend(c: Catalog, p: seq<Packet>, q: seq<Packet>)
    requires AbsorbAll(c, p).1.Ok?
    ensures var whole, rest := AbsorbAll(c, p + q), AbsorbAll(AbsorbAll(c, p).0, q);
            whole.0 == rest.0 && (whole.1.Ok? <==> rest.1.Ok?)
            && (whole.1.Err? ==> whole.1.error == rest.1.error)
    decreases |p|
  {
    if p == [] {
      assert p + q == q;
    } else {
      assert (p + q)[1..] == p[1..] + q;
      AbsorbAllAppend(Absorb(c, p[0]).0, p[1..], q);
    }
  }

  /** The two plans one after the other are a plan of all. */
  lemma PlansJoin(c: Catalog, a: seq<Packet>, b: seq<Packet>)
    requires IdsIdentify(a + b) && Succeeds(c, a) && Follows(c, a, b)
    ensures var joined := Plan(c, a) + Plan(Synced(c, a), b);
            Ascending(joined, Before) && SamePackets(joined, Plan(c, a + b))
  {
    var mid := Synced(c, a);
    var p, q := Plan(c, a), Plan(mid, b);
    PlanHolds(c, a);
    PlanHolds(mid, b);
    PlanHolds(c, a + b);
    forall x | x in q ensures x in b && x !in a && Selected(c, x) {
      SyncApplies(c, a, a + b, x);
      AbsorbAllMonotone(c, p, x.originatingNode);
    }
    forall x | x in b && x !in a && Selected(c, x) ensures x in q {
      StillSelected(c, a, b, x);
    }
    forall i, j | 0 <= i < |p| && 0 <= j < |q| ensures !Before(q[j], p[i]) {
      assert p[i] in p && q[j] in q;
      BeforeTotal(p[i], q[j]);
    }
  }

  /**
   A node that syncs on `a` and then on `b` ends with the catalog, and the success or the error, of one
   that syncs on both at once, when the first sync succeeds and what comes only second stands behind
   what came first.
   */
  lemma SplitConverges(c: Catalog, a: seq<Packet>, b: seq<Packet>)
    requires IdsIdentify(a + b) && Succeeds(c, a) && Follows(c, a, b)
    ensures AfterTwo(c, a, b) == Synced(c, a + b)
    ensures Succeeds(Synced(c, a), b) <==> Succeeds(c, a + b)
    ensures !Succeeds(c, a + b) ==>
              AbsorbAll(Synced(c, a), Plan(Synced(c, a), b)).1 == AbsorbAll(c, Plan(c, a + b)).1
  {
    var p, q := Plan(c, a), Plan(Synced(c, a), b);
    PlansJoin(c, a, b);
    PlanHolds(c, a + b);
    AllIdentified(p + q, a + b, Plan(c, a + b));
    SortedListsAgree(c, p + q, Plan(c, a + b));
    AbsorbAllAppend(c, p, q);
  }

  lemma AllIdentified(joined: seq<Packet>, whole: seq<Packet>, plan: seq<Packet>)
    requires IdsIdentify(whole) && SamePackets(joined, plan) && forall x :: x in plan ==> x in whole
    ensures Identified(joined) && Identified(plan)
  {
    IdsIdentifyPart(whole, plan);
    IdsIdentifyPart(whole, joined);
  }
}
