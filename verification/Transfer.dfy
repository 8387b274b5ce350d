/** Lateral schema transfer: packets of schema mutations, planned and absorbed so that nodes converge. */
module Transfer {
  import opened Wrappers
  import opened Bytes
  import opened Sorting

  datatype FieldType = TString | TInteger | TFloat | TBoolean | TJson

  datatype Mutation =
    | AddField(fieldName: string, fieldType: FieldType, nullable: bool)
    | DropField(fieldName: string)
    | RenameField(from: string, to: string)

  datatype Packet = Packet(packetId: string, collection: string, mutation: Mutation, firstSeenNs: nat,
                           originatingNode: string, originSequence: nat)

  datatype FieldSchema = FieldSchema(fieldType: FieldType, nullable: bool, firstSeenNs: nat, introducedByPacket: string)

  type Fields = map<string, FieldSchema>

  datatype Catalog = Catalog(collections: map<string, Fields>, appliedPackets: set<string>,
                             nodeHighWater: map<string, nat>)

  datatype TransferError =
    | EmptyCollection
    | EmptyOriginatingNode
    | EmptyPacketId
    | OutOfOrderSequence(node: string, got: nat, last: nat)
    | FieldAlreadyExists(name: string)
    | FieldNotFound(name: string)
    | RenameTargetExists(name: string)

  datatype AbsorbOutcome = Applied | IdempotentReplay

  datatype SyncApplyResult = SyncApplyResult(applied: nat, replayed: nat)

  // ----- Absorbing one packet ---------------------------------------------------------------

  /** Unicode `White_Space`. */
  predicate IsWhiteSpace(c: char) {
    var u := c as int;
    9 <= u <= 13 || u == 0x20 || u == 0x85 || u == 0xA0 || u == 0x1680 || 0x2000 <= u <= 0x200A
    || u == 0x2028 || u == 0x2029 || u == 0x202F || u == 0x205F || u == 0x3000
  }

  predicate Blank(s: string) {
    forall i | 0 <= i < |s| :: IsWhiteSpace(s[i])
  }

  function Validate(p: Packet): Result<(), TransferError> {
    if Blank(p.collection) then Err(EmptyCollection)
    else if Blank(p.originatingNode) then Err(EmptyOriginatingNode)
    else if Blank(p.packetId) then Err(EmptyPacketId)
    else Ok(())
  }

  /** A packet is valid iff its collection, its origin and its id each have a character that is no white space. */
  lemma ValidateMeans(p: Packet)
    ensures Validate(p).Ok? <==>
              && (exists c :: c in p.collection && !IsWhiteSpace(c))
              && (exists c :: c in p.originatingNode && !IsWhiteSpace(c))
              && (exists c :: c in p.packetId && !IsWhiteSpace(c))
    ensures Validate(p).Err? ==>
              Validate(p).error == if Blank(p.collection) then EmptyCollection
                                   else if Blank(p.originatingNode) then EmptyOriginatingNode else EmptyPacketId
  {
    BlankIff(p.collection);
    BlankIff(p.originatingNode);
    BlankIff(p.packetId);
  }

  lemma BlankIff(s: string)
    ensures Blank(s) <==> forall c :: c in s ==> IsWhiteSpace(c)
  {
    assert forall i :: 0 <= i < |s| ==> s[i] in s;
  }

  function HighWater(c: Catalog, node: string): nat {
    if node in c.nodeHighWater then c.nodeHighWater[node] else 0
  }

  function Mutate(fields: Fields, p: Packet): Result<Fields, TransferError> {
    match p.mutation
    case AddField(name, fieldType, nullable) =>
      if name in fields then Err(FieldAlreadyExists(name))
      else Ok(fields[name := FieldSchema(fieldType, nullable, p.firstSeenNs, p.packetId)])
    case DropField(name) =>
      if name !in fields then Err(FieldNotFound(name)) else Ok(fields - {name})
    case RenameField(from, to) =>
      if to in fields then Err(RenameTargetExists(to))
      else if from !in fields then Err(FieldNotFound(from))
      else Ok((fields - {from})[to := fields[from]])
  }

  /** A mutation succeeds iff the field it adds is not there, or those it takes are; this is what it leaves. */
  lemma MutateMeans(fields: Fields, p: Packet)
    ensures var r := Mutate(fields, p);
            match p.mutation
            case AddField(name, fieldType, nullable) =>
              && (r.Ok? <==> name !in fields)
              && (r.Ok? ==> Moved(fields, r.value, {}, name)
                            && r.value[name] == FieldSchema(fieldType, nullable, p.firstSeenNs, p.packetId))
            case DropField(name) =>
              && (r.Ok? <==> name in fields)
              && (r.Ok? ==> r.value.Keys == fields.Keys - {name}
                            && forall n :: n in r.value ==> r.value[n] == fields[n])
            case RenameField(from, to) =>
              && (r.Ok? <==> from in fields && to !in fields)
              && (r.Ok? ==> Moved(fields, r.value, {from}, to) && r.value[to] == fields[from])
  {
  }

  /** These fields are gone and this one is there; every other is as it was. */
  ghost predicate Moved(before: Fields, after: Fields, gone: set<string>, name: string) {
    && after.Keys == before.Keys - gone + {name}
    && forall n :: n in after && n != name ==> after[n] == before[n]
  }

  /** Dropping a field that was added, and renaming one back, restores the fields. */
  lemma MutationsUndone(fields: Fields, p: Packet, q: Packet)
    requires Mutate(fields, p).Ok?
    requires (p.mutation.AddField? && q.mutation == DropField(p.mutation.fieldName))
          || (p.mutation.RenameField? && q.mutation == RenameField(p.mutation.to, p.mutation.from))
    ensures Mutate(Mutate(fields, p).value, q) == Ok(fields)
  {
    var after := Mutate(fields, p).value;
    MutateMeans(fields, p);
    MutateMeans(after, q);
    var back := Mutate(after, q);
    assert back.Ok? && back.value.Keys == fields.Keys;
    assert forall n :: n in fields ==> back.value[n] == fields[n];
    assert back.value == fields;
  }

  /** A mutation that fails has by then created the collection it was for. */
  function Absorb(c: Catalog, p: Packet): (Catalog, Result<AbsorbOutcome, TransferError>) {
    var last := HighWater(c, p.originatingNode);
    if Validate(p).Err? then (c, Err(Validate(p).error))
    else if p.packetId in c.appliedPackets then (c, Ok(IdempotentReplay))
    else if p.originSequence <= last then (c, Err(OutOfOrderSequence(p.originatingNode, p.originSequence, last)))
    else
      var fields := if p.collection in c.collections then c.collections[p.collection] else map[];
      match Mutate(fields, p)
      case Err(e) => (c.(collections := c.collections[p.collection := fields]), Err(e))
      case Ok(after) =>
        (Catalog(c.collections[p.collection := after], c.appliedPackets + {p.packetId},
                 c.nodeHighWater[p.originatingNode := p.originSequence]),
         Ok(Applied))
  }

  /**
   A refused packet leaves the catalog as it was iff it was refused before its mutation, or its
   collection was there.
   */
  lemma RefusalIsCleanIff(c: Catalog, p: Packet)
    requires Absorb(c, p).1.Err?
    ensures Absorb(c, p).0 == c <==>
              Validate(p).Err? || p.originSequence <= HighWater(c, p.originatingNode) || p.collection in c.collections
    ensures Absorb(c, p).0.appliedPackets == c.appliedPackets && Absorb(c, p).0.nodeHighWater == c.nodeHighWater
  {
    if p.collection in c.collections {
      assert c.collections[p.collection := c.collections[p.collection]] == c.collections;
    } else {
      assert p.collection in c.collections[p.collection := map[]];
    }
  }

  /** Absorbing again what was absorbed changes nothing. */
  lemma AbsorbTwice(c: Catalog, p: Packet)
    requires Absorb(c, p).1.Ok?
    ensures Absorb(Absorb(c, p).0, p) == (Absorb(c, p).0, Ok(IdempotentReplay))
  {
  }

  // ----- Absorbing a batch ------------------------------------------------------------------

  function Tallied(o: AbsorbOutcome, rest: Result<SyncApplyResult, TransferError>)
    : Result<SyncApplyResult, TransferError>
  {
    match rest
    case Err(e) => Err(e)
    case Ok(t) => Ok(if o.Applied? then t.(applied := t.applied + 1) else t.(replayed := t.replayed + 1))
  }

  /** One packet after another, up to the first that is refused. */
  function AbsorbAll(c: Catalog, ps: seq<Packet>): (Catalog, Result<SyncApplyResult, TransferError>)
    decreases |ps|
  {
    if ps == [] then (c, Ok(SyncApplyResult(0, 0)))
    else
      var (next, o) := Absorb(c, ps[0]);
      match o
      case Err(e) => (next, Err(e))
      case Ok(outcome) =>
        var (end, rest) := AbsorbAll(next, ps[1..]);
        (end, Tallied(outcome, rest))
  }

  /** The same catalog, the same error or the same number of packets applied. */
  predicate SameEffect(a: (Catalog, Result<SyncApplyResult, TransferError>),
                       b: (Catalog, Result<SyncApplyResult, TransferError>)) {
    && a.0 == b.0
    && match (a.1, b.1)
       case (Ok(x), Ok(y)) => x.applied == y.applied
       case (Err(e), Err(f)) => e == f
       case _ => false
  }

  // ----- Ordering packets -------------------------------------------------------------------

  /** By origin, then sequence, then packet id. */
  predicate Before(a: Packet, b: Packet) {
    || TextLess(a.originatingNode, b.originatingNode)
    || (a.originatingNode == b.originatingNode
        && (|| a.originSequence < b.originSequence
             || (a.originSequence == b.originSequence && TextLess(a.packetId, b.packetId))))
  }

  predicate SameKey(a: Packet, b: Packet) {
    a.originatingNode == b.originatingNode && a.originSequence == b.originSequence && a.packetId == b.packetId
  }

  lemma BeforeTotal(a: Packet, b: Packet)
    ensures Before(a, b) || SameKey(a, b) || Before(b, a)
    ensures !(Before(a, b) && Before(b, a))
    ensures Before(a, b) ==> !SameKey(a, b)
  {
    TextTotal(a.originatingNode, b.originatingNode);
    TextTotal(a.packetId, b.packetId);
  }

  lemma BeforeTransitive(a: Packet, b: Packet, c: Packet)
    requires Before(a, b) && Before(b, c)
    ensures Before(a, c)
  {
    if TextLess(a.originatingNode, b.originatingNode) && TextLess(b.originatingNode, c.originatingNode) {
      TextTransitive(a.originatingNode, b.originatingNode, c.originatingNode);
    }
    if TextLess(a.packetId, b.packetId) && TextLess(b.packetId, c.packetId) {
      TextTransitive(a.packetId, b.packetId, c.packetId);
    }
  }

  lemma BeforeIsWeak()
    ensures WeakOrder(Before)
  {
    forall a, b ensures !(Before(a, b) && Before(b, a)) {
      BeforeTotal(a, b);
    }
    forall a, b, c | !Before(b, a) && !Before(c, b) ensures !Before(c, a) {
      NotBeforeTransitive(a, b, c);
    }
  }

  lemma NotBeforeTransitive(a: Packet, b: Packet, c: Packet)
    requires !Before(b, a) && !Before(c, b)
    ensures !Before(c, a)
  {
    BeforeTotal(a, b);
    BeforeTotal(b, c);
    BeforeTotal(c, a);
    if Before(c, a) && Before(a, b) {
      BeforeTransitive(c, a, b);
    }
    if Before(c, a) && Before(b, c) {
      BeforeTransitive(b, c, a);
    }
  }

  /** Sorting keeps the packets and puts them in order. */
  lemma SortedPackets(ps: seq<Packet>)
    ensures Ascending(Sorted(ps, Before), Before)
    ensures multiset(Sorted(ps, Before)) == multiset(ps) && SamePackets(Sorted(ps, Before), ps)
  {
    BeforeIsWeak();
    SortedSpec(ps, Before);
    forall p ensures p in Sorted(ps, Before) <==> p in ps {
      assert p in multiset(Sorted(ps, Before)) <==> p in multiset(ps);
    }
  }

  // ----- Planning ---------------------------------------------------------------------------

  /** Not applied yet, and above what is known of its origin. */
  predicate Selected(c: Catalog, p: Packet) {
    p.packetId !in c.appliedPackets && p.originSequence > HighWater(c, p.originatingNode)
  }

  function Selection(c: Catalog, ps: seq<Packet>): (r: seq<Packet>)
    ensures forall x :: x in r <==> x in ps && Selected(c, x)
  {
    if ps == [] then []
    else
      var before, p := Selection(c, ps[..|ps| - 1]), ps[|ps| - 1];
      assert ps == ps[..|ps| - 1] + [p];
      if Selected(c, p) then before + [p] else before
  }

  function Plan(c: Catalog, ps: seq<Packet>): seq<Packet> {
    Sorted(Selection(c, ps), Before)
  }

  /** By origin, then number, then id, as the three stand in the packets. */
  ghost predicate InSequence(p: Packet, q: Packet) {
    && !TextLess(q.originatingNode, p.originatingNode)
    && (p.originatingNode == q.originatingNode ==>
          && p.originSequence <= q.originSequence
          && (p.originSequence == q.originSequence ==> !TextLess(q.packetId, p.packetId)))
  }

  /**
   A plan goes through the origins in the order of their names, through the packets of one origin by
   their numbers, going up, and through those of one number by their ids.
   */
  lemma PlanGoesUp(c: Catalog, ps: seq<Packet>)
    ensures var plan := Plan(c, ps); forall i, j :: 0 <= i < j < |plan| ==> InSequence(plan[i], plan[j])
  {
    var plan := Plan(c, ps);
    SortedPackets(Selection(c, ps));
    forall i, j | 0 <= i < j < |plan| ensures InSequence(plan[i], plan[j]) {
      TextTotal(plan[i].originatingNode, plan[j].originatingNode);
    }
  }

  // ----- Convergence ------------------------------------------------------------------------

  /** Node, sequence and id identify a packet. */
  ghost predicate Identified(ps: seq<Packet>) {
    forall i, j :: 0 <= i < |ps| && 0 <= j < |ps| && SameKey(ps[i], ps[j]) ==> ps[i] == ps[j]
  }

  ghost predicate SamePackets(a: seq<Packet>, b: seq<Packet>) {
    forall p :: p in a <==> p in b
  }

  function Dedup(q: seq<Packet>): seq<Packet> {
    if |q| <= 1 then q else if q[0] == q[1] then Dedup(q[1..]) else [q[0]] + Dedup(q[1..])
  }

  /** A packet that comes twice in a row has no effect the second time. */
  lemma {:induction false} DedupEffect(c: Catalog, q: seq<Packet>)
    ensures SameEffect(AbsorbAll(c, q), AbsorbAll(c, Dedup(q)))
    decreases |q|
  {
    if |q| <= 1 {
    } else {
      var (next, o) := Absorb(c, q[0]);
      if q[0] == q[1] {
        DedupEffect(c, q[1..]);
        if o.Ok? {
          AbsorbTwice(c, q[0]);
          assert AbsorbAll(next, q[1..]).0 == AbsorbAll(next, q[1..][1..]).0;
          assert AbsorbAll(c, q[1..]).0 == AbsorbAll(next, q[1..][1..]).0;
        }
      } else {
        DedupEffect(next, q[1..]);
        assert ([q[0]] + Dedup(q[1..]))[1..] == Dedup(q[1..]);
      }
    }
  }

  ghost predicate Strict(q: seq<Packet>) {
    forall i, j :: 0 <= i < j < |q| ==> Before(q[i], q[j])
  }

  lemma {:induction false} DedupHolds(q: seq<Packet>)
    ensures SamePackets(Dedup(q), q) && (q != [] ==> Dedup(q) != [] && Dedup(q)[0] == q[0])
    decreases |q|
  {
    if |q| <= 1 {
    } else {
      DedupHolds(q[1..]);
      assert q == [q[0]] + q[1..];
    }
  }

  lemma {:induction false} DedupStrict(q: seq<Packet>)
    requires Ascending(q, Before) && Identified(q)
    ensures Strict(Dedup(q))
    decreases |q|
  {
    if |q| <= 1 {
    } else {
      var rest := q[1..];
      assert forall k :: 0 <= k < |rest| ==> rest[k] == q[k + 1];
      DedupStrict(rest);
      if q[0] != q[1] {
        DedupHolds(rest);
        var d := Dedup(rest);
        BeforeTotal(q[0], q[1]);
        forall i | 0 <= i < |d| ensures Before(q[0], d[i]) {
          if i > 0 {
            BeforeTransitive(q[0], d[0], d[i]);
          }
        }
      }
    }
  }

  lemma {:induction false} StrictUnique(a: seq<Packet>, b: seq<Packet>)
    requires Strict(a) && Strict(b) && SamePackets(a, b)
    ensures a == b
    decreases |a|
  {
    if a == [] {
      FirstIn(b);
    } else {
      assert a[0] in a && a[0] in b;
      assert b[0] in b && b[0] in a;
      SameFirst(a, b);
      DropFirst(a, b);
      StrictUnique(a[1..], b[1..]);
      assert a == [a[0]] + a[1..] && b == [b[0]] + b[1..];
    }
  }

  lemma FirstIn(q: seq<Packet>)
    ensures q == [] || q[0] in q
  {
  }

  lemma SameFirst(a: seq<Packet>, b: seq<Packet>)
    requires Strict(a) && Strict(b) && a != [] && b != [] && a[0] in b && b[0] in a
    ensures a[0] == b[0]
  {
    var i :| 0 <= i < |b| && b[i] == a[0];
    var j :| 0 <= j < |a| && a[j] == b[0];
    BeforeTotal(a[0], b[0]);
  }

  lemma DropFirst(a: seq<Packet>, b: seq<Packet>)
    requires Strict(a) && Strict(b) && a != [] && b != [] && a[0] == b[0] && SamePackets(a, b)
    ensures SamePackets(a[1..], b[1..])
  {
    forall p ensures p in a[1..] <==> p in b[1..] {
      InRest(a, p);
      InRest(b, p);
    }
  }

  lemma InRest(q: seq<Packet>, p: Packet)
    requires Strict(q) && q != []
    ensures p in q[1..] <==> p in q && p != q[0]
  {
    if p in q[1..] {
      var i :| 0 <= i < |q[1..]| && q[1..][i] == p;
      assert q[i + 1] == p && Before(q[0], q[i + 1]);
      BeforeTotal(q[0], q[i + 1]);
    }
    if p in q && p != q[0] {
      var i :| 0 <= i < |q| && q[i] == p;
      assert q[1..][i - 1] == p;
    }
  }

  /** Two sorted lists of the same packets, whatever their multiplicities, are absorbed to the same effect. */
  lemma SortedListsAgree(c: Catalog, a: seq<Packet>, b: seq<Packet>)
    requires Ascending(a, Before) && Ascending(b, Before) && SamePackets(a, b) && Identified(a) && Identified(b)
    ensures SameEffect(AbsorbAll(c, a), AbsorbAll(c, b))
  {
    DedupEffect(c, a);
    DedupEffect(c, b);
    DedupStrict(a);
    DedupStrict(b);
    DedupHolds(a);
    DedupHolds(b);
    StrictUnique(Dedup(a), Dedup(b));
  }

  lemma IdentifiedSubset(ps: seq<Packet>, q: seq<Packet>)
    requires Identified(ps) && forall p :: p in q ==> p in ps
    ensures Identified(q)
  {
    forall i, j | 0 <= i < |q| && 0 <= j < |q| && SameKey(q[i], q[j]) ensures q[i] == q[j] {
      assert q[i] in ps && q[j] in ps;
      var k :| 0 <= k < |ps| && ps[k] == q[i];
      var m :| 0 <= m < |ps| && ps[m] == q[j];
    }
  }

  /**
   Convergence: nodes with the same catalog that are given the same packets, in any order and any
   number of times, end with the same catalog and the same success or error.
   */
  lemma NodesConverge(c: Catalog, a: seq<Packet>, b: seq<Packet>)
    requires Identified(a) && SamePackets(a, b)
    ensures SameEffect(AbsorbAll(c, Plan(c, a)), AbsorbAll(c, Plan(c, b)))
  {
    SortedPackets(Selection(c, a));
    SortedPackets(Selection(c, b));
    IdentifiedSubset(a, Plan(c, a));
    IdentifiedSubset(a, Plan(c, b));
    SortedListsAgree(c, Plan(c, a), Plan(c, b));
  }

  lemma {:induction false} AbsorbAllMonotone(c: Catalog, ps: seq<Packet>, node: string)
    ensures var (end, r) := AbsorbAll(c, ps);
            && c.appliedPackets <= end.appliedPackets
            && HighWater(c, node) <= HighWater(end, node)
            && (r.Ok? ==> forall p :: p in ps ==> p.packetId in end.appliedPackets)
    decreases |ps|
  {
    if ps == [] {
    } else {
      var (next, o) := Absorb(c, ps[0]);
      if o.Ok? {
        AbsorbAllMonotone(next, ps[1..], node);
        assert ps == [ps[0]] + ps[1..];
      }
    }
  }

  /** After a batch went through, planning the same packets again gives nothing to do. */
  lemma ReplanIsEmpty(c: Catalog, ps: seq<Packet>)
    requires AbsorbAll(c, Plan(c, ps)).1.Ok?
    ensures Plan(AbsorbAll(c, Plan(c, ps)).0, ps) == []
  {
    var end := AbsorbAll(c, Plan(c, ps)).0;
    SortedPackets(Selection(c, ps));
    SortedPackets(Selection(end, ps));
    forall p | p in ps ensures !Selected(end, p) {
      AbsorbAllMonotone(c, Plan(c, ps), p.originatingNode);
      assert Selected(c, p) ==> p in Plan(c, ps);
    }
    FirstIn(Plan(end, ps));
  }

  // ----- Delivery in more than one sync -----------------------------------------------------

  /** Only packets of the batch become applied. */
  lemma {:induction false} NothingElseApplied(c: Catalog, ps: seq<Packet>, id: string)
    requires id in AbsorbAll(c, ps).0.appliedPackets && id !in c.appliedPackets
    ensures exists i :: 0 <= i < |ps| && ps[i].packetId == id
    decreases |ps|
  {
    var (next, o) := Absorb(c, ps[0]);
    if id !in next.appliedPackets {
      NothingElseApplied(next, ps[1..], id);
      var i :| 0 <= i < |ps[1..]| && ps[1..][i].packetId == id;
      assert ps[i + 1].packetId == id;
    }
  }

  /** What a node knows after it synced on `a`, and then on `b`. */
  function AfterTwo(c: Catalog, a: seq<Packet>, b: seq<Packet>): Catalog {
    var mid := AbsorbAll(c, Plan(c, a)).0;
    AbsorbAll(mid, Plan(mid, b)).0
  }

  /** A packet id names one packet. */
  ghost predicate IdsIdentify(ps: seq<Packet>) {
    forall i, j :: 0 <= i < |ps| && 0 <= j < |ps| && ps[i].packetId == ps[j].packetId ==> ps[i] == ps[j]
  }

  /**
   A node that syncs twice, with success both times, has applied a packet of the second delivery iff
   the first left it applied or above the mark of its origin; otherwise it is dropped silently.
   */
  lemma LateDeliveryIff(c: Catalog, a: seq<Packet>, b: seq<Packet>, p: Packet)
    requires IdsIdentify(b) && p in b
    requires AbsorbAll(c, Plan(c, a)).1.Ok?
    requires var mid := AbsorbAll(c, Plan(c, a)).0; AbsorbAll(mid, Plan(mid, b)).1.Ok?
    ensures var mid := AbsorbAll(c, Plan(c, a)).0;
            p.packetId in AfterTwo(c, a, b).appliedPackets
            <==> p.packetId in mid.appliedPackets || p.originSequence > HighWater(mid, p.originatingNode)
  {
    var mid := AbsorbAll(c, Plan(c, a)).0;
    var plan := Plan(mid, b);
    SortedPackets(Selection(mid, b));
    AbsorbAllMonotone(mid, plan, p.originatingNode);
    assert Selected(mid, p) ==> p in plan;
    if p.packetId in AfterTwo(c, a, b).appliedPackets && p.packetId !in mid.appliedPackets {
      NothingElseApplied(mid, plan, p.packetId);
      var i :| 0 <= i < |plan| && plan[i].packetId == p.packetId;
      assert plan[i] in plan;
      SameIdSamePacket(b, plan[i], p);
    }
  }

  lemma SameIdSamePacket(ps: seq<Packet>, p: Packet, q: Packet)
    requires IdsIdentify(ps) && p in ps && q in ps && p.packetId == q.packetId
    ensures p == q
  {
    var i :| 0 <= i < |ps| && ps[i] == p;
    var j :| 0 <= j < |ps| && ps[j] == q;
  }

  /** A packet of one origin that adds a field of its own. */
  function Adds(sequence: nat, id: string): Packet {
    Packet(id, "users", AddField(id, TString, true), 0, "node", sequence)
  }

  /** Sequence 2 first and then 1: both syncs succeed, and the second applies nothing. */
  lemma LateDeliveryIsDropped(c: Catalog)
    requires c == Catalog(map[], {}, map[])
    ensures var mid := AbsorbAll(c, Plan(c, [Adds(2, "b")])).0;
            && AbsorbAll(c, Plan(c, [Adds(2, "b")])).1 == Ok(SyncApplyResult(1, 0))
            && AbsorbAll(mid, Plan(mid, [Adds(1, "a")])) == (mid, Ok(SyncApplyResult(0, 0)))
            && "a" !in mid.appliedPackets
  {
    var first, late := Adds(2, "b"), Adds(1, "a");
    Applies(c, first);
    OnePlanned(c, first);
    assert [first][1..] == [];
    OnePlanned(Absorb(c, first).0, late);
  }

  lemma Applies(c: Catalog, p: Packet)
    requires c == Catalog(map[], {}, map[]) && p == Adds(2, "b")
    ensures Absorb(c, p).1 == Ok(Applied)
    ensures Absorb(c, p).0.appliedPackets == {"b"} && HighWater(Absorb(c, p).0, "node") == 2
  {
    NotBlank("users");
    NotBlank("node");
    NotBlank("b");
  }

  lemma NotBlank(s: string)
    requires s != "" && !IsWhiteSpace(s[0])
    ensures !Blank(s)
  {
  }

  lemma OnePlanned(c: Catalog, p: Packet)
    ensures Plan(c, [p]) == if Selected(c, p) then [p] else []
  {
    assert [p][..0] == [];
    assert Selection(c, [p]) == if Selected(c, p) then [p] else [];
    assert Sorted([p], Before) == Inserted(Sorted([p][..0], Before), p, Before);
  }

  // ----- As the engine runs it --------------------------------------------------------------

  class SchemaCatalog {
    var collections: map<string, Fields>
    var appliedPackets: set<string>
    var nodeHighWater: map<string, nat>

    ghost function Model(): Catalog
      reads this
    {
      Catalog(collections, appliedPackets, nodeHighWater)
    }

    constructor ()
      ensures Model() == Catalog(map[], {}, map[])
    {
      collections, appliedPackets, nodeHighWater := map[], {}, map[];
    }

    method AbsorbTransferPacket(p: Packet) returns (r: Result<AbsorbOutcome, TransferError>)
      modifies this
      ensures (Model(), r) == Absorb(old(Model()), p)
    {
      var valid := Validate(p);
      if valid.Err? {
        return Err(valid.error);
      }
      if p.packetId in appliedPackets {
        return Ok(IdempotentReplay);
      }
      var last := if p.originatingNode in nodeHighWater then nodeHighWater[p.originatingNode] else 0;
      if p.originSequence <= last {
        return Err(OutOfOrderSequence(p.originatingNode, p.originSequence, last));
      }
      if p.collection !in collections {
        collections := collections[p.collection := map[]];
      }
      var fields := collections[p.collection];
      match p.mutation {
        case AddField(name, fieldType, nullable) =>
          if name in fields {
            CreatedAnyway(old(collections), p.collection);
            return Err(FieldAlreadyExists(name));
          }
          fields := fields[name := FieldSchema(fieldType, nullable, p.firstSeenNs, p.packetId)];
        case DropField(name) =>
          if name !in fields {
            CreatedAnyway(old(collections), p.collection);
            return Err(FieldNotFound(name));
          }
          fields := fields - {name};
        case RenameField(from, to) =>
          if to in fields {
            CreatedAnyway(old(collections), p.collection);
            return Err(RenameTargetExists(to));
          }
          if from !in fields {
            CreatedAnyway(old(collections), p.collection);
            return Err(FieldNotFound(from));
          }
          var existing := fields[from];
          fields := fields - {from};
          fields := fields[to := existing];
      }
      Overwritten(old(collections), p.collection, collections[p.collection], fields);
      collections := collections[p.collection := fields];
      appliedPackets := appliedPackets + {p.packetId};
      nodeHighWater := nodeHighWater[p.originatingNode := p.originSequence];
      return Ok(Applied);
    }

    method AbsorbSyncBatch(ps: seq<Packet>) returns (r: Result<SyncApplyResult, TransferError>)
      modifies this
      ensures (Model(), r) == AbsorbAll(old(Model()), ps)
    {
      var applied, replayed := 0, 0;
      ghost var whole := AbsorbAll(Model(), ps);
      for i := 0 to |ps|
        invariant whole == Continued(applied, replayed, AbsorbAll(Model(), ps[i..]))
      {
        ghost var c := Model();
        assert ps[i..][1..] == ps[i + 1..];
        var out := AbsorbTransferPacket(ps[i]);
        ContinuedStep(c, ps[i..], applied, replayed);
        if out.Err? {
          return Err(out.error);
        }
        if out.value.Applied? {
          applied := applied + 1;
        } else {
          replayed := replayed + 1;
        }
      }
      return Ok(SyncApplyResult(applied, replayed));
    }

    method PlanSyncPackets(incoming: seq<Packet>) returns (out: seq<Packet>)
      ensures out == Plan(Model(), incoming)
      ensures forall i, j :: 0 <= i < j < |out| ==> InSequence(out[i], out[j])
    {
      out := [];
      for i := 0 to |incoming|
        invariant out == Selection(Model(), incoming[..i])
      {
        var p := incoming[i];
        assert incoming[..i + 1][..i] == incoming[..i];
        var last := if p.originatingNode in nodeHighWater then nodeHighWater[p.originatingNode] else 0;
        if p.packetId !in appliedPackets && p.originSequence > last {
          out := out + [p];
        }
      }
      assert incoming[..|incoming|] == incoming;
      out := Sorted(out, Before);
      PlanGoesUp(Model(), incoming);
    }
  }

  lemma CreatedAnyway(collections: map<string, Fields>, name: string)
    ensures name in collections ==> collections[name := collections[name]] == collections
  {
  }

  lemma Overwritten(collections: map<string, Fields>, name: string, was: Fields, now: Fields)
    ensures collections[name := was][name := now] == collections[name := now]
  {
  }

  /** A batch, with the counts of what came before it. */
  function Continued(applied: nat, replayed: nat, rest: (Catalog, Result<SyncApplyResult, TransferError>))
    : (Catalog, Result<SyncApplyResult, TransferError>)
  {
    match rest.1
    case Err(e) => rest
    case Ok(t) => (rest.0, Ok(SyncApplyResult(applied + t.applied, replayed + t.replayed)))
  }

  lemma TallyMoves(applied: nat, replayed: nat, o: AbsorbOutcome, end: Catalog,
                   rest: Result<SyncApplyResult, TransferError>)
    ensures Continued(applied, replayed, (end, Tallied(o, rest)))
         == Continued(if o.Applied? then applied + 1 else applied, if o.Applied? then replayed else replayed + 1,
                      (end, rest))
  {
  }

  /** One turn of the batch loop. */
  lemma ContinuedStep(c: Catalog, ps: seq<Packet>, applied: nat, replayed: nat)
    requires ps != []
    ensures Absorb(c, ps[0]).1.Err? ==>
              Continued(applied, replayed, AbsorbAll(c, ps)) == (Absorb(c, ps[0]).0, Err(Absorb(c, ps[0]).1.error))
    ensures Absorb(c, ps[0]).1.Ok? ==>
              var applies := Absorb(c, ps[0]).1.value.Applied?;
              (Continued(applied, replayed, AbsorbAll(c, ps))
               == Continued(if applies then applied + 1 else applied, if applies then replayed else replayed + 1,
                            AbsorbAll(Absorb(c, ps[0]).0, ps[1..])))
  {
    var (next, o) := Absorb(c, ps[0]);
    if o.Ok? {
      var (end, rest) := AbsorbAll(next, ps[1..]);
      assert AbsorbAll(c, ps) == (end, Tallied(o.value, rest));
      TallyMoves(applied, replayed, o.value, end, rest);
    }
  }

  /** Packets queued while a node was cut off, kept in order. */
  class PartitionBuffer {
    var queued: seq<Packet>

    constructor ()
      ensures queued == []
    {
      queued := [];
    }

    method BufferPartitionPackets(ps: seq<Packet>)
      modifies this
      ensures queued == Sorted(old(queued) + ps, Before)
      ensures SamePackets(queued, old(queued) + ps)
    {
      SortedPackets(queued + ps);
      queued := Sorted(queued + ps, Before);
    }
  }

  /** A node that catches up from its buffer ends where one that got the packets directly does. */
  lemma BufferedCatchup(c: Catalog, queued: seq<Packet>, direct: seq<Packet>)
    requires Identified(queued + direct)
    ensures SameEffect(AbsorbAll(c, Plan(c, Sorted(queued + direct, Before))), AbsorbAll(c, Plan(c, direct + queued)))
  {
    SortedPackets(queued + direct);
    IdentifiedSubset(queued + direct, Sorted(queued + direct, Before));
    NodesConverge(c, Sorted(queued + direct, Before), direct + queued);
  }
}
