/** The short-code dictionary of a field: its most frequent value hashes, at most 254 of them. */
module Dictionaries {
  import opened Wrappers
  import opened Ordering

  const MAX_VALUE_CODES_PER_FIELD: nat := 254

  datatype CodebookEntry = CodebookEntry(code: nat, valueHash: nat, frequency: nat)

  datatype Dictionary = Dictionary(totalValues: nat, coveredValues: nat, entries: seq<CodebookEntry>) {
    predicate IsComplete() {
      totalValues > 0 && coveredValues == totalValues
    }

    predicate ContainsHash(hash: nat) {
      exists k | 0 <= k < |entries| :: entries[k].valueHash == hash
    }
  }

  /** A value hash and how often it was seen. */
  datatype Tally = Tally(hash: nat, count: nat)

  /** More frequent first, then by hash. */
  predicate Ahead(a: Tally, b: Tally) {
    a.count > b.count || (a.count == b.count && a.hash < b.hash)
  }

  lemma AheadIsTotal()
    ensures StrictTotalOrder(Ahead)
  {
  }

  function Tallies(freqs: map<nat, nat>): (ts: set<Tally>)
    ensures forall t :: t in ts <==> t.hash in freqs && t.count == freqs[t.hash]
  {
    set h | h in freqs :: Tally(h, freqs[h])
  }

  ghost function Ranked(freqs: map<nat, nat>): seq<Tally> {
    Arrange(Tallies(freqs), Ahead)
  }

  function Sum(ts: seq<Tally>): nat {
    if ts == [] then 0 else Sum(ts[..|ts| - 1]) + ts[|ts| - 1].count
  }

  function Entries(ts: seq<Tally>): (es: seq<CodebookEntry>)
    ensures |es| == |ts|
    ensures forall k :: 0 <= k < |es| ==> es[k] == CodebookEntry(k + 1, ts[k].hash, ts[k].count)
  {
    seq(|ts|, k requires 0 <= k < |ts| => CodebookEntry(k + 1, ts[k].hash, ts[k].count))
  }

  ghost function DictionaryOf(freqs: map<nat, nat>): Dictionary {
    var ts := Ranked(freqs);
    var kept := ts[..Min(|ts|, MAX_VALUE_CODES_PER_FIELD)];
    Dictionary(Sum(ts), Sum(kept), Entries(kept))
  }

  lemma RankedHolds(freqs: map<nat, nat>)
    ensures |Ranked(freqs)| == |freqs|
    ensures forall t :: t in Ranked(freqs) <==> t.hash in freqs && t.count == freqs[t.hash]
  {
    AheadIsTotal();
    ArrangeSpec(Tallies(freqs), Ahead);
    TalliesCount(freqs);
  }

  lemma {:induction false} TalliesCount(freqs: map<nat, nat>)
    ensures |Tallies(freqs)| == |freqs|
    decreases |freqs|
  {
    if freqs == map[] {
    } else {
      var h :| h in freqs;
      var fewer := freqs - {h};
      TalliesCount(fewer);
      assert Tallies(freqs) == Tallies(fewer) + {Tally(h, freqs[h])};
      assert fewer.Keys == freqs.Keys - {h};
    }
  }

  lemma {:induction false} SumGrows(ts: seq<Tally>, k: nat)
    requires k <= |ts| && forall i :: 0 <= i < |ts| ==> ts[i].count >= 1
    ensures Sum(ts) >= Sum(ts[..k]) + (|ts| - k)
  {
    if k < |ts| {
      var front := ts[..|ts| - 1];
      assert front[..k] == ts[..k];
      SumGrows(front, k);
    } else {
      assert ts[..k] == ts;
    }
  }

  /** A dictionary is complete iff the field had from 1 to 254 distinct value hashes. */
  lemma CompleteIff(freqs: map<nat, nat>)
    requires forall h :: h in freqs ==> freqs[h] >= 1
    ensures DictionaryOf(freqs).IsComplete() <==> 1 <= |freqs| <= MAX_VALUE_CODES_PER_FIELD
  {
    var ts := Ranked(freqs);
    RankedHolds(freqs);
    assert forall i :: 0 <= i < |ts| ==> ts[i] in ts;
    SumGrows(ts, Min(|ts|, MAX_VALUE_CODES_PER_FIELD));
    SumGrows(ts, 0);
    assert |ts| <= MAX_VALUE_CODES_PER_FIELD ==> ts[..Min(|ts|, MAX_VALUE_CODES_PER_FIELD)] == ts;
  }

  /** A complete dictionary lists exactly the value hashes seen. */
  lemma CompleteListsAll(freqs: map<nat, nat>, hash: nat)
    requires (forall h :: h in freqs ==> freqs[h] >= 1) && DictionaryOf(freqs).IsComplete()
    ensures DictionaryOf(freqs).ContainsHash(hash) <==> hash in freqs
  {
    CompleteIff(freqs);
    RankedHolds(freqs);
    var ts, entries := Ranked(freqs), DictionaryOf(freqs).entries;
    assert ts[..|ts|] == ts && entries == Entries(ts);
    if hash in freqs {
      assert Tally(hash, freqs[hash]) in ts;
      var k :| 0 <= k < |ts| && ts[k] == Tally(hash, freqs[hash]);
      assert entries[k].valueHash == hash;
    }
    if DictionaryOf(freqs).ContainsHash(hash) {
      var k :| 0 <= k < |entries| && entries[k].valueHash == hash;
      assert ts[k] in ts;
    }
  }

  // ----- What it lists -----------------------------------------------------------------------

  /** What is listed comes first: it is the more frequent, or as frequent with the smaller hash. */
  ghost predicate ListedFirst(freqs: map<nat, nat>, listed: nat, other: nat)
    requires listed in freqs && other in freqs
  {
    freqs[listed] > freqs[other] || (freqs[listed] == freqs[other] && listed < other)
  }

  /**
   A dictionary lists 254 value hashes, or all if there are fewer, each with its frequency and under
   its rank as code: the most frequent ones, in that order.
   */
  lemma ListsMostFrequent(freqs: map<nat, nat>)
    ensures var entries := DictionaryOf(freqs).entries;
            && |entries| == Min(|freqs|, 254)
            && (forall k :: 0 <= k < |entries| ==>
                  && entries[k].code == k + 1 && entries[k].valueHash in freqs
                  && entries[k].frequency == freqs[entries[k].valueHash])
            && (forall j, k :: 0 <= j < k < |entries| ==>
                  ListedFirst(freqs, entries[j].valueHash, entries[k].valueHash))
            && (forall h, k :: h in freqs && !DictionaryOf(freqs).ContainsHash(h) && 0 <= k < |entries| ==>
                  ListedFirst(freqs, entries[k].valueHash, h))
  {
    var ts, entries := Ranked(freqs), DictionaryOf(freqs).entries;
    RankedHolds(freqs);
    RankedAscends(freqs);
    forall k | 0 <= k < |ts| ensures ts[k].hash in freqs && ts[k].count == freqs[ts[k].hash] {
      assert ts[k] in ts;
    }
    forall h, k | h in freqs && !DictionaryOf(freqs).ContainsHash(h) && 0 <= k < |entries|
      ensures ListedFirst(freqs, entries[k].valueHash, h)
    {
      assert Tally(h, freqs[h]) in ts;
      var j :| 0 <= j < |ts| && ts[j] == Tally(h, freqs[h]);
      assert j < |entries| ==> entries[j].valueHash == h;
    }
  }

  lemma RankedAscends(freqs: map<nat, nat>)
    ensures Ascends(Ranked(freqs), Ahead)
  {
    AheadIsTotal();
    ArrangeSpec(Tallies(freqs), Ahead);
  }

  /** All frequencies together. */
  ghost function Total(freqs: map<nat, nat>): nat {
    if freqs == map[] then 0
    else
      var h :| h in freqs;
      freqs[h] + Total(freqs - {h})
  }

  /** In whatever order they are taken. */
  lemma {:induction false} TotalWithout(freqs: map<nat, nat>, h: nat)
    requires h in freqs
    ensures Total(freqs) == freqs[h] + Total(freqs - {h})
    decreases |freqs|
  {
    var g :| g in freqs && Total(freqs) == freqs[g] + Total(freqs - {g});
    if g != h {
      TotalWithout(freqs - {g}, h);
      TotalWithout(freqs - {h}, g);
      assert freqs - {g} - {h} == freqs - {h} - {g};
    }
  }

  lemma {:induction false} SumIsTotal(ts: seq<Tally>, freqs: map<nat, nat>)
    requires forall j, k :: 0 <= j < k < |ts| ==> ts[j].hash != ts[k].hash
    requires forall t :: t in ts <==> t.hash in freqs && t.count == freqs[t.hash]
    ensures Sum(ts) == Total(freqs)
  {
    assert forall h :: h in freqs ==> Tally(h, freqs[h]) in ts;
    if ts == [] {
      assert freqs.Keys == {};
    } else {
      var front, t := ts[..|ts| - 1], ts[|ts| - 1];
      assert t in ts;
      forall u ensures u in front <==> u.hash in freqs - {t.hash} && u.count == freqs[u.hash] {
        if u.hash in freqs && u.hash != t.hash && u.count == freqs[u.hash] {
          assert u in ts && ts == front + [t];
        }
        if u in front {
          var j :| 0 <= j < |front| && front[j] == u;
          assert ts[j] == u && ts[j] in ts;
        }
      }
      SumIsTotal(front, freqs - {t.hash});
      TotalWithout(freqs, t.hash);
    }
  }

  /** Its total is that of all frequencies. */
  lemma TotalIsOfAll(freqs: map<nat, nat>)
    ensures DictionaryOf(freqs).totalValues == Total(freqs)
  {
    var ts := Ranked(freqs);
    RankedHolds(freqs);
    RankedAscends(freqs);
    forall j, k | 0 <= j < k < |ts| ensures ts[j].hash != ts[k].hash {
      assert Ahead(ts[j], ts[k]) && ts[j] in ts && ts[k] in ts;
    }
    SumIsTotal(ts, freqs);
  }

  /** One more of a value is one more in all. */
  lemma TotalOfOneMore(freqs: map<nat, nat>, h: nat)
    ensures Total(freqs[h := (if h in freqs then freqs[h] else 0) + 1]) == Total(freqs) + 1
  {
    var more := freqs[h := (if h in freqs then freqs[h] else 0) + 1];
    TotalWithout(more, h);
    assert more - {h} == freqs - {h};
    if h in freqs {
      TotalWithout(freqs, h);
    } else {
      assert freqs - {h} == freqs;
    }
  }

  method Rank(freqs: map<nat, nat>) returns (ts: seq<Tally>)
    ensures ts == Ranked(freqs)
  {
    AheadIsTotal();
    ts := LayOut(Tallies(freqs), Ahead);
  }

  /** The dictionary of one field. */
  method BuildDictionary(freqs: map<nat, nat>) returns (d: Dictionary)
    ensures d == DictionaryOf(freqs)
  {
    var ts := Rank(freqs);
    var total := 0;
    for i := 0 to |ts|
      invariant total == Sum(ts[..i])
    {
      assert ts[..i + 1][..i] == ts[..i];
      total := total + ts[i].count;
    }
    assert ts[..|ts|] == ts;
    var entries, covered := [], 0;
    for idx := 0 to Min(|ts|, MAX_VALUE_CODES_PER_FIELD)
      invariant covered == Sum(ts[..idx])
      invariant entries == Entries(ts[..idx])
    {
      assert ts[..idx + 1][..idx] == ts[..idx];
      covered := covered + ts[idx].count;
      entries := entries + [CodebookEntry(idx + 1, ts[idx].hash, ts[idx].count)];
    }
    return Dictionary(total, covered, entries);
  }
}
