/**
 * The revenue summary of an event: two grouped sums over the transaction log
 * (by selling point and by terminal, restricted to the event), and the tree
 * of selling points and their terminals annotated with those sums.
 *
 * `GroupedSums` is the grouped query as the source runs it; `TotalOf` is the
 * reference meaning of a total; `Summarize` is the tree the endpoint returns.
 */
module Aggregation {
  import opened Seqs
  import opened Models

  datatype EptSummary = EptSummary(id: Id, eptLabel: string, totalCents: int)

  datatype SellingPointSummary = SellingPointSummary(
    id: Id, name: string, totalCents: int, epts: seq<EptSummary>)

  datatype EventSummary = EventSummary(eventId: Id, sellingPoints: seq<SellingPointSummary>)

  /** The column a grouped sum groups by. */
  datatype GroupKey = BySellingPoint | ByEpt

  function KeyOf(tx: Transaction, g: GroupKey): Id {
    match g
    case BySellingPoint => tx.sellingPointId
    case ByEpt => tx.eptId
  }

  /** The amount a transaction contributes to the group `k` of event `eventId`. */
  function Contribution(tx: Transaction, eventId: Id, g: GroupKey, k: Id): int {
    if tx.eventId == eventId && KeyOf(tx, g) == k then tx.amountCents else 0
  }

  /** Reference: the sum of `amount_cents` over the event's transactions whose key is `k`. */
  function TotalOf(txs: seq<Transaction>, eventId: Id, g: GroupKey, k: Id): int {
    if txs == [] then 0
    else Contribution(txs[0], eventId, g, k) + TotalOf(txs[1..], eventId, g, k)
  }

  /** `totals.get(k, 0)`. */
  function GetOrZero(m: map<Id, int>, k: Id): int {
    if k in m then m[k] else 0
  }

  /**
   * The grouped query: for each key occurring among the event's transactions,
   * the sum of their amounts. Keys with no transaction have no group.
   */
  function GroupedSums(txs: seq<Transaction>, eventId: Id, g: GroupKey): map<Id, int> {
    if txs == [] then map[]
    else
      var rest := GroupedSums(txs[1..], eventId, g);
      if txs[0].eventId == eventId then
        var k := KeyOf(txs[0], g);
        rest[k := GetOrZero(rest, k) + txs[0].amountCents]
      else rest
  }

  /** A group's sum, defaulted to 0 when the group is absent, is the reference total. */
  lemma {:induction false} GroupedSumsAgree(txs: seq<Transaction>, eventId: Id, g: GroupKey, k: Id)
    ensures GetOrZero(GroupedSums(txs, eventId, g), k) == TotalOf(txs, eventId, g, k)
  {
    if txs != [] {
      GroupedSumsAgree(txs[1..], eventId, g, k);
    }
  }

  /** A group exists exactly for the keys that occur among the event's transactions. */
  lemma {:induction false} GroupedSumsKeys(txs: seq<Transaction>, eventId: Id, g: GroupKey, k: Id)
    ensures k in GroupedSums(txs, eventId, g) <==>
      exists tx :: tx in txs && tx.eventId == eventId && KeyOf(tx, g) == k
  {
    if txs != [] {
      GroupedSumsKeys(txs[1..], eventId, g, k);
      assert forall tx :: tx in txs <==> tx == txs[0] || tx in txs[1..] by {
        assert txs == [txs[0]] + txs[1..];
      }
    }
  }

  /** A key no transaction of the event carries totals 0. */
  lemma {:induction false} TotalOfAbsentKey(txs: seq<Transaction>, eventId: Id, g: GroupKey, k: Id)
    requires forall tx :: tx in txs && tx.eventId == eventId ==> KeyOf(tx, g) != k
    ensures TotalOf(txs, eventId, g, k) == 0
  {
    if txs != [] {
      assert txs[0] in txs;
      forall tx | tx in txs[1..] && tx.eventId == eventId ensures KeyOf(tx, g) != k {
        assert tx in txs;
      }
      TotalOfAbsentKey(txs[1..], eventId, g, k);
    }
  }

  /** The predicate "belongs to event `eventId`", named so that every use is the same function. */
  function OfEvent(eventId: Id): Transaction -> bool {
    (tx: Transaction) => tx.eventId == eventId
  }

  /** Transactions of other events never contribute: only the event's own transactions matter. */
  lemma {:induction false} TotalOfOwnTransactions(txs: seq<Transaction>, eventId: Id, g: GroupKey, k: Id)
    ensures TotalOf(txs, eventId, g, k) == TotalOf(Filter(txs, OfEvent(eventId)), eventId, g, k)
  {
    if txs != [] {
      TotalOfOwnTransactions(txs[1..], eventId, g, k);
    }
  }

  // ---------------------------------------------------------------------------
  // The summary tree

  function SummarizeEpt(txs: seq<Transaction>, eventId: Id, x: Ept): EptSummary {
    EptSummary(x.id, x.eptLabel, TotalOf(txs, eventId, ByEpt, x.id))
  }

  function SummarizeSellingPoint(t: Tables, eventId: Id, sp: SellingPoint): SellingPointSummary {
    var xs := EptsOf(t.epts, sp.id);
    SellingPointSummary(
      sp.id, sp.name, TotalOf(t.transactions, eventId, BySellingPoint, sp.id),
      seq(|xs|, j requires 0 <= j < |xs| => SummarizeEpt(t.transactions, eventId, xs[j])))
  }

  /** The summary of event `eventId`: one node per selling point, each with one node per terminal. */
  function Summarize(t: Tables, eventId: Id): EventSummary {
    var sps := SellingPointsOf(t.sellingPoints, eventId);
    EventSummary(eventId, seq(|sps|, i requires 0 <= i < |sps| => SummarizeSellingPoint(t, eventId, sps[i])))
  }

  /**
   * One node per selling point of the event, in table order, carrying that
   * selling point's id, name and total; under it one node per terminal of
   * that selling point, in table order, carrying its id, label and total.
   * An event with no selling points has an empty tree.
   */
  lemma SummaryShape(t: Tables, eventId: Id)
    ensures var r := Summarize(t, eventId);
      var sps := SellingPointsOf(t.sellingPoints, eventId);
      && r.eventId == eventId
      && |r.sellingPoints| == |sps|
      && (sps == [] ==> r.sellingPoints == [])
      && forall i :: 0 <= i < |sps| ==>
           var n := r.sellingPoints[i];
           var xs := EptsOf(t.epts, sps[i].id);
           && n.id == sps[i].id && n.name == sps[i].name
           && n.totalCents == TotalOf(t.transactions, eventId, BySellingPoint, sps[i].id)
           && |n.epts| == |xs|
           && forall j :: 0 <= j < |xs| ==>
                && n.epts[j].id == xs[j].id && n.epts[j].eptLabel == xs[j].eptLabel
                && n.epts[j].totalCents == TotalOf(t.transactions, eventId, ByEpt, xs[j].id)
  {
  }

  /**
   * With unique selling-point ids the tree holds exactly one node for each
   * selling point of the event (and, by SummaryShape, nothing else).
   */
  lemma SummaryCoversCatalogue(t: Tables, eventId: Id)
    requires DistinctBy(t.sellingPoints, SellingPointKey)
    ensures var r := Summarize(t, eventId);
      && (forall sp :: sp in t.sellingPoints && sp.eventId == eventId ==>
            exists i :: 0 <= i < |r.sellingPoints| && r.sellingPoints[i].id == sp.id
                        && r.sellingPoints[i].name == sp.name)
      && (forall i, j :: 0 <= i < j < |r.sellingPoints| ==>
            r.sellingPoints[i].id != r.sellingPoints[j].id)
  {
    var sps := SellingPointsOf(t.sellingPoints, eventId);
    FilterKeepsDistinct(t.sellingPoints, InEvent(eventId), SellingPointKey);
    SummaryShape(t, eventId);
    var nodes := Summarize(t, eventId).sellingPoints;
    NodesCoverSellingPoints(nodes, sps, t.sellingPoints, eventId);
  }

  lemma NodesCoverSellingPoints(nodes: seq<SellingPointSummary>, sps: seq<SellingPoint>,
                                all: seq<SellingPoint>, eventId: Id)
    requires |nodes| == |sps| && DistinctBy(sps, SellingPointKey)
    requires forall sp :: sp in sps <==> sp in all && sp.eventId == eventId
    requires forall i :: 0 <= i < |sps| ==> nodes[i].id == sps[i].id && nodes[i].name == sps[i].name
    ensures forall sp :: sp in all && sp.eventId == eventId ==>
      exists i :: 0 <= i < |nodes| && nodes[i].id == sp.id && nodes[i].name == sp.name
    ensures forall i, j :: 0 <= i < j < |nodes| ==> nodes[i].id != nodes[j].id
  {
    forall sp | sp in all && sp.eventId == eventId
      ensures exists i :: 0 <= i < |nodes| && nodes[i].id == sp.id && nodes[i].name == sp.name
    {
      var i :| 0 <= i < |sps| && sps[i] == sp;
      assert nodes[i].id == sp.id;
    }
    forall i, j | 0 <= i < j < |nodes| ensures nodes[i].id != nodes[j].id {
      assert SellingPointKey(sps[i]) != SellingPointKey(sps[j]);
    }
  }

  /** Over a log with no transaction of the event, every total in the tree is 0, none is omitted. */
  lemma SummaryOfQuietEvent(t: Tables, eventId: Id)
    requires forall tx :: tx in t.transactions ==> tx.eventId != eventId
    ensures var r := Summarize(t, eventId);
      && |r.sellingPoints| == |SellingPointsOf(t.sellingPoints, eventId)|
      && forall i :: 0 <= i < |r.sellingPoints| ==>
           && r.sellingPoints[i].totalCents == 0
           && |r.sellingPoints[i].epts| == |EptsOf(t.epts, r.sellingPoints[i].id)|
           && forall j :: 0 <= j < |r.sellingPoints[i].epts| ==> r.sellingPoints[i].epts[j].totalCents == 0
  {
    SummaryShape(t, eventId);
    var sps := SellingPointsOf(t.sellingPoints, eventId);
    forall k | k in KeySet(t.sellingPoints, SellingPointKey) + KeySet(t.epts, EptKey)
      ensures TotalOf(t.transactions, eventId, BySellingPoint, k) == 0
      ensures TotalOf(t.transactions, eventId, ByEpt, k) == 0
    {
      TotalOfAbsentKey(t.transactions, eventId, BySellingPoint, k);
      TotalOfAbsentKey(t.transactions, eventId, ByEpt, k);
    }
    forall i | 0 <= i < |sps| ensures sps[i].id in KeySet(t.sellingPoints, SellingPointKey) {
      assert sps[i] in sps;
    }
    forall i, j | 0 <= i < |sps| && 0 <= j < |EptsOf(t.epts, sps[i].id)|
      ensures EptsOf(t.epts, sps[i].id)[j].id in KeySet(t.epts, EptKey)
    {
      assert EptsOf(t.epts, sps[i].id)[j] in EptsOf(t.epts, sps[i].id);
    }
  }

  /** The numbers in the tree depend only on the event's own transactions. */
  lemma SummaryIgnoresOtherEvents(t: Tables, eventId: Id)
    ensures Summarize(t, eventId) ==
            Summarize(t.(transactions := Filter(t.transactions, OfEvent(eventId))), eventId)
  {
    var t' := t.(transactions := Filter(t.transactions, OfEvent(eventId)));
    var sps := SellingPointsOf(t.sellingPoints, eventId);
    forall i | 0 <= i < |sps|
      ensures SummarizeSellingPoint(t, eventId, sps[i]) == SummarizeSellingPoint(t', eventId, sps[i])
    {
      TotalOfOwnTransactions(t.transactions, eventId, BySellingPoint, sps[i].id);
      var xs := EptsOf(t.epts, sps[i].id);
      forall j | 0 <= j < |xs|
        ensures SummarizeEpt(t.transactions, eventId, xs[j]) == SummarizeEpt(t'.transactions, eventId, xs[j])
      {
        TotalOfOwnTransactions(t.transactions, eventId, ByEpt, xs[j].id);
      }
    }
  }

  lemma {:induction false} TotalOfAppend(txs: seq<Transaction>, tx: Transaction, eventId: Id, g: GroupKey, k: Id)
    ensures TotalOf(txs + [tx], eventId, g, k) == TotalOf(txs, eventId, g, k) + Contribution(tx, eventId, g, k)
  {
    if txs != [] {
      assert (txs + [tx])[1..] == txs[1..] + [tx];
      TotalOfAppend(txs[1..], tx, eventId, g, k);
    }
  }

  /**
   * Recording one more transaction leaves the shape of every tree as it was
   * and adds the amount to the total of its own selling point and its own
   * terminal in its own event's tree, and to no other total.
   */
  lemma SummaryAfterInsert(t: Tables, tx: Transaction, eventId: Id)
    ensures var before := Summarize(t, eventId);
      var after := Summarize(t.(transactions := t.transactions + [tx]), eventId);
      && after.eventId == before.eventId
      && |after.sellingPoints| == |before.sellingPoints|
      && forall i :: 0 <= i < |before.sellingPoints| ==>
           var b := before.sellingPoints[i];
           var a := after.sellingPoints[i];
           && a.id == b.id && a.name == b.name && |a.epts| == |b.epts|
           && a.totalCents == b.totalCents +
                (if tx.eventId == eventId && tx.sellingPointId == b.id then tx.amountCents else 0)
           && forall j :: 0 <= j < |b.epts| ==>
                && a.epts[j].id == b.epts[j].id && a.epts[j].eptLabel == b.epts[j].eptLabel
                && a.epts[j].totalCents == b.epts[j].totalCents +
                     (if tx.eventId == eventId && tx.eptId == b.epts[j].id then tx.amountCents else 0)
  {
    var t' := t.(transactions := t.transactions + [tx]);
    var sps := SellingPointsOf(t.sellingPoints, eventId);
    SummaryShape(t, eventId);
    SummaryShape(t', eventId);
    forall i | 0 <= i < |sps|
      ensures TotalOf(t'.transactions, eventId, BySellingPoint, sps[i].id) ==
              TotalOf(t.transactions, eventId, BySellingPoint, sps[i].id) +
              Contribution(tx, eventId, BySellingPoint, sps[i].id)
      ensures forall j :: 0 <= j < |EptsOf(t.epts, sps[i].id)| ==>
              TotalOf(t'.transactions, eventId, ByEpt, EptsOf(t.epts, sps[i].id)[j].id) ==
              TotalOf(t.transactions, eventId, ByEpt, EptsOf(t.epts, sps[i].id)[j].id) +
              Contribution(tx, eventId, ByEpt, EptsOf(t.epts, sps[i].id)[j].id)
    {
      TotalOfAppend(t.transactions, tx, eventId, BySellingPoint, sps[i].id);
      var xs := EptsOf(t.epts, sps[i].id);
      forall j | 0 <= j < |xs|
        ensures TotalOf(t'.transactions, eventId, ByEpt, xs[j].id) ==
                TotalOf(t.transactions, eventId, ByEpt, xs[j].id) + Contribution(tx, eventId, ByEpt, xs[j].id)
      {
        TotalOfAppend(t.transactions, tx, eventId, ByEpt, xs[j].id);
      }
    }
  }

  // ---------------------------------------------------------------------------
  // Conservation of totals

  /** The amount of every transaction of the event, summed. */
  function EventTotal(txs: seq<Transaction>, eventId: Id): int {
    if txs == [] then 0
    else (if txs[0].eventId == eventId then txs[0].amountCents else 0) + EventTotal(txs[1..], eventId)
  }

  /** The totals of the given keys, summed. */
  function SumOfTotals(txs: seq<Transaction>, eventId: Id, g: GroupKey, keys: seq<Id>): int {
    if keys == [] then 0
    else TotalOf(txs, eventId, g, keys[0]) + SumOfTotals(txs, eventId, g, keys[1..])
  }

  ghost predicate NoRepeats(keys: seq<Id>) {
    forall i, j :: 0 <= i < j < |keys| ==> keys[i] != keys[j]
  }

  lemma {:induction false} SumOfTotalsCons(tx: Transaction, rest: seq<Transaction>, eventId: Id, g: GroupKey, keys: seq<Id>)
    requires NoRepeats(keys)
    ensures SumOfTotals([tx] + rest, eventId, g, keys) ==
            (if tx.eventId == eventId && KeyOf(tx, g) in keys then tx.amountCents else 0)
            + SumOfTotals(rest, eventId, g, keys)
  {
    if keys != [] {
      assert NoRepeats(keys[1..]) by {
        forall i, j | 0 <= i < j < |keys[1..]| ensures keys[1..][i] != keys[1..][j] {
          assert keys[1..][i] == keys[i + 1] && keys[1..][j] == keys[j + 1];
        }
      }
      SumOfTotalsCons(tx, rest, eventId, g, keys[1..]);
      assert ([tx] + rest)[1..] == rest;
      assert keys[0] !in keys[1..] by {
        forall i | 0 <= i < |keys[1..]| ensures keys[1..][i] != keys[0] {
          assert keys[1..][i] == keys[i + 1];
        }
      }
      assert KeyOf(tx, g) in keys <==> KeyOf(tx, g) == keys[0] || KeyOf(tx, g) in keys[1..] by {
        assert keys == [keys[0]] + keys[1..];
      }
    }
  }

  /**
   * When every transaction of the event carries one of the given, distinct
   * keys, the per-key totals add up to the event's total.
   */
  lemma {:induction false} TotalsConserved(txs: seq<Transaction>, eventId: Id, g: GroupKey, keys: seq<Id>)
    requires NoRepeats(keys)
    requires forall tx :: tx in txs && tx.eventId == eventId ==> KeyOf(tx, g) in keys
    ensures SumOfTotals(txs, eventId, g, keys) == EventTotal(txs, eventId)
  {
    if txs == [] {
      SumOfTotalsEmpty(eventId, g, keys);
    } else {
      assert txs == [txs[0]] + txs[1..];
      assert txs[0] in txs;
      forall tx | tx in txs[1..] && tx.eventId == eventId ensures KeyOf(tx, g) in keys {
        assert tx in txs;
      }
      SumOfTotalsCons(txs[0], txs[1..], eventId, g, keys);
      TotalsConserved(txs[1..], eventId, g, keys);
    }
  }

  lemma {:induction false} SumOfTotalsEmpty(eventId: Id, g: GroupKey, keys: seq<Id>)
    ensures SumOfTotals([], eventId, g, keys) == 0
  {
    if keys != [] {
      SumOfTotalsEmpty(eventId, g, keys[1..]);
    }
  }

  /** The node totals of a summary, summed. */
  function SumOfNodeTotals(nodes: seq<SellingPointSummary>): int {
    if nodes == [] then 0 else nodes[0].totalCents + SumOfNodeTotals(nodes[1..])
  }

  function NodeIds(nodes: seq<SellingPointSummary>): seq<Id> {
    seq(|nodes|, i requires 0 <= i < |nodes| => nodes[i].id)
  }

  lemma {:induction false} NodeTotalsAreTotals(nodes: seq<SellingPointSummary>, txs: seq<Transaction>, eventId: Id)
    requires forall i :: 0 <= i < |nodes| ==>
      nodes[i].totalCents == TotalOf(txs, eventId, BySellingPoint, nodes[i].id)
    ensures SumOfNodeTotals(nodes) == SumOfTotals(txs, eventId, BySellingPoint, NodeIds(nodes))
  {
    if nodes != [] {
      assert NodeIds(nodes)[1..] == NodeIds(nodes[1..]);
      NodeTotalsAreTotals(nodes[1..], txs, eventId);
    }
  }

  /**
   * Conservation: when every transaction of the event names one of the
   * event's selling points, the selling-point totals of the summary add up
   * to the sum of all the event's amounts.
   */
  lemma SummaryConservesTotal(t: Tables, eventId: Id)
    requires Consistent(t)
    requires forall tx :: tx in t.transactions && tx.eventId == eventId ==>
      exists sp :: sp in t.sellingPoints && sp.eventId == eventId && sp.id == tx.sellingPointId
    ensures SumOfNodeTotals(Summarize(t, eventId).sellingPoints) == EventTotal(t.transactions, eventId)
  {
    var nodes := Summarize(t, eventId).sellingPoints;
    SummaryCoversCatalogue(t, eventId);
    var keys := NodeIds(nodes);
    assert NoRepeats(keys) by {
      forall a, b | 0 <= a < b < |keys| ensures keys[a] != keys[b] {
        assert nodes[a].id != nodes[b].id;
      }
    }
    forall tx | tx in t.transactions && tx.eventId == eventId ensures KeyOf(tx, BySellingPoint) in keys {
      var sp :| sp in t.sellingPoints && sp.eventId == eventId && sp.id == tx.sellingPointId;
      var i :| 0 <= i < |nodes| && nodes[i].id == sp.id && nodes[i].name == sp.name;
      assert keys[i] == tx.sellingPointId;
    }
    forall i | 0 <= i < |nodes|
      ensures nodes[i].totalCents == TotalOf(t.transactions, eventId, BySellingPoint, nodes[i].id)
    {
      SummaryShape(t, eventId);
    }
    NodeTotalsAreTotals(nodes, t.transactions, eventId);
    TotalsConserved(t.transactions, eventId, BySellingPoint, keys);
  }

  // Likewise for the terminal totals.

  function SumOfEptTotals(es: seq<EptSummary>): int {
    if es == [] then 0 else es[0].totalCents + SumOfEptTotals(es[1..])
  }

  /** Every terminal total of the tree, summed over all selling-point nodes. */
  function SumOfAllEptTotals(nodes: seq<SellingPointSummary>): int {
    if nodes == [] then 0 else SumOfEptTotals(nodes[0].epts) + SumOfAllEptTotals(nodes[1..])
  }

  function EptIds(es: seq<EptSummary>): seq<Id> {
    seq(|es|, j requires 0 <= j < |es| => es[j].id)
  }

  /** The terminal ids of the tree, node after node. */
  function AllEptIds(nodes: seq<SellingPointSummary>): seq<Id> {
    if nodes == [] then [] else EptIds(nodes[0].epts) + AllEptIds(nodes[1..])
  }

  lemma {:induction false} SumOfTotalsAppend(txs: seq<Transaction>, eventId: Id, g: GroupKey, k1: seq<Id>, k2: seq<Id>)
    ensures SumOfTotals(txs, eventId, g, k1 + k2) ==
            SumOfTotals(txs, eventId, g, k1) + SumOfTotals(txs, eventId, g, k2)
  {
    if k1 == [] {
      assert k1 + k2 == k2;
    } else {
      assert (k1 + k2)[1..] == k1[1..] + k2;
      SumOfTotalsAppend(txs, eventId, g, k1[1..], k2);
    }
  }

  lemma {:induction false} EptTotalsAreTotals(es: seq<EptSummary>, txs: seq<Transaction>, eventId: Id)
    requires forall j :: 0 <= j < |es| ==> es[j].totalCents == TotalOf(txs, eventId, ByEpt, es[j].id)
    ensures SumOfEptTotals(es) == SumOfTotals(txs, eventId, ByEpt, EptIds(es))
  {
    if es != [] {
      assert EptIds(es)[1..] == EptIds(es[1..]);
      EptTotalsAreTotals(es[1..], txs, eventId);
    }
  }

  lemma {:induction false} AllEptTotalsAreTotals(nodes: seq<SellingPointSummary>, txs: seq<Transaction>, eventId: Id)
    requires forall i, j :: 0 <= i < |nodes| && 0 <= j < |nodes[i].epts| ==>
      nodes[i].epts[j].totalCents == TotalOf(txs, eventId, ByEpt, nodes[i].epts[j].id)
    ensures SumOfAllEptTotals(nodes) == SumOfTotals(txs, eventId, ByEpt, AllEptIds(nodes))
  {
    if nodes != [] {
      EptTotalsAreTotals(nodes[0].epts, txs, eventId);
      AllEptTotalsAreTotals(nodes[1..], txs, eventId);
      SumOfTotalsAppend(txs, eventId, ByEpt, EptIds(nodes[0].epts), AllEptIds(nodes[1..]));
    }
  }

  lemma {:induction false} AllEptIdsContains(nodes: seq<SellingPointSummary>)
    ensures forall i, j :: 0 <= i < |nodes| && 0 <= j < |nodes[i].epts| ==> nodes[i].epts[j].id in AllEptIds(nodes)
  {
    if nodes != [] {
      AllEptIdsContains(nodes[1..]);
      forall i, j | 0 <= i < |nodes| && 0 <= j < |nodes[i].epts|
        ensures nodes[i].epts[j].id in AllEptIds(nodes)
      {
        if i == 0 {
          assert EptIds(nodes[0].epts)[j] == nodes[i].epts[j].id;
        } else {
          assert nodes[i] == nodes[1..][i - 1];
        }
      }
    }
  }

  /** When `owner` maps each terminal id of a node to that node's id, every id of the tree is owned by some node. */
  lemma {:induction false} AllEptIdsOwned(nodes: seq<SellingPointSummary>, owner: Id -> Id)
    requires forall i, j :: 0 <= i < |nodes| && 0 <= j < |nodes[i].epts| ==> owner(nodes[i].epts[j].id) == nodes[i].id
    ensures forall k :: k in AllEptIds(nodes) ==> owner(k) in NodeIds(nodes)
  {
    if nodes != [] {
      forall i, j | 0 <= i < |nodes[1..]| && 0 <= j < |nodes[1..][i].epts|
        ensures owner(nodes[1..][i].epts[j].id) == nodes[1..][i].id
      {
        assert nodes[1..][i] == nodes[i + 1];
      }
      AllEptIdsOwned(nodes[1..], owner);
      forall k | k in AllEptIds(nodes) ensures owner(k) in NodeIds(nodes) {
        if k in EptIds(nodes[0].epts) {
          var j :| 0 <= j < |nodes[0].epts| && EptIds(nodes[0].epts)[j] == k;
          assert NodeIds(nodes)[0] == nodes[0].id;
        } else {
          assert k in AllEptIds(nodes[1..]);
          var m :| 0 <= m < |NodeIds(nodes[1..])| && NodeIds(nodes[1..])[m] == owner(k);
          assert NodeIds(nodes)[m + 1] == owner(k);
        }
      }
    }
  }

  lemma NoRepeatsAppend(a: seq<Id>, b: seq<Id>)
    requires NoRepeats(a) && NoRepeats(b)
    requires forall k :: k in a ==> k !in b
    ensures NoRepeats(a + b)
  {
    var q := a + b;
    forall i, j | 0 <= i < j < |q| ensures q[i] != q[j] {
      if j < |a| {
        assert q[i] == a[i] && q[j] == a[j];
      } else if i >= |a| {
        assert q[i] == b[i - |a|] && q[j] == b[j - |a|];
      } else {
        assert q[i] == a[i] && q[j] == b[j - |a|];
        assert a[i] in a;
      }
    }
  }

  /** Distinct node ids, distinct terminal ids within a node and an owner function make all terminal ids distinct. */
  lemma {:induction false} AllEptIdsNoRepeats(nodes: seq<SellingPointSummary>, owner: Id -> Id)
    requires NoRepeats(NodeIds(nodes))
    requires forall i :: 0 <= i < |nodes| ==> NoRepeats(EptIds(nodes[i].epts))
    requires forall i, j :: 0 <= i < |nodes| && 0 <= j < |nodes[i].epts| ==> owner(nodes[i].epts[j].id) == nodes[i].id
    ensures NoRepeats(AllEptIds(nodes))
  {
    if nodes != [] {
      var rest := nodes[1..];
      assert NodeIds(nodes)[1..] == NodeIds(rest);
      assert NoRepeats(NodeIds(rest)) by {
        forall i, j | 0 <= i < j < |NodeIds(rest)| ensures NodeIds(rest)[i] != NodeIds(rest)[j] {
          assert NodeIds(rest)[i] == NodeIds(nodes)[i + 1] && NodeIds(rest)[j] == NodeIds(nodes)[j + 1];
        }
      }
      forall i | 0 <= i < |rest| ensures NoRepeats(EptIds(rest[i].epts)) {
        assert rest[i] == nodes[i + 1];
      }
      forall i, j | 0 <= i < |rest| && 0 <= j < |rest[i].epts| ensures owner(rest[i].epts[j].id) == rest[i].id {
        assert rest[i] == nodes[i + 1];
      }
      AllEptIdsNoRepeats(rest, owner);
      AllEptIdsOwned(rest, owner);
      forall m | 0 <= m < |NodeIds(rest)| ensures NodeIds(rest)[m] != nodes[0].id {
        assert NodeIds(rest)[m] == NodeIds(nodes)[m + 1] && NodeIds(nodes)[0] == nodes[0].id;
      }
      forall k | k in EptIds(nodes[0].epts) ensures k !in AllEptIds(rest) {
        var j :| 0 <= j < |nodes[0].epts| && EptIds(nodes[0].epts)[j] == k;
        assert owner(k) == nodes[0].id;
      }
      NoRepeatsAppend(EptIds(nodes[0].epts), AllEptIds(rest));
    }
  }

  /** The selling point owning the terminal with id `k` (`k` itself when there is none). */
  function EptOwner(epts: seq<Ept>, k: Id): Id {
    match IndexOf(epts, EptKey, k)
    case None => k
    case Some(i) => epts[i].sellingPointId
  }

  lemma EptOwnerOf(epts: seq<Ept>, x: Ept)
    requires DistinctBy(epts, EptKey) && x in epts
    ensures EptOwner(epts, x.id) == x.sellingPointId
  {
    var i := IndexOf(epts, EptKey, x.id).value;
    assert epts[i] in epts;
    DistinctMembers(epts, EptKey, epts[i], x);
  }

  /** In a consistent database the terminal ids of the tree are distinct. */
  lemma TreeEptIds(t: Tables, eventId: Id)
    requires Consistent(t)
    ensures var nodes := Summarize(t, eventId).sellingPoints;
      NoRepeats(AllEptIds(nodes))
  {
    var nodes := Summarize(t, eventId).sellingPoints;
    var sps := SellingPointsOf(t.sellingPoints, eventId);
    SummaryShape(t, eventId);
    SummaryCoversCatalogue(t, eventId);
    var owner := (k: Id) => EptOwner(t.epts, k);
    forall i | 0 <= i < |nodes| ensures NoRepeats(EptIds(nodes[i].epts)) {
      var xs := EptsOf(t.epts, sps[i].id);
      FilterKeepsDistinct(t.epts, AtSellingPoint(sps[i].id), EptKey);
      forall a, b | 0 <= a < b < |EptIds(nodes[i].epts)| ensures EptIds(nodes[i].epts)[a] != EptIds(nodes[i].epts)[b] {
        assert EptKey(xs[a]) != EptKey(xs[b]);
      }
    }
    forall i, j | 0 <= i < |nodes| && 0 <= j < |nodes[i].epts| ensures owner(nodes[i].epts[j].id) == nodes[i].id {
      var xs := EptsOf(t.epts, sps[i].id);
      assert xs[j] in xs;
      EptOwnerOf(t.epts, xs[j]);
    }
    assert NoRepeats(NodeIds(nodes)) by {
      forall a, b | 0 <= a < b < |NodeIds(nodes)| ensures NodeIds(nodes)[a] != NodeIds(nodes)[b] {
        assert nodes[a].id != nodes[b].id;
      }
    }
    AllEptIdsNoRepeats(nodes, owner);
  }

  /** Every terminal of a selling point of the event has its id in the tree. */
  lemma TerminalInTree(t: Tables, eventId: Id, x: Ept, sp: SellingPoint)
    requires x in t.epts && sp in t.sellingPoints && sp.eventId == eventId && x.sellingPointId == sp.id
    ensures x.id in AllEptIds(Summarize(t, eventId).sellingPoints)
  {
    var nodes := Summarize(t, eventId).sellingPoints;
    var sps := SellingPointsOf(t.sellingPoints, eventId);
    SummaryShape(t, eventId);
    AllEptIdsContains(nodes);
    var i :| 0 <= i < |sps| && sps[i] == sp;
    var xs := EptsOf(t.epts, sps[i].id);
    var j :| 0 <= j < |xs| && xs[j] == x;
    assert nodes[i].epts[j].id == x.id;
  }

  /**
   * Conservation for terminals: when every transaction of the event names a
   * terminal of one of the event's selling points, the terminal totals of
   * the whole tree add up to the sum of all the event's amounts.
   */
  lemma SummaryConservesEptTotals(t: Tables, eventId: Id)
    requires Consistent(t)
    requires forall tx :: tx in t.transactions && tx.eventId == eventId ==>
      exists x, sp :: && x in t.epts && sp in t.sellingPoints && sp.eventId == eventId
                      && x.sellingPointId == sp.id && x.id == tx.eptId
    ensures SumOfAllEptTotals(Summarize(t, eventId).sellingPoints) == EventTotal(t.transactions, eventId)
  {
    var nodes := Summarize(t, eventId).sellingPoints;
    TreeEptIds(t, eventId);
    var keys := AllEptIds(nodes);
    forall tx | tx in t.transactions && tx.eventId == eventId ensures KeyOf(tx, ByEpt) in keys {
      var x, sp :| && x in t.epts && sp in t.sellingPoints && sp.eventId == eventId
                   && x.sellingPointId == sp.id && x.id == tx.eptId;
      TerminalInTree(t, eventId, x, sp);
    }
    forall i, j | 0 <= i < |nodes| && 0 <= j < |nodes[i].epts|
      ensures nodes[i].epts[j].totalCents == TotalOf(t.transactions, eventId, ByEpt, nodes[i].epts[j].id)
    {
      SummaryShape(t, eventId);
    }
    AllEptTotalsAreTotals(nodes, t.transactions, eventId);
    TotalsConserved(t.transactions, eventId, ByEpt, keys);
  }
}
