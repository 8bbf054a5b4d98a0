/**
 * The persisted records of the point-of-sale tracker (events, selling points,
 * payment terminals and transactions), the constraints the schema declares on
 * them, and the cascade the ORM relationships perform on delete.
 *
 * A database state is a `Tables` value: one sequence of rows per table, in
 * insertion order. `Consistent` is the store invariant: the declared unique
 * constraints, the foreign keys and the declared column widths.
 */
module Models {
  import opened Wrappers
  import opened Seqs

  /** Primary keys are strings (UUIDs in the source). */
  type Id = string

  /** A point in time. The model carries it but never compares or computes with it. */
  type Timestamp = int

  /** A latitude or longitude in decimal degrees, carried as an opaque value. */
  type Degrees = real

  /** The fixed set of payment-terminal providers. */
  datatype EptProvider = Worldline | SumUp | Other

  /** The string value each provider is stored and exchanged as. */
  function ProviderValue(p: EptProvider): string {
    match p
    case Worldline => "worldline"
    case SumUp => "sumup"
    case Other => "other"
  }

  /** Looking a provider up by its value: only the three declared values name one. */
  function ProviderFromValue(s: string): (r: Option<EptProvider>)
    ensures r.Some? <==> s in {"worldline", "sumup", "other"}
    ensures r.Some? ==> ProviderValue(r.value) == s
  {
    if s == "worldline" then Some(Worldline)
    else if s == "sumup" then Some(SumUp)
    else if s == "other" then Some(Other)
    else None
  }

  lemma ProviderRoundTrip(p: EptProvider)
    ensures ProviderFromValue(ProviderValue(p)) == Some(p)
  {
  }

  datatype Event = Event(id: Id, name: string, startAt: Timestamp, endAt: Timestamp)

  datatype SellingPoint = SellingPoint(id: Id, eventId: Id, name: string, latitude: Degrees, longitude: Degrees)

  datatype Ept = Ept(id: Id, sellingPointId: Id, provider: EptProvider, eptLabel: string)

  datatype Transaction = Transaction(
    id: Id,
    eventId: Id,
    sellingPointId: Id,
    eptId: Id,
    amountCents: int,
    currency: string,
    occurredAt: Timestamp,
    cardLast4: string,
    source: string,
    sourceRowHash: string)

  /** Column default of `currency`. */
  const DefaultCurrency: string := "CHF"
  /** Declared width of the `currency` column. */
  const CurrencyWidth: nat := 3
  /** Declared width of the `card_last4` column. */
  const CardLast4Width: nat := 4

  /** The value a new transaction's `currency` column takes: the given one, else the default. */
  function CurrencyColumn(given: Option<string>): (c: string)
    ensures given.Some? ==> c == given.value
    ensures given.None? ==> c == "CHF"
  {
    given.GetOr(DefaultCurrency)
  }

  /** Whether a transaction fits the declared widths of its string columns. */
  predicate FitsColumns(tx: Transaction) {
    |tx.currency| <= CurrencyWidth && |tx.cardLast4| <= CardLast4Width
  }

  /** The whole database: each table's rows in insertion order. */
  datatype Tables = Tables(
    events: seq<Event>,
    sellingPoints: seq<SellingPoint>,
    epts: seq<Ept>,
    transactions: seq<Transaction>)

  // Keys of the unique constraints.
  function EventKey(e: Event): Id { e.id }
  function EventName(e: Event): string { e.name }
  function SellingPointKey(sp: SellingPoint): Id { sp.id }
  function EptKey(x: Ept): Id { x.id }
  function TransactionKey(tx: Transaction): Id { tx.id }
  function DedupKey(tx: Transaction): (string, string) { (tx.source, tx.sourceRowHash) }

  /** Primary keys, unique event names and the unique (source, source_row_hash) pair. */
  ghost predicate KeysUnique(t: Tables) {
    && DistinctBy(t.events, EventKey)
    && DistinctBy(t.events, EventName)
    && DistinctBy(t.sellingPoints, SellingPointKey)
    && DistinctBy(t.epts, EptKey)
    && DistinctBy(t.transactions, TransactionKey)
    && DistinctBy(t.transactions, DedupKey)
  }

  /** Every foreign key names an existing row. */
  ghost predicate ReferencesResolve(t: Tables) {
    && (forall sp :: sp in t.sellingPoints ==> sp.eventId in KeySet(t.events, EventKey))
    && (forall x :: x in t.epts ==> x.sellingPointId in KeySet(t.sellingPoints, SellingPointKey))
    && (forall tx :: tx in t.transactions ==>
          && tx.eventId in KeySet(t.events, EventKey)
          && tx.sellingPointId in KeySet(t.sellingPoints, SellingPointKey)
          && tx.eptId in KeySet(t.epts, EptKey))
  }

  /** The store invariant. */
  ghost predicate Consistent(t: Tables) {
    && KeysUnique(t)
    && ReferencesResolve(t)
    && (forall tx :: tx in t.transactions ==> FitsColumns(tx))
  }

  /** "Belongs to event `eventId`", named so that every use is the same function. */
  function InEvent(eventId: Id): SellingPoint -> bool {
    (sp: SellingPoint) => sp.eventId == eventId
  }

  /** "Belongs to selling point `sellingPointId`". */
  function AtSellingPoint(sellingPointId: Id): Ept -> bool {
    (x: Ept) => x.sellingPointId == sellingPointId
  }

  /** `event.selling_points`: the selling points of an event, in table order. */
  function SellingPointsOf(sps: seq<SellingPoint>, eventId: Id): (r: seq<SellingPoint>)
    ensures forall sp :: sp in r <==> sp in sps && sp.eventId == eventId
  {
    Filter(sps, InEvent(eventId))
  }

  /** `selling_point.epts`: the terminals of a selling point, in table order. */
  function EptsOf(epts: seq<Ept>, sellingPointId: Id): (r: seq<Ept>)
    ensures forall x :: x in r <==> x in epts && x.sellingPointId == sellingPointId
  {
    Filter(epts, AtSellingPoint(sellingPointId))
  }

  lemma NoChildrenOfMissingParent(t: Tables, eventId: Id, sellingPointId: Id)
    requires Consistent(t)
    ensures eventId !in KeySet(t.events, EventKey) ==> SellingPointsOf(t.sellingPoints, eventId) == []
    ensures sellingPointId !in KeySet(t.sellingPoints, SellingPointKey) ==> EptsOf(t.epts, sellingPointId) == []
  {
    var sps := SellingPointsOf(t.sellingPoints, eventId);
    if sps != [] {
      assert sps[0] in t.sellingPoints && sps[0].eventId == eventId;
    }
    var xs := EptsOf(t.epts, sellingPointId);
    if xs != [] {
      assert xs[0] in t.epts && xs[0].sellingPointId == sellingPointId;
    }
  }

  // ---------------------------------------------------------------------------
  // Inserting and replacing rows

  lemma AddEventKeepsConsistent(t: Tables, e: Event)
    requires Consistent(t)
    requires e.id !in KeySet(t.events, EventKey)
    requires e.name !in KeySet(t.events, EventName)
    ensures Consistent(t.(events := t.events + [e]))
  {
    AppendKeepsDistinct(t.events, e, EventKey);
    AppendKeepsDistinct(t.events, e, EventName);
  }

  lemma AddSellingPointKeepsConsistent(t: Tables, sp: SellingPoint)
    requires Consistent(t)
    requires sp.id !in KeySet(t.sellingPoints, SellingPointKey)
    requires sp.eventId in KeySet(t.events, EventKey)
    ensures Consistent(t.(sellingPoints := t.sellingPoints + [sp]))
  {
    AppendKeepsDistinct(t.sellingPoints, sp, SellingPointKey);
  }

  lemma AddEptKeepsConsistent(t: Tables, x: Ept)
    requires Consistent(t)
    requires x.id !in KeySet(t.epts, EptKey)
    requires x.sellingPointId in KeySet(t.sellingPoints, SellingPointKey)
    ensures Consistent(t.(epts := t.epts + [x]))
  {
    AppendKeepsDistinct(t.epts, x, EptKey);
  }

  lemma AddTransactionKeepsConsistent(t: Tables, tx: Transaction)
    requires Consistent(t)
    requires tx.id !in KeySet(t.transactions, TransactionKey)
    requires DedupKey(tx) !in KeySet(t.transactions, DedupKey)
    requires tx.eventId in KeySet(t.events, EventKey)
    requires tx.sellingPointId in KeySet(t.sellingPoints, SellingPointKey)
    requires tx.eptId in KeySet(t.epts, EptKey)
    requires FitsColumns(tx)
    ensures Consistent(t.(transactions := t.transactions + [tx]))
  {
    AppendKeepsDistinct(t.transactions, tx, TransactionKey);
    AppendKeepsDistinct(t.transactions, tx, DedupKey);
  }

  lemma ReplaceEventKeepsConsistent(t: Tables, i: nat, e: Event)
    requires Consistent(t)
    requires i < |t.events| && e.id == t.events[i].id
    requires forall j :: 0 <= j < |t.events| && j != i ==> t.events[j].name != e.name
    ensures Consistent(t.(events := t.events[i := e]))
  {
    ReplaceKeepsDistinct(t.events, i, e, EventKey);
    ReplaceKeepsDistinct(t.events, i, e, EventName);
    ReplaceKeepsKeySet(t.events, i, e, EventKey);
  }

  lemma ReplaceSellingPointKeepsConsistent(t: Tables, i: nat, sp: SellingPoint)
    requires Consistent(t)
    requires i < |t.sellingPoints| && sp.id == t.sellingPoints[i].id
    requires sp.eventId == t.sellingPoints[i].eventId
    ensures Consistent(t.(sellingPoints := t.sellingPoints[i := sp]))
  {
    ReplaceKeepsDistinct(t.sellingPoints, i, sp, SellingPointKey);
    ReplaceKeepsKeySet(t.sellingPoints, i, sp, SellingPointKey);
    assert t.sellingPoints[i] in t.sellingPoints;
    ReplaceMember(t.sellingPoints, i, sp);
    var r := t.(sellingPoints := t.sellingPoints[i := sp]);
    forall s | s in r.sellingPoints ensures s.eventId in KeySet(r.events, EventKey) {
      var j :| 0 <= j < |r.sellingPoints| && r.sellingPoints[j] == s;
      if j != i { assert s == t.sellingPoints[j]; assert s in t.sellingPoints; }
    }
  }

  lemma ReplaceEptKeepsConsistent(t: Tables, i: nat, x: Ept)
    requires Consistent(t)
    requires i < |t.epts| && x.id == t.epts[i].id
    requires x.sellingPointId == t.epts[i].sellingPointId
    ensures Consistent(t.(epts := t.epts[i := x]))
  {
    ReplaceKeepsDistinct(t.epts, i, x, EptKey);
    ReplaceKeepsKeySet(t.epts, i, x, EptKey);
    assert t.epts[i] in t.epts;
    var r := t.(epts := t.epts[i := x]);
    forall y | y in r.epts ensures y.sellingPointId in KeySet(r.sellingPoints, SellingPointKey) {
      var j :| 0 <= j < |r.epts| && r.epts[j] == y;
      if j != i { assert y == t.epts[j]; assert y in t.epts; }
    }
  }

  // ---------------------------------------------------------------------------
  // Cascade delete

  // The row predicates Prune keeps, named so that every use refers to the same function.
  function KeepEvent(evGone: set<Id>): Event -> bool {
    (e: Event) => e.id !in evGone
  }
  function KeepSellingPoint(spGone: set<Id>): SellingPoint -> bool {
    (sp: SellingPoint) => sp.id !in spGone
  }
  function KeepEpt(eptGone: set<Id>): Ept -> bool {
    (x: Ept) => x.id !in eptGone
  }
  function KeepTransaction(evGone: set<Id>, spGone: set<Id>, eptGone: set<Id>): Transaction -> bool {
    (tx: Transaction) => tx.eventId !in evGone && tx.sellingPointId !in spGone && tx.eptId !in eptGone
  }

  /**
   * Removes the events, selling points and terminals whose ids are in the
   * given sets, and every transaction that references any of them.
   */
  function Prune(t: Tables, evGone: set<Id>, spGone: set<Id>, eptGone: set<Id>): Tables {
    Tables(
      Filter(t.events, KeepEvent(evGone)),
      Filter(t.sellingPoints, KeepSellingPoint(spGone)),
      Filter(t.epts, KeepEpt(eptGone)),
      Filter(t.transactions, KeepTransaction(evGone, spGone, eptGone)))
  }

  /** The removed sets follow the ownership tree downwards: a removed parent takes its children. */
  ghost predicate ClosedDownward(t: Tables, evGone: set<Id>, spGone: set<Id>, eptGone: set<Id>) {
    && (forall sp :: sp in t.sellingPoints && sp.eventId in evGone ==> sp.id in spGone)
    && (forall x :: x in t.epts && x.sellingPointId in spGone ==> x.id in eptGone)
  }

  lemma FilterKeySet<T(!new), K>(s: seq<T>, p: T -> bool, key: T -> K, gone: set<K>)
    requires forall x :: p(x) <==> key(x) !in gone
    ensures KeySet(Filter(s, p), key) == KeySet(s, key) - gone
  {
  }

  lemma PruneKeysUnique(t: Tables, evGone: set<Id>, spGone: set<Id>, eptGone: set<Id>)
    requires KeysUnique(t)
    ensures KeysUnique(Prune(t, evGone, spGone, eptGone))
  {
    FilterKeepsDistinct(t.events, KeepEvent(evGone), EventKey);
    FilterKeepsDistinct(t.events, KeepEvent(evGone), EventName);
    FilterKeepsDistinct(t.sellingPoints, KeepSellingPoint(spGone), SellingPointKey);
    FilterKeepsDistinct(t.epts, KeepEpt(eptGone), EptKey);
    FilterKeepsDistinct(t.transactions, KeepTransaction(evGone, spGone, eptGone), TransactionKey);
    FilterKeepsDistinct(t.transactions, KeepTransaction(evGone, spGone, eptGone), DedupKey);
  }

  lemma PruneKeySets(t: Tables, evGone: set<Id>, spGone: set<Id>, eptGone: set<Id>)
    ensures var r := Prune(t, evGone, spGone, eptGone);
      && KeySet(r.events, EventKey) == KeySet(t.events, EventKey) - evGone
      && KeySet(r.sellingPoints, SellingPointKey) == KeySet(t.sellingPoints, SellingPointKey) - spGone
      && KeySet(r.epts, EptKey) == KeySet(t.epts, EptKey) - eptGone
  {
    FilterKeySet(t.events, KeepEvent(evGone), EventKey, evGone);
    FilterKeySet(t.sellingPoints, KeepSellingPoint(spGone), SellingPointKey, spGone);
    FilterKeySet(t.epts, KeepEpt(eptGone), EptKey, eptGone);
  }

  lemma PruneKeepsConsistent(t: Tables, evGone: set<Id>, spGone: set<Id>, eptGone: set<Id>)
    requires Consistent(t)
    requires ClosedDownward(t, evGone, spGone, eptGone)
    ensures var r := Prune(t, evGone, spGone, eptGone);
      && Consistent(r)
      && KeySet(r.events, EventKey) == KeySet(t.events, EventKey) - evGone
      && KeySet(r.sellingPoints, SellingPointKey) == KeySet(t.sellingPoints, SellingPointKey) - spGone
      && KeySet(r.epts, EptKey) == KeySet(t.epts, EptKey) - eptGone
  {
    var r := Prune(t, evGone, spGone, eptGone);
    PruneKeysUnique(t, evGone, spGone, eptGone);
    PruneKeySets(t, evGone, spGone, eptGone);
    forall sp | sp in r.sellingPoints ensures sp.eventId in KeySet(r.events, EventKey) {
      assert sp in t.sellingPoints && sp.id !in spGone;
    }
    forall x | x in r.epts ensures x.sellingPointId in KeySet(r.sellingPoints, SellingPointKey) {
      assert x in t.epts && x.id !in eptGone;
    }
    forall tx | tx in r.transactions
      ensures tx.eventId in KeySet(r.events, EventKey)
      ensures tx.sellingPointId in KeySet(r.sellingPoints, SellingPointKey)
      ensures tx.eptId in KeySet(r.epts, EptKey)
      ensures FitsColumns(tx)
    {
      assert tx in t.transactions;
    }
  }

  /** Ids of the selling points owned by an event. */
  function OwnedSellingPointIds(t: Tables, eventId: Id): set<Id> {
    set sp | sp in t.sellingPoints && sp.eventId == eventId :: sp.id
  }

  /** Ids of the terminals owned by any of the given selling points. */
  function OwnedEptIds(t: Tables, spIds: set<Id>): set<Id> {
    set x | x in t.epts && x.sellingPointId in spIds :: x.id
  }

  lemma OwnedSellingPointIdsExact(t: Tables, eventId: Id)
    requires DistinctBy(t.sellingPoints, SellingPointKey)
    ensures forall sp :: sp in t.sellingPoints ==>
      (sp.id in OwnedSellingPointIds(t, eventId) <==> sp.eventId == eventId)
  {
    forall sp | sp in t.sellingPoints && sp.id in OwnedSellingPointIds(t, eventId)
      ensures sp.eventId == eventId
    {
      var sp' :| sp' in t.sellingPoints && sp'.eventId == eventId && sp'.id == sp.id;
      DistinctMembers(t.sellingPoints, SellingPointKey, sp, sp');
    }
  }

  lemma OwnedEptIdsExact(t: Tables, spIds: set<Id>)
    requires DistinctBy(t.epts, EptKey)
    ensures forall x :: x in t.epts ==> (x.id in OwnedEptIds(t, spIds) <==> x.sellingPointId in spIds)
  {
    forall x | x in t.epts && x.id in OwnedEptIds(t, spIds) ensures x.sellingPointId in spIds {
      var x' :| x' in t.epts && x'.sellingPointId in spIds && x'.id == x.id;
      DistinctMembers(t.epts, EptKey, x, x');
    }
  }

  /** Deleting an event: its selling points, their terminals and every transaction under them go too. */
  function DeleteEventCascade(t: Tables, eventId: Id): Tables {
    var spGone := OwnedSellingPointIds(t, eventId);
    Prune(t, {eventId}, spGone, OwnedEptIds(t, spGone))
  }

  /** Deleting a selling point: its terminals and every transaction under them go too. */
  function DeleteSellingPointCascade(t: Tables, sellingPointId: Id): Tables {
    Prune(t, {}, {sellingPointId}, OwnedEptIds(t, {sellingPointId}))
  }

  /** Deleting a terminal: its transactions go too. */
  function DeleteEptCascade(t: Tables, eptId: Id): Tables {
    Prune(t, {}, {}, {eptId})
  }

  lemma DeleteEventCascadeSound(t: Tables, eventId: Id)
    requires Consistent(t)
    ensures var r := DeleteEventCascade(t, eventId);
      && Consistent(r)
      && (forall e :: e in r.events <==> e in t.events && e.id != eventId)
      && (forall sp :: sp in r.sellingPoints <==> sp in t.sellingPoints && sp.eventId != eventId)
      && (forall x :: x in r.epts <==>
            x in t.epts && x.sellingPointId in KeySet(r.sellingPoints, SellingPointKey))
      && (forall tx :: tx in r.transactions <==>
            && tx in t.transactions
            && tx.eventId != eventId
            && tx.sellingPointId in KeySet(r.sellingPoints, SellingPointKey)
            && tx.eptId in KeySet(r.epts, EptKey))
  {
    var spGone := OwnedSellingPointIds(t, eventId);
    var eptGone := OwnedEptIds(t, spGone);
    var r := Prune(t, {eventId}, spGone, eptGone);
    OwnedSellingPointIdsExact(t, eventId);
    OwnedEptIdsExact(t, spGone);
    assert ClosedDownward(t, {eventId}, spGone, eptGone);
    PruneKeepsConsistent(t, {eventId}, spGone, eptGone);
  }

  lemma DeleteSellingPointCascadeSound(t: Tables, sellingPointId: Id)
    requires Consistent(t)
    ensures var r := DeleteSellingPointCascade(t, sellingPointId);
      && Consistent(r)
      && r.events == t.events
      && (forall sp :: sp in r.sellingPoints <==> sp in t.sellingPoints && sp.id != sellingPointId)
      && (forall x :: x in r.epts <==> x in t.epts && x.sellingPointId != sellingPointId)
      && (forall tx :: tx in r.transactions <==>
            && tx in t.transactions
            && tx.sellingPointId != sellingPointId
            && tx.eptId in KeySet(r.epts, EptKey))
  {
    var eptGone := OwnedEptIds(t, {sellingPointId});
    OwnedEptIdsExact(t, {sellingPointId});
    assert ClosedDownward(t, {}, {sellingPointId}, eptGone);
    PruneKeepsConsistent(t, {}, {sellingPointId}, eptGone);
    FilterAll(t.events, KeepEvent({}));
  }

  lemma DeleteEptCascadeSound(t: Tables, eptId: Id)
    requires Consistent(t)
    ensures var r := DeleteEptCascade(t, eptId);
      && Consistent(r)
      && r.events == t.events
      && r.sellingPoints == t.sellingPoints
      && (forall x :: x in r.epts <==> x in t.epts && x.id != eptId)
      && (forall tx :: tx in r.transactions <==> tx in t.transactions && tx.eptId != eptId)
  {
    PruneKeepsConsistent(t, {}, {}, {eptId});
    FilterAll(t.events, KeepEvent({}));
    FilterAll(t.sellingPoints, KeepSellingPoint({}));
  }
}
