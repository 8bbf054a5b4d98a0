/**
 * The events API: create, read, update and delete for events, their selling
 * points and their payment terminals, the storage-level insert of a
 * transaction, and the event summary.
 *
 * A `Store` is the database one request sees. Every handler keeps the store
 * invariant `Valid()`, the declared constraints of the schema. A request that
 * the database would refuse (a taken id or event name, a repeated import
 * row) is answered with an error and leaves the store as it was, as the
 * rolled-back transaction does.
 */
module Events {
  import opened Wrappers
  import opened Seqs
  import opened Models
  import opened Aggregation

  /** The ways a request fails: 404, or a constraint violation at commit. */
  datatype ApiError =
    | NotFound   // no such row, or not under the parent named in the path
    | Conflict   // primary key or unique event name already taken
    | Duplicate  // (source, source_row_hash) already imported
    | TooLong    // a string longer than its declared column width

  // ---------------------------------------------------------------------------
  // Partial updates: only the fields the client sent are applied.

  datatype EventPatch = EventPatch(name: Option<string>, startAt: Option<Timestamp>, endAt: Option<Timestamp>)

  datatype SellingPointPatch = SellingPointPatch(name: Option<string>, latitude: Option<Degrees>, longitude: Option<Degrees>)

  datatype EptPatch = EptPatch(provider: Option<EptProvider>, eptLabel: Option<string>)

  function PatchEvent(e: Event, p: EventPatch): (r: Event)
    ensures r.id == e.id
    ensures p.name.Some? ==> r.name == p.name.value
    ensures p.name.None? ==> r.name == e.name
    ensures p.startAt.Some? ==> r.startAt == p.startAt.value
    ensures p.startAt.None? ==> r.startAt == e.startAt
    ensures p.endAt.Some? ==> r.endAt == p.endAt.value
    ensures p.endAt.None? ==> r.endAt == e.endAt
  {
    Event(e.id, p.name.GetOr(e.name), p.startAt.GetOr(e.startAt), p.endAt.GetOr(e.endAt))
  }

  function PatchSellingPoint(sp: SellingPoint, p: SellingPointPatch): (r: SellingPoint)
    ensures r.id == sp.id && r.eventId == sp.eventId
    ensures p.name.Some? ==> r.name == p.name.value
    ensures p.name.None? ==> r.name == sp.name
    ensures p.latitude.Some? ==> r.latitude == p.latitude.value
    ensures p.latitude.None? ==> r.latitude == sp.latitude
    ensures p.longitude.Some? ==> r.longitude == p.longitude.value
    ensures p.longitude.None? ==> r.longitude == sp.longitude
  {
    SellingPoint(sp.id, sp.eventId, p.name.GetOr(sp.name), p.latitude.GetOr(sp.latitude), p.longitude.GetOr(sp.longitude))
  }

  function PatchEpt(x: Ept, p: EptPatch): (r: Ept)
    ensures r.id == x.id && r.sellingPointId == x.sellingPointId
    ensures p.provider.Some? ==> r.provider == p.provider.value
    ensures p.provider.None? ==> r.provider == x.provider
    ensures p.eptLabel.Some? ==> r.eptLabel == p.eptLabel.value
    ensures p.eptLabel.None? ==> r.eptLabel == x.eptLabel
  {
    Ept(x.id, x.sellingPointId, p.provider.GetOr(x.provider), p.eptLabel.GetOr(x.eptLabel))
  }

  /** An empty patch changes nothing, and applying a patch twice is applying it once. */
  lemma PatchLaws(e: Event, ep: EventPatch, sp: SellingPoint, spp: SellingPointPatch, x: Ept, xp: EptPatch)
    ensures PatchEvent(e, EventPatch(None, None, None)) == e
    ensures PatchEvent(PatchEvent(e, ep), ep) == PatchEvent(e, ep)
    ensures PatchSellingPoint(sp, SellingPointPatch(None, None, None)) == sp
    ensures PatchSellingPoint(PatchSellingPoint(sp, spp), spp) == PatchSellingPoint(sp, spp)
    ensures PatchEpt(x, EptPatch(None, None)) == x
    ensures PatchEpt(PatchEpt(x, xp), xp) == PatchEpt(x, xp)
  {
  }

  // ---------------------------------------------------------------------------
  // The store

  class Store {
    var events: seq<Event>
    var sellingPoints: seq<SellingPoint>
    var epts: seq<Ept>
    var transactions: seq<Transaction>

    function Contents(): Tables
      reads this
    {
      Tables(events, sellingPoints, epts, transactions)
    }

    /** The schema's constraints hold. */
    ghost predicate Valid()
      reads this
    {
      Consistent(Contents())
    }

    /** An empty database. */
    constructor ()
      ensures Valid()
      ensures Contents() == Tables([], [], [], [])
    {
      events := [];
      sellingPoints := [];
      epts := [];
      transactions := [];
    }

    /**
     * Replaces the whole database by a consistent one. No handler of the
     * source corresponds to it: it is the single step by which the three
     * delete handlers install the state their cascade computes.
     */
    method SetContents(t: Tables)
      requires Consistent(t)
      modifies this
      ensures Contents() == t
      ensures Valid()
    {
      events := t.events;
      sellingPoints := t.sellingPoints;
      epts := t.epts;
      transactions := t.transactions;
    }

    // ----- events -------------------------------------------------------------

    /** `GET /events/`: every event, in table order. */
    method ListEvents() returns (r: seq<Event>)
      ensures r == Contents().events
    {
      r := events;
    }

    /** `GET /events/{event_id}`. */
    method GetEvent(eventId: Id) returns (r: Result<Event, ApiError>)
      ensures r.Ok? <==> eventId in KeySet(events, EventKey)
      ensures r.Ok? ==> r.value in events && r.value.id == eventId
      ensures r.Err? ==> r.error == NotFound
    {
      var i := IndexOf(events, EventKey, eventId);
      if i.None? {
        return Err(NotFound);
      }
      r := Ok(events[i.value]);
    }

    /** `POST /events/`: a new event with a fresh id and an unused name. */
    method CreateEvent(id: Id, name: string, startAt: Timestamp, endAt: Timestamp) returns (r: Result<Event, ApiError>)
      requires Valid()
      modifies this
      ensures Valid()
      ensures r.Ok? <==> id !in old(KeySet(events, EventKey)) && name !in old(KeySet(events, EventName))
      ensures r.Ok? ==>
        && r.value == Event(id, name, startAt, endAt)
        && Contents() == old(Contents()).(events := old(events) + [r.value])
      ensures r.Err? ==> r.error == Conflict && Contents() == old(Contents())
    {
      if IndexOf(events, EventKey, id).Some? || IndexOf(events, EventName, name).Some? {
        return Err(Conflict);
      }
      var e := Event(id, name, startAt, endAt);
      AddEventKeepsConsistent(Contents(), e);
      events := events + [e];
      r := Ok(e);
    }

    /** `PATCH /events/{event_id}`: the sent fields replace the stored ones; the name stays unique. */
    method UpdateEvent(eventId: Id, patch: EventPatch) returns (r: Result<Event, ApiError>)
      requires Valid()
      modifies this
      ensures Valid()
      ensures sellingPoints == old(sellingPoints) && epts == old(epts) && transactions == old(transactions)
      ensures eventId !in old(KeySet(events, EventKey)) ==> r == Err(NotFound) && events == old(events)
      ensures eventId in old(KeySet(events, EventKey)) ==>
        var i := IndexOf(old(events), EventKey, eventId).value;
        var e := PatchEvent(old(events)[i], patch);
        if e.name in old(KeySet(events, EventName)) && e.name != old(events)[i].name
        then r == Err(Conflict) && events == old(events)
        else r == Ok(e) && events == old(events)[i := e]
    {
      var found := IndexOf(events, EventKey, eventId);
      if found.None? {
        return Err(NotFound);
      }
      var i := found.value;
      var e := PatchEvent(events[i], patch);
      var holder := IndexOf(events, EventName, e.name);
      if holder.Some? && holder.value != i {
        assert events[holder.value] in events;
        return Err(Conflict);
      }
      forall j | 0 <= j < |events| && j != i ensures events[j].name != e.name {
        assert events[j] in events;
      }
      ReplaceEventKeepsConsistent(Contents(), i, e);
      events := events[i := e];
      r := Ok(e);
    }

    /** `DELETE /events/{event_id}`: the event and everything under it. */
    method DeleteEvent(eventId: Id) returns (r: Result<(), ApiError>)
      requires Valid()
      modifies this
      ensures Valid()
      ensures r.Ok? <==> eventId in old(KeySet(events, EventKey))
      ensures r.Ok? ==> Contents() == DeleteEventCascade(old(Contents()), eventId)
      ensures r.Err? ==> r.error == NotFound && Contents() == old(Contents())
    {
      if IndexOf(events, EventKey, eventId).None? {
        return Err(NotFound);
      }
      var t := DeleteEventCascade(Contents(), eventId);
      DeleteEventCascadeSound(Contents(), eventId);
      SetContents(t);
      r := Ok(());
    }

    // ----- selling points -----------------------------------------------------

    /** `GET /events/{event_id}/selling-points`: no check that the event exists. */
    method ListSellingPoints(eventId: Id) returns (r: seq<SellingPoint>)
      requires Valid()
      ensures forall sp :: sp in r <==> sp in sellingPoints && sp.eventId == eventId
      ensures r == SellingPointsOf(sellingPoints, eventId)
      ensures eventId !in KeySet(events, EventKey) ==> r == []
    {
      NoChildrenOfMissingParent(Contents(), eventId, "");
      r := SellingPointsOf(sellingPoints, eventId);
    }

    /** `POST /events/{event_id}/selling-points`. */
    method CreateSellingPoint(eventId: Id, id: Id, name: string, latitude: Degrees, longitude: Degrees)
      returns (r: Result<SellingPoint, ApiError>)
      requires Valid()
      modifies this
      ensures Valid()
      ensures eventId !in old(KeySet(events, EventKey)) ==> r == Err(NotFound)
      ensures eventId in old(KeySet(events, EventKey)) && id in old(KeySet(sellingPoints, SellingPointKey)) ==>
        r == Err(Conflict)
      ensures r.Ok? <==>
        eventId in old(KeySet(events, EventKey)) && id !in old(KeySet(sellingPoints, SellingPointKey))
      ensures r.Ok? ==>
        && r.value == SellingPoint(id, eventId, name, latitude, longitude)
        && Contents() == old(Contents()).(sellingPoints := old(sellingPoints) + [r.value])
      ensures r.Err? ==> Contents() == old(Contents())
    {
      if IndexOf(events, EventKey, eventId).None? {
        return Err(NotFound);
      }
      if IndexOf(sellingPoints, SellingPointKey, id).Some? {
        return Err(Conflict);
      }
      var sp := SellingPoint(id, eventId, name, latitude, longitude);
      AddSellingPointKeepsConsistent(Contents(), sp);
      sellingPoints := sellingPoints + [sp];
      r := Ok(sp);
    }

    /** `PATCH /events/{event_id}/selling-points/{sp_id}`. */
    method UpdateSellingPoint(eventId: Id, spId: Id, patch: SellingPointPatch) returns (r: Result<SellingPoint, ApiError>)
      requires Valid()
      modifies this
      ensures Valid()
      ensures events == old(events) && epts == old(epts) && transactions == old(transactions)
      ensures var found := IndexOf(old(sellingPoints), SellingPointKey, spId);
        if found.None? || old(sellingPoints)[found.value].eventId != eventId
        then r == Err(NotFound) && sellingPoints == old(sellingPoints)
        else
          var sp := PatchSellingPoint(old(sellingPoints)[found.value], patch);
          r == Ok(sp) && sellingPoints == old(sellingPoints)[found.value := sp]
    {
      var found := IndexOf(sellingPoints, SellingPointKey, spId);
      if found.None? || sellingPoints[found.value].eventId != eventId {
        return Err(NotFound);
      }
      var i := found.value;
      var sp := PatchSellingPoint(sellingPoints[i], patch);
      ReplaceSellingPointKeepsConsistent(Contents(), i, sp);
      sellingPoints := sellingPoints[i := sp];
      r := Ok(sp);
    }

    /** `DELETE /events/{event_id}/selling-points/{sp_id}`: the selling point and everything under it. */
    method DeleteSellingPoint(eventId: Id, spId: Id) returns (r: Result<(), ApiError>)
      requires Valid()
      modifies this
      ensures Valid()
      ensures var found := IndexOf(old(sellingPoints), SellingPointKey, spId);
        r.Ok? <==> found.Some? && old(sellingPoints)[found.value].eventId == eventId
      ensures r.Ok? ==> Contents() == DeleteSellingPointCascade(old(Contents()), spId)
      ensures r.Err? ==> r.error == NotFound && Contents() == old(Contents())
    {
      var found := IndexOf(sellingPoints, SellingPointKey, spId);
      if found.None? || sellingPoints[found.value].eventId != eventId {
        return Err(NotFound);
      }
      var t := DeleteSellingPointCascade(Contents(), spId);
      DeleteSellingPointCascadeSound(Contents(), spId);
      SetContents(t);
      r := Ok(());
    }

    // ----- payment terminals --------------------------------------------------

    /** `GET /events/selling-points/{sp_id}/epts`: no check that the selling point exists. */
    method ListEpts(spId: Id) returns (r: seq<Ept>)
      requires Valid()
      ensures forall x :: x in r <==> x in epts && x.sellingPointId == spId
      ensures r == EptsOf(epts, spId)
      ensures spId !in KeySet(sellingPoints, SellingPointKey) ==> r == []
    {
      NoChildrenOfMissingParent(Contents(), "", spId);
      r := EptsOf(epts, spId);
    }

    /** `POST /events/selling-points/{sp_id}/epts`. */
    method CreateEpt(spId: Id, id: Id, provider: EptProvider, eptLabel: string) returns (r: Result<Ept, ApiError>)
      requires Valid()
      modifies this
      ensures Valid()
      ensures spId !in old(KeySet(sellingPoints, SellingPointKey)) ==> r == Err(NotFound)
      ensures spId in old(KeySet(sellingPoints, SellingPointKey)) && id in old(KeySet(epts, EptKey)) ==>
        r == Err(Conflict)
      ensures r.Ok? <==> spId in old(KeySet(sellingPoints, SellingPointKey)) && id !in old(KeySet(epts, EptKey))
      ensures r.Ok? ==>
        && r.value == Ept(id, spId, provider, eptLabel)
        && Contents() == old(Contents()).(epts := old(epts) + [r.value])
      ensures r.Err? ==> Contents() == old(Contents())
    {
      if IndexOf(sellingPoints, SellingPointKey, spId).None? {
        return Err(NotFound);
      }
      if IndexOf(epts, EptKey, id).Some? {
        return Err(Conflict);
      }
      var x := Ept(id, spId, provider, eptLabel);
      AddEptKeepsConsistent(Contents(), x);
      epts := epts + [x];
      r := Ok(x);
    }

    /** `PATCH /events/selling-points/{sp_id}/epts/{ept_id}`. */
    method UpdateEpt(spId: Id, eptId: Id, patch: EptPatch) returns (r: Result<Ept, ApiError>)
      requires Valid()
      modifies this
      ensures Valid()
      ensures events == old(events) && sellingPoints == old(sellingPoints) && transactions == old(transactions)
      ensures var found := IndexOf(old(epts), EptKey, eptId);
        if found.None? || old(epts)[found.value].sellingPointId != spId
        then r == Err(NotFound) && epts == old(epts)
        else
          var x := PatchEpt(old(epts)[found.value], patch);
          r == Ok(x) && epts == old(epts)[found.value := x]
    {
      var found := IndexOf(epts, EptKey, eptId);
      if found.None? || epts[found.value].sellingPointId != spId {
        return Err(NotFound);
      }
      var i := found.value;
      var x := PatchEpt(epts[i], patch);
      ReplaceEptKeepsConsistent(Contents(), i, x);
      epts := epts[i := x];
      r := Ok(x);
    }

    /** `DELETE /events/selling-points/{sp_id}/epts/{ept_id}`: the terminal and its transactions. */
    method DeleteEpt(spId: Id, eptId: Id) returns (r: Result<(), ApiError>)
      requires Valid()
      modifies this
      ensures Valid()
      ensures var found := IndexOf(old(epts), EptKey, eptId);
        r.Ok? <==> found.Some? && old(epts)[found.value].sellingPointId == spId
      ensures r.Ok? ==> Contents() == DeleteEptCascade(old(Contents()), eptId)
      ensures r.Err? ==> r.error == NotFound && Contents() == old(Contents())
    {
      var found := IndexOf(epts, EptKey, eptId);
      if found.None? || epts[found.value].sellingPointId != spId {
        return Err(NotFound);
      }
      var t := DeleteEptCascade(Contents(), eptId);
      DeleteEptCascadeSound(Contents(), eptId);
      SetContents(t);
      r := Ok(());
    }

    // ----- transactions -------------------------------------------------------

    /**
     * Storing one transaction row under the schema's constraints, checked in
     * this order: primary key, the (source, source_row_hash) pair, the three
     * foreign keys, the column widths. `currency` takes its default when absent.
     */
    method InsertTransaction(id: Id, eventId: Id, spId: Id, eptId: Id, amountCents: int, currency: Option<string>,
                             occurredAt: Timestamp, cardLast4: string, source: string, sourceRowHash: string)
      returns (r: Result<Transaction, ApiError>)
      requires Valid()
      modifies this
      ensures Valid()
      ensures r.Ok? <==>
        && id !in old(KeySet(transactions, TransactionKey))
        && (source, sourceRowHash) !in old(KeySet(transactions, DedupKey))
        && eventId in old(KeySet(events, EventKey))
        && spId in old(KeySet(sellingPoints, SellingPointKey))
        && eptId in old(KeySet(epts, EptKey))
        && |CurrencyColumn(currency)| <= 3 && |cardLast4| <= 4
      ensures id in old(KeySet(transactions, TransactionKey)) ==> r == Err(Conflict)
      ensures (id !in old(KeySet(transactions, TransactionKey)) &&
               (source, sourceRowHash) in old(KeySet(transactions, DedupKey))) ==> r == Err(Duplicate)
      ensures r.Ok? ==>
        && r.value == Transaction(id, eventId, spId, eptId, amountCents, CurrencyColumn(currency),
                                  occurredAt, cardLast4, source, sourceRowHash)
        && Contents() == old(Contents()).(transactions := old(transactions) + [r.value])
      ensures r.Err? ==> Contents() == old(Contents())
    {
      if IndexOf(transactions, TransactionKey, id).Some? {
        return Err(Conflict);
      }
      if IndexOf(transactions, DedupKey, (source, sourceRowHash)).Some? {
        return Err(Duplicate);
      }
      if || IndexOf(events, EventKey, eventId).None?
         || IndexOf(sellingPoints, SellingPointKey, spId).None?
         || IndexOf(epts, EptKey, eptId).None? {
        return Err(NotFound);
      }
      var tx := Transaction(id, eventId, spId, eptId, amountCents, CurrencyColumn(currency),
                            occurredAt, cardLast4, source, sourceRowHash);
      if !FitsColumns(tx) {
        return Err(TooLong);
      }
      AddTransactionKeepsConsistent(Contents(), tx);
      transactions := transactions + [tx];
      r := Ok(tx);
    }

    // ----- summary ------------------------------------------------------------

    /**
     * `GET /events/{event_id}/summary`: the two grouped sums are computed
     * once, then one node is built per selling point of the event.
     */
    method GetSummary(eventId: Id) returns (r: Result<EventSummary, ApiError>)
      ensures r.Ok? <==> eventId in KeySet(events, EventKey)
      ensures r.Ok? ==> r.value == Summarize(Contents(), eventId)
      ensures r.Err? ==> r.error == NotFound
    {
      if IndexOf(events, EventKey, eventId).None? {
        return Err(NotFound);
      }
      var spTotals := GroupedSums(transactions, eventId, BySellingPoint);
      var eptTotals := GroupedSums(transactions, eventId, ByEpt);
      var sps := SellingPointsOf(sellingPoints, eventId);
      var nodes: seq<SellingPointSummary> := [];
      var i := 0;
      while i < |sps|
        invariant 0 <= i <= |sps|
        invariant |nodes| == i
        invariant forall k :: 0 <= k < i ==> nodes[k] == SummarizeSellingPoint(Contents(), eventId, sps[k])
      {
        var sp := sps[i];
        var xs := EptsOf(epts, sp.id);
        var eptNodes := seq(|xs|, j requires 0 <= j < |xs| =>
          EptSummary(xs[j].id, xs[j].eptLabel, GetOrZero(eptTotals, xs[j].id)));
        forall j | 0 <= j < |xs|
          ensures eptNodes[j] == SummarizeEpt(transactions, eventId, xs[j])
        {
          GroupedSumsAgree(transactions, eventId, ByEpt, xs[j].id);
        }
        GroupedSumsAgree(transactions, eventId, BySellingPoint, sp.id);
        nodes := nodes + [SellingPointSummary(sp.id, sp.name, GetOrZero(spTotals, sp.id), eptNodes)];
        i := i + 1;
      }
      r := Ok(EventSummary(eventId, nodes));
    }
  }
}
