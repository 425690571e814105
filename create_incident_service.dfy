/**
  Incident admission: `create_incident` connects to the store, marks the
  incident "Success", runs it through the business-rule filter, ensures the
  unique index on `Incident_Id`, stamps `updatedAt` and inserts the filtered
  document, ending in one of five outcomes. The client is closed in a
  `finally` block whenever it was created.
 */
module CreateIncidentService {
  import opened Documents

  /** The `error` of a response: the connection message, or the exception that ended the attempt. */
  datatype ServiceError =
    | ConnectionMessage(text: string)
    | DuplicateKeyError(key: Value)
    | NotModifiedResponse(description: Value)
    | OtherError(cause: string)

  /** `IncidentServiceResponse(success, data, error)`; `data` and `error` default to `None`. */
  datatype IncidentServiceResponse = IncidentServiceResponse(success: bool, data: Value, error: Option<ServiceError>)

  const ConnectionErrorText: string := "Mongo DB connection error"

  function Failed(e: ServiceError): IncidentServiceResponse {
    IncidentServiceResponse(false, None, Some(e))
  }

  /**
    What `get_modified_incident_dict` does with the dict it is given. It may
    update that dict in place (`updated` is what the caller's `incident_dict`
    then holds) and hand back the same dict object, or hand back a new dict
    `created`; or it raises.
   */
  datatype FilterOutcome = SameDict(updated: Incident) | NewDict(updated: Incident, created: Incident) | FilterRaised(cause: string)

  /** Store faults after connecting that are not a duplicate key. */
  datatype StoreFault = Healthy | IndexFails(cause: string) | InsertFails(cause: string)

  /** The `Incident_Id`s of the stored incidents. */
  function Ids(stored: seq<Incident>): set<Value> {
    set i | 0 <= i < |stored| :: stored[i].incidentId
  }

  /** What the unique index on `Incident_Id` guarantees. */
  predicate UniqueIds(stored: seq<Incident>) {
    forall i, j :: 0 <= i < j < |stored| ==> stored[i].incidentId != stored[j].incidentId
  }

  /** `incident.dict()` with `Incident_Status` set to "Success": the dict the filter receives. */
  function Prepared(incident: Incident): (p: Incident)
    ensures p.incidentStatus == Some("Success")
    ensures p.(incidentStatus := incident.incidentStatus) == incident
  {
    incident.(incidentStatus := Some("Success"))
  }

  /** `new_incident`: the dict the filter handed back. */
  function NewIncident(o: FilterOutcome): Incident
    requires !o.FilterRaised?
  {
    if o.SameDict? then o.updated else o.created
  }

  /** The filter returned and its result is not marked "Error". */
  predicate Accepted(o: FilterOutcome) {
    !o.FilterRaised? && NewIncident(o).incidentStatus != Some("Error")
  }

  /** The document `insert_one` receives once `incident_dict` has been stamped with `now`. */
  function InsertedDocument(o: FilterOutcome, now: int): Incident
    requires !o.FilterRaised?
  {
    if o.SameDict? then o.updated.(updatedAt := Some(now)) else o.created
  }

  /** The outcome of a connected admission: the response, and the document inserted, if any. */
  datatype Admitted = Admitted(response: IncidentServiceResponse, inserted: Option<Incident>)

  /**
    The connected part of `create_incident` (the inner `try` block). The
    document inserted is the filter's output; `updatedAt` is written to
    `incident_dict`, so the inserted document carries it only when the filter
    handed back that same dict. The returned ID is read from `incident_dict`
    as the filter left it.
   */
  function Admission(stored: seq<Incident>, incident: Incident, filter: Incident -> FilterOutcome,
                     fault: StoreFault, now: int): (a: Admitted)
    ensures a.response.success <==> a.inserted.Some?
    ensures !a.response.success ==> a.response.data == None && a.response.error.Some?
    ensures a.response.success <==>
      Accepted(filter(Prepared(incident))) && fault == Healthy &&
      NewIncident(filter(Prepared(incident))).incidentId !in Ids(stored)
    ensures a.response.success ==>
      var o := filter(Prepared(incident));
      a == Admitted(IncidentServiceResponse(true, o.updated.incidentId, None), Some(InsertedDocument(o, now)))
    ensures filter(Prepared(incident)).FilterRaised? ==>
      a == Admitted(Failed(OtherError(filter(Prepared(incident)).cause)), None)
    ensures !filter(Prepared(incident)).FilterRaised? && !Accepted(filter(Prepared(incident))) ==>
      a == Admitted(Failed(NotModifiedResponse(NewIncident(filter(Prepared(incident))).statusDescription)), None)
    ensures Accepted(filter(Prepared(incident))) && fault.IndexFails? ==>
      a == Admitted(Failed(OtherError(fault.cause)), None)
    ensures (Accepted(filter(Prepared(incident))) && !fault.IndexFails? &&
             NewIncident(filter(Prepared(incident))).incidentId in Ids(stored)) ==>
      a == Admitted(Failed(DuplicateKeyError(NewIncident(filter(Prepared(incident))).incidentId)), None)
    ensures (Accepted(filter(Prepared(incident))) && fault.InsertFails? &&
             NewIncident(filter(Prepared(incident))).incidentId !in Ids(stored)) ==>
      a == Admitted(Failed(OtherError(fault.cause)), None)
    ensures a.inserted.Some? ==> a.inserted.value.incidentId !in Ids(stored)
    ensures UniqueIds(stored) && a.inserted.Some? ==> UniqueIds(stored + [a.inserted.value])
  {
    var outcome := filter(Prepared(incident));
    if outcome.FilterRaised? then Admitted(Failed(OtherError(outcome.cause)), None)
    else
      var newIncident := NewIncident(outcome);
      if newIncident.incidentStatus == Some("Error") then
        Admitted(Failed(NotModifiedResponse(newIncident.statusDescription)), None)
      else if fault.IndexFails? then Admitted(Failed(OtherError(fault.cause)), None)
      else
        var incidentDict := outcome.updated.(updatedAt := Some(now));
        var document := if outcome.SameDict? then incidentDict else newIncident;
        if document.incidentId in Ids(stored) then Admitted(Failed(DuplicateKeyError(document.incidentId)), None)
        else if fault.InsertFails? then Admitted(Failed(OtherError(fault.cause)), None)
        else
          assert forall i :: 0 <= i < |stored| ==> stored[i].incidentId in Ids(stored);
          Admitted(IncidentServiceResponse(true, incidentDict.incidentId, None), Some(document))
  }

  /** The documents of the collection after an admission. */
  function After(stored: seq<Incident>, a: Admitted): seq<Incident> {
    if a.inserted.Some? then stored + [a.inserted.value] else stored
  }

  /**
    The `Incidents` collection and the MongoDB clients created for it. Every
    call of `CreateIncident` that creates a client closes it before returning.
   */
  class IncidentService {
    var incidents: seq<Incident>
    var clientsOpened: nat
    var clientsClosed: nat

    ghost predicate Valid()
      reads this
    {
      UniqueIds(incidents) && clientsClosed == clientsOpened
    }

    constructor (stored: seq<Incident>)
      requires UniqueIds(stored)
      ensures Valid() && incidents == stored && clientsOpened == 0
    {
      incidents := stored;
      clientsOpened, clientsClosed := 0, 0;
    }

    /** `create_incident`. */
    method CreateIncident(incident: Incident, conn: Connect, filter: Incident -> FilterOutcome,
                          fault: StoreFault, now: int)
      returns (r: IncidentServiceResponse)
      requires Valid()
      modifies this
      ensures Valid()
      ensures clientsOpened == old(clientsOpened) + (if conn == NoClient then 0 else 1)
      ensures clientsClosed == old(clientsClosed) + (if conn == NoClient then 0 else 1)
      ensures conn != Connected ==> r == Failed(ConnectionMessage(ConnectionErrorText)) && incidents == old(incidents)
      ensures conn == Connected ==>
        var a := Admission(old(incidents), incident, filter, fault, now);
        r == a.response && incidents == After(old(incidents), a)
    {
      var client := false;
      if conn == NoClient {
        r := Failed(ConnectionMessage(ConnectionErrorText));
      } else {
        client := true;
        clientsOpened := clientsOpened + 1;
        if conn == ClientThenFailed {
          r := Failed(ConnectionMessage(ConnectionErrorText));
        } else {
          r := Admit(incident, filter, fault, now);
        }
      }
      // finally: close the client if one was created
      if client {
        clientsClosed := clientsClosed + 1;
      }
    }

    /** The inner `try` block of `create_incident`, run once the database handle is ready. */
    method Admit(incident: Incident, filter: Incident -> FilterOutcome, fault: StoreFault, now: int)
      returns (r: IncidentServiceResponse)
      requires UniqueIds(incidents)
      modifies this`incidents
      ensures UniqueIds(incidents)
      ensures var a := Admission(old(incidents), incident, filter, fault, now);
        r == a.response && incidents == After(old(incidents), a)
    {
      var incidentDict := new IncidentDict(incident);
      incidentDict.doc := incidentDict.doc.(incidentStatus := Some("Success"));
      var outcome := filter(incidentDict.doc);
      var newIncident: IncidentDict;
      match outcome {
        case FilterRaised(cause) =>
          return Failed(OtherError(cause));
        case SameDict(updated) =>
          incidentDict.doc := updated;
          newIncident := incidentDict;
        case NewDict(updated, created) =>
          incidentDict.doc := updated;
          newIncident := new IncidentDict(created);
      }
      if newIncident.doc.incidentStatus == Some("Error") {
        return Failed(NotModifiedResponse(newIncident.doc.statusDescription));
      }
      if fault.IndexFails? {
        return Failed(OtherError(fault.cause));
      }
      incidentDict.doc := incidentDict.doc.(updatedAt := Some(now));
      var key := newIncident.doc.incidentId;
      if key in Ids(incidents) {
        return Failed(DuplicateKeyError(key));
      }
      if fault.InsertFails? {
        return Failed(OtherError(fault.cause));
      }
      incidents := incidents + [newIncident.doc];
      return IncidentServiceResponse(true, incidentDict.doc.incidentId, None);
    }
  }

  // ---------------------------------------------------------------------
  // Properties of admission
  // ---------------------------------------------------------------------

  /** A filter result with `Incident_Status == "Error"` ends the attempt with its description; nothing is inserted. */
  lemma FilterRejectionInsertsNothing(stored: seq<Incident>, incident: Incident, filter: Incident -> FilterOutcome,
                                      fault: StoreFault, now: int)
    requires !filter(Prepared(incident)).FilterRaised?
    requires NewIncident(filter(Prepared(incident))).incidentStatus == Some("Error")
    ensures Admission(stored, incident, filter, fault, now) ==
      Admitted(Failed(NotModifiedResponse(NewIncident(filter(Prepared(incident))).statusDescription)), None)
  {
  }

  /** An `Incident_Id` already stored is reported as a duplicate key, and nothing is inserted. */
  lemma DuplicateIdInsertsNothing(stored: seq<Incident>, incident: Incident, filter: Incident -> FilterOutcome,
                                  fault: StoreFault, now: int)
    requires Accepted(filter(Prepared(incident)))
    requires NewIncident(filter(Prepared(incident))).incidentId in Ids(stored)
    requires !fault.IndexFails?
    ensures Admission(stored, incident, filter, fault, now) ==
      Admitted(Failed(DuplicateKeyError(NewIncident(filter(Prepared(incident))).incidentId)), None)
  {
  }

  /**
    A successful admission adds exactly the filter's output (stamped only
    when it is the very dict that was stamped), and answers with the
    `Incident_Id` of `incident_dict` as the filter left it.
   */
  lemma SuccessInsertsFilterOutput(stored: seq<Incident>, incident: Incident, filter: Incident -> FilterOutcome,
                                   fault: StoreFault, now: int)
    requires Admission(stored, incident, filter, fault, now).response.success
    ensures var o := filter(Prepared(incident));
      var a := Admission(stored, incident, filter, fault, now);
      && (o.SameDict? ==> a.inserted == Some(o.updated.(updatedAt := Some(now))))
      && (o.NewDict? ==> a.inserted == Some(o.created))
      && a.response.data == o.updated.incidentId
      && |Ids(After(stored, a))| == |Ids(stored)| + 1
  {
    var a := Admission(stored, incident, filter, fault, now);
    var doc := a.inserted.value;
    assert Ids(stored + [doc]) == Ids(stored) + {doc.incidentId} by {
      forall k | k in Ids(stored + [doc]) ensures k in Ids(stored) + {doc.incidentId} {
        var i :| 0 <= i < |stored + [doc]| && (stored + [doc])[i].incidentId == k;
        if i < |stored| { assert stored[i].incidentId == k; }
      }
      forall k | k in Ids(stored) ensures k in Ids(stored + [doc]) {
        var i :| 0 <= i < |stored| && stored[i].incidentId == k;
        assert (stored + [doc])[i] == stored[i];
      }
      assert (stored + [doc])[|stored|] == doc;
    }
  }

  /**
    A filter that hands back a new dict sees the timestamp go to the old one:
    the stored document keeps the new dict's own `updatedAt`. The ID returned
    is read from the old dict, so it is the new dict's ID only if the filter
    wrote that ID into the old dict too.
   */
  lemma NewDictIsStoredUnstamped()
    ensures var incident := Incident(Some("INC7"), Some("AC1"), DetailsMissing, LinksMissing, None, None, None, map[]);
      var created := Incident(Some("INC8"), Some("AC1"), DetailsMissing, LinksMissing, Some("Success"), None, None, map[]);
      var a := Admission([], incident, d => NewDict(d, created), Healthy, 5);
      var b := Admission([], incident, (d: Incident) => NewDict(d.(incidentId := Some("INC9")), created), Healthy, 5);
      && a.inserted == Some(created) && a.inserted.value.updatedAt == None && a.response.data == Some("INC7")
      && b.inserted == Some(created) && b.response.data == Some("INC9")
  {
  }

  /** The filter never sees the caller's `Incident_Status`: two incidents that differ only there are admitted alike. */
  lemma IncomingStatusIsOverwritten(stored: seq<Incident>, incident: Incident, status: Value,
                                    filter: Incident -> FilterOutcome, fault: StoreFault, now: int)
    ensures Admission(stored, incident.(incidentStatus := status), filter, fault, now)
         == Admission(stored, incident, filter, fault, now)
  {
  }

  /** A filter that hands the dict back unchanged stores the incident with status "Success". */
  lemma PassThroughFilterStoresSuccess(stored: seq<Incident>, incident: Incident, now: int)
    requires incident.incidentId !in Ids(stored)
    ensures var a := Admission(stored, incident, d => SameDict(d), Healthy, now);
      a.response == IncidentServiceResponse(true, incident.incidentId, None) &&
      a.inserted == Some(incident.(incidentStatus := Some("Success"), updatedAt := Some(now)))
  {
  }

  /**
    Admitting the same incident twice: the first attempt stores it, the
    second is a duplicate key and leaves the collection as the first left it.
   */
  lemma SecondAdmissionIsDuplicate(stored: seq<Incident>, incident: Incident, filter: Incident -> FilterOutcome,
                                   now1: int, now2: int)
    requires Admission(stored, incident, filter, Healthy, now1).response.success
    ensures var first := Admission(stored, incident, filter, Healthy, now1);
      var second := Admission(After(stored, first), incident, filter, Healthy, now2);
      && second.inserted == None
      && second.response == Failed(DuplicateKeyError(first.inserted.value.incidentId))
  {
    var first := Admission(stored, incident, filter, Healthy, now1);
    var doc := first.inserted.value;
    var after := After(stored, first);
    assert after[|stored|] == doc;
    assert doc.incidentId in Ids(after);
  }
}
