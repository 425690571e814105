/**
  The documents the incident-intake backend reads and writes: incident
  dictionaries, case documents from the `Case_details` collection, and the
  outcome of opening a MongoDB client.

  A Python `dict.get(key)` answers `None` both for a missing key and for a key
  holding `None`; MongoDB's equality match on `null` likewise matches both.
  Such string-valued keys are modelled as a `Value`; the one key whose
  missing and `None` cases behave differently (`case_current_status`) has its
  own datatype.
 */
module Documents {

  datatype Option<+T> = None | Some(value: T)

  /** What `d.get(key)` yields for a string-valued key: `None` when the key is missing or null. */
  type Value = Option<string>

  /** Python truthiness of a string-valued key: present, not null and not empty. */
  predicate Truthy(v: Value) {
    v.Some? && v.value != ""
  }

  /** `case_current_status` of a case document. */
  datatype CaseStatus =
    | StatusMissing           // key absent: `case.get(..., "")` yields ""
    | StatusNull              // key present and null: `.lower()` on it raises
    | StatusText(text: string)

  /**
    A document of the `Case_details` collection. The open-case query reads
    `account_no`, the link pass reads `Account_Num`; both read
    `case_current_status`, and the link query selects on `customer_ref`.
   */
  datatype Case = Case(accountNo: Value, accountNum: Value, customerRef: Value, status: CaseStatus)

  /** One element `{"Account_Num": n}` of an incident's `Link_Accounts` list. */
  datatype LinkEntry = LinkEntry(accountNum: Value)

  /** The `Link_Accounts` key of an incident dictionary. */
  datatype Links =
    | LinksMissing
    | LinksNotList            // present, but not a list (None, a string, a dict, ...)
    | LinksList(entries: seq<LinkEntry>)

  /** The `Customer_Details` key of an incident dictionary. */
  datatype Details =
    | DetailsMissing
    | DetailsNull
    | DetailsDict(customerRef: Value)

  /**
    The content of an incident dictionary: the keys the core reads or writes,
    and every other key in `other`.
   */
  datatype Incident = Incident(
    incidentId: Value,
    accountNum: Value,
    customerDetails: Details,
    linkAccounts: Links,
    incidentStatus: Value,
    statusDescription: Value,
    updatedAt: Option<int>,
    other: map<string, string>)

  /** A Python dict holding an incident: a mutable object shared by reference. */
  class IncidentDict {
    var doc: Incident

    constructor (d: Incident)
      ensures doc == d
    {
      doc := d;
    }
  }

  /**
    How far the connection block (`MongoClient(...)`, `ping`, `client[db]`)
    gets: no client object was created, a client was created and then a step
    failed, or the database handle is ready.
   */
  datatype Connect = NoClient | ClientThenFailed | Connected
}
