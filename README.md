# Incident intake: account correlation and admission

This project models the core of an incident-intake backend for a
case-management platform, and proves properties of that model. The backend
stores its data in MongoDB. The model covers three pieces of sequential logic:

- **Open-case predicate** (`has_open_case_for_account`). Does any document of
  `Case_details` have the incident's account number in `account_no`, with a
  `case_current_status` other than the four terminal strings "Case Close",
  "Write-Off", "Abandoned" and "Withdraw"?
- **Link propagation** (`link_accounts_from_open_cases`). It scans the cases
  that share the incident's `customer_ref`. It appends `{"Account_Num": n}` to
  the incident's `Link_Accounts` list for every case whose lower-cased status
  is not "close" and whose `Account_Num` is non-empty. An account already
  listed is skipped.
- **Incident admission** (`create_incident`). It connects, sets
  `Incident_Status` to "Success", runs the business-rule filter, ensures a
  unique index on `Incident_Id`, stamps `updatedAt` and inserts the filtered
  document. It then answers with an `IncidentServiceResponse`.

The database is an in-memory value:

- `Case_details` is a sequence of `Case` documents, in store order.
- `Incidents` is a sequence of stored `Incident` documents, held by an
  `IncidentService` object.

Connection failures, query and cursor failures, and store faults are explicit
inputs. The opaque filter `get_modified_incident_dict` is a function parameter.
A Python dict handed around by reference is an `IncidentDict` object. Its
`doc` field is the dict's current content, and the link pass updates it in
place. A `dict.get` answer is a `Value` (`Option<string>`): a missing key and a
null key both read as `None`, which is also how MongoDB's equality match on
null behaves.

Modules:

- `Documents` (documents.dfy): the data model.
- `CheckAccount` (check_account.dfy): the two correlation operations.
- `CreateIncidentService` (create_incident_service.dfy): admission.

Behaviour the model follows from the code:

- **Connection failure in the open-case predicate.** The function returns
  nothing: it logs and leaves without a `return`, so the caller gets `None`.
  Its docstring (CheckAccount.py:35-37) promises `False` on errors. A query
  failure does return `False`.
- **Two different status tests.** The open-case query excludes the four
  terminal strings exactly and case-sensitively, so "case close" counts as
  open. The link filter compares the whole lower-cased status with "close". It
  is not a substring test, so "Case Close" passes the link filter, although
  its lower-cased form contains "close".
- **Missing customer reference.** When the incident has no
  `Customer_Details.customer_ref`, the link pass still queries with `None`. It
  then links cases that have no `customer_ref` at all, rather than finding
  nothing.
- **Null `Customer_Details`.** Reading `customer_ref` raises before
  `Link_Accounts` is repaired, so the dict comes back unchanged.
- **Exceptions in the middle of the scan.** A cursor failure, or a null status
  on which `.lower()` raises, ends the scan. The handler returns the dict with
  the entries appended so far.
- **Connection failure in admission.** The response's `error` is the string
  "Mongo DB connection error", not an exception object.
- **Where `updatedAt` goes.** It is written to `incident_dict`, but the
  filter's output is what gets inserted. The stored document therefore carries
  the stamp only when the filter handed back that same dict object. The `data`
  of a successful response is the `Incident_Id` of `incident_dict` as the
  filter left it, which can differ from the inserted document's when the
  filter returned a new dict. The duplicate check runs on the inserted
  document's `Incident_Id`.

## Model

| member | source | states |
|---|---|---|
| `CheckAccount.CountOpenCases` | openAPI_IDC/coreFunctions/DatabaseOparations/CheckAccount.py:63-75 | the query's match count is positive iff some case has `account_no` equal to the account number and a status outside the terminal set |
| `CheckAccount.HasOpenCaseForAccount` | openAPI_IDC/coreFunctions/DatabaseOparations/CheckAccount.py:30-89 | `None` iff the connection failed; `True` iff connected, the query did not fail and an open case exists for the incident's `Account_Num`; `False` otherwise |
| `CheckAccount.ConnectionFailureReturnsNone` | openAPI_IDC/coreFunctions/DatabaseOparations/CheckAccount.py:53-55 | on either kind of connection failure the answer is `None`, not `False` |
| `CheckAccount.HasOpenCaseAsDocumented` | openAPI_IDC/coreFunctions/DatabaseOparations/CheckAccount.py:31-38 | the documented predicate: true iff connected, the query succeeded and an open case exists; false on every error |
| `CheckAccount.LowerCaseTerminalStatusIsOpen` | openAPI_IDC/coreFunctions/DatabaseOparations/CheckAccount.py:63-69 | exclusion is exact and case-sensitive: a case with status "case close" counts as open |
| `CheckAccount.OtherAccountsDoNotMatter` | openAPI_IDC/coreFunctions/DatabaseOparations/CheckAccount.py:63-72 | inserting cases of other account numbers anywhere in the collection never changes the answer |
| `CheckAccount.IsOpenFor` | openAPI_IDC/coreFunctions/DatabaseOparations/CheckAccount.py:63-69 | the open-case query's filter: `account_no` equal to the account number and a status outside `$nin`; a missing or null status is never excluded, so such a case is open iff its `account_no` matches |
| `CheckAccount.AlreadyLinked` | openAPI_IDC/coreFunctions/DatabaseOparations/CheckAccount.py:138-141 | the `any(...)` scan answers true iff some entry of `Link_Accounts` has `Account_Num` equal to `n` |
| `CheckAccount.LowerChar` | openAPI_IDC/coreFunctions/DatabaseOparations/CheckAccount.py:131 | `str.lower()` on one character: an upper-case letter A-Z becomes the same letter in lower case, every other character is unchanged, and the result is never A-Z |
| `CheckAccount.Lower` | openAPI_IDC/coreFunctions/DatabaseOparations/CheckAccount.py:131 | `str.lower()` on a string: same length, each character lower-cased by `LowerChar`, no upper-case letter left, and the string is unchanged iff it had no upper-case letter |
| `CheckAccount.IsLinkCandidate` | openAPI_IDC/coreFunctions/DatabaseOparations/CheckAccount.py:131-136 | the link filter: a candidate has an `Account_Num` and a non-null status; a case without `case_current_status` (read as "") passes iff its `Account_Num` is non-empty; a case with a text status passes iff the lower-cased status is not "close" and its `Account_Num` is non-empty |
| `CheckAccount.Step` | openAPI_IDC/coreFunctions/DatabaseOparations/CheckAccount.py:131-146 | one loop iteration only appends, at most one entry; afterwards account `n` is linked iff it was linked before or the case passes the filter with `Account_Num` `n` |
| `CheckAccount.Scan` | openAPI_IDC/coreFunctions/DatabaseOparations/CheckAccount.py:130-146 | the `for` loop over the cases, one `Step` per case: the result is at least as long as the old list and at most one entry longer per case (that the old entries stay in front is `ScanOnlyAppends`) |
| `CheckAccount.ScanLinksExactly` | openAPI_IDC/coreFunctions/DatabaseOparations/CheckAccount.py:130-146 | afterwards account `n` is linked iff it was linked before or some scanned case passes the filter with `Account_Num` `n` |
| `CheckAccount.ScanOnlyAppends` | openAPI_IDC/coreFunctions/DatabaseOparations/CheckAccount.py:130-146 | the loop only appends: the original entries stay at the front in order, and at most one entry is added per case |
| `CheckAccount.ScanAppendsOnlyNew` | openAPI_IDC/coreFunctions/DatabaseOparations/CheckAccount.py:136-146 | every appended entry has a non-empty account number that no earlier entry has, so an account already listed is never appended again |
| `CheckAccount.ScanKeepsNoDuplicates` | openAPI_IDC/coreFunctions/DatabaseOparations/CheckAccount.py:138-146 | a list without duplicate account numbers has none after the loop |
| `CheckAccount.ScanLinksEveryCandidate` | openAPI_IDC/coreFunctions/DatabaseOparations/CheckAccount.py:130-146 | every scanned case that passes the filter has its account number in the resulting list |
| `CheckAccount.ScanAppendsOnlyCandidates` | openAPI_IDC/coreFunctions/DatabaseOparations/CheckAccount.py:130-146 | every appended entry is `{"Account_Num": n}` for a scanned case that passes the filter |
| `CheckAccount.ScanWithNothingNew` | openAPI_IDC/coreFunctions/DatabaseOparations/CheckAccount.py:138-148 | when every passing case's account is already linked, the loop leaves the list unchanged |
| `CheckAccount.ScanIdempotent` | openAPI_IDC/coreFunctions/DatabaseOparations/CheckAccount.py:130-148 | running the loop a second time over the same cases gives the list the first run gave |
| `CheckAccount.CasesForCustomer` | openAPI_IDC/coreFunctions/DatabaseOparations/CheckAccount.py:127 | the `customer_ref` query returns exactly the cases whose `customer_ref` equals the reference (`None` matches missing or null) |
| `CheckAccount.CustomerRef` | openAPI_IDC/coreFunctions/DatabaseOparations/CheckAccount.py:120 | definition: `customer_ref` read through `.get("Customer_Details", {})`: `None` when `Customer_Details` is missing, the dict's `customer_ref` (possibly `None`) otherwise |
| `CheckAccount.ExistingLinks` | openAPI_IDC/coreFunctions/DatabaseOparations/CheckAccount.py:122-124 | definition: the list the loop appends to: the old `Link_Accounts` if it was a list, `[]` otherwise |
| `CheckAccount.StopFrom` | openAPI_IDC/coreFunctions/DatabaseOparations/CheckAccount.py:130-157 | the scan reaches exactly the cases before the first one at which the cursor fails or `.lower()` meets a null status |
| `CheckAccount.LinkedDoc` | openAPI_IDC/coreFunctions/DatabaseOparations/CheckAccount.py:115-157 | a connected pass changes no key other than `Link_Accounts`; a null `Customer_Details` changes nothing; otherwise `Link_Accounts` becomes a list that starts with the old list, or with `[]` if it was not a list |
| `CheckAccount.LinkAccountsFromOpenCases` | openAPI_IDC/coreFunctions/DatabaseOparations/CheckAccount.py:94-163 | returns `False` iff the connection failed, leaving the dict untouched; otherwise returns the same dict, updated in place to exactly `LinkedDoc` of its old content |
| `CheckAccount.LinkPassIdempotent` | openAPI_IDC/coreFunctions/DatabaseOparations/CheckAccount.py:120-153 | two link passes over the same collection with the same faults leave what one pass leaves |
| `CheckAccount.LinkPassKeepsNoDuplicates` | openAPI_IDC/coreFunctions/DatabaseOparations/CheckAccount.py:122-146 | if `Link_Accounts` had no duplicate account number before the pass, it has none after |
| `CheckAccount.LinkPassLinksEveryCandidate` | openAPI_IDC/coreFunctions/DatabaseOparations/CheckAccount.py:127-146 | when the scan runs to the end, every case of the customer that passes the filter has its account in `Link_Accounts` |
| `CheckAccount.LinkPassAddsOnlyCandidates` | openAPI_IDC/coreFunctions/DatabaseOparations/CheckAccount.py:127-146 | every added entry comes from a case of the same `customer_ref` whose lower-cased status is not "close" and whose `Account_Num` is non-empty |
| `CheckAccount.LinkFilterTestsOnlyClose` | openAPI_IDC/coreFunctions/DatabaseOparations/CheckAccount.py:131-136 | "Case Close" and a missing status pass the link filter; "CLOSE" and an empty `Account_Num` do not |
| `CheckAccount.StatusPoliciesDisagree` | openAPI_IDC/coreFunctions/DatabaseOparations/CheckAccount.py:63-134 | a "Case Close" case is not open for the open-case query yet passes the link filter; a "close" case is open yet fails the link filter |
| `CheckAccount.SharedCustomerRefScenario` | openAPI_IDC/coreFunctions/DatabaseOparations/CheckAccount.py:120-146 | for customer CR1 with cases AC2 "Open" and AC3 "Close", `Link_Accounts` becomes `[{"Account_Num": "AC2"}]` |
| `CheckAccount.MissingCustomerRefStillQueries` | openAPI_IDC/coreFunctions/DatabaseOparations/CheckAccount.py:120-127 | without `Customer_Details` the pass queries with `None` and links a case that lacks `customer_ref`; a non-list `Link_Accounts` restarts as `[]` |
| `Documents.IncidentDict.constructor` | openAPI_IDC/services/CreateIncidentService.py:77 | a Python dict is one mutable object shared by every reference to it; a new one holds exactly the content it is built from |
| `CreateIncidentService.Prepared` | openAPI_IDC/services/CreateIncidentService.py:77-79 | the dict the filter receives: `Incident_Status` is "Success" and every other key is the caller's |
| `CreateIncidentService.Admission` | openAPI_IDC/services/CreateIncidentService.py:74-116 | success iff the filter returns, its result is not marked "Error", the store is healthy and the result's `Incident_Id` is not yet stored; then exactly that result is inserted (stamped only if it is `incident_dict` itself) and `data` is `incident_dict`'s `Incident_Id`; otherwise nothing is inserted, `data` is `None`, and `error` is the filter's exception, the `NotModifiedResponse` with `Status_Description`, the index exception, the duplicate-key error or the insert exception, in that order of precedence; stored IDs stay unique |
| `CreateIncidentService.IncidentService.CreateIncident` | openAPI_IDC/services/CreateIncidentService.py:48-122 | a client is created unless creation failed, and each created client is closed exactly once; a connection failure answers "Mongo DB connection error" and inserts nothing; a connected attempt answers and stores as `Admission` says; the unique-ID invariant is kept |
| `CreateIncidentService.IncidentService.Admit` | openAPI_IDC/services/CreateIncidentService.py:74-116 | with the dicts as objects (the filter may update the dict it was given in place, then return that same dict or a new one), the response and the new collection are those of `Admission` |
| `CreateIncidentService.FilterRejectionInsertsNothing` | openAPI_IDC/services/CreateIncidentService.py:82-110 | a filter result whose `Incident_Status` is "Error" gives `success=False` with a `NotModifiedResponse` carrying its `Status_Description`, and nothing is inserted |
| `CreateIncidentService.DuplicateIdInsertsNothing` | openAPI_IDC/services/CreateIncidentService.py:88-104 | once the unique index is built, an accepted document whose `Incident_Id` is already stored gives a duplicate-key error, and nothing is inserted |
| `CreateIncidentService.SuccessInsertsFilterOutput` | openAPI_IDC/services/CreateIncidentService.py:89-98 | on success exactly one ID is added; the inserted document is the filter's output (stamped only if it is `incident_dict` itself); `data` is the `Incident_Id` of `incident_dict` as the filter left it |
| `CreateIncidentService.NewDictIsStoredUnstamped` | openAPI_IDC/services/CreateIncidentService.py:82-98 | when the filter returns a new dict, the stored document is the new dict as the filter built it, not stamped with `now` (in the example it has no `updatedAt`); the returned ID is read from `incident_dict`, never from the new dict: it is the caller's ID, or whatever ID the filter wrote into `incident_dict` |
| `CreateIncidentService.IncomingStatusIsOverwritten` | openAPI_IDC/services/CreateIncidentService.py:77-82 | `Incident_Status` is set to "Success" before the filter runs: the caller's status never affects the outcome |
| `CreateIncidentService.PassThroughFilterStoresSuccess` | openAPI_IDC/services/CreateIncidentService.py:79-98 | with a filter that hands the dict back unchanged, a new ID is stored with status "Success" and the current timestamp, and the response is `success=True` with that ID |
| `CreateIncidentService.SecondAdmissionIsDuplicate` | openAPI_IDC/services/CreateIncidentService.py:90-104 | after a successful admission, admitting the same incident again with the same filter and a healthy store gives a duplicate-key error for the stored ID and inserts nothing |

## Findings

| source | as written | input that shows it | evidently intended | confidence | as-written member | corrected member |
|---|---|---|---|---|---|---|
| openAPI_IDC/coreFunctions/DatabaseOparations/CheckAccount.py:53-55 | the connection-error handler logs and falls through; no `return` follows, so the function yields `None` | any incident, with `MongoClient(...)` or `ping` raising | return `False` on every error, as the function's documentation states | medium; not executed (`None` is falsy, so callers that only test truthiness behave the same) | `CheckAccount.ConnectionFailureReturnsNone` | `CheckAccount.HasOpenCaseAsDocumented` |

## Left out

- Connection set-up (`get_config`, `MongoClient`, `ping`, `client[...]`): replaced by the `Connect` input. It records whether a client was created and whether the database handle became ready.
- Closing the client in the two `CheckAccount` functions: the model counts client opens and closes only in `create_incident`. The two others use the same `finally` pattern.
- Logging, including the `added_any` flag of the link pass, which only chooses a log line.
- The MongoDB query engine beyond what the code relies on: equality on string values (`None` matching missing or null) and `$nin`. Array-valued fields and non-string field values (numeric account numbers, their truthiness) are not modelled.
- Store iteration order: `find` returns cases in the order of the modelled sequence. MongoDB does not guarantee an order.
- `str.lower()`: lower-cases A-Z only. For the one comparison made (equality with "close") this gives the same answer as Python's Unicode mapping.
- `Link_Accounts` elements that are not dicts (where `acc.get` would raise), and a `Customer_Details` that is neither missing, null nor a dict.
- Aliasing of the `Link_Accounts` list object with other holders of the same list.
- `get_modified_incident_dict` and the Pydantic `Incident.dict()`: the filter is an uninterpreted function parameter and the incident an opaque record. An exception raised inside the filter is reported as a generic error, even if it is a `NotModifiedResponse` or a `DuplicateKeyError`.
- A filter that deletes the `Incident_Id` key: `Incident.incidentId` is always present (possibly null), so the `KeyError` paths at CreateIncidentService.py:98 and :102 are not modelled.
- `insert_one` adding an `_id` key to the inserted dict.
- Building the unique index over an `Incidents` collection that already holds duplicate IDs: the model's store invariant is that IDs are already unique. An index failure of any kind is one `IndexFails` input.
- `datetime.now()`: the `now` parameter.
- `initialize_hash_maps()` at import time, the `__main__` block of CheckAccount.py, and its import of an example incident.
- Concurrent admissions: uniqueness under concurrency rests on the store's index.
- CheckAccount.CasesForCustomer: its contract states which cases the query returns, not that they stay in store order. The body keeps that order, and `LinkedDoc` and the lemmas about it use the body.
