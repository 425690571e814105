/**
  Account correlation over the `Case_details` collection: the open-case
  predicate for an incident's account number, and the pass that links the
  accounts of a customer's other open cases into the incident's
  `Link_Accounts` list.

  The collection is a sequence of case documents in store order; a failed
  connection and a failing query or cursor are explicit inputs.
 */
module CheckAccount {
  import opened Documents

  // ---------------------------------------------------------------------
  // Open-case predicate
  // ---------------------------------------------------------------------

  /** The statuses the open-case query excludes with `$nin`: compared exactly, case-sensitively. */
  const TerminalStatuses: seq<string> := ["Case Close", "Write-Off", "Abandoned", "Withdraw"]

  predicate IsTerminal(s: CaseStatus) {
    s.StatusText? && s.text in TerminalStatuses
  }

  /**
    The open-case query's filter: `account_no` equals the incident's
    `Account_Num` (a `None` account number matches a missing or null
    `account_no`), and `case_current_status` is not one of the terminal
    strings (a missing or null status is not in the `$nin` list).
   */
  predicate IsOpenFor(c: Case, accountNum: Value)
    ensures !c.status.StatusText? ==> (IsOpenFor(c, accountNum) <==> c.accountNo == accountNum)
  {
    c.accountNo == accountNum && !IsTerminal(c.status)
  }

  /** `len(list(collection.find(query)))`: the number of documents the query returns. */
  function CountOpenCases(cases: seq<Case>, accountNum: Value): (n: nat)
    ensures n <= |cases|
    ensures n > 0 <==> exists i :: 0 <= i < |cases| && IsOpenFor(cases[i], accountNum)
  {
    if cases == [] then 0
    else
      var rest := CountOpenCases(cases[1..], accountNum);
      assert forall i :: 0 < i < |cases| ==> cases[i] == cases[1..][i - 1];
      (if IsOpenFor(cases[0], accountNum) then 1 else 0) + rest
  }

  /** What a Python function hands back: `True`, `False`, or `None` when no `return` is reached. */
  datatype Answer = ReturnsTrue | ReturnsFalse | ReturnsNone

  /**
    `has_open_case_for_account`. A failed connection is logged and control
    leaves the function without a `return`, so the caller receives `None`;
    a failing query returns `False`.
   */
  function HasOpenCaseForAccount(incident: Incident, conn: Connect, queryFails: bool, cases: seq<Case>): (r: Answer)
    ensures r == ReturnsNone <==> conn != Connected
    ensures r == ReturnsTrue <==>
      conn == Connected && !queryFails &&
      exists i :: 0 <= i < |cases| && IsOpenFor(cases[i], incident.accountNum)
  {
    if conn != Connected then ReturnsNone
    else if queryFails then ReturnsFalse
    else if CountOpenCases(cases, incident.accountNum) > 0 then ReturnsTrue
    else ReturnsFalse
  }

  /** A connection failure yields `None`, not the `False` the function's documentation promises. */
  lemma ConnectionFailureReturnsNone(incident: Incident, queryFails: bool, cases: seq<Case>)
    ensures HasOpenCaseForAccount(incident, NoClient, queryFails, cases) == ReturnsNone
    ensures HasOpenCaseForAccount(incident, ClientThenFailed, queryFails, cases) == ReturnsNone
  {
  }

  /** The documented behaviour: `True` iff an open case was found, `False` on no case and on every error. */
  function HasOpenCaseAsDocumented(incident: Incident, conn: Connect, queryFails: bool, cases: seq<Case>): (b: bool)
    ensures conn != Connected || queryFails ==> !b
    ensures b <==>
      conn == Connected && !queryFails &&
      exists i :: 0 <= i < |cases| && IsOpenFor(cases[i], incident.accountNum)
  {
    HasOpenCaseForAccount(incident, conn, queryFails, cases) == ReturnsTrue
  }

  /** The status test is exact: a status differing from the four terminal strings only in letter case is open. */
  lemma LowerCaseTerminalStatusIsOpen()
    ensures var incident := Incident(None, Some("AC1"), DetailsMissing, LinksMissing, None, None, None, map[]);
      HasOpenCaseForAccount(incident, Connected, false, [Case(Some("AC1"), None, None, StatusText("case close"))])
        == ReturnsTrue
  {
  }

  /** Cases for other account numbers, wherever they stand in the collection, never change the answer. */
  lemma OtherAccountsDoNotMatter(incident: Incident, conn: Connect, queryFails: bool,
                                 before: seq<Case>, others: seq<Case>, after: seq<Case>)
    requires forall c :: c in others ==> c.accountNo != incident.accountNum
    ensures HasOpenCaseForAccount(incident, conn, queryFails, before + others + after)
         == HasOpenCaseForAccount(incident, conn, queryFails, before + after)
  {
    var a := incident.accountNum;
    var all := before + others + after;
    var kept := before + after;
    if i :| 0 <= i < |all| && IsOpenFor(all[i], a) {
      if i < |before| {
        assert kept[i] == all[i];
      } else if i < |before| + |others| {
        assert false;
      } else {
        assert kept[i - |others|] == all[i];
      }
    }
    if j :| 0 <= j < |kept| && IsOpenFor(kept[j], a) {
      if j < |before| {
        assert all[j] == kept[j];
      } else {
        assert all[j + |others|] == kept[j];
      }
    }
  }

  // ---------------------------------------------------------------------
  // Link propagation
  // ---------------------------------------------------------------------

  /** ASCII lower-casing. */
  function LowerChar(c: char): (d: char)
    ensures !('A' <= d <= 'Z')
    ensures 'A' <= c <= 'Z' ==> 'a' <= d <= 'z' && d as int - 'a' as int == c as int - 'A' as int
    ensures !('A' <= c <= 'Z') ==> d == c
  {
    if 'A' <= c <= 'Z' then (c as int - 'A' as int + 'a' as int) as char else c
  }

  /**
    `str.lower()` on the letters A-Z. For the only comparison the core makes
    (equality with "close") this agrees with Python's full Unicode mapping:
    no other character lower-cases to one of the letters c, l, o, s, e.
   */
  function Lower(s: string): (r: string)
    ensures |r| == |s|
    ensures forall i :: 0 <= i < |s| ==> r[i] == LowerChar(s[i])
    ensures forall i :: 0 <= i < |r| ==> !('A' <= r[i] <= 'Z')
    ensures r == s <==> forall i :: 0 <= i < |s| ==> !('A' <= s[i] <= 'Z')
  {
    var r := seq(|s|, i requires 0 <= i < |s| => LowerChar(s[i]));
    assert (forall i :: 0 <= i < |s| ==> !('A' <= s[i] <= 'Z')) ==> r == s;
    r
  }

  /**
    The status half of the link filter: `case.get("case_current_status", "").lower() != "close"`.
    A null status makes `.lower()` raise; the scan stops before such a case
    (see `RaisesAt`), so its value here is never used.
   */
  predicate StatusIsNotClose(s: CaseStatus) {
    match s
    case StatusMissing => true
    case StatusNull => false
    case StatusText(t) => Lower(t) != "close"
  }

  /** A case the link pass takes an account number from: not "close" and a truthy `Account_Num`. */
  predicate IsLinkCandidate(c: Case)
    ensures IsLinkCandidate(c) ==> c.accountNum.Some? && !c.status.StatusNull?
    ensures c.status.StatusMissing? ==> (IsLinkCandidate(c) <==> Truthy(c.accountNum))
    ensures c.status.StatusText? ==> (IsLinkCandidate(c) <==> Lower(c.status.text) != "close" && Truthy(c.accountNum))
  {
    StatusIsNotClose(c.status) && Truthy(c.accountNum)
  }

  /** Some entry of `Link_Accounts` already has account number `n`. */
  predicate IsLinked(entries: seq<LinkEntry>, n: string) {
    exists k :: 0 <= k < |entries| && entries[k].accountNum == Some(n)
  }

  /** `any(acc.get("Account_Num") == n for acc in entries)`, scanning left to right. */
  method AlreadyLinked(entries: seq<LinkEntry>, n: string) returns (found: bool)
    ensures found <==> IsLinked(entries, n)
  {
    var k := 0;
    while k < |entries|
      invariant 0 <= k <= |entries|
      invariant forall j :: 0 <= j < k ==> entries[j].accountNum != Some(n)
    {
      if entries[k].accountNum == Some(n) {
        return true;
      }
      k := k + 1;
    }
    return false;
  }

  /** Appending entry `e` links exactly what was linked before, and `e`'s account. */
  lemma LinkedAfterAppend(entries: seq<LinkEntry>, e: LinkEntry, n: string)
    ensures IsLinked(entries + [e], n) <==> IsLinked(entries, n) || e.accountNum == Some(n)
  {
    var r := entries + [e];
    if IsLinked(entries, n) {
      var k :| 0 <= k < |entries| && entries[k].accountNum == Some(n);
      assert r[k] == entries[k];
    }
    if IsLinked(r, n) {
      var k :| 0 <= k < |r| && r[k].accountNum == Some(n);
      if k < |entries| { assert entries[k] == r[k]; }
    }
    assert r[|entries|] == e;
  }

  /** One iteration of the link loop over case `c`: `c`'s account is linked afterwards iff it passes the filter or was already linked. */
  function Step(entries: seq<LinkEntry>, c: Case): (r: seq<LinkEntry>)
    ensures entries <= r && |r| <= |entries| + 1
    ensures forall n :: IsLinked(r, n) <==> IsLinked(entries, n) || (IsLinkCandidate(c) && c.accountNum == Some(n))
  {
    if IsLinkCandidate(c) && !IsLinked(entries, c.accountNum.value) then
      var e := LinkEntry(c.accountNum);
      assert forall n :: IsLinked(entries + [e], n) <==> IsLinked(entries, n) || e.accountNum == Some(n) by {
        forall n ensures IsLinked(entries + [e], n) <==> IsLinked(entries, n) || e.accountNum == Some(n) {
          LinkedAfterAppend(entries, e, n);
        }
      }
      entries + [e]
    else entries
  }

  /** Some case among `docs` passes the link filter with account number `n`. */
  predicate Supplies(docs: seq<Case>, n: string) {
    exists k :: 0 <= k < |docs| && IsLinkCandidate(docs[k]) && docs[k].accountNum == Some(n)
  }

  /** The link loop over `docs`, starting from `entries`: it never drops an entry and adds at most one per case. */
  function Scan(entries: seq<LinkEntry>, docs: seq<Case>): (r: seq<LinkEntry>)
    ensures |entries| <= |r| <= |entries| + |docs|
    decreases |docs|
  {
    if docs == [] then entries else Scan(Step(entries, docs[0]), docs[1..])
  }

  /** After the loop, account `n` is linked iff it was linked before or some case of `docs` supplies it. */
  lemma {:induction false} ScanLinksExactly(entries: seq<LinkEntry>, docs: seq<Case>, n: string)
    ensures IsLinked(Scan(entries, docs), n) <==> IsLinked(entries, n) || Supplies(docs, n)
    decreases |docs|
  {
    if docs != [] {
      ScanLinksExactly(Step(entries, docs[0]), docs[1..], n);
      if Supplies(docs[1..], n) {
        var k :| 0 <= k < |docs[1..]| && IsLinkCandidate(docs[1..][k]) && docs[1..][k].accountNum == Some(n);
        assert docs[k + 1] == docs[1..][k];
      }
      if Supplies(docs, n) {
        var k :| 0 <= k < |docs| && IsLinkCandidate(docs[k]) && docs[k].accountNum == Some(n);
        if k > 0 { assert docs[1..][k - 1] == docs[k]; }
      }
    }
  }

  /** The pass only appends: the original entries stay at the front, in order. */
  lemma {:induction false} ScanOnlyAppends(entries: seq<LinkEntry>, docs: seq<Case>)
    ensures entries <= Scan(entries, docs)
    ensures |Scan(entries, docs)| <= |entries| + |docs|
    decreases |docs|
  {
    if docs != [] {
      ScanOnlyAppends(Step(entries, docs[0]), docs[1..]);
    }
  }

  /** Every appended entry has a non-empty account number that no earlier entry has. */
  lemma {:induction false} ScanAppendsOnlyNew(entries: seq<LinkEntry>, docs: seq<Case>)
    ensures forall i :: |entries| <= i < |Scan(entries, docs)| ==>
      Truthy(Scan(entries, docs)[i].accountNum) &&
      !IsLinked(Scan(entries, docs)[..i], Scan(entries, docs)[i].accountNum.value)
    decreases |docs|
  {
    if docs != [] {
      var next := Step(entries, docs[0]);
      var r := Scan(entries, docs);
      ScanAppendsOnlyNew(next, docs[1..]);
      ScanOnlyAppends(next, docs[1..]);
      if |next| > |entries| {
        assert r[..|entries|] == entries;
        assert r[|entries|] == next[|entries|] == LinkEntry(docs[0].accountNum);
      }
    }
  }

  /** No two entries carry the same account number. */
  predicate NoDuplicates(entries: seq<LinkEntry>) {
    forall i, j :: 0 <= i < j < |entries| && entries[i].accountNum.Some? ==> entries[i].accountNum != entries[j].accountNum
  }

  /** A list without duplicate account numbers stays so. */
  lemma ScanKeepsNoDuplicates(entries: seq<LinkEntry>, docs: seq<Case>)
    requires NoDuplicates(entries)
    ensures NoDuplicates(Scan(entries, docs))
  {
    var r := Scan(entries, docs);
    ScanOnlyAppends(entries, docs);
    ScanAppendsOnlyNew(entries, docs);
    forall i, j | 0 <= i < j < |r| && r[i].accountNum.Some?
      ensures r[i].accountNum != r[j].accountNum
    {
      if j < |entries| {
        assert r[i] == entries[i] && r[j] == entries[j];
      } else {
        assert r[..j][i] == r[i];
      }
    }
  }

  /** A number linked in a prefix is linked in the whole list. */
  lemma LinkedInExtension(a: seq<LinkEntry>, b: seq<LinkEntry>, n: string)
    requires a <= b && IsLinked(a, n)
    ensures IsLinked(b, n)
  {
    var k :| 0 <= k < |a| && a[k].accountNum == Some(n);
    assert b[k] == a[k];
  }

  /** Every candidate's account number ends up in the list. */
  lemma {:induction false} ScanLinksEveryCandidate(entries: seq<LinkEntry>, docs: seq<Case>)
    ensures forall k :: 0 <= k < |docs| && IsLinkCandidate(docs[k]) ==> IsLinked(Scan(entries, docs), docs[k].accountNum.value)
    decreases |docs|
  {
    if docs != [] {
      var next := Step(entries, docs[0]);
      var r := Scan(entries, docs);
      ScanLinksEveryCandidate(next, docs[1..]);
      ScanOnlyAppends(next, docs[1..]);
      if IsLinkCandidate(docs[0]) {
        var n := docs[0].accountNum.value;
        if !IsLinked(entries, n) {
          assert next[|entries|].accountNum == Some(n);
        }
        assert IsLinked(next, n);
        LinkedInExtension(next, r, n);
      }
      forall k | 1 <= k < |docs| && IsLinkCandidate(docs[k])
        ensures IsLinked(r, docs[k].accountNum.value)
      {
        assert docs[k] == docs[1..][k - 1];
      }
    }
  }

  /** Entry `i` of `r` is `{"Account_Num": n}` for a candidate case among `docs`. */
  predicate FromCandidate(r: seq<LinkEntry>, i: int, docs: seq<Case>)
    requires 0 <= i < |r|
  {
    exists k :: 0 <= k < |docs| && IsLinkCandidate(docs[k]) && r[i] == LinkEntry(docs[k].accountNum)
  }

  /** Every appended entry comes from a candidate case. */
  lemma {:induction false} ScanAppendsOnlyCandidates(entries: seq<LinkEntry>, docs: seq<Case>)
    ensures forall i :: |entries| <= i < |Scan(entries, docs)| ==> FromCandidate(Scan(entries, docs), i, docs)
    decreases |docs|
  {
    if docs != [] {
      var next := Step(entries, docs[0]);
      var r := Scan(entries, docs);
      ScanAppendsOnlyCandidates(next, docs[1..]);
      ScanOnlyAppends(next, docs[1..]);
      forall i | |entries| <= i < |r|
        ensures FromCandidate(r, i, docs)
      {
        if i < |next| {
          assert r[i] == next[i] == LinkEntry(docs[0].accountNum);
        } else {
          assert FromCandidate(r, i, docs[1..]);
          var k :| 0 <= k < |docs[1..]| && IsLinkCandidate(docs[1..][k]) && r[i] == LinkEntry(docs[1..][k].accountNum);
          assert docs[1..][k] == docs[k + 1];
        }
      }
    }
  }

  /** When every candidate's account is already linked, the pass changes nothing. */
  lemma {:induction false} ScanWithNothingNew(entries: seq<LinkEntry>, docs: seq<Case>)
    requires forall k :: 0 <= k < |docs| && IsLinkCandidate(docs[k]) ==> IsLinked(entries, docs[k].accountNum.value)
    ensures Scan(entries, docs) == entries
    decreases |docs|
  {
    if docs != [] {
      assert Step(entries, docs[0]) == entries;
      forall k | 0 <= k < |docs[1..]| && IsLinkCandidate(docs[1..][k])
        ensures IsLinked(entries, docs[1..][k].accountNum.value)
      {
        assert docs[1..][k] == docs[k + 1];
      }
      ScanWithNothingNew(entries, docs[1..]);
    }
  }

  /** Running the loop twice over the same cases gives the list of running it once. */
  lemma ScanIdempotent(entries: seq<LinkEntry>, docs: seq<Case>)
    ensures Scan(Scan(entries, docs), docs) == Scan(entries, docs)
  {
    ScanLinksEveryCandidate(entries, docs);
    ScanWithNothingNew(Scan(entries, docs), docs);
  }

  /**
    `collection.find({"customer_ref": customerRef})`, in store order; a
    `None` reference matches the cases whose `customer_ref` is missing or null.
   */
  function CasesForCustomer(cases: seq<Case>, customerRef: Value): (r: seq<Case>)
    ensures |r| <= |cases|
    ensures forall c :: c in r <==> c in cases && c.customerRef == customerRef
  {
    if cases == [] then []
    else (if cases[0].customerRef == customerRef then [cases[0]] else []) + CasesForCustomer(cases[1..], customerRef)
  }

  /** `incident_dict.get("Customer_Details", {}).get("customer_ref")`, where it does not raise. */
  function CustomerRef(d: Details): (r: Value)
    requires !d.DetailsNull?
    ensures d.DetailsMissing? ==> r == None
    ensures d.DetailsDict? ==> r == d.customerRef
  {
    match d
    case DetailsMissing => None
    case DetailsDict(r) => r
  }

  /** `Link_Accounts` after the repair at line 123: the list itself, or `[]` for anything else. */
  function ExistingLinks(l: Links): (r: seq<LinkEntry>)
    ensures l.LinksList? ==> r == l.entries
    ensures !l.LinksList? ==> r == []
  {
    if l.LinksList? then l.entries else []
  }

  /** A failure of the cursor: it raises instead of yielding document `k`. */
  datatype CursorFault = NoFault | FailsBefore(k: nat)

  /** Reading or processing case `i` raises: the cursor fails there, or its status is null. */
  predicate RaisesAt(docs: seq<Case>, fault: CursorFault, i: nat)
    requires i < |docs|
  {
    fault == FailsBefore(i) || docs[i].status.StatusNull?
  }

  /** The index of the first case, from `i` on, at which the loop raises; `|docs|` if none. */
  function StopFrom(docs: seq<Case>, fault: CursorFault, i: nat): (s: nat)
    requires i <= |docs|
    ensures i <= s <= |docs|
    ensures forall j :: i <= j < s ==> !RaisesAt(docs, fault, j)
    ensures s < |docs| ==> RaisesAt(docs, fault, s)
    decreases |docs| - i
  {
    if i == |docs| || RaisesAt(docs, fault, i) then i else StopFrom(docs, fault, i + 1)
  }

  /**
    The incident after a connected link pass. A null `Customer_Details`
    raises before anything is written. Otherwise `Link_Accounts` becomes a
    list and every case the cursor yields before the first exception is
    scanned; the exception handler returns the partly updated dict.
   */
  function LinkedDoc(d: Incident, cases: seq<Case>, fault: CursorFault): (r: Incident)
    ensures r.(linkAccounts := d.linkAccounts) == d
    ensures d.customerDetails.DetailsNull? ==> r == d
    ensures !d.customerDetails.DetailsNull? ==>
      r.linkAccounts.LinksList? && ExistingLinks(d.linkAccounts) <= r.linkAccounts.entries
  {
    if d.customerDetails.DetailsNull? then d
    else
      var docs := CasesForCustomer(cases, CustomerRef(d.customerDetails));
      var scanned := docs[..StopFrom(docs, fault, 0)];
      ScanOnlyAppends(ExistingLinks(d.linkAccounts), scanned);
      d.(linkAccounts := LinksList(Scan(ExistingLinks(d.linkAccounts), scanned)))
  }

  /** Scanning `docs[i..stop]` is one step over `docs[i]`, then the scan of the rest. */
  lemma ScanUnfolds(entries: seq<LinkEntry>, docs: seq<Case>, i: nat, stop: nat)
    requires i < stop <= |docs|
    ensures Scan(entries, docs[i..stop]) == Scan(Step(entries, docs[i]), docs[i + 1..stop])
  {
    assert docs[i..stop][0] == docs[i] && docs[i..stop][1..] == docs[i + 1..stop];
  }

  /** What `link_accounts_from_open_cases` returns: `False`, or the incident dict it was given. */
  datatype LinkResult = ReturnedFalse | ReturnedDict(dict: IncidentDict)

  /** `link_accounts_from_open_cases`: updates `Link_Accounts` of `incidentDict` in place. */
  method LinkAccountsFromOpenCases(incidentDict: IncidentDict, conn: Connect, cases: seq<Case>, fault: CursorFault)
    returns (r: LinkResult)
    modifies incidentDict
    ensures r == ReturnedFalse <==> conn != Connected
    ensures r.ReturnedDict? ==> r.dict == incidentDict
    ensures conn != Connected ==> incidentDict.doc == old(incidentDict.doc)
    ensures conn == Connected ==> incidentDict.doc == LinkedDoc(old(incidentDict.doc), cases, fault)
  {
    if conn != Connected {
      return ReturnedFalse;
    }
    ghost var d0 := incidentDict.doc;
    if incidentDict.doc.customerDetails.DetailsNull? {
      return ReturnedDict(incidentDict);
    }
    var customerRef := CustomerRef(incidentDict.doc.customerDetails);
    if !incidentDict.doc.linkAccounts.LinksList? {
      incidentDict.doc := incidentDict.doc.(linkAccounts := LinksList([]));
    }
    var caseDocuments := CasesForCustomer(cases, customerRef);
    ghost var stop := StopFrom(caseDocuments, fault, 0);
    ghost var start := ExistingLinks(d0.linkAccounts);
    var i := 0;
    while i < |caseDocuments|
      invariant 0 <= i <= stop
      invariant incidentDict.doc.linkAccounts.LinksList?
      invariant incidentDict.doc == d0.(linkAccounts := incidentDict.doc.linkAccounts)
      invariant Scan(incidentDict.doc.linkAccounts.entries, caseDocuments[i..stop]) == Scan(start, caseDocuments[..stop])
    {
      if fault == FailsBefore(i) {
        // the cursor raises; the handler returns the dict as it stands
        assert RaisesAt(caseDocuments, fault, i);
        return ReturnedDict(incidentDict);
      }
      var c := caseDocuments[i];
      if c.status.StatusNull? {
        // `None.lower()` raises
        assert RaisesAt(caseDocuments, fault, i);
        return ReturnedDict(incidentDict);
      }
      ghost var before := incidentDict.doc.linkAccounts.entries;
      ScanUnfolds(before, caseDocuments, i, stop);
      var status := if c.status.StatusText? then Lower(c.status.text) else "";
      if status != "close" {
        var accountNum := c.accountNum;
        if Truthy(accountNum) {
          var alreadyLinked := AlreadyLinked(incidentDict.doc.linkAccounts.entries, accountNum.value);
          if !alreadyLinked {
            assert Step(before, c) == before + [LinkEntry(accountNum)];
            incidentDict.doc := incidentDict.doc.(linkAccounts :=
              LinksList(incidentDict.doc.linkAccounts.entries + [LinkEntry(accountNum)]));
          }
        }
      }
      assert incidentDict.doc.linkAccounts.entries == Step(before, c);
      i := i + 1;
    }
    return ReturnedDict(incidentDict);
  }

  // ---------------------------------------------------------------------
  // Properties of the link pass
  // ---------------------------------------------------------------------

  /** Two passes over the same collection, with the same faults, leave what one pass leaves. */
  lemma LinkPassIdempotent(d: Incident, cases: seq<Case>, fault: CursorFault)
    ensures LinkedDoc(LinkedDoc(d, cases, fault), cases, fault) == LinkedDoc(d, cases, fault)
  {
    if !d.customerDetails.DetailsNull? {
      var docs := CasesForCustomer(cases, CustomerRef(d.customerDetails));
      ScanIdempotent(ExistingLinks(d.linkAccounts), docs[..StopFrom(docs, fault, 0)]);
    }
  }

  /** A `Link_Accounts` list without duplicate account numbers has none after the pass. */
  lemma LinkPassKeepsNoDuplicates(d: Incident, cases: seq<Case>, fault: CursorFault)
    requires d.linkAccounts.LinksList? ==> NoDuplicates(d.linkAccounts.entries)
    ensures LinkedDoc(d, cases, fault).linkAccounts.LinksList? ==>
      NoDuplicates(LinkedDoc(d, cases, fault).linkAccounts.entries)
  {
    if !d.customerDetails.DetailsNull? {
      var docs := CasesForCustomer(cases, CustomerRef(d.customerDetails));
      ScanKeepsNoDuplicates(ExistingLinks(d.linkAccounts), docs[..StopFrom(docs, fault, 0)]);
    }
  }

  /**
    When the scan runs to the end, every candidate case of the customer has
    its account number in `Link_Accounts`.
   */
  lemma LinkPassLinksEveryCandidate(d: Incident, cases: seq<Case>)
    requires !d.customerDetails.DetailsNull?
    requires forall c :: c in cases && c.customerRef == CustomerRef(d.customerDetails) ==> !c.status.StatusNull?
    ensures forall c :: c in cases && c.customerRef == CustomerRef(d.customerDetails) && IsLinkCandidate(c) ==>
      IsLinked(LinkedDoc(d, cases, NoFault).linkAccounts.entries, c.accountNum.value)
  {
    var docs := CasesForCustomer(cases, CustomerRef(d.customerDetails));
    var s := StopFrom(docs, NoFault, 0);
    if s < |docs| {
      assert false;
    }
    assert docs[..s] == docs;
    ScanLinksEveryCandidate(ExistingLinks(d.linkAccounts), docs);
    forall c | c in cases && c.customerRef == CustomerRef(d.customerDetails) && IsLinkCandidate(c)
      ensures IsLinked(LinkedDoc(d, cases, NoFault).linkAccounts.entries, c.accountNum.value)
    {
      assert c in docs;
      var k :| 0 <= k < |docs| && docs[k] == c;
    }
  }

  /** `c` is a case of the collection, of customer `customerRef`, that passes the link filter. */
  predicate FromCandidateOf(c: Case, cases: seq<Case>, customerRef: Value) {
    c in cases && c.customerRef == customerRef && IsLinkCandidate(c)
  }

  /**
    Every entry the pass adds is `{"Account_Num": n}` for a candidate case
    of the same customer reference.
   */
  lemma LinkPassAddsOnlyCandidates(d: Incident, cases: seq<Case>, fault: CursorFault)
    requires !d.customerDetails.DetailsNull?
    ensures forall i :: |ExistingLinks(d.linkAccounts)| <= i < |LinkedDoc(d, cases, fault).linkAccounts.entries| ==>
      exists c :: FromCandidateOf(c, cases, CustomerRef(d.customerDetails)) &&
        LinkedDoc(d, cases, fault).linkAccounts.entries[i] == LinkEntry(c.accountNum)
  {
    var ref := CustomerRef(d.customerDetails);
    var docs := CasesForCustomer(cases, ref);
    var scanned := docs[..StopFrom(docs, fault, 0)];
    var start := ExistingLinks(d.linkAccounts);
    var r := LinkedDoc(d, cases, fault).linkAccounts.entries;
    assert r == Scan(start, scanned);
    ScanAppendsOnlyCandidates(start, scanned);
    forall i | |start| <= i < |r|
      ensures exists c :: FromCandidateOf(c, cases, ref) && r[i] == LinkEntry(c.accountNum)
    {
      assert FromCandidate(r, i, scanned);
      var k :| 0 <= k < |scanned| && IsLinkCandidate(scanned[k]) && r[i] == LinkEntry(scanned[k].accountNum);
      assert scanned[k] in docs;
      assert FromCandidateOf(scanned[k], cases, ref);
    }
  }

  /** "Case Close" passes the link filter; only a status that lower-cases to exactly "close" fails it. */
  lemma LinkFilterTestsOnlyClose()
    ensures IsLinkCandidate(Case(None, Some("AC1"), None, StatusText("Case Close")))
    ensures !IsLinkCandidate(Case(None, Some("AC1"), None, StatusText("CLOSE")))
    ensures IsLinkCandidate(Case(None, Some("AC1"), None, StatusMissing))
    ensures !IsLinkCandidate(Case(None, Some(""), None, StatusText("Open")))
  {
  }

  /** The two correlation queries use different notions of a closed case. */
  lemma StatusPoliciesDisagree()
    ensures var c := Case(Some("AC1"), Some("AC1"), None, StatusText("Case Close"));
      !IsOpenFor(c, Some("AC1")) && IsLinkCandidate(c)
    ensures var c := Case(Some("AC1"), Some("AC1"), None, StatusText("close"));
      IsOpenFor(c, Some("AC1")) && !IsLinkCandidate(c)
  {
  }

  /**
    Two cases of customer CR1: AC2 with status "Open" is linked, AC3 with
    status "Close" is not.
   */
  lemma SharedCustomerRefScenario()
    ensures var d := Incident(Some("INC100"), Some("AC1"), DetailsDict(Some("CR1")), LinksMissing, None, None, None, map[]);
      var cases := [Case(None, Some("AC2"), Some("CR1"), StatusText("Open")),
                    Case(None, Some("AC3"), Some("CR1"), StatusText("Close"))];
      LinkedDoc(d, cases, NoFault).linkAccounts == LinksList([LinkEntry(Some("AC2"))])
  {
    var c2 := Case(None, Some("AC2"), Some("CR1"), StatusText("Open"));
    var c3 := Case(None, Some("AC3"), Some("CR1"), StatusText("Close"));
    var cases := [c2, c3];
    assert CasesForCustomer(cases, Some("CR1")) == cases by {
      assert cases[1..] == [c3];
      assert [c3][1..] == [];
    }
    assert StopFrom(cases, NoFault, 0) == 2;
    assert Lower("Close") == "close";
    assert Step([], c2) == [LinkEntry(Some("AC2"))];
    assert Step([LinkEntry(Some("AC2"))], c3) == [LinkEntry(Some("AC2"))];
    assert cases[..2] == cases;
    assert Scan([], cases) == [LinkEntry(Some("AC2"))] by {
      assert cases[1..] == [c3];
      assert [c3][1..] == [];
    }
  }

  /**
    An incident without `Customer_Details` still queries, with `None`, and
    links the accounts of cases that have no `customer_ref`.
   */
  lemma MissingCustomerRefStillQueries()
    ensures var d := Incident(Some("INC1"), Some("AC1"), DetailsMissing, LinksNotList, None, None, None, map[]);
      LinkedDoc(d, [Case(None, Some("AC9"), None, StatusMissing)], NoFault).linkAccounts
        == LinksList([LinkEntry(Some("AC9"))])
  {
  }
}
