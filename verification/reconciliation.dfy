/** The reconciliation engine: the body of the `/identify` handler. */
module Reconciliation {
  import opened Wrappers
  import opened Contacts
  import opened Queries
  import opened StoreWrites
  import opened ConsolidatedView

  /** The request body; either field may be missing. */
  datatype Request = Request(email: Option<string>, phoneNumber: Option<string>)

  /** `BadRequest` is the 400 raised by validation; `InternalFault` is an
      exception the handler does not catch (a 500). */
  datatype Error = BadRequest | InternalFault

  /** The store after the call, and the response or the error. */
  datatype Reply = Reply(store: Store, result: Result<ContactView, Error>)

  /** Validation: at least one field present and non-empty. */
  predicate ValidRequest(req: Request) {
    Truthy(req.email) || Truthy(req.phoneNumber)
  }

  /** Python `==` on both fields, so a missing field equals a missing field. */
  predicate ExactMatch(c: Contact, req: Request) {
    c.email == req.email && c.phoneNumber == req.phoneNumber
  }

  /** The first exact match of the list, as the `for ... break` loop finds it. */
  function FirstExact(matches: seq<Contact>, req: Request): (r: Option<Contact>)
    ensures r.Some? ==> r.value in matches && ExactMatch(r.value, req)
    ensures r.None? <==> forall c :: c in matches ==> !ExactMatch(c, req)
    ensures r.Some? ==> exists k :: 0 <= k < |matches| && matches[k] == r.value
                                    && forall j :: 0 <= j < k ==> !ExactMatch(matches[j], req)
    decreases |matches|
  {
    if matches == [] then None
    else if ExactMatch(matches[0], req) then Some(matches[0])
    else
      var r := FirstExact(matches[1..], req);
      if r.None? then r
      else
        ghost var k :| 0 <= k < |matches[1..]| && matches[1..][k] == r.value
                       && forall j :: 0 <= j < k ==> !ExactMatch(matches[1..][j], req);
        assert matches[k + 1] == r.value;
        r
  }

  /** The group root of an exact match: `linkedId if linkedId else id`;
      a link of 0 is falsy in Python and falls back to the id. */
  function ExactRoot(c: Contact): nat {
    if c.linkedId.Some? && c.linkedId.value != 0 then c.linkedId.value else c.id
  }

  /** The group root the merge step records for a matched row: a primary
      is its own root, a secondary's root is its link (possibly NULL). */
  function RootOf(c: Contact): Option<nat> {
    if c.precedence == Primary then Some(c.id) else c.linkedId
  }

  /** The set `primary_ids`, listed in order of first appearance. */
  function DistinctRoots(matches: seq<Contact>): (r: seq<Option<nat>>)
    ensures NoDuplicates(r)
    ensures forall x :: x in r <==> exists c :: c in matches && RootOf(c) == x
    decreases |matches|
  {
    if matches == [] then []
    else
      var n := |matches| - 1;
      var prefix := DistinctRoots(matches[..n]);
      var x := RootOf(matches[n]);
      assert matches == matches[..n] + [matches[n]];
      if x in prefix then prefix else prefix + [x]
  }

  /** `SELECT * FROM Contact WHERE id = ?` for every root; a NULL root or a
      missing row makes `dict(None)` raise, modelled as `None`. */
  function FetchRoots(rows: seq<Contact>, roots: seq<Option<nat>>): (r: Option<seq<Contact>>)
    ensures r.Some? ==> |r.value| == |roots|
    ensures r.Some? ==> forall i :: 0 <= i < |roots| ==> roots[i] == Some(r.value[i].id) && r.value[i] in rows
    ensures r.None? <==> exists i :: 0 <= i < |roots| && (roots[i].None? || FindById(rows, roots[i].value).None?)
    decreases |roots|
  {
    if roots == [] then Some([])
    else
      match roots[0]
      case None => None
      case Some(id) =>
        match FindById(rows, id)
        case None => None
        case Some(c) =>
          var rest := FetchRoots(rows, roots[1..]);
          assert forall i :: 1 <= i < |roots| ==> roots[i] == roots[1..][i - 1];
          if rest.None? then None else Some([c] + rest.value)
  }

  /** The loop demoting every fetched root other than the survivor; the
      loop reads nothing of a fetched row but its id. */
  function DemoteOthers(s: Store, rootIds: seq<nat>, survivorId: nat): (r: Store)
    ensures |r.rows| == |s.rows| && r.nextId == s.nextId && r.clock >= s.clock
    ensures forall k :: 0 <= k < |s.rows| ==> SameIdentity(s.rows[k], r.rows[k])
    ensures forall k :: 0 <= k < |s.rows| ==>
              if s.rows[k].id != survivorId && s.rows[k].id in rootIds
              then r.rows[k].linkedId == Some(survivorId) && r.rows[k].precedence == Secondary
              else r.rows[k] == s.rows[k]
    ensures Wf(s) && (forall id :: id in rootIds && id != survivorId ==> 1 <= survivorId < id) ==> Wf(r)
    decreases |rootIds|
  {
    if rootIds == [] then s
    else
      var s1 := if rootIds[0] != survivorId then UpdateContactToSecondary(s, rootIds[0], survivorId) else s;
      assert rootIds[0] in rootIds && forall id :: id in rootIds[1..] ==> id in rootIds;
      DemoteOthers(s1, rootIds[1..], survivorId)
  }

  /** The identifiers already present among the group's rows: the sets
      `existing_emails` and `existing_phones`, which skip empty values. */
  function KnownEmails(group: seq<Contact>): set<string> {
    set c | c in group && Truthy(c.email) :: c.email.value
  }

  function KnownPhones(group: seq<Contact>): set<string> {
    set c | c in group && Truthy(c.phoneNumber) :: c.phoneNumber.value
  }

  /** `new_email or new_phone`. */
  predicate HasNewInformation(group: seq<Contact>, req: Request) {
    || (Truthy(req.email) && req.email.value !in KnownEmails(group))
    || (Truthy(req.phoneNumber) && req.phoneNumber.value !in KnownPhones(group))
  }

  /** Row `c` is the one a call appended for `req` at the end of `s`. */
  predicate AppendedFor(c: Contact, s: Store, req: Request, linkedId: Option<nat>, precedence: Precedence) {
    && c.id == s.nextId
    && ExactMatch(c, req)
    && Active(c)
    && c.linkedId == linkedId
    && c.precedence == precedence
  }

  /** The response for a resolved root. A NULL root reaches the response
      model, whose validation rejects it. */
  function Respond(s: Store, primaryId: Option<nat>): (r: Reply)
    ensures r.store == s
    ensures r.result != Failure(BadRequest)
  {
    match primaryId
    case Some(pid) => Reply(s, Success(Consolidate(s, pid)))
    case None => Reply(s, Failure(InternalFault))
  }

  /** Steps after the root is known: add one secondary if the request
      carries information the group lacks, then build the view. A NULL
      root expands to nothing, so every valid request is new to it. */
  function AddIfNew(s: Store, req: Request, primaryId: Option<nat>): (r: Reply)
    ensures |s.rows| <= |r.store.rows| <= |s.rows| + 1
    ensures forall k :: 0 <= k < |s.rows| ==> r.store.rows[k] == s.rows[k]
    ensures r.result != Failure(BadRequest)
    ensures |r.store.rows| == |s.rows| + 1 ==> AppendedFor(r.store.rows[|s.rows|], s, req, primaryId, Secondary)
    ensures r.result.Success? <==> primaryId.Some?
    ensures r.result.Success? ==> primaryId == Some(r.result.value.primaryContatctId)
                                  && r.result.value == Consolidate(r.store, primaryId.value)
  {
    var group := if primaryId.Some? then LinkedContacts(s, primaryId.value) else [];
    if HasNewInformation(group, req) then
      var created := CreateContact(s, req.email, req.phoneNumber, primaryId, Secondary);
      Respond(created.store, primaryId)
    else
      Respond(s, primaryId)
  }

  /** The outcome of resolving the matched rows to one root: the store
      after any demotions and the root, or the fault of a failed fetch. */
  datatype Resolution = Resolved(store: Store, primaryId: Option<nat>) | FetchFailed

  /** Collect the roots; when there are several, the oldest survives and
      the others are demoted under it. */
  function ResolvePrimary(s: Store, matches: seq<Contact>): (r: Resolution)
    requires matches != []
    ensures r.Resolved? ==> |r.store.rows| == |s.rows| && r.store.nextId == s.nextId
    ensures r.Resolved? ==> forall k :: 0 <= k < |s.rows| ==> SameIdentity(s.rows[k], r.store.rows[k])
    // the answer is the root of one of the matched rows
    ensures r.Resolved? ==> exists c :: c in matches && RootOf(c) == r.primaryId
    // a single root demotes nothing
    ensures |DistinctRoots(matches)| == 1 ==> r.Resolved? && r.store == s
  {
    var roots := DistinctRoots(matches);
    assert RootOf(matches[0]) in roots;
    if |roots| > 1 then
      match FetchRoots(s.rows, roots)
      case None => FetchFailed
      case Some(rootRows) =>
        var survivor := Oldest(rootRows);
        ghost var i :| 0 <= i < |rootRows| && rootRows[i] == survivor;
        assert roots[i] in roots;
        Resolved(DemoteOthers(s, IdColumn(rootRows), survivor.id), Some(survivor.id))
    else
      Resolved(s, roots[0])
  }

  /** The partial-match branch: resolve the root, then add new information. */
  function Reconcile(s: Store, req: Request, matches: seq<Contact>): (r: Reply)
    requires matches != []
    ensures |s.rows| <= |r.store.rows| <= |s.rows| + 1
    ensures forall k :: 0 <= k < |s.rows| ==> SameIdentity(s.rows[k], r.store.rows[k])
    ensures r.result != Failure(BadRequest)
    ensures r.result.Success? ==> r.result.value == Consolidate(r.store, r.result.value.primaryContatctId)
    ensures r.result.Success? && |r.store.rows| == |s.rows| + 1 ==>
              AppendedFor(r.store.rows[|s.rows|], s, req, Some(r.result.value.primaryContatctId), Secondary)
  {
    match ResolvePrimary(s, matches)
    case FetchFailed => Reply(s, Failure(InternalFault))
    case Resolved(merged, primaryId) => AddIfNew(merged, req, primaryId)
  }

  /** `identify(request)`: validate, look the identifiers up, then create a
      primary, return an exact match unchanged, or reconcile. */
  function Identify(s: Store, req: Request): (r: Reply)
    ensures r.result == Failure(BadRequest) <==> !ValidRequest(req)
    ensures !ValidRequest(req) ==> r.store == s
    ensures |s.rows| <= |r.store.rows| <= |s.rows| + 1
    ensures forall k :: 0 <= k < |s.rows| ==> SameIdentity(s.rows[k], r.store.rows[k])
    // a successful answer is always the view of the resulting store
    ensures r.result.Success? ==> r.result.value == Consolidate(r.store, r.result.value.primaryContatctId)
    // an appended row carries the request and is rooted where the answer is
    ensures r.result.Success? && |r.store.rows| == |s.rows| + 1 ==>
              var pid := r.result.value.primaryContatctId;
              || (AppendedFor(r.store.rows[|s.rows|], s, req, None, Primary) && pid == s.nextId)
              || AppendedFor(r.store.rows[|s.rows|], s, req, Some(pid), Secondary)
  {
    if !ValidRequest(req) then Reply(s, Failure(BadRequest))
    else
      var matches := ContactsByEmailOrPhone(s, req.email, req.phoneNumber);
      if matches == [] then
        var created := CreateContact(s, req.email, req.phoneNumber, None, Primary);
        assert forall k :: 0 <= k < |s.rows| ==> created.store.rows[k] == s.rows[k];
        Reply(created.store, Success(Consolidate(created.store, created.id)))
      else
        match FirstExact(matches, req)
        case Some(c) => Reply(s, Success(Consolidate(s, ExactRoot(c))))
        case None => Reconcile(s, req, matches)
  }
}
