/** What one call of `identify` does to a well-formed store, and what two
    calls in a row do. */
module ReconciliationProperties {
  import opened Wrappers
  import opened Contacts
  import opened Queries
  import opened StoreWrites
  import opened ConsolidatedView
  import opened Reconciliation

  /** In a well-formed store every matched row names an existing root. */
  lemma RootsExist(s: Store, matches: seq<Contact>)
    requires Wf(s)
    requires forall c :: c in matches ==> c in s.rows
    ensures forall x :: x in DistinctRoots(matches) ==> x.Some? && 1 <= x.value <= |s.rows|
  {
    forall x | x in DistinctRoots(matches) ensures x.Some? && 1 <= x.value <= |s.rows| {
      var c :| c in matches && RootOf(c) == x;
      var k :| 0 <= k < |s.rows| && s.rows[k] == c;
      assert RowWf(s, k);
    }
  }

  /** ... so fetching them never fails. */
  lemma FetchRootsSucceeds(s: Store, roots: seq<Option<nat>>)
    requires Wf(s)
    requires forall x :: x in roots ==> x.Some? && 1 <= x.value <= |s.rows|
    ensures FetchRoots(s.rows, roots).Some?
  {
    forall i | 0 <= i < |roots| ensures roots[i].Some? && FindById(s.rows, roots[i].value).Some? {
      assert roots[i] in roots;
      FindByIdWf(s, roots[i].value);
    }
  }

  /** The oldest of several rows of a well-formed store is also the one
      with the least id. */
  lemma SurvivorIsOldest(s: Store, roots: seq<Contact>)
    requires Wf(s) && roots != []
    requires forall c :: c in roots ==> c in s.rows
    ensures forall i :: 0 <= i < |roots| && roots[i].id != Oldest(roots).id ==>
              1 <= Oldest(roots).id < roots[i].id <= |s.rows| && Oldest(roots).createdAt < roots[i].createdAt
  {
    var survivor := Oldest(roots);
    forall i | 0 <= i < |roots| && roots[i].id != survivor.id
      ensures 1 <= survivor.id < roots[i].id <= |s.rows| && survivor.createdAt < roots[i].createdAt
    {
      assert roots[i] in roots;
      OlderHasSmallerId(s, survivor, roots[i]);
    }
  }

  /** Demoting every fetched root but the oldest under it keeps a
      well-formed store well formed. */
  lemma MergedStoreWf(s: Store, rootRows: seq<Contact>)
    requires Wf(s) && rootRows != []
    requires forall c :: c in rootRows ==> c in s.rows
    ensures 1 <= Oldest(rootRows).id <= |s.rows|
    ensures Wf(DemoteOthers(s, IdColumn(rootRows), Oldest(rootRows).id))
  {
    var p := Oldest(rootRows).id;
    var ids := IdColumn(rootRows);
    RowAtId(s, Oldest(rootRows));
    SurvivorIsOldest(s, rootRows);
    forall id | id in ids && id != p ensures 1 <= p < id {
      var i :| 0 <= i < |ids| && ids[i] == id;
    }
  }

  /** On a well-formed store the roots always resolve, to an existing row,
      and the demotions keep the store well formed. */
  lemma ResolvePrimaryWf(s: Store, matches: seq<Contact>)
    requires Wf(s) && matches != []
    requires forall c :: c in matches ==> c in s.rows
    ensures var r := ResolvePrimary(s, matches);
            && r.Resolved? && Wf(r.store)
            && r.primaryId.Some? && 1 <= r.primaryId.value <= |s.rows|
  {
    var roots := DistinctRoots(matches);
    RootsExist(s, matches);
    assert roots[0] in roots;
    if |roots| > 1 {
      FetchRootsSucceeds(s, roots);
      MergedStoreWf(s, FetchRoots(s.rows, roots).value);
    }
  }

  /** A call on a well-formed store leaves it well formed, and no internal
      fault is raised: every link names an existing row. */
  lemma IdentifyPreservesWf(s: Store, req: Request)
    requires Wf(s)
    ensures Wf(Identify(s, req).store)
    ensures Identify(s, req).result != Failure(InternalFault)
  {
    if ValidRequest(req) {
      var matches := ContactsByEmailOrPhone(s, req.email, req.phoneNumber);
      if matches != [] && FirstExact(matches, req).None? {
        ResolvePrimaryWf(s, matches);
        var merged := ResolvePrimary(s, matches).store;
        assert LinkFits(merged, ResolvePrimary(s, matches).primaryId, Secondary);
      }
    }
  }

  /** The one-element view list of an identifier: empty when the value is
      missing or empty. */
  function Listed(v: Option<string>): seq<string> {
    if Truthy(v) then [v.value] else []
  }

  /** A query result holding exactly one row is that row alone. */
  lemma Singleton(r: seq<Contact>, x: Contact)
    requires Chronological(r)
    requires forall c :: c in r <==> c == x
    ensures r == [x]
  {
    ChronologicalUnique(r, [x]);
  }

  /** The view of a group holding a single primary row. */
  lemma ConsolidateLoneRow(s: Store, row: Contact)
    requires Chronological(s.rows) && row in s.rows && Active(row)
    requires forall c :: c in s.rows && c != row ==> c.id != row.id && c.linkedId != Some(row.id)
    ensures Consolidate(s, row.id) == ContactView(row.id, Listed(row.email), Listed(row.phoneNumber), [])
  {
    var id := row.id;
    var group := LinkedContacts(s, id);
    Singleton(group, row);
    assert PrimaryRow(group, id) == Some(row);
    var secs := SecondaryRows(s, id);
    assert secs == [] by { ElementIsMember(secs, 0); }
    assert ViewOrder(s, id) == [row];
    assert EmailColumn([row]) == [row.email];
    assert PhoneColumn([row]) == [row.phoneNumber];
    assert DistinctValues([row.email]) == Listed(row.email) by {
      assert [row.email][..0] == [];
    }
    assert DistinctValues([row.phoneNumber]) == Listed(row.phoneNumber) by {
      assert [row.phoneNumber][..0] == [];
    }
  }

  /** The branch taken when the lookup finds nothing. */
  lemma NoMatchPath(s: Store, req: Request)
    requires ValidRequest(req)
    requires forall c :: c in s.rows ==> !MatchesEmailOrPhone(c, req.email, req.phoneNumber)
    ensures var created := CreateContact(s, req.email, req.phoneNumber, None, Primary);
            Identify(s, req) == Reply(created.store, Success(Consolidate(created.store, created.id)))
  {
    var matches := ContactsByEmailOrPhone(s, req.email, req.phoneNumber);
    assert matches == [] by { ElementIsMember(matches, 0); }
  }

  /** A primary inserted into a well-formed store shares its id with no
      other row and has no row linked to it. */
  lemma NewPrimaryAlone(s: Store, email: Option<string>, phoneNumber: Option<string>)
    requires Wf(s)
    ensures var s1 := CreateContact(s, email, phoneNumber, None, Primary).store;
            && Wf(s1) && s1.rows == s.rows + [s1.rows[|s.rows|]]
            && forall c :: c in s1.rows && c != s1.rows[|s.rows|] ==>
                 c.id != s1.rows[|s.rows|].id && c.linkedId != Some(s1.rows[|s.rows|].id)
  {
    var s1 := CreateContact(s, email, phoneNumber, None, Primary).store;
    var row := s1.rows[|s.rows|];
    assert s1.rows == s.rows + [row];
    forall c | c in s1.rows && c != row ensures c.id != row.id && c.linkedId != Some(row.id) {
      var k :| 0 <= k < |s.rows| && s.rows[k] == c;
      assert RowWf(s, k);
    }
  }

  /** No match: exactly one row is appended, a primary with a fresh id, no
      link and the request's identifiers, and the view shows that row alone. */
  lemma NoMatchCreatesPrimary(s: Store, req: Request)
    requires Wf(s) && ValidRequest(req)
    requires forall c :: c in s.rows ==> !MatchesEmailOrPhone(c, req.email, req.phoneNumber)
    ensures var r := Identify(s, req);
            && r.store.rows == s.rows + [Contact(s.nextId, req.email, req.phoneNumber, None, Primary, s.clock, s.clock, None)]
            && r.result == Success(ContactView(s.nextId, Listed(req.email), Listed(req.phoneNumber), []))
  {
    var created := CreateContact(s, req.email, req.phoneNumber, None, Primary);
    NoMatchPath(s, req);
    NewPrimaryAlone(s, req.email, req.phoneNumber);
    ConsolidateLoneRow(created.store, created.store.rows[|s.rows|]);
  }

  /** An active row equal to a valid request on both fields is found by
      the identifier lookup. */
  lemma ExactRowMatches(s: Store, req: Request, c: Contact)
    requires ValidRequest(req) && c in s.rows && Active(c) && ExactMatch(c, req)
    ensures c in ContactsByEmailOrPhone(s, req.email, req.phoneNumber)
  {
    assert MatchesEmailOrPhone(c, req.email, req.phoneNumber);
  }

  /** The branch taken when the lookup finds an exact duplicate. */
  lemma ExactPath(s: Store, req: Request)
    requires ValidRequest(req)
    requires FirstExact(ContactsByEmailOrPhone(s, req.email, req.phoneNumber), req).Some?
    ensures var c := FirstExact(ContactsByEmailOrPhone(s, req.email, req.phoneNumber), req).value;
            Identify(s, req) == Reply(s, Success(Consolidate(s, ExactRoot(c))))
  {
    var matches := ContactsByEmailOrPhone(s, req.email, req.phoneNumber);
    assert matches != [];
  }

  /** In a chronological list the first exact match is the oldest one. */
  lemma {:induction false} FirstExactIsEarliest(matches: seq<Contact>, req: Request)
    requires Chronological(matches) && FirstExact(matches, req).Some?
    ensures forall d :: d in matches && ExactMatch(d, req) ==> FirstExact(matches, req).value.createdAt <= d.createdAt
    decreases |matches|
  {
    var c := FirstExact(matches, req).value;
    if ExactMatch(matches[0], req) {
      forall d | d in matches && ExactMatch(d, req) ensures c.createdAt <= d.createdAt {
        var j :| 0 <= j < |matches| && matches[j] == d;
        if j > 0 {
          assert matches[0].createdAt < matches[j].createdAt;
        }
      }
    } else {
      var rest := matches[1..];
      assert FirstExact(matches, req) == FirstExact(rest, req);
      FirstExactIsEarliest(rest, req);
      forall d | d in matches && ExactMatch(d, req) ensures d in rest {
        var j :| 0 <= j < |matches| && matches[j] == d;
        assert rest[j - 1] == d;
      }
    }
  }

  /** The exact match the lookup loop picks is the oldest active exact
      duplicate in the store. */
  lemma FirstExactIsOldest(s: Store, req: Request)
    requires ValidRequest(req) && Chronological(s.rows)
    requires FirstExact(ContactsByEmailOrPhone(s, req.email, req.phoneNumber), req).Some?
    ensures var c := FirstExact(ContactsByEmailOrPhone(s, req.email, req.phoneNumber), req).value;
            forall d :: d in s.rows && Active(d) && ExactMatch(d, req) ==> c.createdAt <= d.createdAt
  {
    var matches := ContactsByEmailOrPhone(s, req.email, req.phoneNumber);
    FirstExactIsEarliest(matches, req);
    forall d | d in s.rows && Active(d) && ExactMatch(d, req) ensures d in matches {
      ExactRowMatches(s, req, d);
    }
  }

  /** Exact duplicate: when an active row already holds the request's email
      and phone number (a missing field matching a missing field), nothing
      is written and the answer is the group rooted at the oldest such row,
      at its link if it has one and at itself otherwise. */
  lemma ExactMatchIsReadOnly(s: Store, req: Request)
    requires ValidRequest(req)
    requires exists c :: c in s.rows && Active(c) && ExactMatch(c, req)
    ensures Identify(s, req).store == s
    ensures exists c :: && c in s.rows && Active(c) && ExactMatch(c, req)
                        && Identify(s, req).result == Success(Consolidate(s, ExactRoot(c)))
                        && (Chronological(s.rows) ==>
                              forall d :: d in s.rows && Active(d) && ExactMatch(d, req) ==> c.createdAt <= d.createdAt)
  {
    var c0 :| c0 in s.rows && Active(c0) && ExactMatch(c0, req);
    var matches := ContactsByEmailOrPhone(s, req.email, req.phoneNumber);
    ExactRowMatches(s, req, c0);
    var c := FirstExact(matches, req).value;
    ExactPath(s, req);
    if Chronological(s.rows) {
      FirstExactIsOldest(s, req);
    }
  }

  /** Repeating a call that hit an exact duplicate gives the same store and
      the same answer. */
  lemma ExactMatchIdempotent(s: Store, req: Request)
    requires ValidRequest(req)
    requires exists c :: c in s.rows && Active(c) && ExactMatch(c, req)
    ensures Identify(Identify(s, req).store, req) == Identify(s, req)
  {
    ExactMatchIsReadOnly(s, req);
  }

  /** A call that appends a row found no exact duplicate beforehand. */
  lemma NoExactBeforeCreation(s: Store, req: Request)
    requires |Identify(s, req).store.rows| == |s.rows| + 1
    ensures ValidRequest(req)
    ensures forall d :: d in s.rows && Active(d) ==> !ExactMatch(d, req)
  {
    if exists d :: d in s.rows && Active(d) && ExactMatch(d, req) {
      ExactMatchIsReadOnly(s, req);
    }
  }

  /** When a write keeps the identity of every old row and appends one
      row, and no old active row was an exact duplicate, the appended row
      is the only active exact duplicate afterwards. */
  lemma OnlyAppendedRowIsExact(s: Store, s1: Store, req: Request)
    requires |s1.rows| == |s.rows| + 1
    requires forall k :: 0 <= k < |s.rows| ==> SameIdentity(s.rows[k], s1.rows[k])
    requires forall d :: d in s.rows && Active(d) ==> !ExactMatch(d, req)
    ensures forall d :: d in s1.rows && Active(d) && ExactMatch(d, req) ==> d == s1.rows[|s.rows|]
  {
    forall d | d in s1.rows && Active(d) && ExactMatch(d, req) ensures d == s1.rows[|s.rows|] {
      var k :| 0 <= k < |s1.rows| && s1.rows[k] == d;
      ElementIsMember(s.rows, k);
    }
  }

  /** After a call that appended a row, repeating the same request writes
      nothing and gives the same answer: the appended row is now the exact
      duplicate, and it is rooted where the first answer was. */
  lemma RepeatAfterCreation(s: Store, req: Request)
    requires Wf(s)
    requires |Identify(s, req).store.rows| == |s.rows| + 1
    ensures Identify(Identify(s, req).store, req) == Identify(s, req)
  {
    var r := Identify(s, req);
    var s1 := r.store;
    IdentifyPreservesWf(s, req);
    NoExactBeforeCreation(s, req);
    assert r.result.Success?;
    var row := s1.rows[|s.rows|];
    assert RowWf(s1, |s.rows|);
    assert ExactRoot(row) == r.result.value.primaryContatctId;
    OnlyAppendedRowIsExact(s, s1, req);
    ExactMatchIsReadOnly(s1, req);
  }

  /** The branch taken when the lookup finds rows but no exact duplicate. */
  lemma ReconcilePath(s: Store, req: Request)
    requires ValidRequest(req)
    requires ContactsByEmailOrPhone(s, req.email, req.phoneNumber) != []
    requires FirstExact(ContactsByEmailOrPhone(s, req.email, req.phoneNumber), req).None?
    ensures Identify(s, req) == Reconcile(s, req, ContactsByEmailOrPhone(s, req.email, req.phoneNumber))
  {
  }

  /** Group `id` is reached by the request: it is the root of a row the
      identifier lookup finds. */
  predicate ReachesRoot(s: Store, req: Request, id: nat) {
    exists m :: m in s.rows && MatchesEmailOrPhone(m, req.email, req.phoneNumber) && RootOf(m) == Some(id)
  }

  /** A sequence holding two different values has at least two elements. */
  lemma TwoMembers<T>(xs: seq<T>, x: T, y: T)
    requires x in xs && y in xs && x != y
    ensures |xs| > 1
  {
  }

  /** Two reached groups mean at least two distinct roots. */
  lemma TwoReachedRoots(s: Store, req: Request)
    requires exists a: nat, b: nat :: ReachesRoot(s, req, a) && ReachesRoot(s, req, b) && a != b
    ensures var matches := ContactsByEmailOrPhone(s, req.email, req.phoneNumber);
            matches != [] && |DistinctRoots(matches)| > 1
  {
    var matches := ContactsByEmailOrPhone(s, req.email, req.phoneNumber);
    var a: nat, b: nat :| ReachesRoot(s, req, a) && ReachesRoot(s, req, b) && a != b;
    var ma :| ma in s.rows && MatchesEmailOrPhone(ma, req.email, req.phoneNumber) && RootOf(ma) == Some(a);
    var mb :| mb in s.rows && MatchesEmailOrPhone(mb, req.email, req.phoneNumber) && RootOf(mb) == Some(b);
    assert ma in matches && mb in matches;
    var roots := DistinctRoots(matches);
    assert Some(a) in roots && Some(b) in roots;
    TwoMembers(roots, Some(a), Some(b));
  }

  /** The ids of the fetched root rows are exactly the reached roots. */
  lemma RootIdsAreReachedRoots(s: Store, req: Request)
    requires ContactsByEmailOrPhone(s, req.email, req.phoneNumber) != []
    requires FetchRoots(s.rows, DistinctRoots(ContactsByEmailOrPhone(s, req.email, req.phoneNumber))).Some?
    ensures var rootRows := FetchRoots(s.rows, DistinctRoots(ContactsByEmailOrPhone(s, req.email, req.phoneNumber))).value;
            forall id :: id in IdColumn(rootRows) <==> ReachesRoot(s, req, id)
  {
    var matches := ContactsByEmailOrPhone(s, req.email, req.phoneNumber);
    var roots := DistinctRoots(matches);
    var rootRows := FetchRoots(s.rows, roots).value;
    var ids := IdColumn(rootRows);
    forall id: nat ensures id in ids <==> ReachesRoot(s, req, id) {
      if id in ids {
        var i :| 0 <= i < |ids| && ids[i] == id;
        assert roots[i] in roots;
        var m :| m in matches && RootOf(m) == roots[i];
      }
      if ReachesRoot(s, req, id) {
        var m :| m in s.rows && MatchesEmailOrPhone(m, req.email, req.phoneNumber) && RootOf(m) == Some(id);
        assert Some(id) in roots;
        var i :| 0 <= i < |roots| && roots[i] == Some(id);
        assert ids[i] == id;
      }
    }
  }

  /** Demoting a list of ids under row `p`: a listed row other than `p`
      becomes a secondary of `p`; `p` itself and unlisted rows stay. */
  lemma DemotionEffects(s: Store, ids: seq<nat>, p: nat)
    requires Wf(s) && 1 <= p <= |s.rows|
    ensures var r := DemoteOthers(s, ids, p);
            && (forall k :: 0 <= k < |s.rows| && k != p - 1 && s.rows[k].id in ids ==>
                  r.rows[k].precedence == Secondary && r.rows[k].linkedId == Some(p))
            && (forall k :: 0 <= k < |s.rows| && (k == p - 1 || s.rows[k].id !in ids) ==>
                  r.rows[k] == s.rows[k])
  {
    var r := DemoteOthers(s, ids, p);
    forall k | 0 <= k < |s.rows| && k != p - 1 && s.rows[k].id in ids
      ensures r.rows[k].precedence == Secondary && r.rows[k].linkedId == Some(p)
    {
      assert RowWf(s, k);
    }
    forall k | 0 <= k < |s.rows| && k == p - 1 ensures r.rows[k] == s.rows[k] {
      assert RowWf(s, k);
    }
  }

  /** Every fetched root other than the oldest was created after it. */
  lemma OtherRootsYounger(s: Store, rootRows: seq<Contact>)
    requires Wf(s) && rootRows != []
    requires forall c :: c in rootRows ==> c in s.rows
    ensures var p := Oldest(rootRows).id;
            && 1 <= p <= |s.rows| && p in IdColumn(rootRows)
            && forall k :: 0 <= k < |s.rows| && k != p - 1 && s.rows[k].id in IdColumn(rootRows) ==>
                 s.rows[p - 1].createdAt < s.rows[k].createdAt
  {
    var survivor := Oldest(rootRows);
    var p := survivor.id;
    var ids := IdColumn(rootRows);
    RowAtId(s, survivor);
    var i0 :| 0 <= i0 < |rootRows| && rootRows[i0] == survivor;
    assert ids[i0] == p;
    SurvivorIsOldest(s, rootRows);
    forall k | 0 <= k < |s.rows| && k != p - 1 && s.rows[k].id in ids
      ensures s.rows[p - 1].createdAt < s.rows[k].createdAt
    {
      assert RowWf(s, k);
      var i :| 0 <= i < |ids| && ids[i] == s.rows[k].id;
      assert rootRows[i] in rootRows;
      RowAtId(s, rootRows[i]);
    }
  }

  /** Store `t` is `s` with the groups the request reaches merged under
      root `p`: `p` is a reached root and its row is untouched, every other
      reached root was created after it and is now a secondary linked to
      it, and no row that is not a reached root changed. Rows past the end
      of `s` are not constrained. */
  predicate MergedUnder(s: Store, req: Request, t: Store, p: nat) {
    && 1 <= p <= |s.rows| <= |t.rows| && ReachesRoot(s, req, p)
    && t.rows[p - 1] == s.rows[p - 1]
    && (forall k :: 0 <= k < |s.rows| && k != p - 1 && ReachesRoot(s, req, s.rows[k].id) ==>
          && s.rows[p - 1].createdAt < s.rows[k].createdAt
          && t.rows[k].precedence == Secondary
          && t.rows[k].linkedId == Some(p))
    && (forall k :: 0 <= k < |s.rows| && !ReachesRoot(s, req, s.rows[k].id) ==> t.rows[k] == s.rows[k])
  }

  /** Appending rows to a merged store keeps it merged. */
  lemma MergedUnderExtends(s: Store, req: Request, t: Store, t2: Store, p: nat)
    requires MergedUnder(s, req, t, p)
    requires |t.rows| <= |t2.rows| && forall k :: 0 <= k < |s.rows| ==> t2.rows[k] == t.rows[k]
    ensures MergedUnder(s, req, t2, p)
  {
  }

  /** The root resolution step on its own: with two reached groups the
      oldest root survives and the other reached roots are demoted under it. */
  lemma ResolveMergesUnderOldest(s: Store, req: Request)
    requires Wf(s)
    requires exists a: nat, b: nat :: ReachesRoot(s, req, a) && ReachesRoot(s, req, b) && a != b
    ensures var matches := ContactsByEmailOrPhone(s, req.email, req.phoneNumber);
            && matches != []
            && var res := ResolvePrimary(s, matches);
            && res.Resolved? && res.primaryId.Some?
            && MergedUnder(s, req, res.store, res.primaryId.value)
  {
    var matches := ContactsByEmailOrPhone(s, req.email, req.phoneNumber);
    TwoReachedRoots(s, req);
    var roots := DistinctRoots(matches);
    RootsExist(s, matches);
    FetchRootsSucceeds(s, roots);
    var rootRows := FetchRoots(s.rows, roots).value;
    var ids := IdColumn(rootRows);
    var p := Oldest(rootRows).id;
    var merged := DemoteOthers(s, ids, p);
    assert ResolvePrimary(s, matches) == Resolved(merged, Some(p));
    RootIdsAreReachedRoots(s, req);
    OtherRootsYounger(s, rootRows);
    DemotionEffects(s, ids, p);
    assert ReachesRoot(s, req, p) by { assert p in ids; }
    forall k | 0 <= k < |s.rows| && k != p - 1 && ReachesRoot(s, req, s.rows[k].id)
      ensures && s.rows[p - 1].createdAt < s.rows[k].createdAt
              && merged.rows[k].precedence == Secondary
              && merged.rows[k].linkedId == Some(p)
    {
      assert s.rows[k].id in ids;
    }
    forall k | 0 <= k < |s.rows| && (k == p - 1 || !ReachesRoot(s, req, s.rows[k].id))
      ensures merged.rows[k] == s.rows[k]
    {
      if k != p - 1 {
        assert s.rows[k].id !in ids;
      }
    }
  }

  /** With no exact match and two reached groups, the call answers for the
      resolved root and changes no old row beyond what resolution did. */
  lemma MergePath(s: Store, req: Request)
    requires Wf(s) && ValidRequest(req)
    requires forall c :: c in s.rows && Active(c) ==> !ExactMatch(c, req)
    requires exists a: nat, b: nat :: ReachesRoot(s, req, a) && ReachesRoot(s, req, b) && a != b
    ensures var matches := ContactsByEmailOrPhone(s, req.email, req.phoneNumber);
            && matches != []
            && var res := ResolvePrimary(s, matches);
            && res.Resolved? && res.primaryId.Some?
            && var r := Identify(s, req);
            && r.result.Success? && r.result.value.primaryContatctId == res.primaryId.value
            && |res.store.rows| == |s.rows| <= |r.store.rows|
            && forall k :: 0 <= k < |s.rows| ==> r.store.rows[k] == res.store.rows[k]
  {
    TwoReachedRoots(s, req);
    PartialMatchPath(s, req);
  }

  /** Merge: when the request reaches two or more groups, the group whose
      root is oldest survives and answers, its root row is untouched, every
      other reached root becomes a secondary linked to it, and no row that
      is not a reached root changes. */
  lemma MergeKeepsOldest(s: Store, req: Request)
    requires Wf(s) && ValidRequest(req)
    requires forall c :: c in s.rows && Active(c) ==> !ExactMatch(c, req)
    requires exists a: nat, b: nat :: ReachesRoot(s, req, a) && ReachesRoot(s, req, b) && a != b
    ensures var r := Identify(s, req);
            && r.result.Success?
            && MergedUnder(s, req, r.store, r.result.value.primaryContatctId)
  {
    ResolveMergesUnderOldest(s, req);
    MergePath(s, req);
    var res := ResolvePrimary(s, ContactsByEmailOrPhone(s, req.email, req.phoneNumber));
    MergedUnderExtends(s, req, res.store, Identify(s, req).store, res.primaryId.value);
  }

  /** Reference reading of "new information": the request carries an
      email, or a phone number, that no active row of group `p` holds. */
  predicate NewToGroup(rows: seq<Contact>, p: nat, req: Request) {
    || (Truthy(req.email) && forall c :: c in rows && InGroup(c, p) ==> c.email != req.email)
    || (Truthy(req.phoneNumber) && forall c :: c in rows && InGroup(c, p) ==> c.phoneNumber != req.phoneNumber)
  }

  /** The set-based test of the source agrees with the reference reading
      on any list holding exactly the group's rows. */
  lemma HasNewInformationIff(rows: seq<Contact>, group: seq<Contact>, p: nat, req: Request)
    requires forall c :: c in group <==> c in rows && InGroup(c, p)
    ensures HasNewInformation(group, req) <==> NewToGroup(rows, p, req)
  {
    if Truthy(req.email) && req.email.value in KnownEmails(group) {
      var c :| c in group && Truthy(c.email) && c.email.value == req.email.value;
      assert c.email == req.email;
    }
    if Truthy(req.phoneNumber) && req.phoneNumber.value in KnownPhones(group) {
      var c :| c in group && Truthy(c.phoneNumber) && c.phoneNumber.value == req.phoneNumber.value;
      assert c.phoneNumber == req.phoneNumber;
    }
    if Truthy(req.email) && exists c :: c in rows && InGroup(c, p) && c.email == req.email {
      var c :| c in rows && InGroup(c, p) && c.email == req.email;
      assert req.email.value in KnownEmails(group);
    }
    if Truthy(req.phoneNumber) && exists c :: c in rows && InGroup(c, p) && c.phoneNumber == req.phoneNumber {
      var c :| c in rows && InGroup(c, p) && c.phoneNumber == req.phoneNumber;
      assert req.phoneNumber.value in KnownPhones(group);
    }
  }

  /** Adding to a known root appends a row exactly when the source's
      set-based test finds new information, and touches no existing row. */
  lemma AddIfNewAppends(s: Store, req: Request, p: nat)
    ensures var r := AddIfNew(s, req, Some(p));
            && r.store.rows[..|s.rows|] == s.rows
            && (|r.store.rows| == |s.rows| + 1 <==> HasNewInformation(LinkedContacts(s, p), req))
  {
    if HasNewInformation(LinkedContacts(s, p), req) {
      var created := CreateContact(s, req.email, req.phoneNumber, Some(p), Secondary);
      assert AddIfNew(s, req, Some(p)).store == created.store;
    } else {
      assert AddIfNew(s, req, Some(p)).store == s;
    }
  }

  /** Adding to a known root appends a row exactly when the request is
      new to that root's group, and touches no existing row. */
  lemma AddIfNewIff(s: Store, req: Request, p: nat)
    ensures var r := AddIfNew(s, req, Some(p));
            && r.store.rows[..|s.rows|] == s.rows
            && (|r.store.rows| == |s.rows| + 1 <==> NewToGroup(s.rows, p, req))
  {
    AddIfNewAppends(s, req, p);
    HasNewInformationIff(s.rows, LinkedContacts(s, p), p, req);
  }

  /** Partial match on a well-formed store: the root resolves and the
      call is the add step on the resolved store. */
  lemma PartialMatchPath(s: Store, req: Request)
    requires Wf(s) && ValidRequest(req)
    requires ContactsByEmailOrPhone(s, req.email, req.phoneNumber) != []
    requires forall c :: c in s.rows && Active(c) ==> !ExactMatch(c, req)
    ensures var res := ResolvePrimary(s, ContactsByEmailOrPhone(s, req.email, req.phoneNumber));
            && res.Resolved? && res.primaryId.Some? && |res.store.rows| == |s.rows|
            && Identify(s, req) == AddIfNew(res.store, req, res.primaryId)
  {
    var matches := ContactsByEmailOrPhone(s, req.email, req.phoneNumber);
    assert FirstExact(matches, req).None?;
    ReconcilePath(s, req);
    ResolvePrimaryWf(s, matches);
  }

  /** Partial match: after the root is resolved, exactly one secondary is
      appended when the request carries an email or phone number the
      resolved group lacks, and none otherwise; the appended row holds the
      request and links to the answering root. */
  lemma NewSecondaryIffNewInformation(s: Store, req: Request)
    requires Wf(s) && ValidRequest(req)
    requires ContactsByEmailOrPhone(s, req.email, req.phoneNumber) != []
    requires forall c :: c in s.rows && Active(c) ==> !ExactMatch(c, req)
    ensures var res := ResolvePrimary(s, ContactsByEmailOrPhone(s, req.email, req.phoneNumber));
            var r := Identify(s, req);
            && res.Resolved? && res.primaryId.Some? && r.result.Success?
            && r.result.value.primaryContatctId == res.primaryId.value
            && r.store.rows[..|s.rows|] == res.store.rows
            && (|r.store.rows| == |s.rows| + 1 <==> NewToGroup(res.store.rows, res.primaryId.value, req))
            && (|r.store.rows| == |s.rows| + 1 ==> AppendedFor(r.store.rows[|s.rows|], s, req, res.primaryId, Secondary))
  {
    PartialMatchPath(s, req);
    var res := ResolvePrimary(s, ContactsByEmailOrPhone(s, req.email, req.phoneNumber));
    AddIfNewIff(res.store, req, res.primaryId.value);
  }

  /** With exactly two reached groups, the answer is the older root. */
  lemma MergeOfTwoAnswersOlder(s: Store, req: Request, a: nat, b: nat)
    requires Wf(s) && ValidRequest(req)
    requires forall c :: c in s.rows && Active(c) ==> !ExactMatch(c, req)
    requires ReachesRoot(s, req, a) && ReachesRoot(s, req, b)
    requires forall id: nat :: ReachesRoot(s, req, id) ==> id == a || id == b
    requires 1 <= a <= |s.rows| && 1 <= b <= |s.rows| && s.rows[a - 1].createdAt < s.rows[b - 1].createdAt
    ensures Identify(s, req).result.Success? && Identify(s, req).result.value.primaryContatctId == a
  {
    assert RowWf(s, a - 1);
    assert ReachesRoot(s, req, s.rows[a - 1].id);
    MergeKeepsOldest(s, req);
    if Identify(s, req).result.value.primaryContatctId != a {
      assert false;
    }
  }

  /** Rows that all share one root collect to that root alone. */
  lemma {:induction false} DistinctRootsOfOneRoot(matches: seq<Contact>, x: Option<nat>)
    requires matches != []
    requires forall c :: c in matches ==> RootOf(c) == x
    ensures DistinctRoots(matches) == [x]
    decreases |matches|
  {
    var n := |matches| - 1;
    if n == 0 {
      assert matches[..n] == [];
    } else {
      assert forall c :: c in matches[..n] ==> c in matches;
      DistinctRootsOfOneRoot(matches[..n], x);
    }
  }

  /** When the request reaches the single group `p`, the roots collected
      from the lookup are `p` alone. */
  lemma OneReachedRoot(s: Store, req: Request, p: nat)
    requires Wf(s) && ReachesRoot(s, req, p)
    requires forall id: nat :: ReachesRoot(s, req, id) ==> id == p
    ensures var matches := ContactsByEmailOrPhone(s, req.email, req.phoneNumber);
            matches != [] && DistinctRoots(matches) == [Some(p)]
  {
    var matches := ContactsByEmailOrPhone(s, req.email, req.phoneNumber);
    var m :| m in s.rows && MatchesEmailOrPhone(m, req.email, req.phoneNumber) && RootOf(m) == Some(p);
    assert m in matches;
    forall c | c in matches ensures RootOf(c) == Some(p) {
      var k :| 0 <= k < |s.rows| && s.rows[k] == c;
      assert RowWf(s, k);
      assert ReachesRoot(s, req, RootOf(c).value);
    }
    DistinctRootsOfOneRoot(matches, Some(p));
  }

  /** Partial match reaching one group: the call answers with that group's
      root, demotes nothing, and appends a secondary exactly when the
      request is new to the group. */
  lemma SingleGroupAnswersItsRoot(s: Store, req: Request, p: nat)
    requires Wf(s) && ValidRequest(req)
    requires forall c :: c in s.rows && Active(c) ==> !ExactMatch(c, req)
    requires ReachesRoot(s, req, p)
    requires forall id: nat :: ReachesRoot(s, req, id) ==> id == p
    ensures var r := Identify(s, req);
            && r.result.Success? && r.result.value.primaryContatctId == p
            && |s.rows| <= |r.store.rows|
            && (forall k :: 0 <= k < |s.rows| ==> r.store.rows[k] == s.rows[k])
            && (|r.store.rows| == |s.rows| + 1 <==> NewToGroup(s.rows, p, req))
  {
    var matches := ContactsByEmailOrPhone(s, req.email, req.phoneNumber);
    OneReachedRoot(s, req, p);
    assert ResolvePrimary(s, matches) == Resolved(s, Some(p));
    PartialMatchPath(s, req);
    AddIfNewIff(s, req, p);
  }
}
