/** Concrete stores that show what the merge does to groups that were
    already merged before: the demoted root's own secondaries are not
    re-pointed, so a link can end at a secondary. */
module Scenarios {
  import opened Wrappers
  import opened Contacts
  import opened Queries
  import opened Reconciliation
  import opened ReconciliationProperties

  /** Every link names a primary row: the one-hop shape the expansion of a
      group relies on. */
  predicate Flat(s: Store) {
    forall k, j :: 0 <= k < |s.rows| && 0 <= j < |s.rows| && s.rows[k].linkedId == Some(s.rows[j].id) ==>
      s.rows[j].precedence == Primary
  }

  /** An active row created and last updated at time `t`. */
  function Row(id: nat, email: string, phone: string, linkedId: Option<nat>, precedence: Precedence, t: nat): Contact {
    Contact(id, Some(email), Some(phone), linkedId, precedence, t, t, None)
  }

  /** Two groups: `a`/`1` alone, and `b`/`2` with a secondary `b`/`3`. */
  function TwoGroups(): Store {
    Store([Row(1, "a", "1", None, Primary, 0),
           Row(2, "b", "2", None, Primary, 1),
           Row(3, "b", "3", Some(2), Secondary, 2)], 4, 3)
  }

  /** Email of the first group, phone of the second group's root. */
  function Bridge(): (req: Request)
    ensures ValidRequest(req)
  {
    Request(Some("a"), Some("2"))
  }

  /** The request reaches root 1 through row 1 and root 2 through row 2,
      and no matched row has root 3. */
  lemma BridgeReaches()
    ensures ReachesRoot(TwoGroups(), Bridge(), 1) && ReachesRoot(TwoGroups(), Bridge(), 2)
    ensures forall id: nat :: ReachesRoot(TwoGroups(), Bridge(), id) ==> id == 1 || id == 2
  {
    var s := TwoGroups();
    var req := Bridge();
    assert s.rows[0] in s.rows && MatchesEmailOrPhone(s.rows[0], req.email, req.phoneNumber);
    assert s.rows[1] in s.rows && MatchesEmailOrPhone(s.rows[1], req.email, req.phoneNumber);
    forall id: nat | ReachesRoot(s, req, id) ensures id == 1 || id == 2 {
      var m :| m in s.rows && MatchesEmailOrPhone(m, req.email, req.phoneNumber) && RootOf(m) == Some(id);
      var k :| 0 <= k < 3 && s.rows[k] == m;
    }
  }

  /** The starting store is well formed and flat. */
  lemma TwoGroupsWfFlat()
    ensures Wf(TwoGroups()) && Flat(TwoGroups())
  {
    var s := TwoGroups();
    assert RowWf(s, 0) && RowWf(s, 1) && RowWf(s, 2);
    forall k, j | 0 <= k < 3 && 0 <= j < 3 && s.rows[k].linkedId == Some(s.rows[j].id)
      ensures s.rows[j].precedence == Primary
    {
      assert k == 2 && j == 1;
    }
  }

  /** No row of the starting store holds both identifiers of the request. */
  lemma BridgeIsNoDuplicate()
    ensures forall c :: c in TwoGroups().rows && Active(c) ==> !ExactMatch(c, Bridge())
  {
    var s := TwoGroups();
    forall c | c in s.rows && Active(c) ensures !ExactMatch(c, Bridge()) {
      var k :| 0 <= k < 3 && s.rows[k] == c;
    }
  }

  /** The call answers for root 1, the older of the two reached roots. */
  lemma BridgeAnswersOne()
    ensures var r := Identify(TwoGroups(), Bridge());
            r.result.Success? && r.result.value.primaryContatctId == 1
  {
    TwoGroupsWfFlat();
    BridgeIsNoDuplicate();
    BridgeReaches();
    MergeOfTwoAnswersOlder(TwoGroups(), Bridge(), 1, 2);
  }

  /** The call demotes row 2 under root 1 and leaves row 3 as it was. */
  lemma BridgeMerges()
    ensures var r := Identify(TwoGroups(), Bridge());
            && r.result.Success? && r.result.value.primaryContatctId == 1
            && r.store.rows[1].precedence == Secondary && r.store.rows[1].linkedId == Some(1)
            && r.store.rows[2] == TwoGroups().rows[2]
  {
    TwoGroupsWfFlat();
    BridgeIsNoDuplicate();
    BridgeReaches();
    BridgeAnswersOne();
    var s, req := TwoGroups(), Bridge();
    assert s.rows[1].id == 2 && s.rows[2].id == 3;
    assert ReachesRoot(s, req, 2) && !ReachesRoot(s, req, 3);
    MergeKeepsOldest(s, req);
    var r := Identify(s, req);
    assert MergedUnder(s, req, r.store, 1);
  }

  /** After the call, no member of group 1 holds phone `3`. */
  lemma PhoneThreeLeftBehind(s1: Store)
    requires 3 <= |s1.rows| <= 4
    requires forall k :: 0 <= k < 3 ==> SameIdentity(TwoGroups().rows[k], s1.rows[k])
    requires s1.rows[2] == TwoGroups().rows[2]
    requires |s1.rows| == 4 ==> ExactMatch(s1.rows[3], Bridge())
    ensures forall c :: c in s1.rows && InGroup(c, 1) ==> c.phoneNumber != Some("3")
  {
    forall c | c in s1.rows && InGroup(c, 1) ensures c.phoneNumber != Some("3") {
      var k :| 0 <= k < |s1.rows| && s1.rows[k] == c;
      if k < 3 {
        assert SameIdentity(TwoGroups().rows[k], s1.rows[k]);
      }
    }
  }

  /** A well-formed, flat store where one call leaves row 3 linked to row 2
      after row 2 has become a secondary of row 1. The answer for the
      merged identity then omits phone `3`, which a contact of the merged
      identity still holds. */
  lemma MergeBreaksFlatness()
    ensures Wf(TwoGroups()) && Flat(TwoGroups())
    ensures var r := Identify(TwoGroups(), Bridge());
            && r.result.Success? && r.result.value.primaryContatctId == 1
            && r.store.rows[1].precedence == Secondary && r.store.rows[1].linkedId == Some(1)
            && r.store.rows[2] == TwoGroups().rows[2]
            && !Flat(r.store)
            && "3" !in r.result.value.phoneNumbers
  {
    TwoGroupsWfFlat();
    BridgeMerges();
    var r := Identify(TwoGroups(), Bridge());
    assert !Flat(r.store) by {
      assert r.store.rows[2].linkedId == Some(r.store.rows[1].id);
    }
    PhoneThreeLeftBehind(r.store);
  }
}
