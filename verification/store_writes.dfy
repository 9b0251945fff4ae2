/** The two writes the service performs: inserting a row and demoting a
    row to secondary. Both read the store's clock for their timestamps. */
module StoreWrites {
  import opened Wrappers
  import opened Contacts

  /** The store after an insert, and the id the insert was given
      (`cursor.lastrowid`). */
  datatype Created = Created(store: Store, id: nat)

  /** Link columns that keep a new row well formed: a primary carries no
      link, a secondary links to a row that already exists. */
  predicate LinkFits(s: Store, linkedId: Option<nat>, precedence: Precedence) {
    && (precedence == Secondary <==> linkedId.Some?)
    && (linkedId.Some? ==> 1 <= linkedId.value < s.nextId)
  }

  /** INSERT of one row carrying the given identifiers and link columns,
      stamped with the current clock reading for both timestamps. */
  function CreateContact(s: Store, email: Option<string>, phoneNumber: Option<string>,
                         linkedId: Option<nat>, precedence: Precedence): (r: Created)
    ensures r.id == s.nextId && r.store.nextId == r.id + 1
    ensures |r.store.rows| == |s.rows| + 1 && r.store.rows[..|s.rows|] == s.rows
    ensures var c := r.store.rows[|s.rows|];
            && c.id == r.id && c.email == email && c.phoneNumber == phoneNumber
            && c.linkedId == linkedId && c.precedence == precedence
            && Active(c) && c.createdAt == s.clock
    ensures Wf(s) ==> forall c :: c in s.rows ==> c.id < r.id
    ensures Wf(s) && LinkFits(s, linkedId, precedence) ==> Wf(r.store)
  {
    var c := Contact(s.nextId, email, phoneNumber, linkedId, precedence, s.clock, s.clock, None);
    var r := Created(Store(s.rows + [c], s.nextId + 1, s.clock + 1), s.nextId);
    assert r.store.rows[..|s.rows|] == s.rows;
    assert Wf(s) ==> forall c :: c in s.rows ==> c.id < r.id by {
      if Wf(s) {
        forall c | c in s.rows ensures c.id < r.id {
          var k :| 0 <= k < |s.rows| && s.rows[k] == c;
          assert RowWf(s, k);
        }
      }
    }
    assert Wf(s) && LinkFits(s, linkedId, precedence) ==> Wf(r.store) by {
      if Wf(s) && LinkFits(s, linkedId, precedence) {
        forall k | 0 <= k < |r.store.rows| ensures RowWf(r.store, k) {
          if k < |s.rows| { assert RowWf(s, k); }
        }
        forall i, j | 0 <= i < j < |r.store.rows|
          ensures r.store.rows[i].createdAt < r.store.rows[j].createdAt
        {
          if j == |s.rows| { assert RowWf(s, i); }
        }
      }
    }
    r
  }

  /** One row after `UPDATE ... SET linkedId, linkPrecedence, updatedAt`. */
  function Demoted(c: Contact, primaryId: nat, now: nat): Contact {
    c.(linkedId := Some(primaryId), precedence := Secondary, updatedAt := now)
  }

  /** `update_contact_to_secondary`: every row with id `contactId` becomes a
      secondary of `primaryId`; nothing else in the table changes. */
  function UpdateContactToSecondary(s: Store, contactId: nat, primaryId: nat): (r: Store)
    ensures |r.rows| == |s.rows| && r.nextId == s.nextId && r.clock == s.clock + 1
    ensures forall k :: 0 <= k < |s.rows| ==> SameIdentity(s.rows[k], r.rows[k])
    ensures forall k :: 0 <= k < |s.rows| && s.rows[k].id != contactId ==> r.rows[k] == s.rows[k]
    ensures forall k :: 0 <= k < |s.rows| && s.rows[k].id == contactId ==>
              && r.rows[k].linkedId == Some(primaryId)
              && r.rows[k].precedence == Secondary
              && r.rows[k].updatedAt == s.clock
    ensures Wf(s) && 1 <= primaryId < contactId ==> Wf(r)
  {
    var rows := seq(|s.rows|, k requires 0 <= k < |s.rows| =>
                      if s.rows[k].id == contactId then Demoted(s.rows[k], primaryId, s.clock) else s.rows[k]);
    var r := Store(rows, s.nextId, s.clock + 1);
    assert Wf(s) && 1 <= primaryId < contactId ==> Wf(r) by {
      if Wf(s) && 1 <= primaryId < contactId {
        forall k | 0 <= k < |r.rows| ensures RowWf(r, k) {
          assert RowWf(s, k);
        }
      }
    }
    r
  }
}
