/** The `Contact` table of the reconciliation service, held in memory as a
    sequence of rows together with the id counter and the clock that
    stamp new rows. */
module Contacts {
  import opened Wrappers

  /** The two values the `linkPrecedence` column admits. */
  datatype Precedence = Primary | Secondary

  /** One row of the `Contact` table. Timestamps are readings of the
      store's clock; `deletedAt` is the soft-delete tombstone. */
  datatype Contact = Contact(
    id: nat,
    email: Option<string>,
    phoneNumber: Option<string>,
    linkedId: Option<nat>,
    precedence: Precedence,
    createdAt: nat,
    updatedAt: nat,
    deletedAt: Option<nat>)

  /** The table in insertion order, the next AUTOINCREMENT id, and the
      clock: every write reads `clock` and advances it by one. */
  datatype Store = Store(rows: seq<Contact>, nextId: nat, clock: nat)

  /** Python truthiness of an optional string: present and non-empty. */
  predicate Truthy(v: Option<string>) {
    v.Some? && v.value != ""
  }

  /** SQL `column = ?`: a NULL on either side never compares equal. */
  predicate SqlEquals<T(==)>(column: Option<T>, param: Option<T>) {
    column.Some? && param.Some? && column.value == param.value
  }

  /** Rows whose `deletedAt` is NULL; every query filters on this. */
  predicate Active(c: Contact) {
    c.deletedAt.None?
  }

  /** Rows listed in strictly increasing `createdAt` order. */
  predicate Chronological(rows: seq<Contact>) {
    forall i, j :: 0 <= i < j < |rows| ==> rows[i].createdAt < rows[j].createdAt
  }

  /** Two versions of one row that agree on everything a write never
      changes: the id, the identifiers, the creation time and the tombstone. */
  predicate SameIdentity(c: Contact, d: Contact) {
    && c.id == d.id
    && c.email == d.email
    && c.phoneNumber == d.phoneNumber
    && c.createdAt == d.createdAt
    && c.deletedAt == d.deletedAt
  }

  /** Row `k` of a store built by the service: its id is its position
      (ids start at 1), it was stamped before the current clock reading,
      it is linked exactly when it is secondary, and its link names an
      older row. */
  predicate RowWf(s: Store, k: int)
    requires 0 <= k < |s.rows|
  {
    var c := s.rows[k];
    && c.id == k + 1
    && c.createdAt < s.clock
    && (c.precedence == Secondary <==> c.linkedId.Some?)
    && (c.linkedId.Some? ==> 1 <= c.linkedId.value < c.id)
  }

  /** The invariant of every store reachable from the empty table. */
  predicate Wf(s: Store) {
    && s.nextId == |s.rows| + 1
    && (forall k :: 0 <= k < |s.rows| ==> RowWf(s, k))
    && Chronological(s.rows)
  }

  /** The freshly initialised, empty table. */
  function EmptyStore(): (s: Store)
    ensures Wf(s) && s.rows == []
  {
    Store([], 1, 0)
  }

  /** In a well-formed store, creation order, id order and position agree. */
  lemma WfOrder(s: Store, i: int, j: int)
    requires Wf(s)
    requires 0 <= i < |s.rows| && 0 <= j < |s.rows|
    ensures s.rows[i].id < s.rows[j].id <==> i < j
    ensures s.rows[i].createdAt < s.rows[j].createdAt <==> i < j
    ensures s.rows[i].id == s.rows[j].id <==> i == j
  {
    assert RowWf(s, i) && RowWf(s, j);
  }

  /** A row of a well-formed store sits at position id - 1. */
  lemma RowAtId(s: Store, c: Contact)
    requires Wf(s) && c in s.rows
    ensures 1 <= c.id <= |s.rows| && s.rows[c.id - 1] == c
  {
    var k :| 0 <= k < |s.rows| && s.rows[k] == c;
    assert RowWf(s, k);
  }

  /** Of two rows of a well-formed store, the one created first has the
      smaller id. */
  lemma OlderHasSmallerId(s: Store, a: Contact, b: Contact)
    requires Wf(s) && a in s.rows && b in s.rows
    requires a.createdAt <= b.createdAt && a != b
    ensures 1 <= a.id < b.id <= |s.rows|
    ensures s.rows[a.id - 1] == a && s.rows[b.id - 1] == b && a.createdAt < b.createdAt
  {
    RowAtId(s, a);
    RowAtId(s, b);
    WfOrder(s, a.id - 1, b.id - 1);
  }
}
