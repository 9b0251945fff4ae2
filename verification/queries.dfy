/** The read-only query layer: the SELECT statements the service issues
    against the `Contact` table. Results come back in `createdAt` order
    because the store keeps its rows in that order. */
module Queries {
  import opened Wrappers
  import opened Contacts

  /** The rows satisfying `p`, in table order. */
  function Select(rows: seq<Contact>, p: Contact -> bool): (r: seq<Contact>)
    ensures forall c :: c in r <==> c in rows && p(c)
    ensures |r| <= |rows|
    ensures Chronological(rows) ==> Chronological(r)
    decreases |rows|
  {
    if rows == [] then []
    else
      var rest := Select(rows[1..], p);
      assert Chronological(rows) ==> forall c :: c in rest ==> rows[0].createdAt < c.createdAt;
      if p(rows[0]) then [rows[0]] + rest else rest
  }

  /** An index within the bounds of a list names one of its elements. */
  lemma ElementIsMember(b: seq<Contact>, k: int)
    ensures 0 <= k < |b| ==> b[k] in b
  {
  }

  /** A chronological list is determined by the rows it holds: two query
      results with the same members are the same list. */
  lemma {:induction false} ChronologicalUnique(a: seq<Contact>, b: seq<Contact>)
    requires Chronological(a) && Chronological(b)
    requires forall c :: c in a <==> c in b
    ensures a == b
    decreases |a|
  {
    if a == [] {
      ElementIsMember(b, 0);
    } else {
      assert a[0] in b && b != [] && b[0] in a;
      var i :| 0 <= i < |a| && a[i] == b[0];
      var j :| 0 <= j < |b| && b[j] == a[0];
      assert a[0] == b[0];
      forall c ensures c in a[1..] <==> c in b[1..] {
        if c in a[1..] {
          var k :| 1 <= k < |a| && a[k] == c;
          assert c != a[0];
          assert c in b;
        }
        if c in b[1..] {
          var k :| 1 <= k < |b| && b[k] == c;
          assert c != b[0];
          assert c in a;
        }
      }
      ChronologicalUnique(a[1..], b[1..]);
      assert |a| == |b|;
      assert forall k :: 0 < k < |a| ==> a[k] == a[1..][k - 1] == b[1..][k - 1] == b[k];
    }
  }

  /** The WHERE clause of the lookup by identifier: an active row whose
      email or phone number equals the given one under SQL equality. */
  predicate MatchesEmailOrPhone(c: Contact, email: Option<string>, phoneNumber: Option<string>) {
    Active(c) && (SqlEquals(c.email, email) || SqlEquals(c.phoneNumber, phoneNumber))
  }

  /** Every active row sharing the email or the phone number, oldest first.
      A NULL argument matches nothing, so two NULLs find nothing. */
  function ContactsByEmailOrPhone(s: Store, email: Option<string>, phoneNumber: Option<string>): (r: seq<Contact>)
    ensures forall c :: c in r <==> c in s.rows && MatchesEmailOrPhone(c, email, phoneNumber)
    ensures Chronological(s.rows) ==> Chronological(r)
    ensures email.None? && phoneNumber.None? ==> r == []
  {
    var r := Select(s.rows, c => MatchesEmailOrPhone(c, email, phoneNumber));
    assert r != [] ==> r[0] in r;
    r
  }

  /** The WHERE clause of the group expansion: the active row with the
      given id, or an active row linked to it. */
  predicate InGroup(c: Contact, rootId: nat) {
    Active(c) && (c.id == rootId || c.linkedId == Some(rootId))
  }

  /** The row `rootId` and every row linked to it, oldest first. The
      expansion follows links one hop only. */
  function LinkedContacts(s: Store, rootId: nat): (r: seq<Contact>)
    ensures forall c :: c in r <==> c in s.rows && InGroup(c, rootId)
    ensures Chronological(s.rows) ==> Chronological(r)
  {
    Select(s.rows, c => InGroup(c, rootId))
  }

  /** `SELECT * FROM Contact WHERE id = ?` followed by `fetchone()`: the
      first row with that id, deleted or not, or nothing. */
  function FindById(rows: seq<Contact>, id: nat): (r: Option<Contact>)
    ensures r.Some? ==> r.value in rows && r.value.id == id
    ensures r.None? <==> forall c :: c in rows ==> c.id != id
    decreases |rows|
  {
    if rows == [] then None
    else if rows[0].id == id then Some(rows[0])
    else FindById(rows[1..], id)
  }

  /** In a well-formed store the lookup by id is positional. */
  lemma FindByIdWf(s: Store, id: nat)
    requires Wf(s)
    ensures 1 <= id <= |s.rows| ==> FindById(s.rows, id) == Some(s.rows[id - 1])
    ensures id == 0 || |s.rows| < id ==> FindById(s.rows, id).None?
  {
    if 1 <= id <= |s.rows| {
      assert RowWf(s, id - 1);
      var r := FindById(s.rows, id);
      assert r.Some?;
      var k :| 0 <= k < |s.rows| && s.rows[k] == r.value;
      assert RowWf(s, k);
    } else {
      forall c | c in s.rows
        ensures c.id != id
      {
        var k :| 0 <= k < |s.rows| && s.rows[k] == c;
        assert RowWf(s, k);
      }
    }
  }

  /** Python's `min(rows, key=createdAt)`: the first row of least creation
      time. */
  function Oldest(rows: seq<Contact>): (r: Contact)
    requires |rows| > 0
    ensures r in rows
    ensures forall c :: c in rows ==> r.createdAt <= c.createdAt
    ensures exists k :: 0 <= k < |rows| && rows[k] == r && forall j :: 0 <= j < k ==> r.createdAt < rows[j].createdAt
    decreases |rows|
  {
    if |rows| == 1 then rows[0]
    else
      var m := Oldest(rows[1..]);
      if rows[0].createdAt <= m.createdAt then rows[0]
      else
        assert forall c :: c in rows ==> c == rows[0] || c in rows[1..];
        ghost var k :| 0 <= k < |rows[1..]| && rows[1..][k] == m && forall j :: 0 <= j < k ==> m.createdAt < rows[1..][j].createdAt;
        assert rows[k + 1] == m;
        m
  }

  /** The first primary row of a list, if any. */
  function FirstPrimary(contacts: seq<Contact>): (r: Option<Contact>)
    ensures r.Some? ==> r.value in contacts && r.value.precedence == Primary
    ensures r.None? <==> forall c :: c in contacts ==> c.precedence != Primary
    ensures r.Some? ==> exists k :: 0 <= k < |contacts| && contacts[k] == r.value
                                    && forall j :: 0 <= j < k ==> contacts[j].precedence != Primary
    decreases |contacts|
  {
    if contacts == [] then None
    else if contacts[0].precedence == Primary then Some(contacts[0])
    else
      var r := FirstPrimary(contacts[1..]);
      if r.None? then r
      else
        ghost var k :| 0 <= k < |contacts[1..]| && contacts[1..][k] == r.value
                       && forall j :: 0 <= j < k ==> contacts[1..][j].precedence != Primary;
        assert contacts[k + 1] == r.value;
        r
  }

  /** The id of the first primary in the list; failing that, the id of the
      oldest row; an empty list makes `min` raise, modelled as `None`. */
  function FindPrimaryContactId(contacts: seq<Contact>): (r: Option<nat>)
    ensures r.None? <==> contacts == []
    ensures forall k :: 0 <= k < |contacts| && contacts[k].precedence == Primary
                        && (forall j :: 0 <= j < k ==> contacts[j].precedence != Primary)
                        ==> r == Some(contacts[k].id)
    ensures (forall c :: c in contacts ==> c.precedence != Primary) && contacts != [] ==>
              exists c :: c in contacts && r == Some(c.id) && forall d :: d in contacts ==> c.createdAt <= d.createdAt
  {
    match FirstPrimary(contacts)
    case Some(c) => Some(c.id)
    case None => if contacts == [] then None else Some(Oldest(contacts).id)
  }
}
