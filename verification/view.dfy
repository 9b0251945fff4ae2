/** The view assembler: the consolidated shape returned for one identity
    group (`consolidate_contacts`). */
module ConsolidatedView {
  import opened Wrappers
  import opened Contacts
  import opened Queries

  /** The response body; the field name `primaryContatctId` keeps the
      spelling of the wire format. */
  datatype ContactView = ContactView(
    primaryContatctId: nat,
    emails: seq<string>,
    phoneNumbers: seq<string>,
    secondaryContactIds: seq<nat>)

  predicate NoDuplicates<T(==)>(xs: seq<T>) {
    forall i, j :: 0 <= i < j < |xs| ==> xs[i] != xs[j]
  }

  /** The position of the first occurrence of `Some(x)`. */
  function FirstIndex(vals: seq<Option<string>>, x: string): (k: nat)
    requires Some(x) in vals
    ensures k < |vals| && vals[k] == Some(x)
    ensures forall j :: 0 <= j < k ==> vals[j] != Some(x)
    decreases |vals|
  {
    if vals[0] == Some(x) then 0 else 1 + FirstIndex(vals[1..], x)
  }

  /** A first occurrence inside a prefix is the first occurrence overall. */
  lemma FirstIndexPrefix(vals: seq<Option<string>>, n: nat, x: string)
    requires n <= |vals| && Some(x) in vals[..n]
    ensures Some(x) in vals && FirstIndex(vals, x) == FirstIndex(vals[..n], x)
  {
    var k := FirstIndex(vals[..n], x);
    assert vals[k] == Some(x);
  }

  /** Extending a column by one value keeps the first occurrence of every
      value already present, and that occurrence lies before the new one. */
  lemma FirstIndexSnoc(vals: seq<Option<string>>, v: Option<string>, x: string)
    requires Some(x) in vals
    ensures Some(x) in vals + [v] && FirstIndex(vals + [v], x) == FirstIndex(vals, x) < |vals|
  {
    assert (vals + [v])[..|vals|] == vals;
    FirstIndexPrefix(vals + [v], |vals|, x);
  }

  /** A value absent from a column first occurs where it is appended. */
  lemma FirstIndexLast(vals: seq<Option<string>>, x: string)
    requires Some(x) !in vals
    ensures FirstIndex(vals + [Some(x)], x) == |vals|
  {
    assert forall j :: 0 <= j < |vals| ==> (vals + [Some(x)])[j] == vals[j];
  }

  /** The values of `r` are listed in the order of their first occurrence
      in `vals`. */
  predicate InFirstOccurrenceOrder(r: seq<string>, vals: seq<Option<string>>)
    requires forall x :: x in r ==> Some(x) in vals
  {
    forall i, j :: 0 <= i < j < |r| ==> FirstIndex(vals, r[i]) < FirstIndex(vals, r[j])
  }

  /** Extending the column keeps a list in first-occurrence order, and
      every listed value first occurs before the new position. */
  lemma OrderExtend(r: seq<string>, init: seq<Option<string>>, v: Option<string>)
    requires forall x :: x in r ==> Some(x) in init
    requires InFirstOccurrenceOrder(r, init)
    ensures forall x :: x in r ==> Some(x) in init + [v] && FirstIndex(init + [v], x) < |init|
    ensures InFirstOccurrenceOrder(r, init + [v])
  {
    forall x | x in r ensures Some(x) in init + [v] && FirstIndex(init + [v], x) == FirstIndex(init, x) < |init| {
      FirstIndexSnoc(init, v, x);
    }
    forall i, j | 0 <= i < j < |r| ensures FirstIndex(init + [v], r[i]) < FirstIndex(init + [v], r[j]) {
      assert r[i] in r && r[j] in r;
    }
  }

  /** A value whose first occurrence follows those of every listed value
      may be appended without breaking first-occurrence order. */
  lemma OrderAppend(r: seq<string>, vals: seq<Option<string>>, x: string)
    requires Some(x) in vals && forall y :: y in r ==> Some(y) in vals
    requires InFirstOccurrenceOrder(r, vals)
    requires forall y :: y in r ==> FirstIndex(vals, y) < FirstIndex(vals, x)
    ensures InFirstOccurrenceOrder(r + [x], vals)
  {
    var r2 := r + [x];
    forall i, j | 0 <= i < j < |r2| ensures FirstIndex(vals, r2[i]) < FirstIndex(vals, r2[j]) {
      assert r2[i] == r[i] && r[i] in r;
      if j < |r| {
        assert r2[j] == r[j];
      }
    }
  }

  /** The loop `if v and v not in acc: acc.append(v)` run over `vals`:
      the non-empty values, each kept once, in order of first occurrence. */
  function DistinctValues(vals: seq<Option<string>>): (r: seq<string>)
    ensures NoDuplicates(r)
    ensures forall x :: x in r <==> x != "" && Some(x) in vals
    ensures InFirstOccurrenceOrder(r, vals)
    decreases |vals|
  {
    if vals == [] then []
    else
      var n := |vals| - 1;
      var init := vals[..n];
      var prefix := DistinctValues(init);
      var v := vals[n];
      assert vals == init + [v];
      OrderExtend(prefix, init, v);
      if Truthy(v) && v.value !in prefix then
        FirstIndexLast(init, v.value);
        OrderAppend(prefix, vals, v.value);
        prefix + [v.value]
      else
        prefix
  }

  /** The email column of a list of rows. */
  function EmailColumn(rows: seq<Contact>): (r: seq<Option<string>>)
    ensures |r| == |rows| && forall i :: 0 <= i < |rows| ==> r[i] == rows[i].email
  {
    seq(|rows|, i requires 0 <= i < |rows| => rows[i].email)
  }

  /** The phone-number column of a list of rows. */
  function PhoneColumn(rows: seq<Contact>): (r: seq<Option<string>>)
    ensures |r| == |rows| && forall i :: 0 <= i < |rows| ==> r[i] == rows[i].phoneNumber
  {
    seq(|rows|, i requires 0 <= i < |rows| => rows[i].phoneNumber)
  }

  /** The id column of a list of rows. */
  function IdColumn(rows: seq<Contact>): (r: seq<nat>)
    ensures |r| == |rows| && forall i :: 0 <= i < |rows| ==> r[i] == rows[i].id
  {
    seq(|rows|, i requires 0 <= i < |rows| => rows[i].id)
  }

  /** The row the partition loop keeps as the primary: the last one whose
      id is `pid`. */
  function PrimaryRow(group: seq<Contact>, pid: nat): (r: Option<Contact>)
    ensures r.Some? ==> r.value in group && r.value.id == pid
    ensures r.None? <==> forall c :: c in group ==> c.id != pid
    decreases |group|
  {
    if group == [] then None
    else if group[|group| - 1].id == pid then Some(group[|group| - 1])
    else
      assert forall c :: c in group ==> c in group[..|group| - 1] || c == group[|group| - 1];
      PrimaryRow(group[..|group| - 1], pid)
  }

  /** The rows of the expanded group in the order the view visits them:
      the primary first, then the others oldest first. */
  function ViewOrder(s: Store, pid: nat): (r: seq<Contact>)
    ensures forall c :: c in r ==> c in s.rows && InGroup(c, pid)
  {
    var group := LinkedContacts(s, pid);
    var primary := PrimaryRow(group, pid);
    (if primary.Some? then [primary.value] else []) + SecondaryRows(s, pid)
  }

  /** The rows listed as secondaries: the group's rows other than `pid`. */
  function SecondaryRows(s: Store, pid: nat): (r: seq<Contact>)
    ensures forall c :: c in r <==> c in s.rows && InGroup(c, pid) && c.id != pid
    ensures Chronological(s.rows) ==> Chronological(r)
  {
    Select(LinkedContacts(s, pid), (c: Contact) => c.id != pid)
  }

  /** Every email the view lists is held by a member of the group. */
  lemma EmailsFromGroup(s: Store, pid: nat)
    ensures forall e :: e in DistinctValues(EmailColumn(ViewOrder(s, pid))) ==>
              exists c :: c in s.rows && InGroup(c, pid) && c.email == Some(e)
  {
    var order := ViewOrder(s, pid);
    var emails := DistinctValues(EmailColumn(order));
    forall e | e in emails ensures exists c :: c in s.rows && InGroup(c, pid) && c.email == Some(e) {
      var i :| 0 <= i < |order| && EmailColumn(order)[i] == Some(e);
      assert order[i] in order;
    }
  }

  /** Every phone number the view lists is held by a member of the group. */
  lemma PhonesFromGroup(s: Store, pid: nat)
    ensures forall p :: p in DistinctValues(PhoneColumn(ViewOrder(s, pid))) ==>
              exists c :: c in s.rows && InGroup(c, pid) && c.phoneNumber == Some(p)
  {
    var order := ViewOrder(s, pid);
    var phones := DistinctValues(PhoneColumn(order));
    forall p | p in phones ensures exists c :: c in s.rows && InGroup(c, pid) && c.phoneNumber == Some(p) {
      var i :| 0 <= i < |order| && PhoneColumn(order)[i] == Some(p);
      assert order[i] in order;
    }
  }

  /** An id is in the id column exactly when some row carries it. */
  lemma IdColumnMembers(rows: seq<Contact>)
    ensures forall x :: x in IdColumn(rows) <==> exists c :: c in rows && c.id == x
  {
    var ids := IdColumn(rows);
    forall x ensures x in ids <==> exists c :: c in rows && c.id == x {
      if x in ids {
        var i :| 0 <= i < |ids| && ids[i] == x;
        assert rows[i] in rows;
      }
      if exists c :: c in rows && c.id == x {
        var c :| c in rows && c.id == x;
        var i :| 0 <= i < |rows| && rows[i] == c;
        assert ids[i] == x;
      }
    }
  }

  lemma SecondaryIdsAreOtherMembers(s: Store, pid: nat)
    ensures forall x :: x in IdColumn(SecondaryRows(s, pid)) <==> exists c :: c in s.rows && InGroup(c, pid) && c.id == x && x != pid
  {
    IdColumnMembers(SecondaryRows(s, pid));
  }

  /** `consolidate_contacts(pid)`. */
  function Consolidate(s: Store, pid: nat): (r: ContactView)
    ensures r.primaryContatctId == pid
    ensures NoDuplicates(r.emails) && NoDuplicates(r.phoneNumbers)
    ensures "" !in r.emails && "" !in r.phoneNumbers
    // every listed value belongs to a member of the group
    ensures forall e :: e in r.emails ==> exists c :: c in s.rows && InGroup(c, pid) && c.email == Some(e)
    ensures forall p :: p in r.phoneNumbers ==> exists c :: c in s.rows && InGroup(c, pid) && c.phoneNumber == Some(p)
    // the secondaries are exactly the other members
    ensures pid !in r.secondaryContactIds
    ensures forall x :: x in r.secondaryContactIds <==> exists c :: c in s.rows && InGroup(c, pid) && c.id == x && x != pid
  {
    var order := ViewOrder(s, pid);
    var secondaries := SecondaryRows(s, pid);
    var r := ContactView(pid, DistinctValues(EmailColumn(order)), DistinctValues(PhoneColumn(order)), IdColumn(secondaries));
    EmailsFromGroup(s, pid);
    PhonesFromGroup(s, pid);
    SecondaryIdsAreOtherMembers(s, pid);
    r
  }

  /** Under unique ids the primary row found by the partition loop is the
      active row with id `pid`. */
  lemma PrimaryRowWf(s: Store, pid: nat, c: Contact)
    requires Wf(s) && c in s.rows && c.id == pid && Active(c)
    ensures PrimaryRow(LinkedContacts(s, pid), pid) == Some(c)
  {
    var group := LinkedContacts(s, pid);
    assert c in group;
    var p := PrimaryRow(group, pid).value;
    var i :| 0 <= i < |s.rows| && s.rows[i] == c;
    var j :| 0 <= j < |s.rows| && s.rows[j] == p;
    WfOrder(s, i, j);
  }

  /** Under unique ids every member of the group is visited by the view. */
  lemma MembersInViewOrder(s: Store, pid: nat)
    requires Wf(s)
    ensures forall c :: c in s.rows && InGroup(c, pid) ==> c in ViewOrder(s, pid)
  {
    var order := ViewOrder(s, pid);
    forall c | c in s.rows && InGroup(c, pid)
      ensures c in order
    {
      if c.id == pid {
        PrimaryRowWf(s, pid, c);
        assert order[0] == c;
      } else {
        assert c in SecondaryRows(s, pid);
      }
    }
  }

  /** Every non-empty value of a column is kept, and a non-empty value at
      the head of the column is kept first. */
  lemma DistinctValuesKeepsAll(vals: seq<Option<string>>)
    ensures forall i :: 0 <= i < |vals| && Truthy(vals[i]) ==> vals[i].value in DistinctValues(vals)
    ensures |vals| > 0 && Truthy(vals[0]) ==> DistinctValues(vals)[0] == vals[0].value
  {
    var r := DistinctValues(vals);
    forall i | 0 <= i < |vals| && Truthy(vals[i]) ensures vals[i].value in r {
      assert Some(vals[i].value) in vals;
    }
    if |vals| > 0 && Truthy(vals[0]) {
      var x := vals[0].value;
      assert x in r && FirstIndex(vals, x) == 0;
      var i :| 0 <= i < |r| && r[i] == x;
    }
  }

  /** In a well-formed store the view starts with the group's primary row
      and visits every member. */
  lemma ViewOrderWf(s: Store, pid: nat)
    requires Wf(s)
    ensures forall c :: c in s.rows && InGroup(c, pid) ==> c in ViewOrder(s, pid)
    ensures forall c :: c in s.rows && c.id == pid && Active(c) ==> ViewOrder(s, pid)[0] == c
  {
    MembersInViewOrder(s, pid);
    forall c | c in s.rows && c.id == pid && Active(c) ensures ViewOrder(s, pid)[0] == c {
      PrimaryRowWf(s, pid, c);
    }
  }

  /** In a well-formed store the view lists every non-empty email of the
      group, and the primary's own email comes first. */
  lemma ConsolidateEmailsComplete(s: Store, pid: nat)
    requires Wf(s)
    ensures forall c :: c in s.rows && InGroup(c, pid) && Truthy(c.email) ==> c.email.value in Consolidate(s, pid).emails
    ensures forall c :: c in s.rows && c.id == pid && Active(c) && Truthy(c.email) ==> Consolidate(s, pid).emails[0] == c.email.value
  {
    var order := ViewOrder(s, pid);
    var column := EmailColumn(order);
    assert Consolidate(s, pid).emails == DistinctValues(column);
    ViewOrderWf(s, pid);
    DistinctValuesKeepsAll(column);
    forall c | c in s.rows && InGroup(c, pid) && Truthy(c.email)
      ensures c.email.value in DistinctValues(column)
    {
      var i :| 0 <= i < |order| && order[i] == c;
      assert column[i] == c.email;
    }
  }

  /** In a well-formed store the view lists every non-empty phone number of
      the group, and the primary's own phone number comes first. */
  lemma ConsolidatePhonesComplete(s: Store, pid: nat)
    requires Wf(s)
    ensures forall c :: c in s.rows && InGroup(c, pid) && Truthy(c.phoneNumber) ==> c.phoneNumber.value in Consolidate(s, pid).phoneNumbers
    ensures forall c :: c in s.rows && c.id == pid && Active(c) && Truthy(c.phoneNumber) ==> Consolidate(s, pid).phoneNumbers[0] == c.phoneNumber.value
  {
    var order := ViewOrder(s, pid);
    var column := PhoneColumn(order);
    assert Consolidate(s, pid).phoneNumbers == DistinctValues(column);
    ViewOrderWf(s, pid);
    DistinctValuesKeepsAll(column);
    forall c | c in s.rows && InGroup(c, pid) && Truthy(c.phoneNumber)
      ensures c.phoneNumber.value in DistinctValues(column)
    {
      var i :| 0 <= i < |order| && order[i] == c;
      assert column[i] == c.phoneNumber;
    }
  }

  /** The view's emails and phone numbers keep the order in which the view
      meets them: the primary first, then the secondaries oldest first. */
  lemma ConsolidateOrder(s: Store, pid: nat)
    ensures var r := Consolidate(s, pid);
            var order := ViewOrder(s, pid);
            && (forall i, j :: 0 <= i < j < |r.emails| ==>
                  FirstIndex(EmailColumn(order), r.emails[i]) < FirstIndex(EmailColumn(order), r.emails[j]))
            && (forall i, j :: 0 <= i < j < |r.phoneNumbers| ==>
                  FirstIndex(PhoneColumn(order), r.phoneNumbers[i]) < FirstIndex(PhoneColumn(order), r.phoneNumbers[j]))
  {
    var r := Consolidate(s, pid);
    var order := ViewOrder(s, pid);
    assert r.emails == DistinctValues(EmailColumn(order)) && r.phoneNumbers == DistinctValues(PhoneColumn(order));
  }

  /** In a well-formed store the secondary ids ascend, which is creation order. */
  lemma SecondaryIdsAscend(s: Store, pid: nat)
    requires Wf(s)
    ensures var ids := Consolidate(s, pid).secondaryContactIds;
            forall i, j :: 0 <= i < j < |ids| ==> ids[i] < ids[j]
  {
    var secs := SecondaryRows(s, pid);
    assert Consolidate(s, pid).secondaryContactIds == IdColumn(secs);
    forall i, j | 0 <= i < j < |secs| ensures secs[i].id < secs[j].id {
      assert secs[i] in secs && secs[j] in secs;
      OlderHasSmallerId(s, secs[i], secs[j]);
    }
  }
}
