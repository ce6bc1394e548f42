/** `Contact/set` (crates/jmap/src/api.rs) over the contacts table
    (crates/store/src/contacts.rs). A row's contact is None when it does not open
    under the account's key. */
module Contacts {
  import opened Text
  import opened Input

  datatype Contact = Contact(name: Option<string>, email: string)

  datatype Row = Row(account: int, plain: Option<Contact>)

  type Rows = map<int, Row>

  type Known = seq<(int, Contact)>

  /** `written` is false when the statement fails; `id` is the new row's. */
  datatype Create = Create(contact: Contact, id: int, written: bool)

  /** A patch: `rowId` is None for an id that does not parse; `name` may be set to
      null; an email that is not a string leaves the email alone. */
  datatype Update = Update(rowId: Option<int>, name: Option<Option<string>>, email: Option<string>, written: bool)

  /** The table and the request's in-memory list of contacts. */
  datatype Book = Book(rows: Rows, existing: Known)

  predicate ValidFields(c: Contact) {
    ValidEmailAddress(c.email) && (c.name.Some? ==> ValidHeaderValue(c.name.value))
  }

  predicate IsDuplicate(email: string, existing: Known, excluding: Option<int>) {
    exists i :: 0 <= i < |existing| && Some(existing[i].0) != excluding && EqIgnoreCase(existing[i].1.email, email)
  }

  predicate Openable(rows: Rows, account: int, id: int) {
    id in rows && rows[id].account == account && rows[id].plain.Some?
  }

  function Retain(existing: Known, id: int): (r: Known)
    ensures forall e :: e in r <==> e in existing && e.0 != id
  {
    if existing == [] then []
    else if existing[0].0 != id then [existing[0]] + Retain(existing[1..], id)
    else Retain(existing[1..], id)
  }

  function AfterCreate(b: Book, account: int, c: Create): Book {
    if ValidFields(c.contact) && !IsDuplicate(c.contact.email, b.existing, None) && c.written then
      Book(b.rows[c.id := Row(account, Some(c.contact))], b.existing + [(c.id, c.contact)])
    else b
  }

  function Change(c: Contact, u: Update): Contact {
    Contact(if u.name.Some? then u.name.value else c.name, if u.email.Some? then u.email.value else c.email)
  }

  function AfterUpdate(b: Book, account: int, u: Update): Book {
    if u.rowId.None? || !Openable(b.rows, account, u.rowId.value) then b
    else
      var id := u.rowId.value;
      var c := Change(b.rows[id].plain.value, u);
      if ValidFields(c) && !IsDuplicate(c.email, b.existing, Some(id)) && u.written then
        Book(b.rows[id := Row(account, Some(c))], Retain(b.existing, id) + [(id, c)])
      else b
  }

  function AfterDestroy(rows: Rows, account: int, rowId: Option<int>): Rows {
    if rowId.Some? && rowId.value in rows && rows[rowId.value].account == account then rows - {rowId.value} else rows
  }

  function Creates(b: Book, account: int, cs: seq<Create>): Book {
    if cs == [] then b else AfterCreate(Creates(b, account, cs[..|cs| - 1]), account, cs[|cs| - 1])
  }

  function Updates(b: Book, account: int, us: seq<Update>): Book {
    if us == [] then b else AfterUpdate(Updates(b, account, us[..|us| - 1]), account, us[|us| - 1])
  }

  function Destroys(rows: Rows, account: int, ids: seq<Option<int>>): Rows {
    if ids == [] then rows else AfterDestroy(Destroys(rows, account, ids[..|ids| - 1]), account, ids[|ids| - 1])
  }

  /** The table after a request. */
  function SetResult(rows: Rows, account: int, loaded: Known, cs: seq<Create>, us: seq<Update>, ds: seq<Option<int>>): Rows {
    Destroys(Updates(Creates(Book(rows, loaded), account, cs), account, us).rows, account, ds)
  }

  /** What the table hands over at the start: nothing, if reading it failed. */
  ghost predicate Loads(rows: Rows, account: int, loaded: bool, existing: Known) {
    if loaded then forall e: (int, Contact) :: e in existing <==> Openable(rows, account, e.0) && rows[e.0].plain == Some(e.1)
    else existing == []
  }

  /** New row ids are unused and differ. */
  ghost predicate NewIds(rows: Rows, cs: seq<Create>) {
    && (forall i :: 0 <= i < |cs| ==> cs[i].id !in rows)
    && (forall i, j :: 0 <= i < j < |cs| ==> cs[i].id != cs[j].id)
  }

  class ContactStore {
    var rows: Rows

    constructor ()
      ensures rows == map[]
    {
      rows := map[];
    }

    /** The three loops of a request, in their order. */
    method ContactSet(account: int, loaded: Known, creates: seq<Create>, updates: seq<Update>, destroys: seq<Option<int>>)
      modifies this
      ensures rows == SetResult(old(rows), account, loaded, creates, updates, destroys)
    {
      var existing := loaded;
      ghost var start := Book(rows, existing);
      for i := 0 to |creates|
        invariant Book(rows, existing) == Creates(start, account, creates[..i])
      {
        var c := creates[i];
        assert creates[..i + 1][..i] == creates[..i];
        if ValidFields(c.contact) && !IsDuplicate(c.contact.email, existing, None) {
          if c.written {
            rows := rows[c.id := Row(account, Some(c.contact))];
            existing := existing + [(c.id, c.contact)];
          }
        }
      }
      assert creates[..|creates|] == creates;
      ghost var created := Book(rows, existing);
      for i := 0 to |updates|
        invariant Book(rows, existing) == Updates(created, account, updates[..i])
      {
        var u := updates[i];
        assert updates[..i + 1][..i] == updates[..i];
        if u.rowId.Some? && u.rowId.value in rows && rows[u.rowId.value].account == account && rows[u.rowId.value].plain.Some? {
          var id := u.rowId.value;
          var c := Change(rows[id].plain.value, u);
          if ValidFields(c) && !IsDuplicate(c.email, existing, Some(id)) && u.written {
            rows := rows[id := Row(account, Some(c))];
            existing := Retain(existing, id) + [(id, c)];
          }
        }
      }
      assert updates[..|updates|] == updates;
      ghost var updated := rows;
      for i := 0 to |destroys|
        invariant rows == Destroys(updated, account, destroys[..i])
      {
        assert destroys[..i + 1][..i] == destroys[..i];
        if destroys[i].Some? && destroys[i].value in rows && rows[destroys[i].value].account == account {
          rows := rows - {destroys[i].value};
        }
      }
      assert destroys[..|destroys|] == destroys;
    }
  }

  // ------------------------------------------------------------------
  // No two contacts share an email
  // ------------------------------------------------------------------

  ghost predicate Distinct(rows: Rows, account: int) {
    forall i, j :: Openable(rows, account, i) && Openable(rows, account, j) && i != j ==>
      !EqIgnoreCase(rows[i].plain.value.email, rows[j].plain.value.email)
  }

  /** The list knows every contact a valid email could collide with. */
  ghost predicate Covers(b: Book, account: int) {
    forall id :: Openable(b.rows, account, id) && ValidEmailAddress(b.rows[id].plain.value.email) ==>
      (id, b.rows[id].plain.value) in b.existing
  }

  /** The list is exactly what the table holds for the account. */
  ghost predicate Agrees(b: Book, account: int) {
    forall e: (int, Contact) :: e in b.existing <==> Openable(b.rows, account, e.0) && b.rows[e.0].plain == Some(e.1)
  }

  lemma {:induction false} NoClash(b: Book, account: int, email: string, excluding: Option<int>, id: int)
    requires Covers(b, account) && ValidEmailAddress(email) && !IsDuplicate(email, b.existing, excluding)
    requires Openable(b.rows, account, id) && Some(id) != excluding
    ensures !EqIgnoreCase(b.rows[id].plain.value.email, email)
  {
    var other := b.rows[id].plain.value;
    if ValidEmailAddress(other.email) {
      assert (id, other) in b.existing;
    } else if EqIgnoreCase(other.email, email) {
      ValidityIgnoresCase(other.email, email);
    }
  }

  lemma {:induction false} CreateKeeps(b: Book, account: int, c: Create)
    requires c.id !in b.rows
    ensures Covers(b, account) && Distinct(b.rows, account) ==>
      Covers(AfterCreate(b, account, c), account) && Distinct(AfterCreate(b, account, c).rows, account)
    ensures Agrees(b, account) ==> Agrees(AfterCreate(b, account, c), account)
  {
    var n := AfterCreate(b, account, c);
    if Covers(b, account) && Distinct(b.rows, account) && n != b {
      forall i, j | Openable(n.rows, account, i) && Openable(n.rows, account, j) && i != j
        ensures !EqIgnoreCase(n.rows[i].plain.value.email, n.rows[j].plain.value.email)
      {
        if j == c.id { NoClash(b, account, c.contact.email, None, i); }
        if i == c.id { NoClash(b, account, c.contact.email, None, j); }
      }
    }
  }

  lemma {:induction false} UpdateKeeps(b: Book, account: int, u: Update)
    ensures Covers(b, account) && Distinct(b.rows, account) ==>
      Covers(AfterUpdate(b, account, u), account) && Distinct(AfterUpdate(b, account, u).rows, account)
    ensures Agrees(b, account) ==> Agrees(AfterUpdate(b, account, u), account)
  {
    var n := AfterUpdate(b, account, u);
    if Covers(b, account) && Distinct(b.rows, account) && n != b {
      var id := u.rowId.value;
      var c := Change(b.rows[id].plain.value, u);
      forall i, j | Openable(n.rows, account, i) && Openable(n.rows, account, j) && i != j
        ensures !EqIgnoreCase(n.rows[i].plain.value.email, n.rows[j].plain.value.email)
      {
        if j == id { NoClash(b, account, c.email, Some(id), i); }
        if i == id { NoClash(b, account, c.email, Some(id), j); }
      }
    }
  }

  lemma {:induction false} CreatesKeep(b: Book, account: int, cs: seq<Create>)
    requires NewIds(b.rows, cs)
    ensures Covers(b, account) && Distinct(b.rows, account) ==>
      Covers(Creates(b, account, cs), account) && Distinct(Creates(b, account, cs).rows, account)
    ensures Agrees(b, account) ==> Agrees(Creates(b, account, cs), account)
    ensures forall id :: id in Creates(b, account, cs).rows ==> id in b.rows || exists i :: 0 <= i < |cs| && cs[i].id == id
  {
    if cs == [] {
    } else {
      CreatesKeep(b, account, cs[..|cs| - 1]);
      CreateKeeps(Creates(b, account, cs[..|cs| - 1]), account, cs[|cs| - 1]);
    }
  }

  lemma {:induction false} UpdatesKeep(b: Book, account: int, us: seq<Update>)
    ensures Covers(b, account) && Distinct(b.rows, account) ==>
      Covers(Updates(b, account, us), account) && Distinct(Updates(b, account, us).rows, account)
    ensures Agrees(b, account) ==> Agrees(Updates(b, account, us), account)
  {
    if us == [] {
    } else {
      UpdatesKeep(b, account, us[..|us| - 1]);
      UpdateKeeps(Updates(b, account, us[..|us| - 1]), account, us[|us| - 1]);
    }
  }

  lemma {:induction false} DestroysKeep(rows: Rows, account: int, ids: seq<Option<int>>)
    ensures Distinct(rows, account) ==> Distinct(Destroys(rows, account, ids), account)
  {
    if ids == [] {
    } else {
      DestroysKeep(rows, account, ids[..|ids| - 1]);
    }
  }

  /** While creates and updates run, the list and the table agree. */
  lemma {:induction false} ListAgrees(rows: Rows, account: int, existing: Known, cs: seq<Create>, us: seq<Update>)
    requires Loads(rows, account, true, existing) && NewIds(rows, cs)
    ensures Agrees(Updates(Creates(Book(rows, existing), account, cs), account, us), account)
  {
    CreatesKeep(Book(rows, existing), account, cs);
    UpdatesKeep(Creates(Book(rows, existing), account, cs), account, us);
  }

  /** Every batch leaves the account's emails distinct. */
  ghost predicate AlwaysDistinct(rows: Rows, account: int, loaded: bool) {
    forall existing, cs, us, ds :: Loads(rows, account, loaded, existing) && NewIds(rows, cs) ==>
      Distinct(SetResult(rows, account, existing, cs, us, ds), account)
  }

  ghost predicate NoneToCollide(rows: Rows, account: int) {
    forall id :: Openable(rows, account, id) ==> !ValidEmailAddress(rows[id].plain.value.email)
  }

  /** From a table with distinct emails, every batch in any order keeps them distinct
      exactly when the contacts were read, or there was none to collide with. */
  lemma {:induction false} DistinctExactly(rows: Rows, account: int, loaded: bool)
    requires Distinct(rows, account)
    ensures AlwaysDistinct(rows, account, loaded) <==> loaded || NoneToCollide(rows, account)
  {
    if loaded || NoneToCollide(rows, account) {
      forall existing, cs, us, ds | Loads(rows, account, loaded, existing) && NewIds(rows, cs)
        ensures Distinct(SetResult(rows, account, existing, cs, us, ds), account)
      {
        var b := Book(rows, existing);
        assert Covers(b, account);
        CreatesKeep(b, account, cs);
        UpdatesKeep(Creates(b, account, cs), account, us);
        DestroysKeep(Updates(Creates(b, account, cs), account, us).rows, account, ds);
      }
    } else {
      var id :| Openable(rows, account, id) && ValidEmailAddress(rows[id].plain.value.email);
      UnreadCollides(rows, account, id);
    }
  }

  lemma {:induction false} UnreadCollides(rows: Rows, account: int, id: int)
    requires Openable(rows, account, id) && ValidEmailAddress(rows[id].plain.value.email)
    ensures !AlwaysDistinct(rows, account, false)
  {
    var other := UnusedId(rows);
    var c := Contact(None, rows[id].plain.value.email);
    var cs := [Create(c, other, true)];
    var none: Known := [];
    assert cs[..0] == [] && Creates(Book(rows, none), account, []) == Book(rows, none);
    assert Creates(Book(rows, none), account, cs) == AfterCreate(Book(rows, none), account, cs[0]);
    var end := SetResult(rows, account, none, cs, [], []);
    assert end == rows[other := Row(account, Some(c))];
    assert Openable(end, account, id) && Openable(end, account, other);
    assert Loads(rows, account, false, none) && NewIds(rows, cs);
  }

  lemma {:induction false} UnusedId(rows: Rows) returns (id: int)
    ensures id !in rows
  {
    id := UpperBound(rows.Keys);
  }

  lemma {:induction false} UpperBound(ids: set<int>) returns (bound: int)
    ensures forall k :: k in ids ==> k < bound
  {
    bound := 0;
    if k :| k in ids {
      var rest := ids - {k};
      bound := UpperBound(rest);
      assert forall j :: j in ids ==> j == k || j in rest;
      bound := if k < bound then bound else k + 1;
    }
  }

  // ------------------------------------------------------------------
  // What a request changes
  // ------------------------------------------------------------------

  /** Another contact of the account has this email, in some case. */
  ghost predicate Taken(rows: Rows, account: int, email: string, excluding: Option<int>) {
    exists id :: Openable(rows, account, id) && Some(id) != excluding && EqIgnoreCase(rows[id].plain.value.email, email)
  }

  ghost predicate Acceptable(rows: Rows, account: int, c: Contact, excluding: Option<int>) {
    && ValidEmailAddress(c.email) && (c.name.Some? ==> ValidHeaderValue(c.name.value))
    && !Taken(rows, account, c.email, excluding)
  }

  lemma {:induction false} TakenExactly(b: Book, account: int, email: string, excluding: Option<int>)
    requires Agrees(b, account)
    ensures IsDuplicate(email, b.existing, excluding) <==> Taken(b.rows, account, email, excluding)
  {
    if IsDuplicate(email, b.existing, excluding) {
      var i :| 0 <= i < |b.existing| && Some(b.existing[i].0) != excluding && EqIgnoreCase(b.existing[i].1.email, email);
      assert b.existing[i] in b.existing;
      assert Openable(b.rows, account, b.existing[i].0);
    }
    if Taken(b.rows, account, email, excluding) {
      var id :| Openable(b.rows, account, id) && Some(id) != excluding && EqIgnoreCase(b.rows[id].plain.value.email, email);
      assert (id, b.rows[id].plain.value) in b.existing;
    }
  }

  /** One more create of a batch: the contact is there exactly if it is valid, its email
      is not taken and the write succeeds; and nothing else changes. */
  lemma {:induction false} CreateExactly(start: Book, account: int, cs: seq<Create>, c: Create)
    requires Agrees(Creates(start, account, cs), account)
    ensures var rows, rows' := Creates(start, account, cs).rows, Creates(start, account, cs + [c]).rows;
      rows' == if Acceptable(rows, account, c.contact, None) && c.written then rows[c.id := Row(account, Some(c.contact))] else rows
  {
    assert (cs + [c])[..|cs|] == cs;
    TakenExactly(Creates(start, account, cs), account, c.contact.email, None);
  }

  /** The fields a patch leaves out stay, and the others are as it says. */
  ghost predicate Patched(c: Contact, c': Contact, u: Update) {
    && (u.name.None? ==> c'.name == c.name) && (u.name.Some? ==> c'.name == u.name.value)
    && (u.email.None? ==> c'.email == c.email) && (u.email.Some? ==> c'.email == u.email.value)
  }

  /** One more update: the row is changed, field by field, exactly if it is the account's
      and opens, the patched contact is valid, its email is not another's and the write
      succeeds; and nothing else changes. */
  lemma {:induction false} UpdateExactly(start: Book, account: int, us: seq<Update>, u: Update) returns (patched: Contact)
    requires Agrees(Updates(start, account, us), account)
    ensures var rows, rows' := Updates(start, account, us).rows, Updates(start, account, us + [u]).rows;
      if u.rowId.Some? && Openable(rows, account, u.rowId.value) then
        && Patched(rows[u.rowId.value].plain.value, patched, u)
        && rows' == (if Acceptable(rows, account, patched, u.rowId) && u.written
                     then rows[u.rowId.value := Row(account, Some(patched))] else rows)
      else rows' == rows
  {
    assert (us + [u])[..|us|] == us;
    var b := Updates(start, account, us);
    patched := Contact(None, "");
    if u.rowId.Some? && Openable(b.rows, account, u.rowId.value) {
      patched := Change(b.rows[u.rowId.value].plain.value, u);
      TakenExactly(b, account, patched.email, u.rowId);
    }
  }

  lemma {:induction false} DestroysExactly(rows: Rows, account: int, ids: seq<Option<int>>)
    ensures forall id :: id in Destroys(rows, account, ids) <==> id in rows && !(rows[id].account == account && Some(id) in ids)
    ensures forall id :: id in Destroys(rows, account, ids) ==> Destroys(rows, account, ids)[id] == rows[id]
  {
    if ids == [] {
    } else {
      DestroysExactly(rows, account, ids[..|ids| - 1]);
      assert ids == ids[..|ids| - 1] + [ids[|ids| - 1]];
    }
  }

  /** After a request, of the rows the creates and updates left, exactly the account's rows
      named for destruction are gone. */
  lemma {:induction false} DestroyedExactly(rows: Rows, account: int, loaded: Known, cs: seq<Create>, us: seq<Update>, ds: seq<Option<int>>)
    ensures var rows', end := Updates(Creates(Book(rows, loaded), account, cs), account, us).rows, SetResult(rows, account, loaded, cs, us, ds);
      && (forall id :: id in end <==> id in rows' && !(rows'[id].account == account && Some(id) in ds))
      && (forall id :: id in end ==> end[id] == rows'[id])
  {
    DestroysExactly(Updates(Creates(Book(rows, loaded), account, cs), account, us).rows, account, ds);
  }

  /** Rows of another account. */
  ghost predicate OthersSame(rows: Rows, rows': Rows, account: int) {
    && (forall id :: id in rows && rows[id].account != account ==> id in rows' && rows'[id] == rows[id])
    && (forall id :: id in rows' && rows'[id].account != account ==> id in rows && rows[id] == rows'[id])
  }

  lemma {:induction false} CreatesKeepOthers(b: Book, account: int, cs: seq<Create>)
    requires NewIds(b.rows, cs)
    ensures OthersSame(b.rows, Creates(b, account, cs).rows, account)
  {
    if cs == [] {
    } else {
      CreatesKeepOthers(b, account, cs[..|cs| - 1]);
    }
  }

  lemma {:induction false} UpdatesKeepOthers(b: Book, account: int, us: seq<Update>)
    ensures OthersSame(b.rows, Updates(b, account, us).rows, account)
  {
    if us == [] {
    } else {
      UpdatesKeepOthers(b, account, us[..|us| - 1]);
    }
  }

  /** No request, whatever it names, changes another account's contacts. */
  lemma {:induction false} OthersUntouched(rows: Rows, account: int, loaded: Known, cs: seq<Create>, us: seq<Update>, ds: seq<Option<int>>)
    requires NewIds(rows, cs)
    ensures OthersSame(rows, SetResult(rows, account, loaded, cs, us, ds), account)
  {
    CreatesKeepOthers(Book(rows, loaded), account, cs);
    UpdatesKeepOthers(Creates(Book(rows, loaded), account, cs), account, us);
    DestroyedExactly(rows, account, loaded, cs, us, ds);
  }
}
