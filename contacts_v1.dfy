/**
 * Version 1 of the contact manager: one `contacts` table shared by every
 * user (it has no owner column), contacts without an e-mail address, and
 * writes addressed by the row id alone.
 */
module ContactsV1 {
  import opened Wrappers
  import opened Text
  import opened Forms
  import opened SqlLike
  import opened Tables
  import opened Validation

  /** A row of `contacts`. Only `name` is NOT NULL. */
  datatype Contact = Contact(
    id: int,
    name: string,
    phone: Option<string>,
    address: Option<string>,
    notes: Option<string>)

  /** The fields of a submitted contact form; `None` for a field the request
      did not carry. */
  datatype ContactForm = ContactForm(
    name: Option<string>,
    phone: Option<string>,
    address: Option<string>,
    notes: Option<string>)

  /** The four column values an add or an edit writes. */
  datatype Fields = Fields(name: string, phone: string, address: string, notes: string)

  /** What a handler reports, in place of its flash message and redirect. */
  datatype Outcome =
    | Success             // "... successfully", or the page is rendered
    | NotLoggedIn         // "Please log in first"
    | NotFound            // "Contact not found"
    | InvalidName         // "Name is required and must be at least 2 characters"
    | InvalidPhone        // "Invalid phone number format"
    | ShortCredentials    // "Username must be ≥3 chars and password ≥6 chars"
    | UsernameExists      // "Username already exists"
    | BadCredentials      // "Invalid credentials"
    | ServerError         // an exception no handler catches: the 500 error page

  // ------------------------------------------------------------ form input

  /** The four values `add` and `edit` read from the form, each defaulting to
      the empty string. */
  function ReadForm(form: ContactForm): (f: Fields)
    ensures form.name.Some? ==> f.name == Strip(form.name.value)
    ensures form.phone.Some? ==> f.phone == Strip(form.phone.value)
    ensures form.address.Some? ==> f.address == Strip(form.address.value)
    ensures form.notes.Some? ==> f.notes == Strip(form.notes.value)
    ensures form.name.None? ==> f.name == []
    ensures form.phone.None? ==> f.phone == []
    ensures form.address.None? ==> f.address == []
    ensures form.notes.None? ==> f.notes == []
    ensures NoOuterSpace(f.name) && NoOuterSpace(f.phone)
  {
    Fields(FormValue(form.name, ""), FormValue(form.phone, ""),
           FormValue(form.address, ""), FormValue(form.notes, ""))
  }

  /** The validation chain of `add` and `edit`: name, then phone. */
  function CheckFields(f: Fields): (r: Outcome)
    ensures r == Success <==> ValidateName(f.name) && ValidatePhone(f.phone)
    ensures r == InvalidName <==> !ValidateName(f.name)
    ensures r == InvalidPhone <==> ValidateName(f.name) && !ValidatePhone(f.phone)
  {
    if !ValidateName(f.name) then InvalidName
    else if !ValidatePhone(f.phone) then InvalidPhone
    else Success
  }

  // ------------------------------------------------------- contact writes

  /** The row `add` inserts. */
  function NewContact(id: int, f: Fields): (c: Contact)
    ensures c.id == id && c.name == f.name && c.phone == Some(f.phone)
  {
    Contact(id, f.name, Some(f.phone), Some(f.address), Some(f.notes))
  }

  /** `SELECT * FROM contacts WHERE id = ?` with `fetchone()`. */
  function FindById(rows: seq<Contact>, id: int): (r: Option<Contact>)
    ensures r.Some? ==> r.value in rows && r.value.id == id
    ensures r.None? <==> forall k :: 0 <= k < |rows| ==> rows[k].id != id
  {
    Find(rows, (c: Contact) => c.id == id)
  }

  /** `UPDATE contacts SET name=?, phone=?, address=?, notes=? WHERE id=?`: the
      rows of the result are the untouched rows of other ids and the rewritten
      row, and no untouched row is lost. */
  function UpdateById(rows: seq<Contact>, id: int, f: Fields): (r: seq<Contact>)
    ensures |r| == |rows|
    ensures forall c :: c in r ==> (c in rows && c.id != id) || c == NewContact(id, f)
    ensures forall c :: c in rows && c.id != id ==> c in r
    ensures FindById(rows, id).Some? ==> NewContact(id, f) in r
  {
    var r := seq(|rows|, k requires 0 <= k < |rows| => if rows[k].id == id then NewContact(id, f) else rows[k]);
    assert forall k :: 0 <= k < |rows| && rows[k].id != id ==> r[k] == rows[k];
    assert forall k :: 0 <= k < |rows| && rows[k].id == id ==> r[k] == NewContact(id, f);
    r
  }

  /** `DELETE FROM contacts WHERE id=?`. */
  function RemoveById(rows: seq<Contact>, id: int): (r: seq<Contact>)
    ensures forall c :: c in r <==> c in rows && c.id != id
  {
    Filter(rows, (c: Contact) => c.id != id)
  }

  /** Contact ids strictly increase in table order and stay below the next
      AUTOINCREMENT value. */
  ghost predicate ContactsValid(rows: seq<Contact>, nextId: int) {
    IdsBelow(rows, (c: Contact) => c.id, nextId)
  }

  /** An edit rewrites the row with that id, whoever added it, and leaves the
      other rows alone. */
  lemma UpdateByIdEffect(rows: seq<Contact>, id: int, f: Fields)
    ensures var r := UpdateById(rows, id, f);
      forall k :: 0 <= k < |rows| ==>
        && r[k].id == rows[k].id
        && (rows[k].id == id ==> r[k] == NewContact(id, f))
        && (rows[k].id != id ==> r[k] == rows[k])
  {
  }

  /** After an edit the row found by the id holds the new values. */
  lemma {:induction false} UpdateByIdReadBack(rows: seq<Contact>, id: int, f: Fields)
    requires FindById(rows, id).Some?
    ensures FindById(UpdateById(rows, id, f), id) == Some(NewContact(id, f))
    decreases |rows|
  {
    if rows[0].id != id {
      assert UpdateById(rows[1..], id, f) == UpdateById(rows, id, f)[1..];
      UpdateByIdReadBack(rows[1..], id, f);
    }
  }

  lemma UpdateByIdValid(rows: seq<Contact>, id: int, f: Fields, nextId: int)
    requires ContactsValid(rows, nextId)
    ensures ContactsValid(UpdateById(rows, id, f), nextId)
  {
    UpdateByIdEffect(rows, id, f);
  }

  /** A delete leaves no row with that id behind, and removes nothing when no
      row had it. */
  lemma RemoveByIdEffect(rows: seq<Contact>, id: int)
    ensures FindById(RemoveById(rows, id), id).None?
    ensures FindById(rows, id).None? ==> RemoveById(rows, id) == rows
  {
    var r := RemoveById(rows, id);
    assert forall k :: 0 <= k < |r| ==> r[k] in r;
    if FindById(rows, id).None? {
      assert forall c :: c in rows ==> c.id != id;
      FilterAll(rows, (c: Contact) => c.id != id);
    }
  }

  lemma RemoveByIdValid(rows: seq<Contact>, id: int, nextId: int)
    requires ContactsValid(rows, nextId)
    ensures ContactsValid(RemoveById(rows, id), nextId)
  {
    FilterIdsBelow(rows, (c: Contact) => c.id != id, (c: Contact) => c.id, nextId);
  }

  /** Reading back a freshly added row by its new id finds it. */
  lemma AddReadBack(rows: seq<Contact>, nextId: int, f: Fields)
    requires ContactsValid(rows, nextId)
    ensures FindById(rows + [NewContact(nextId, f)], nextId) == Some(NewContact(nextId, f))
    ensures ContactsValid(rows + [NewContact(nextId, f)], nextId + 1)
  {
    var row := NewContact(nextId, f);
    FindAfterMisses(rows, [row], (c: Contact) => c.id == nextId);
    AppendIdsBelow(rows, row, (c: Contact) => c.id, nextId);
  }

  // ------------------------------------------------------------- listing

  /** `name LIKE ? OR phone LIKE ? OR notes LIKE ?`; a NULL column does not match. */
  predicate SearchHolds(c: Contact, pattern: string) {
    || Like(c.name, pattern)
    || (c.phone.Some? && Like(c.phone.value, pattern))
    || (c.notes.Some? && Like(c.notes.value, pattern))
  }

  /** The rows of the listing before ordering: every row when the search text
      is empty, otherwise the rows the LIKE test accepts. */
  function Matching(rows: seq<Contact>, search: string): (r: seq<Contact>)
    ensures search == [] ==> r == rows
    ensures forall c :: c in r <==> c in rows && (search != [] ==> SearchHolds(c, SearchPattern(search)))
  {
    if search == [] then rows else Filter(rows, (c: Contact) => SearchHolds(c, SearchPattern(search)))
  }

  /** The search text occurs, case-insensitively, in the name, phone or notes. */
  ghost predicate MentionedIn(c: Contact, search: string) {
    || ContainsIgnoringCase(c.name, search)
    || (c.phone.Some? && ContainsIgnoringCase(c.phone.value, search))
    || (c.notes.Some? && ContainsIgnoringCase(c.notes.value, search))
  }

  /** For a search text without `%` or `_`, the LIKE test is a case-insensitive
      substring test over the three searched columns. */
  lemma SearchMeaning(c: Contact, search: string)
    requires NoWildcards(search)
    ensures SearchHolds(c, SearchPattern(search)) <==> MentionedIn(c, search)
  {
    SearchIsSubstring(c.name, search);
    if c.phone.Some? { SearchIsSubstring(c.phone.value, search); }
    if c.notes.Some? { SearchIsSubstring(c.notes.value, search); }
  }

  function ContactName(c: Contact): string {
    c.name
  }
}
