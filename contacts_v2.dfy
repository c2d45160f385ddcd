/**
 * Version 2 of the contact manager: the rows of its `contacts` and
 * `categories` tables, the form fields a request submits, the WHERE clauses
 * the listing builds, and the row-level effect of each write. Every write
 * is scoped by the pair (row id, owner user id).
 */
module ContactsV2 {
  import opened Wrappers
  import opened Text
  import opened Forms
  import opened SqlLike
  import opened Ordering
  import opened Tables
  import opened Validation
  import opened Pagination
  import CsvExport

  /** A row of `contacts`. Only `name` is NOT NULL; the handlers always write
      the other columns as strings, possibly empty. */
  datatype Contact = Contact(
    id: int,
    userId: int,
    name: string,
    phone: Option<string>,
    email: Option<string>,
    address: Option<string>,
    notes: Option<string>,
    category: Option<string>)

  /** A row of `categories`. There is no UNIQUE constraint on the name. */
  datatype Category = Category(id: int, userId: int, name: string, color: Option<string>)

  /** The fields of a submitted contact form; `None` for a field the request
      did not carry. */
  datatype ContactForm = ContactForm(
    name: Option<string>,
    phone: Option<string>,
    email: Option<string>,
    address: Option<string>,
    notes: Option<string>,
    category: Option<string>)

  /** The six column values an add or an edit writes. */
  datatype Fields = Fields(
    name: string, phone: string, email: string, address: string, notes: string, category: string)

  /** What a handler reports, in place of its flash message and redirect. */
  datatype Outcome =
    | Success             // "... successfully", or the page is rendered
    | NotLoggedIn         // "Please log in first"
    | NotFound            // "Contact not found", "Category not found"
    | InvalidName         // "Name is required and must be at least 2 characters"
    | InvalidPhone        // "Invalid phone number format"
    | InvalidEmail        // "Invalid email format"
    | InUse               // "Cannot delete category that is in use by contacts"
    | IsDefault           // "Cannot delete default categories"
    | NameRequired        // "Category name is required"
    | ShortUsername       // "Username must be at least 3 characters"
    | ShortPassword       // "Password must be at least 6 characters"
    | UsernameExists      // "Username already exists"
    | BadCredentials      // "Invalid credentials"
    | ServerError         // an exception no handler catches: the 500 error page

  // ------------------------------------------------------------ form input

  /** The six values `add` and `edit` read from the form. The category is
      "General" when the field is absent; a blank submitted category is kept
      as the empty string. */
  function ReadForm(form: ContactForm): (f: Fields)
    ensures form.name.Some? ==> f.name == Strip(form.name.value)
    ensures form.phone.Some? ==> f.phone == Strip(form.phone.value)
    ensures form.email.Some? ==> f.email == Strip(form.email.value)
    ensures form.address.Some? ==> f.address == Strip(form.address.value)
    ensures form.notes.Some? ==> f.notes == Strip(form.notes.value)
    ensures form.category.Some? ==> f.category == Strip(form.category.value)
    ensures form.name.None? ==> f.name == []
    ensures form.phone.None? ==> f.phone == []
    ensures form.email.None? ==> f.email == []
    ensures form.address.None? ==> f.address == []
    ensures form.notes.None? ==> f.notes == []
    ensures form.category.None? ==> f.category == "General"
    ensures form.category.Some? && AllSpace(form.category.value) ==> f.category == []
    ensures NoOuterSpace(f.name) && NoOuterSpace(f.phone) && NoOuterSpace(f.email)
  {
    Fields(FormValue(form.name, ""), FormValue(form.phone, ""), FormValue(form.email, ""),
           FormValue(form.address, ""), FormValue(form.notes, ""), FormValue(form.category, "General"))
  }

  /** The validation chain of `add` and `edit`: name, then phone, then e-mail;
      the first failure is reported. */
  function CheckFields(f: Fields): (r: Outcome)
    ensures r == Success <==> ValidateName(f.name) && ValidatePhone(f.phone) && ValidateEmail(f.email)
    ensures r == InvalidName <==> !ValidateName(f.name)
    ensures r == InvalidPhone <==> ValidateName(f.name) && !ValidatePhone(f.phone)
    ensures r == InvalidEmail <==> ValidateName(f.name) && ValidatePhone(f.phone) && !ValidateEmail(f.email)
  {
    if !ValidateName(f.name) then InvalidName
    else if !ValidatePhone(f.phone) then InvalidPhone
    else if !ValidateEmail(f.email) then InvalidEmail
    else Success
  }

  // ------------------------------------------------------- contact writes

  /** The row `add` inserts. */
  function NewContact(id: int, userId: int, f: Fields): (c: Contact)
    ensures c.id == id && c.userId == userId && c.name == f.name
  {
    Contact(id, userId, f.name, Some(f.phone), Some(f.email), Some(f.address), Some(f.notes), Some(f.category))
  }

  /** `UPDATE contacts SET name=?, phone=?, email=?, address=?, notes=?, category=?`
      on one row: the six columns change, the id and owner do not. */
  function Rewrite(c: Contact, f: Fields): (r: Contact)
    ensures r.id == c.id && r.userId == c.userId
    ensures r == NewContact(c.id, c.userId, f)
  {
    c.(name := f.name, phone := Some(f.phone), email := Some(f.email),
       address := Some(f.address), notes := Some(f.notes), category := Some(f.category))
  }

  predicate Owns(c: Contact, id: int, userId: int) {
    c.id == id && c.userId == userId
  }

  /** `SELECT * FROM contacts WHERE id = ? AND user_id = ?` with `fetchone()`. */
  function FindOwned(rows: seq<Contact>, id: int, userId: int): (r: Option<Contact>)
    ensures r.Some? ==> r.value in rows && Owns(r.value, id, userId)
    ensures r.None? <==> forall k :: 0 <= k < |rows| ==> !Owns(rows[k], id, userId)
  {
    Find(rows, (c: Contact) => Owns(c, id, userId))
  }

  /** The UPDATE of `edit`, applied to every row matching `id = ? AND user_id = ?`:
      the rows of the result are the untouched rows of other ids or owners and
      the rewritten row, and no untouched row is lost. */
  function UpdateOwned(rows: seq<Contact>, id: int, userId: int, f: Fields): (r: seq<Contact>)
    ensures |r| == |rows|
    ensures forall c :: c in r ==> (c in rows && !Owns(c, id, userId)) || c == NewContact(id, userId, f)
    ensures forall c :: c in rows && !Owns(c, id, userId) ==> c in r
    ensures FindOwned(rows, id, userId).Some? ==> NewContact(id, userId, f) in r
  {
    var r := seq(|rows|, k requires 0 <= k < |rows| =>
      if Owns(rows[k], id, userId) then Rewrite(rows[k], f) else rows[k]);
    assert forall k :: 0 <= k < |rows| && !Owns(rows[k], id, userId) ==> r[k] == rows[k];
    assert forall k :: 0 <= k < |rows| && Owns(rows[k], id, userId) ==> r[k] == NewContact(id, userId, f);
    r
  }

  /** `DELETE FROM contacts WHERE id=? AND user_id=?`. */
  function RemoveOwned(rows: seq<Contact>, id: int, userId: int): (r: seq<Contact>)
    ensures forall c :: c in r <==> c in rows && !Owns(c, id, userId)
  {
    Filter(rows, (c: Contact) => !Owns(c, id, userId))
  }

  /** Contact ids strictly increase in table order and stay below the next
      AUTOINCREMENT value. */
  ghost predicate ContactsValid(rows: seq<Contact>, nextId: int) {
    IdsBelow(rows, (c: Contact) => c.id, nextId)
  }

  /** An edit changes only the matched row's six columns: every row keeps its
      id and owner, rows of other ids or other owners are untouched, and the
      matched row reads back as written. */
  lemma UpdateOwnedEffect(rows: seq<Contact>, id: int, userId: int, f: Fields)
    ensures var r := UpdateOwned(rows, id, userId, f);
      forall k :: 0 <= k < |rows| ==>
        && r[k].id == rows[k].id && r[k].userId == rows[k].userId
        && (Owns(rows[k], id, userId) ==> r[k] == NewContact(id, userId, f))
        && (!Owns(rows[k], id, userId) ==> r[k] == rows[k])
  {
  }

  /** An edit scoped to a row the user does not own writes nothing. */
  lemma {:induction false} UpdateOwnedNoMatch(rows: seq<Contact>, id: int, userId: int, f: Fields)
    requires FindOwned(rows, id, userId).None?
    ensures UpdateOwned(rows, id, userId, f) == rows
  {
    var r := UpdateOwned(rows, id, userId, f);
    forall k | 0 <= k < |rows| ensures r[k] == rows[k] {
      assert !Owns(rows[k], id, userId);
    }
  }

  /** After a successful edit the row found by (id, owner) holds the new values. */
  lemma {:induction false} UpdateOwnedReadBack(rows: seq<Contact>, id: int, userId: int, f: Fields)
    requires FindOwned(rows, id, userId).Some?
    ensures FindOwned(UpdateOwned(rows, id, userId, f), id, userId) == Some(NewContact(id, userId, f))
    decreases |rows|
  {
    var r := UpdateOwned(rows, id, userId, f);
    if !Owns(rows[0], id, userId) {
      assert UpdateOwned(rows[1..], id, userId, f) == r[1..];
      UpdateOwnedReadBack(rows[1..], id, userId, f);
    }
  }

  /** Deleting again deletes nothing more. */
  lemma RemoveOwnedIdempotent(rows: seq<Contact>, id: int, userId: int)
    ensures RemoveOwned(RemoveOwned(rows, id, userId), id, userId) == RemoveOwned(rows, id, userId)
  {
    FilterIdempotent(rows, (c: Contact) => !Owns(c, id, userId));
  }

  /** A delete removes nothing exactly when no row matches (id, owner): the
      "not found" case leaves the table as it was. */
  lemma RemoveOwnedNoMatch(rows: seq<Contact>, id: int, userId: int)
    ensures |RemoveOwned(rows, id, userId)| == |rows| <==> FindOwned(rows, id, userId).None?
    ensures FindOwned(rows, id, userId).None? ==> RemoveOwned(rows, id, userId) == rows
  {
    var p := (c: Contact) => !Owns(c, id, userId);
    if |RemoveOwned(rows, id, userId)| == |rows| {
      FilterNoneDropped(rows, p);
      assert forall k :: 0 <= k < |rows| ==> p(rows[k]);
    }
    if FindOwned(rows, id, userId).None? {
      assert forall c :: c in rows ==> p(c);
      FilterAll(rows, p);
    }
  }

  /** After a delete no row matches (id, owner) any more, so a repeated delete
      reports "not found". */
  lemma RemoveOwnedGone(rows: seq<Contact>, id: int, userId: int)
    ensures FindOwned(RemoveOwned(rows, id, userId), id, userId).None?
  {
    var r := RemoveOwned(rows, id, userId);
    assert forall k :: 0 <= k < |r| ==> r[k] in r;
  }

  /** With unique ids a delete removes at most the one matching row. */
  lemma {:induction false} RemoveOwnedAtMostOne(rows: seq<Contact>, id: int, userId: int, nextId: int)
    requires ContactsValid(rows, nextId)
    ensures |rows| - 1 <= |RemoveOwned(rows, id, userId)|
    decreases |rows|
  {
    if rows != [] {
      var p := (c: Contact) => !Owns(c, id, userId);
      assert ContactsValid(rows[1..], nextId);
      if Owns(rows[0], id, userId) {
        forall c | c in rows[1..] ensures p(c) {
          var k :| 0 <= k < |rows[1..]| && rows[1..][k] == c;
          assert rows[0].id < rows[k + 1].id;
        }
        FilterAll(rows[1..], p);
      } else {
        RemoveOwnedAtMostOne(rows[1..], id, userId, nextId);
      }
    }
  }

  /** The table writes keep contact ids increasing and below the next id. */
  lemma RemoveOwnedValid(rows: seq<Contact>, id: int, userId: int, nextId: int)
    requires ContactsValid(rows, nextId)
    ensures ContactsValid(RemoveOwned(rows, id, userId), nextId)
  {
    FilterIdsBelow(rows, (c: Contact) => !Owns(c, id, userId), (c: Contact) => c.id, nextId);
  }

  lemma UpdateOwnedValid(rows: seq<Contact>, id: int, userId: int, f: Fields, nextId: int)
    requires ContactsValid(rows, nextId)
    ensures ContactsValid(UpdateOwned(rows, id, userId, f), nextId)
  {
    UpdateOwnedEffect(rows, id, userId, f);
  }

  /** Reading back a freshly added row by its new id and owner finds it. */
  lemma AddReadBack(rows: seq<Contact>, nextId: int, userId: int, f: Fields)
    requires ContactsValid(rows, nextId)
    ensures FindOwned(rows + [NewContact(nextId, userId, f)], nextId, userId) == Some(NewContact(nextId, userId, f))
    ensures ContactsValid(rows + [NewContact(nextId, userId, f)], nextId + 1)
  {
    var row := NewContact(nextId, userId, f);
    FindAfterMisses(rows, [row], (c: Contact) => Owns(c, nextId, userId));
    AppendIdsBelow(rows, row, (c: Contact) => c.id, nextId);
  }

  // ------------------------------------------------------------- listing

  /** One conjunct of a listing query's WHERE clause. */
  datatype Clause =
    | OwnedBy(userId: int)          // user_id = ?
    | SearchLike(pattern: string)   // (name LIKE ? OR phone LIKE ? OR email LIKE ? OR notes LIKE ?)
    | CategoryIs(name: string)      // category = ?

  /** `column LIKE p`; a NULL column does not match. */
  predicate LikeColumn(v: Option<string>, p: string) {
    v.Some? && Like(v.value, p)
  }

  predicate Holds(c: Contact, q: Clause) {
    match q
    case OwnedBy(u) => c.userId == u
    case SearchLike(p) => Like(c.name, p) || LikeColumn(c.phone, p) || LikeColumn(c.email, p) || LikeColumn(c.notes, p)
    case CategoryIs(n) => c.category == Some(n)
  }

  predicate HoldsAll(c: Contact, where: seq<Clause>) {
    forall i :: 0 <= i < |where| ==> Holds(c, where[i])
  }

  /** `SELECT * FROM contacts WHERE <where>`, in table order. */
  function Select(rows: seq<Contact>, where: seq<Clause>): (r: seq<Contact>)
    ensures forall c :: c in r <==> c in rows && HoldsAll(c, where)
  {
    Filter(rows, (c: Contact) => HoldsAll(c, where))
  }

  /** The WHERE clause the listing and the count query each build from the
      stripped search text and category filter. */
  function ListingWhere(userId: int, search: string, categoryFilter: string): (w: seq<Clause>)
    ensures |w| >= 1 && w[0] == OwnedBy(userId)
    ensures SearchLike(SearchPattern(search)) in w <==> search != []
    ensures CategoryIs(categoryFilter) in w <==> categoryFilter != []
    ensures |w| == 1 + (if search != [] then 1 else 0) + (if categoryFilter != [] then 1 else 0)
  {
    [OwnedBy(userId)]
    + (if search != [] then [SearchLike(SearchPattern(search))] else [])
    + (if categoryFilter != [] then [CategoryIs(categoryFilter)] else [])
  }

  /** The search text occurs, case-insensitively, in the name, phone, e-mail
      or notes of the contact. */
  ghost predicate MentionedIn(c: Contact, search: string) {
    || ContainsIgnoringCase(c.name, search)
    || (c.phone.Some? && ContainsIgnoringCase(c.phone.value, search))
    || (c.email.Some? && ContainsIgnoringCase(c.email.value, search))
    || (c.notes.Some? && ContainsIgnoringCase(c.notes.value, search))
  }

  /** A row the listing shows: owned by the user, matching the search when
      there is one, in the filtered category when there is one. */
  predicate Listed(c: Contact, userId: int, search: string, categoryFilter: string) {
    && c.userId == userId
    && (search != [] ==> Holds(c, SearchLike(SearchPattern(search))))
    && (categoryFilter != [] ==> c.category == Some(categoryFilter))
  }

  /** The WHERE clause built by the listing means exactly `Listed`. */
  lemma ListingWhereMeaning(c: Contact, userId: int, search: string, categoryFilter: string)
    ensures HoldsAll(c, ListingWhere(userId, search, categoryFilter)) <==> Listed(c, userId, search, categoryFilter)
  {
    var w := ListingWhere(userId, search, categoryFilter);
    assert w[0] == OwnedBy(userId);
    if search != [] {
      assert w[1] == SearchLike(SearchPattern(search));
    }
    if categoryFilter != [] {
      assert w[|w| - 1] == CategoryIs(categoryFilter);
    }
  }

  /** One page of the listing is in name order, and each of its rows is a
      row of the table that the listing's WHERE clause accepts. */
  lemma ListingPageRows(rows: seq<Contact>, where: seq<Clause>, page: int)
    ensures var shown := Page(SortBy(Select(rows, where), ContactName), page);
      && SortedBy(shown, ContactName)
      && forall c :: c in shown ==> c in rows && HoldsAll(c, where)
  {
    var sorted := SortBy(Select(rows, where), ContactName);
    var shown := Page(sorted, page);
    var (offset, _) := GetPagination(page, PerPage);
    SortBySorted(Select(rows, where), ContactName);
    var d := if offset < 0 then 0 else if offset < |sorted| then offset else |sorted|;
    assert shown == sorted[d..d + |shown|];
    SortedRun(sorted, shown, ContactName, d);
    forall c | c in shown ensures c in rows && HoldsAll(c, where) {
      var k :| 0 <= k < |shown| && shown[k] == c;
      assert c in sorted;
      SortByMembers(Select(rows, where), ContactName, c);
    }
  }

  /** For a search text without `%` or `_`, the LIKE test is a case-insensitive
      substring test over the four searched columns. */
  lemma SearchMeaning(c: Contact, search: string)
    requires NoWildcards(search)
    ensures Holds(c, SearchLike(SearchPattern(search))) <==> MentionedIn(c, search)
  {
    SearchIsSubstring(c.name, search);
    if c.phone.Some? { SearchIsSubstring(c.phone.value, search); }
    if c.email.Some? { SearchIsSubstring(c.email.value, search); }
    if c.notes.Some? { SearchIsSubstring(c.notes.value, search); }
  }

  function ContactName(c: Contact): string {
    c.name
  }

  function CategoryName(c: Category): string {
    c.name
  }

  // ---------------------------------------------------------- categories

  /** The four categories every new account starts with. */
  const DefaultCategoryNames: seq<string> := ["General", "Family", "Work", "Friends"]

  /** The rows `register` inserts for a new user, with consecutive ids. */
  function DefaultCategories(userId: int, firstId: int): (r: seq<Category>)
    ensures |r| == 4
    ensures forall k :: 0 <= k < 4 ==>
              r[k].id == firstId + k && r[k].userId == userId && r[k].name == DefaultCategoryNames[k]
  {
    [Category(firstId, userId, "General", Some("#3B82F6")),
     Category(firstId + 1, userId, "Family", Some("#EF4444")),
     Category(firstId + 2, userId, "Work", Some("#10B981")),
     Category(firstId + 3, userId, "Friends", Some("#F59E0B"))]
  }

  /** `SELECT * FROM categories WHERE user_id = ?`, before ordering. */
  function OwnCategories(rows: seq<Category>, userId: int): (r: seq<Category>)
    ensures forall c :: c in r <==> c in rows && c.userId == userId
  {
    Filter(rows, (c: Category) => c.userId == userId)
  }

  /** The subquery `SELECT name FROM categories WHERE id = ? AND user_id = ?`. */
  function CategoryNameOf(rows: seq<Category>, id: int, userId: int): (r: Option<string>)
    ensures r.None? <==> forall k :: 0 <= k < |rows| ==> !(rows[k].id == id && rows[k].userId == userId)
    ensures r.Some? ==> exists c :: c in rows && c.id == id && c.userId == userId && c.name == r.value
  {
    match Find(rows, (c: Category) => c.id == id && c.userId == userId)
    case None => None
    case Some(c) => Some(c.name)
  }

  /** The user's contacts filed under the category called `name`: what the
      in-use count of `delete_category` counts. A NULL name matches nothing. */
  function UsingCategory(contacts: seq<Contact>, userId: int, name: Option<string>): (r: seq<Contact>)
    ensures forall c :: c in r <==> c in contacts && c.userId == userId && name.Some? && c.category == name
  {
    Filter(contacts, (c: Contact) => c.userId == userId && name.Some? && c.category == name)
  }

  /** `DELETE FROM categories WHERE id=? AND user_id=?`. */
  function RemoveOwnedCategory(rows: seq<Category>, id: int, userId: int): (r: seq<Category>)
    ensures forall c :: c in r <==> c in rows && !(c.id == id && c.userId == userId)
  {
    Filter(rows, (c: Category) => !(c.id == id && c.userId == userId))
  }

  /** A category delete removes nothing exactly when no row matches (id, owner). */
  lemma RemoveOwnedCategoryNoMatch(rows: seq<Category>, id: int, userId: int)
    ensures |RemoveOwnedCategory(rows, id, userId)| == |rows| <==> CategoryNameOf(rows, id, userId).None?
    ensures CategoryNameOf(rows, id, userId).None? ==> RemoveOwnedCategory(rows, id, userId) == rows
  {
    var p := (c: Category) => !(c.id == id && c.userId == userId);
    if |RemoveOwnedCategory(rows, id, userId)| == |rows| {
      FilterNoneDropped(rows, p);
      assert forall k :: 0 <= k < |rows| ==> p(rows[k]);
    }
    if CategoryNameOf(rows, id, userId).None? {
      assert forall c :: c in rows ==> p(c);
      FilterAll(rows, p);
    }
  }

  /** Category ids strictly increase in table order and stay below the next
      AUTOINCREMENT value. */
  ghost predicate CategoriesValid(rows: seq<Category>, nextId: int) {
    IdsBelow(rows, (c: Category) => c.id, nextId)
  }

  lemma RemoveOwnedCategoryValid(rows: seq<Category>, id: int, userId: int, nextId: int)
    requires CategoriesValid(rows, nextId)
    ensures CategoriesValid(RemoveOwnedCategory(rows, id, userId), nextId)
  {
    FilterIdsBelow(rows, (c: Category) => !(c.id == id && c.userId == userId), (c: Category) => c.id, nextId);
  }

  // --------------------------------------------------------------- export

  /** The columns the export query selects from a contact. */
  function ExportRowOf(c: Contact): (r: CsvExport.ExportRow)
    ensures r.name == c.name && r.phone == c.phone && r.email == c.email
    ensures r.address == c.address && r.notes == c.notes && r.category == c.category
  {
    CsvExport.ExportRow(c.name, c.phone, c.email, c.address, c.notes, c.category)
  }

  function ExportRows(rows: seq<Contact>): (r: seq<CsvExport.ExportRow>)
    ensures |r| == |rows|
    ensures forall k :: 0 <= k < |rows| ==> r[k] == ExportRowOf(rows[k])
  {
    seq(|rows|, k requires 0 <= k < |rows| => ExportRowOf(rows[k]))
  }

  /** The contacts the export writes: the user's own, in name order. */
  function ExportedContacts(contacts: seq<Contact>, userId: int): (r: seq<Contact>)
    ensures forall c :: c in r <==> c in contacts && c.userId == userId
  {
    var own := Filter(contacts, (c: Contact) => c.userId == userId);
    SortByMembersAll(own, ContactName);
    SortBy(own, ContactName)
  }

  /** The exported document has a header line and one line per contact of the
      user, provided no value holds a newline. */
  lemma ExportLineCount(contacts: seq<Contact>, userId: int)
    requires forall c :: c in contacts && c.userId == userId ==> CsvExport.FieldsFree(ExportRowOf(c), '\n')
    ensures CsvExport.Count(CsvExport.CsvDocument(ExportRows(ExportedContacts(contacts, userId))), '\n')
            == 1 + |Filter(contacts, (c: Contact) => c.userId == userId)|
  {
    var rows := ExportRows(ExportedContacts(contacts, userId));
    forall i | 0 <= i < |rows| ensures CsvExport.FieldsFree(rows[i], '\n') {
      assert ExportedContacts(contacts, userId)[i] in ExportedContacts(contacts, userId);
    }
    CsvExport.DocumentLines(rows);
  }
}
