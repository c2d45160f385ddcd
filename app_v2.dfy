/**
 * The request handlers of version 2 as methods of one application object
 * whose fields are the three tables, their AUTOINCREMENT counters and the
 * session. Each handler reports an `Outcome` where the source flashes a
 * message; every contact and category handler first requires a session.
 */
module AppV2 {
  import opened Wrappers
  import opened Text
  import opened Forms
  import opened Ordering
  import opened Pagination
  import opened Tables
  import opened Accounts
  import opened ContactsV2
  import CsvExport

  /** What the listing page is rendered with. */
  datatype IndexView = IndexView(
    contacts: seq<Contact>,
    categories: seq<Category>,
    search: string,
    categoryFilter: string,
    page: int,
    total: nat,
    totalPages: nat)

  const NoView: IndexView := IndexView([], [], "", "", 1, 0, 0)

  /** The colour a new category gets when the form carries none. */
  const DefaultColor: string := "#3B82F6"

  class App {
    var users: seq<User>
    var contacts: seq<Contact>
    var categories: seq<Category>
    var session: Option<Session>
    var nextUserId: int
    var nextContactId: int
    var nextCategoryId: int

    ghost predicate Valid()
      reads this
    {
      && UsersValid(users, nextUserId)
      && ContactsValid(contacts, nextContactId)
      && CategoriesValid(categories, nextCategoryId)
    }

    /** A fresh database (the default-category rows `init_db` seeds are not
        modelled) and an empty session. */
    constructor ()
      ensures Valid()
      ensures users == [] && contacts == [] && categories == [] && session == None
      ensures nextUserId == 1 && nextContactId == 1 && nextCategoryId == 1
    {
      users, contacts, categories := [], [], [];
      session := None;
      nextUserId, nextContactId, nextCategoryId := 1, 1, 1;
    }

    // -------------------------------------------------------------- auth

    /** `register`: the stripped username needs three characters, then the
        stripped password six; a taken username is refused; otherwise the
        user and its four default categories are inserted. */
    method Register(usernameField: string, passwordField: string, passwordHash: string)
      returns (outcome: Outcome)
      requires Valid()
      modifies this`users, this`nextUserId, this`categories, this`nextCategoryId
      ensures Valid()
      ensures var username, password := Strip(usernameField), Strip(passwordField);
        && (|username| < 3 ==> outcome == ShortUsername)
        && (|username| >= 3 && |password| < 6 ==> outcome == ShortPassword)
        && (|username| >= 3 && |password| >= 6 && FindUser(old(users), username).Some? ==> outcome == UsernameExists)
        && (outcome == Success <==> |username| >= 3 && |password| >= 6 && FindUser(old(users), username).None?)
        && (outcome == Success ==>
              && users == old(users) + [User(old(nextUserId), username, passwordHash)]
              && categories == old(categories) + DefaultCategories(old(nextUserId), old(nextCategoryId))
              && nextUserId == old(nextUserId) + 1 && nextCategoryId == old(nextCategoryId) + 4)
        && (outcome != Success ==>
              users == old(users) && categories == old(categories)
              && nextUserId == old(nextUserId) && nextCategoryId == old(nextCategoryId))
    {
      var username := Strip(usernameField);
      var password := Strip(passwordField);
      if |username| < 3 {
        return ShortUsername;
      }
      if |password| < 6 {
        return ShortPassword;
      }
      if FindUser(users, username).Some? {
        return UsernameExists;
      }
      var userId := nextUserId;
      users := users + [User(userId, username, passwordHash)];
      nextUserId := nextUserId + 1;
      categories := categories + DefaultCategories(userId, nextCategoryId);
      nextCategoryId := nextCategoryId + 4;
      outcome := Success;
    }

    /** `login`: on a known user whose password checks, the session names
        that user; otherwise the session is left as it was. */
    method Login(usernameField: string, passwordField: string, checkHash: (string, string) -> bool)
      returns (outcome: Outcome)
      modifies this`session
      ensures var s := LoginSession(users, Strip(usernameField), Strip(passwordField), checkHash);
        && (s.Some? ==> outcome == Success && session == s)
        && (s.None? ==> outcome == BadCredentials && session == old(session))
    {
      var s := LoginSession(users, Strip(usernameField), Strip(passwordField), checkHash);
      if s.Some? {
        session := s;
        outcome := Success;
      } else {
        outcome := BadCredentials;
      }
    }

    /** `logout`: the session is cleared unconditionally. */
    method Logout() returns (outcome: Outcome)
      modifies this`session
      ensures session == None && outcome == Success
    {
      session := None;
      outcome := Success;
    }

    // ----------------------------------------------------------- listing

    /** `index`: the user's contacts that match the search and category
        filter, in name order, one page of ten at a time, with the number of
        matching rows and of pages. The listing query and the count query
        are built separately, from the same clauses. */
    method Index(searchField: string, categoryField: string, page: int)
      returns (outcome: Outcome, view: IndexView)
      ensures session.None? ==> outcome == NotLoggedIn && view == NoView
      ensures session.Some? && !Bindable(GetPagination(page, PerPage).0) ==> outcome == ServerError && view == NoView
      ensures session.Some? && Bindable(GetPagination(page, PerPage).0) ==>
        var userId, search, categoryFilter := session.value.userId, Strip(searchField), Strip(categoryField);
        var matching := Select(contacts, ListingWhere(userId, search, categoryFilter));
        && outcome == Success
        && view.contacts == Page(SortBy(matching, ContactName), page)
        && view.total == |matching|
        && view.totalPages == TotalPages(|matching|, PerPage)
        && view.categories == SortBy(OwnCategories(categories, userId), CategoryName)
        && view.search == search && view.categoryFilter == categoryFilter && view.page == page
        && SortedBy(view.contacts, ContactName)
      ensures session.Some? && Bindable(GetPagination(page, PerPage).0) ==>
        forall c :: c in view.contacts ==>
          c in contacts && Listed(c, session.value.userId, Strip(searchField), Strip(categoryField))
    {
      if session.None? {
        return NotLoggedIn, NoView;
      }
      var userId := session.value.userId;
      var search := Strip(searchField);
      var categoryFilter := Strip(categoryField);
      var (offset, perPage) := GetPagination(page, PerPage);
      if !Bindable(offset) {
        return ServerError, NoView;
      }
      var ownCategories := SortBy(OwnCategories(categories, userId), CategoryName);

      var where := [OwnedBy(userId)];
      if search != [] {
        where := where + [SearchLike(SqlLike.SearchPattern(search))];
      }
      if categoryFilter != [] {
        where := where + [CategoryIs(categoryFilter)];
      }
      var rows := Window(SortBy(Select(contacts, where), ContactName), offset, perPage);

      var countWhere := [OwnedBy(userId)];
      if search != [] {
        countWhere := countWhere + [SearchLike(SqlLike.SearchPattern(search))];
      }
      if categoryFilter != [] {
        countWhere := countWhere + [CategoryIs(categoryFilter)];
      }
      var total := |Select(contacts, countWhere)|;
      var totalPages := TotalPages(total, perPage);

      assert where == countWhere == ListingWhere(userId, search, categoryFilter);
      ListingPageRows(contacts, where, page);
      forall c | c in rows ensures Listed(c, userId, search, categoryFilter) {
        ListingWhereMeaning(c, userId, search, categoryFilter);
      }
      outcome := Success;
      view := IndexView(rows, ownCategories, search, categoryFilter, page, total, totalPages);
    }

    // ---------------------------------------------------- contact writes

    /** `add`: validate name, phone and e-mail in that order; on success
        insert one row owned by the session user. */
    method Add(form: ContactForm) returns (outcome: Outcome)
      requires Valid()
      modifies this`contacts, this`nextContactId
      ensures Valid()
      ensures session.None? ==> outcome == NotLoggedIn
      ensures session.Some? ==> outcome == CheckFields(ReadForm(form))
      ensures outcome == Success ==>
        var row := NewContact(old(nextContactId), session.value.userId, ReadForm(form));
        && contacts == old(contacts) + [row]
        && nextContactId == old(nextContactId) + 1
        && FindOwned(contacts, row.id, row.userId) == Some(row)
      ensures outcome != Success ==> contacts == old(contacts) && nextContactId == old(nextContactId)
    {
      if session.None? {
        return NotLoggedIn;
      }
      var fields := ReadForm(form);
      outcome := CheckFields(fields);
      if outcome != Success {
        return;
      }
      AddReadBack(contacts, nextContactId, session.value.userId, fields);
      contacts := contacts + [NewContact(nextContactId, session.value.userId, fields)];
      nextContactId := nextContactId + 1;
    }

    /** `edit`: the row is looked up by id and session user; a missing or
        foreign row is "not found". Without a submitted form (a GET) the
        stored row is shown. A submitted form is validated like `add`; a
        failure shows the stored row again and writes nothing; otherwise the
        six columns of the matched row are updated. */
    method Edit(id: int, submitted: Option<ContactForm>) returns (outcome: Outcome, shown: Option<Contact>)
      requires Valid()
      modifies this`contacts
      ensures Valid()
      ensures session.None? ==> outcome == NotLoggedIn && shown == None && contacts == old(contacts)
      ensures session.Some? && !Bindable(id) ==> outcome == ServerError && shown == None && contacts == old(contacts)
      ensures session.Some? && Bindable(id) ==>
        var userId := session.value.userId;
        var found := FindOwned(old(contacts), id, userId);
        && (found.None? ==> outcome == NotFound && shown == None && contacts == old(contacts))
        && (found.Some? && submitted.None? ==> outcome == Success && shown == found && contacts == old(contacts))
        && (found.Some? && submitted.Some? && CheckFields(ReadForm(submitted.value)) != Success ==>
              outcome == CheckFields(ReadForm(submitted.value)) && shown == found && contacts == old(contacts))
        && (found.Some? && submitted.Some? && CheckFields(ReadForm(submitted.value)) == Success ==>
              && outcome == Success && shown == None
              && contacts == UpdateOwned(old(contacts), id, userId, ReadForm(submitted.value))
              && FindOwned(contacts, id, userId) == Some(NewContact(id, userId, ReadForm(submitted.value))))
    {
      if session.None? {
        return NotLoggedIn, None;
      }
      if !Bindable(id) {
        return ServerError, None;
      }
      var userId := session.value.userId;
      var found := FindOwned(contacts, id, userId);
      if found.None? {
        return NotFound, None;
      }
      if submitted.None? {
        return Success, found;
      }
      var fields := ReadForm(submitted.value);
      outcome := CheckFields(fields);
      if outcome != Success {
        return outcome, found;
      }
      UpdateOwnedValid(contacts, id, userId, fields, nextContactId);
      UpdateOwnedReadBack(contacts, id, userId, fields);
      contacts := UpdateOwned(contacts, id, userId, fields);
      shown := None;
    }

    /** `delete`: remove the row matching id and session user; when no row
        matched, report "not found" (the table is then unchanged). */
    method Delete(id: int) returns (outcome: Outcome)
      requires Valid()
      modifies this`contacts
      ensures Valid()
      ensures session.None? ==> outcome == NotLoggedIn && contacts == old(contacts)
      ensures session.Some? && !Bindable(id) ==> outcome == ServerError && contacts == old(contacts)
      ensures session.Some? && Bindable(id) ==>
        var userId := session.value.userId;
        && contacts == RemoveOwned(old(contacts), id, userId)
        && (outcome == NotFound <==> FindOwned(old(contacts), id, userId).None?)
        && (outcome == NotFound ==> contacts == old(contacts))
        && (outcome != NotFound ==> outcome == Success && |contacts| == |old(contacts)| - 1)
        && FindOwned(contacts, id, userId).None?
    {
      if session.None? {
        return NotLoggedIn;
      }
      if !Bindable(id) {
        return ServerError;
      }
      var userId := session.value.userId;
      var remaining := RemoveOwned(contacts, id, userId);
      RemoveOwnedNoMatch(contacts, id, userId);
      RemoveOwnedAtMostOne(contacts, id, userId, nextContactId);
      RemoveOwnedValid(contacts, id, userId, nextContactId);
      RemoveOwnedGone(contacts, id, userId);
      var rowcount := |contacts| - |remaining|;
      contacts := remaining;
      if rowcount == 0 {
        outcome := NotFound;
      } else {
        outcome := Success;
      }
    }

    // -------------------------------------------------------- categories

    /** `categories`: the user's categories in name order. */
    method Categories() returns (outcome: Outcome, shown: seq<Category>)
      ensures session.None? ==> outcome == NotLoggedIn && shown == []
      ensures session.Some? ==>
        && outcome == Success
        && shown == SortBy(OwnCategories(categories, session.value.userId), CategoryName)
        && forall c :: c in shown <==> c in categories && c.userId == session.value.userId
    {
      if session.None? {
        return NotLoggedIn, [];
      }
      var own := OwnCategories(categories, session.value.userId);
      shown := SortBy(own, CategoryName);
      forall c ensures c in shown <==> c in own {
        SortByMembers(own, CategoryName, c);
      }
      outcome := Success;
    }

    /** `add_category`: a blank name is refused; any other name is inserted,
        even one the user already has, because the table has no UNIQUE
        constraint that could reject it. */
    method AddCategory(nameField: Option<string>, colorField: Option<string>) returns (outcome: Outcome)
      requires Valid()
      modifies this`categories, this`nextCategoryId
      ensures Valid()
      ensures session.None? ==> outcome == NotLoggedIn && categories == old(categories)
                                && nextCategoryId == old(nextCategoryId)
      ensures session.Some? ==>
        var name := FormValue(nameField, "");
        && (name == [] ==> outcome == NameRequired && categories == old(categories)
                           && nextCategoryId == old(nextCategoryId))
        && (name != [] ==>
              && outcome == Success
              && categories == old(categories) + [Category(old(nextCategoryId), session.value.userId, name,
                                                           Some(FormValue(colorField, DefaultColor)))]
              && nextCategoryId == old(nextCategoryId) + 1)
    {
      if session.None? {
        return NotLoggedIn;
      }
      var name := FormValue(nameField, "");
      var color := FormValue(colorField, DefaultColor);
      if name == [] {
        return NameRequired;
      }
      categories := categories + [Category(nextCategoryId, session.value.userId, name, Some(color))];
      nextCategoryId := nextCategoryId + 1;
      outcome := Success;
    }

    /** `delete_category`, with its guards in source order: a category some
        contact of the user is filed under is "in use"; else a category named
        like one of the four defaults is kept; else the row matching id and
        user is deleted, and "not found" is reported when there is none. */
    method DeleteCategory(id: int) returns (outcome: Outcome)
      requires Valid()
      modifies this`categories
      ensures Valid()
      ensures session.None? ==> outcome == NotLoggedIn && categories == old(categories)
      ensures session.Some? && !Bindable(id) ==> outcome == ServerError && categories == old(categories)
      ensures session.Some? && Bindable(id) ==>
        var userId := session.value.userId;
        var name := CategoryNameOf(old(categories), id, userId);
        var inUse := |UsingCategory(contacts, userId, name)|;
        && (inUse > 0 ==> outcome == InUse && categories == old(categories))
        && (inUse == 0 && name.Some? && name.value in DefaultCategoryNames ==>
              outcome == IsDefault && categories == old(categories))
        && (inUse == 0 && name.None? ==> outcome == NotFound && categories == old(categories))
        && (inUse == 0 && name.Some? && name.value !in DefaultCategoryNames ==>
              && outcome == Success
              && categories == RemoveOwnedCategory(old(categories), id, userId)
              && |categories| < |old(categories)|)
    {
      if session.None? {
        return NotLoggedIn;
      }
      if !Bindable(id) {
        return ServerError;
      }
      var userId := session.value.userId;
      var inUse := |UsingCategory(contacts, userId, CategoryNameOf(categories, id, userId))|;
      if inUse > 0 {
        return InUse;
      }
      var name := CategoryNameOf(categories, id, userId);
      if name.Some? && name.value in DefaultCategoryNames {
        return IsDefault;
      }
      var remaining := RemoveOwnedCategory(categories, id, userId);
      RemoveOwnedCategoryNoMatch(categories, id, userId);
      RemoveOwnedCategoryValid(categories, id, userId, nextCategoryId);
      var rowcount := |categories| - |remaining|;
      categories := remaining;
      if rowcount == 0 {
        outcome := NotFound;
      } else {
        outcome := Success;
      }
    }

    // ------------------------------------------------------------ export

    /** `export_contacts`: the CSV document of the user's contacts in name
        order. */
    method Export() returns (outcome: Outcome, csv: string)
      ensures session.None? ==> outcome == NotLoggedIn && csv == []
      ensures session.Some? ==>
        && outcome == Success
        && csv == CsvExport.CsvDocument(ExportRows(ExportedContacts(contacts, session.value.userId)))
    {
      if session.None? {
        return NotLoggedIn, [];
      }
      var rows := ExportedContacts(contacts, session.value.userId);
      csv := CsvExport.BuildCsv(ExportRows(rows));
      outcome := Success;
    }
  }
}
