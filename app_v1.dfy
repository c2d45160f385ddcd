/**
 * The request handlers of version 1 as methods of one application object.
 * The contact handlers require a session but never consult whose it is:
 * every signed-in user lists, edits and deletes the same rows.
 */
module AppV1 {
  import opened Wrappers
  import opened Text
  import opened Ordering
  import opened Tables
  import opened Accounts
  import opened ContactsV1

  /** What the listing page is rendered with. */
  datatype IndexView = IndexView(contacts: seq<Contact>, search: string)

  class App {
    var users: seq<User>
    var contacts: seq<Contact>
    var session: Option<Session>
    var nextUserId: int
    var nextContactId: int

    ghost predicate Valid()
      reads this
    {
      UsersValid(users, nextUserId) && ContactsValid(contacts, nextContactId)
    }

    /** A fresh database and an empty session. */
    constructor ()
      ensures Valid()
      ensures users == [] && contacts == [] && session == None
      ensures nextUserId == 1 && nextContactId == 1
    {
      users, contacts := [], [];
      session := None;
      nextUserId, nextContactId := 1, 1;
    }

    // -------------------------------------------------------------- auth

    /** `register`: one combined length check on the stripped username and
        password; a taken username is refused by the UNIQUE constraint;
        otherwise the user is inserted. */
    method Register(usernameField: string, passwordField: string, passwordHash: string)
      returns (outcome: Outcome)
      requires Valid()
      modifies this`users, this`nextUserId
      ensures Valid()
      ensures var username, password := Strip(usernameField), Strip(passwordField);
        && (|username| < 3 || |password| < 6 ==> outcome == ShortCredentials)
        && (outcome == UsernameExists <==>
              |username| >= 3 && |password| >= 6 && FindUser(old(users), username).Some?)
        && (outcome == Success <==> |username| >= 3 && |password| >= 6 && FindUser(old(users), username).None?)
        && (outcome == Success ==>
              users == old(users) + [User(old(nextUserId), username, passwordHash)]
              && nextUserId == old(nextUserId) + 1)
        && (outcome != Success ==> users == old(users) && nextUserId == old(nextUserId))
    {
      var username := Strip(usernameField);
      var password := Strip(passwordField);
      if |username| < 3 || |password| < 6 {
        return ShortCredentials;
      }
      if FindUser(users, username).Some? {
        return UsernameExists;
      }
      users := users + [User(nextUserId, username, passwordHash)];
      nextUserId := nextUserId + 1;
      outcome := Success;
    }

    /** `login`: on a known user whose password checks, the session names
        that user; otherwise the session is left as it was. */
    method Login(usernameField: string, passwordField: string, checkHash: (string, string) -> bool)
      returns (outcome: Outcome)
      modifies this`session
      ensures var s := LoginSession(users, Strip(usernameField), Strip(passwordField), checkHash);
        && (s.Some? ==> outcome == Success && session == s)
        && (s.None? ==> outcome == BadCredentials && session == old(session))
    {
      var s := LoginSession(users, Strip(usernameField), Strip(passwordField), checkHash);
      if s.Some? {
        session := s;
        outcome := Success;
      } else {
        outcome := BadCredentials;
      }
    }

    /** `logout`: the session is cleared. */
    method Logout() returns (outcome: Outcome)
      modifies this`session
      ensures session == None && outcome == Success
    {
      session := None;
      outcome := Success;
    }

    // ----------------------------------------------------------- listing

    /** `index`: every contact when the search text is empty, otherwise the
        ones whose name, phone or notes match it, in name order and without
        paging. The result does not depend on who is signed in. */
    method Index(searchField: string) returns (outcome: Outcome, view: IndexView)
      ensures session.None? ==> outcome == NotLoggedIn && view == IndexView([], "")
      ensures session.Some? ==>
        && outcome == Success
        && view == IndexView(SortBy(Matching(contacts, Strip(searchField)), ContactName), Strip(searchField))
        && SortedBy(view.contacts, ContactName)
        && (forall c :: c in view.contacts <==>
              c in contacts && (view.search != [] ==> SearchHolds(c, SqlLike.SearchPattern(view.search))))
    {
      if session.None? {
        return NotLoggedIn, IndexView([], "");
      }
      var search := Strip(searchField);
      var rows;
      if search != [] {
        rows := Matching(contacts, search);
      } else {
        rows := contacts;
      }
      var sorted := SortBy(rows, ContactName);
      SortBySorted(rows, ContactName);
      forall c ensures c in sorted <==> c in rows {
        SortByMembers(rows, ContactName, c);
      }
      outcome := Success;
      view := IndexView(sorted, search);
    }

    // ---------------------------------------------------- contact writes

    /** `add`: validate name, then phone; on success insert one row. */
    method Add(form: ContactForm) returns (outcome: Outcome)
      requires Valid()
      modifies this`contacts, this`nextContactId
      ensures Valid()
      ensures session.None? ==> outcome == NotLoggedIn
      ensures session.Some? ==> outcome == CheckFields(ReadForm(form))
      ensures outcome == Success ==>
        && contacts == old(contacts) + [NewContact(old(nextContactId), ReadForm(form))]
        && nextContactId == old(nextContactId) + 1
        && FindById(contacts, old(nextContactId)) == Some(NewContact(old(nextContactId), ReadForm(form)))
      ensures outcome != Success ==> contacts == old(contacts) && nextContactId == old(nextContactId)
    {
      if session.None? {
        return NotLoggedIn;
      }
      var fields := ReadForm(form);
      outcome := CheckFields(fields);
      if outcome != Success {
        return;
      }
      AddReadBack(contacts, nextContactId, fields);
      contacts := contacts + [NewContact(nextContactId, fields)];
      nextContactId := nextContactId + 1;
    }

    /** `edit`: the row is looked up by id alone. Without a submitted form the
        stored row is shown; a submitted form is validated like `add`, a
        failure shows the stored row again and writes nothing, and otherwise
        the row with that id is updated. */
    method Edit(id: int, submitted: Option<ContactForm>) returns (outcome: Outcome, shown: Option<Contact>)
      requires Valid()
      modifies this`contacts
      ensures Valid()
      ensures session.None? ==> outcome == NotLoggedIn && shown == None && contacts == old(contacts)
      ensures session.Some? && !Bindable(id) ==> outcome == ServerError && shown == None && contacts == old(contacts)
      ensures session.Some? && Bindable(id) ==>
        var found := FindById(old(contacts), id);
        && (found.None? ==> outcome == NotFound && shown == None && contacts == old(contacts))
        && (found.Some? && submitted.None? ==> outcome == Success && shown == found && contacts == old(contacts))
        && (found.Some? && submitted.Some? && CheckFields(ReadForm(submitted.value)) != Success ==>
              outcome == CheckFields(ReadForm(submitted.value)) && shown == found && contacts == old(contacts))
        && (found.Some? && submitted.Some? && CheckFields(ReadForm(submitted.value)) == Success ==>
              && outcome == Success && shown == None
              && contacts == UpdateById(old(contacts), id, ReadForm(submitted.value))
              && FindById(contacts, id) == Some(NewContact(id, ReadForm(submitted.value))))
    {
      if session.None? {
        return NotLoggedIn, None;
      }
      if !Bindable(id) {
        return ServerError, None;
      }
      var found := FindById(contacts, id);
      if found.None? {
        return NotFound, None;
      }
      if submitted.None? {
        return Success, found;
      }
      var fields := ReadForm(submitted.value);
      outcome := CheckFields(fields);
      if outcome != Success {
        return outcome, found;
      }
      UpdateByIdValid(contacts, id, fields, nextContactId);
      UpdateByIdReadBack(contacts, id, fields);
      contacts := UpdateById(contacts, id, fields);
      shown := None;
    }

    /** `delete`: remove the row with that id and report success, whether or
        not such a row existed. */
    method Delete(id: int) returns (outcome: Outcome)
      requires Valid()
      modifies this`contacts
      ensures Valid()
      ensures session.None? ==> outcome == NotLoggedIn && contacts == old(contacts)
      ensures session.Some? && !Bindable(id) ==> outcome == ServerError && contacts == old(contacts)
      ensures session.Some? && Bindable(id) ==>
        && outcome == Success
        && contacts == RemoveById(old(contacts), id)
        && FindById(contacts, id).None?
        && (FindById(old(contacts), id).None? ==> contacts == old(contacts))
    {
      if session.None? {
        return NotLoggedIn;
      }
      if !Bindable(id) {
        return ServerError;
      }
      RemoveByIdEffect(contacts, id);
      RemoveByIdValid(contacts, id, nextContactId);
      contacts := RemoveById(contacts, id);
      outcome := Success;
    }
  }
}
