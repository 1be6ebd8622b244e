/** The admin panel: a case-insensitive search over the public user list and
    the guarded actions an administrator triggers from it (flip a role, grant
    spins, delete an account), each delegated to the account store. */
module Admin {
  import opened Util
  import opened Text
  import opened Auth

  /** The user matches the lower-case query `q`: it occurs in the lower-cased
      username, e-mail, provider (when there is a non-empty one) or role. */
  function Matches(u: PublicUser, q: string): (r: bool)
    ensures q == [] ==> r
    ensures q == Lower(u.username) || q == Lower(u.email) || q == Lower(u.role) ==> r
  {
    assert OccursAt(Lower(u.username), [], 0) && OccursAt(Lower(u.username), Lower(u.username), 0);
    assert OccursAt(Lower(u.email), Lower(u.email), 0) && OccursAt(Lower(u.role), Lower(u.role), 0);
    || Includes(Lower(u.username), q)
    || Includes(Lower(u.email), q)
    || (u.provider.Some? && u.provider.value != "" && Includes(Lower(u.provider.value), q))
    || Includes(Lower(u.role), q)
  }

  /** `users.filter(u => matches)`: the matching users, in list order. */
  function FilterMatching(users: seq<PublicUser>, q: string): (r: seq<PublicUser>)
    ensures |r| <= |users|
    ensures IsSubsequence(r, users)
    ensures forall u :: u in r <==> u in users && Matches(u, q)
    ensures forall u :: multiset(r)[u] == if Matches(u, q) then multiset(users)[u] else 0
  {
    if users == [] then []
    else
      var rest := FilterMatching(users[1..], q);
      assert forall u :: u in users <==> u == users[0] || u in users[1..];
      MultisetOfCons(users);
      if Matches(users[0], q) then MultisetOfCons([users[0]] + rest); [users[0]] + rest else rest
  }

  /** Every user of the list is kept by a query that all of them match. */
  lemma {:induction false} FilterKeepsAllMatching(users: seq<PublicUser>, q: string)
    requires forall k :: 0 <= k < |users| ==> Matches(users[k], q)
    ensures FilterMatching(users, q) == users
  {
    if users != [] {
      FilterKeepsAllMatching(users[1..], q);
    }
  }

  /** `getFilteredUsers` on the list it reads: everything for an empty search,
      otherwise the users matching the lower-cased search. */
  function FilterUsers(users: seq<PublicUser>, search: string): (r: seq<PublicUser>)
    ensures search == "" ==> r == users
    ensures IsSubsequence(r, users)
    ensures search != "" ==> forall u :: u in r <==> u in users && Matches(u, Lower(search))
    ensures search != "" ==>
      forall u :: multiset(r)[u] == if Matches(u, Lower(search)) then multiset(users)[u] else 0
  {
    if search == "" then SubsequenceOfItself(users); users else FilterMatching(users, Lower(search))
  }

  lemma {:induction false} SubsequenceOfItself(s: seq<PublicUser>)
    ensures IsSubsequence(s, s)
  {
    if s != [] {
      SubsequenceOfItself(s[1..]);
    }
  }

  /** The public list is searched by name exactly as the roster is. */
  lemma {:induction false} PublicIndexOfName(users: seq<UserRecord>, name: string)
    ensures FirstIndex(PublicUsers(users), (u: PublicUser) => u.username == name) == IndexOfName(users, name)
  {
    if users != [] {
      PublicIndexOfName(users[1..], name);
      assert PublicUsers(users)[1..] == PublicUsers(users[1..]);
    }
  }

  /** What the spin-count field holds: `input?.value || '1'`. */
  function SpinInput(input: Option<string>): (r: string)
    ensures r != ""
    ensures input.Some? && input.value != "" ==> r == input.value
  {
    if input.None? || input.value == "" then "1" else input.value
  }

  /** A missing or empty field grants one spin. */
  lemma EmptyFieldGrantsOne()
    ensures ParseInt(SpinInput(None)) == Some(1)
    ensures ParseInt(SpinInput(Some(""))) == Some(1)
  {
    ParseIntOfNatToString(1);
    assert NatToString(1) == "1";
  }

  /** The digits of a positive count typed into the field are granted as
      typed below 10^21; from 10^21 on the store re-reads only the leading digit. */
  lemma TypedCountGrant(n: nat)
    requires n > 0
    ensures ParseInt(SpinInput(Some(NatToString(n)))) == Some(n)
    ensures n < EXPONENT_FROM ==> Reparsed(n) == n
    ensures n >= EXPONENT_FROM ==> Reparsed(n) == LeadingDigit(n)
  {
    ParseIntOfNatToString(n);
  }

  class AdminPanel {
    /** The text of the search box. */
    var currentSearch: string
    const auth: Store

    constructor (store: Store)
      ensures auth == store && currentSearch == ""
    {
      auth := store;
      currentSearch := "";
    }

    /** `getFilteredUsers`: the whole public list for an empty search box,
        otherwise each user the lower-cased search matches, as often as listed. */
    function FilteredUsers(): (r: seq<PublicUser>)
      reads this, auth
      ensures currentSearch == "" ==> r == auth.GetAllUsers()
      ensures IsSubsequence(r, auth.GetAllUsers())
      ensures currentSearch != "" ==>
        forall u :: multiset(r)[u] == if Matches(u, Lower(currentSearch)) then multiset(auth.GetAllUsers())[u] else 0
    {
      FilterUsers(auth.GetAllUsers(), currentSearch)
    }

    /** The search box's input handler. */
    method OnSearchInput(value: string)
      modifies this
      ensures currentSearch == value
    {
      currentSearch := value;
    }

    /** `open`: only for an admin session, and it clears the search. */
    method Open() returns (shown: bool)
      modifies this
      ensures shown == auth.IsAdmin()
      ensures currentSearch == (if shown then "" else old(currentSearch))
    {
      if !auth.IsAdmin() {
        return false;
      }
      currentSearch := "";
      shown := true;
    }

    /** `toggleRole`: for an admin session and a listed user, ask the store for
        the other role (user for an admin, admin for anyone else). */
    method ToggleRole(username: string) returns (requested: Option<string>)
      modifies auth
      ensures !old(auth.IsAdmin()) ==> requested.None? && unchanged(auth)
      ensures old(auth.IsAdmin()) ==>
        match IndexOfName(old(auth.users), username)
        case None => requested.None? && unchanged(auth)
        case Some(i) =>
          && requested == Some(if old(auth.users)[i].role == ADMIN_ROLE then USER_ROLE else ADMIN_ROLE)
          && auth.session == old(auth.session)
          && auth.users == (if username == ROOT_USERNAME && requested.value != ADMIN_ROLE then old(auth.users)
                            else old(auth.users)[i := WithRole(old(auth.users)[i], requested.value)])
      ensures old(RosterInvariant(auth.users)) ==> RosterInvariant(auth.users)
    {
      if !auth.IsAdmin() {
        return None;
      }
      var listed := auth.GetAllUsers();
      PublicIndexOfName(auth.users, username);
      var found := FirstIndex(listed, (u: PublicUser) => u.username == username);
      if found.None? {
        return None;
      }
      var newRole := if listed[found.value].role == ADMIN_ROLE then USER_ROLE else ADMIN_ROLE;
      var _ := auth.SetUserRole(username, newRole);
      requested := Some(newRole);
    }

    /** `addSpins`: for an admin session, parse the field (empty means 1) and
        hand a positive count to the store; anything else is ignored. */
    method AddSpins(username: string, input: Option<string>) returns (called: bool)
      modifies auth
      ensures called <==> old(auth.IsAdmin()) && ParseInt(SpinInput(input)).Some?
                          && ParseInt(SpinInput(input)).value > 0
      ensures !called ==> unchanged(auth)
      ensures called ==>
        && auth.session == old(auth.session)
        && auth.users == match IndexOfName(old(auth.users), username)
                         case None => old(auth.users)
                         case Some(i) =>
                           old(auth.users)[i := old(auth.users)[i].(spins := old(auth.users)[i].spins + Reparsed(ParseInt(SpinInput(input)).value))]
      ensures old(RosterInvariant(auth.users)) ==> RosterInvariant(auth.users)
    {
      if !auth.IsAdmin() {
        return false;
      }
      var count := ParseInt(SpinInput(input));
      if count.None? || count.value <= 0 {
        return false;
      }
      var _ := auth.AddSpinsToUser(username, count);
      called := true;
    }

    /** `confirmDelete` and the dialog's answer: for an admin session, a
        confirmed deletion is handed to the store; a cancelled one changes nothing. */
    method ConfirmDelete(username: string, confirmed: bool) returns (deleted: bool)
      modifies auth
      ensures !(old(auth.IsAdmin()) && confirmed) ==> !deleted && unchanged(auth)
      ensures old(auth.IsAdmin()) && confirmed ==>
        if username == ROOT_USERNAME || IndexOfName(old(auth.users), username).None? then
          !deleted && unchanged(auth)
        else
          var i := IndexOfName(old(auth.users), username).value;
          && deleted && auth.users == old(auth.users)[..i] + old(auth.users)[i + 1..]
          && auth.session == (if old(auth.session).value.username == username then None else old(auth.session))
      ensures old(RosterInvariant(auth.users)) ==> RosterInvariant(auth.users)
    {
      if !auth.IsAdmin() || !confirmed {
        return false;
      }
      deleted := auth.DeleteUser(username);
    }
  }
}
