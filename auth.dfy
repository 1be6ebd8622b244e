/** The `Auth` module of the lucky-wheel game: a roster of user records and an
    optional session, both kept in the browser's key/value store, with
    registration, password and social login, spin accounting, role changes,
    spin grants, a bounded prize history and account deletion. */
module Auth {
  import opened Util
  import opened Text

  /** The number that stands for "unlimited spins". */
  const UNLIMITED := 999999
  /** The root administrator's username, which can be neither demoted nor deleted. */
  const ROOT_USERNAME := "admin"
  /** A social login with this e-mail address is always given the admin role. */
  const ROOT_ADMIN_EMAIL := "phucml456@gmail.com"
  const ADMIN_ROLE := "admin"
  const USER_ROLE := "user"
  /** A user's history keeps at most this many prizes. */
  const MAX_HISTORY := 20

  datatype SpinRecord = SpinRecord(prize: string, time: string)

  /** One element of the stored roster. `password` is None for the social
      accounts (stored as null); `savedSpins` is the `_savedSpins` snapshot
      taken on promotion; an absent `history` is the empty sequence. */
  datatype UserRecord = UserRecord(
    username: string,
    email: string,
    password: Option<string>,
    role: string,
    spins: int,
    savedSpins: Option<int>,
    provider: Option<string>,
    displayName: Option<string>,
    history: seq<SpinRecord>,
    createdAt: string)

  /** The stored session: a projection of the record of the user logged in. */
  datatype Session = Session(username: string, email: string, role: string, spins: int)

  /** A record as `getAllUsers` hands it to the admin panel: no password, no history. */
  datatype PublicUser = PublicUser(
    username: string, email: string, role: string, spins: int,
    provider: Option<string>, createdAt: string)

  /** The failures the operations report (each with its own message in the game). */
  datatype AuthError =
    | MissingFields
    | UsernameTooShort
    | PasswordTooShort
    | UsernameTaken
    | EmailTaken
    | MissingCredentials
    | InvalidCredentials
    | SocialOnlyAccount(provider: string)
    | MissingEmail
    | DisplayNameTooShort
    | EmailUsedByPasswordAccount

  /** `{success: true, user, returning?}` or `{success: false, message}`;
      `returning` is present only in the answer of a social login. */
  datatype AuthResult =
    | Success(user: UserRecord, returning: Option<bool>)
    | Failure(error: AuthError)

  /** `u.provider` is truthy: the record belongs to a social account. */
  predicate HasProvider(u: UserRecord) {
    u.provider.Some? && u.provider.value != ""
  }

  /** The fields `setSession` copies out of a record. */
  function Project(u: UserRecord): Session {
    Session(u.username, u.email, u.role, u.spins)
  }

  function PublicView(u: UserRecord): PublicUser {
    PublicUser(u.username, u.email, u.role, u.spins,
               if HasProvider(u) then u.provider else None, u.createdAt)
  }

  /** `getAllUsers`: every record, in roster order, stripped to its public fields. */
  function PublicUsers(users: seq<UserRecord>): (r: seq<PublicUser>)
    ensures |r| == |users|
    ensures forall i :: 0 <= i < |users| ==>
      && r[i].username == users[i].username && r[i].email == users[i].email
      && r[i].role == users[i].role && r[i].spins == users[i].spins
      && r[i].createdAt == users[i].createdAt
      && r[i].provider == (if HasProvider(users[i]) then users[i].provider else None)
  {
    if users == [] then [] else [PublicView(users[0])] + PublicUsers(users[1..])
  }

  // ---- Lookups ----

  /** `users.findIndex(u => u.username === name)` (exact comparison). */
  function IndexOfName(users: seq<UserRecord>, name: string): Option<nat> {
    FirstIndex(users, (u: UserRecord) => u.username == name)
  }

  /** The first record whose username equals `name` ignoring case (the login lookup). */
  function IndexOfNameIgnoringCase(users: seq<UserRecord>, name: string): Option<nat> {
    FirstIndex(users, (u: UserRecord) => Lower(u.username) == Lower(name))
  }

  /** The first record of the social account (`provider`, `email`); `email` is already lower case. */
  function IndexOfSocial(users: seq<UserRecord>, provider: string, email: string): Option<nat> {
    FirstIndex(users, (u: UserRecord) => u.provider == Some(provider) && Lower(u.email) == email)
  }

  /** Some record's username equals `name` ignoring case. */
  predicate NameTaken(users: seq<UserRecord>, name: string) {
    exists i :: 0 <= i < |users| && Lower(users[i].username) == Lower(name)
  }

  /** Some record's e-mail equals `email` ignoring case. */
  predicate EmailInUse(users: seq<UserRecord>, email: string) {
    exists i :: 0 <= i < |users| && Lower(users[i].email) == Lower(email)
  }

  /** A password account (one without a provider) uses the lower-case `email`. */
  predicate EmailOfPasswordAccount(users: seq<UserRecord>, email: string) {
    exists i :: 0 <= i < |users| && Lower(users[i].email) == email && !HasProvider(users[i])
  }

  /** Some record with a password has `email` ignoring case. */
  predicate PasswordEmailInUse(users: seq<UserRecord>, email: string) {
    exists i :: 0 <= i < |users| && users[i].password.Some? && Lower(users[i].email) == Lower(email)
  }

  /** A record appended under a free name is the one a later login with that
      name (typed again, white space and all) finds. */
  lemma RegisteredAccountFound(users: seq<UserRecord>, u: UserRecord, typed: string)
    requires u.username == Trim(typed) && !NameTaken(users, u.username)
    ensures IndexOfNameIgnoringCase(users + [u], Trim(typed)) == Some(|users|)
  {
    var name := Trim(typed);
    assert forall j :: 0 <= j < |users| ==> Lower(users[j].username) != Lower(name);
    FirstIndexOfAppended(users, u, (v: UserRecord) => Lower(v.username) == Lower(name));
  }

  /** A social account appended when none existed for (`provider`, `mail`) is
      the one the next social login with that pair finds. */
  lemma SocialAccountFoundAgain(users: seq<UserRecord>, u: UserRecord, provider: string, mail: string)
    requires IndexOfSocial(users, provider, mail).None?
    requires u.provider == Some(provider) && u.email == mail && mail == Lower(mail)
    ensures IndexOfSocial(users + [u], provider, mail) == Some(|users|)
  {
    FirstIndexOfAppended(users, u, (v: UserRecord) => v.provider == Some(provider) && Lower(v.email) == mail);
  }

  // ---- Roster invariant ----

  /** No two records have usernames that differ only in case. */
  ghost predicate UniqueNames(users: seq<UserRecord>) {
    forall i, j :: 0 <= i < j < |users| ==> Lower(users[i].username) != Lower(users[j].username)
  }

  /** No record with a password shares its e-mail, ignoring case, with any
      other record: registration refuses an e-mail in use, and a social login
      refuses the e-mail of a password account. */
  ghost predicate PasswordEmailsUnique(users: seq<UserRecord>) {
    forall i, j :: 0 <= i < |users| && 0 <= j < |users| && i != j && users[i].password.Some?
      ==> Lower(users[i].email) != Lower(users[j].email)
  }

  /** No two records of one provider share an e-mail ignoring case: a second
      social login with the same pair finds the first record. */
  ghost predicate SocialKeysUnique(users: seq<UserRecord>) {
    forall i, j :: 0 <= i < j < |users| && users[i].provider.Some? && users[i].provider == users[j].provider
      ==> Lower(users[i].email) != Lower(users[j].email)
  }

  /** What every record satisfies at rest: a balance and a snapshot that are
      never negative, a history of at most MAX_HISTORY entries, and no
      provider on a record that has a password. */
  ghost predicate WellFormed(u: UserRecord) {
    && u.spins >= 0 && (u.savedSpins.Some? ==> u.savedSpins.value >= 0) && |u.history| <= MAX_HISTORY
    && (u.password.Some? ==> !HasProvider(u))
  }

  ghost predicate RosterInvariant(users: seq<UserRecord>) {
    && UniqueNames(users) && PasswordEmailsUnique(users) && SocialKeysUnique(users)
    && forall i :: 0 <= i < |users| ==> WellFormed(users[i])
  }

  /** Replacing one record by one with the same username, e-mail, password and
      provider keeps the invariant. */
  lemma ReplacePreservesInvariant(users: seq<UserRecord>, i: nat, u: UserRecord)
    requires RosterInvariant(users) && i < |users|
    requires u.username == users[i].username && u.email == users[i].email
    requires u.password == users[i].password && u.provider == users[i].provider
    requires WellFormed(u)
    ensures RosterInvariant(users[i := u])
  {
    var next := users[i := u];
    assert forall a :: 0 <= a < |next| ==>
      && next[a].username == users[a].username && next[a].email == users[a].email
      && next[a].password == users[a].password && next[a].provider == users[a].provider;
  }

  /** Appending a record keeps the invariant when its name is free, a password
      record's e-mail is in no record, no password record has its e-mail, and
      no record of its provider has its e-mail. */
  lemma AppendPreservesInvariant(users: seq<UserRecord>, u: UserRecord)
    requires RosterInvariant(users) && !NameTaken(users, u.username) && WellFormed(u)
    requires u.password.Some? ==> !EmailInUse(users, u.email)
    requires !PasswordEmailInUse(users, u.email)
    requires u.provider.Some? ==> IndexOfSocial(users, u.provider.value, Lower(u.email)).None?
    ensures RosterInvariant(users + [u])
  {
    var next := users + [u];
    forall a, b | 0 <= a < b < |next| ensures Lower(next[a].username) != Lower(next[b].username) {
      if b == |users| {
        assert Lower(users[a].username) != Lower(u.username);
      }
    }
    forall a, b | 0 <= a < |next| && 0 <= b < |next| && a != b && next[a].password.Some?
      ensures Lower(next[a].email) != Lower(next[b].email)
    {
      if a == |users| {
        assert Lower(users[b].email) != Lower(u.email);
      } else if b == |users| {
        assert !(users[a].password.Some? && Lower(users[a].email) == Lower(u.email));
      }
    }
    forall a, b | 0 <= a < b < |next| && next[a].provider.Some? && next[a].provider == next[b].provider
      ensures Lower(next[a].email) != Lower(next[b].email)
    {
      if b == |users| {
        var key := Lower(u.email);
        LowerIdempotent(u.email);
        assert !(users[a].provider == Some(u.provider.value) && Lower(users[a].email) == key);
      }
    }
  }

  /** Removing one record keeps the invariant. */
  lemma RemovePreservesInvariant(users: seq<UserRecord>, i: nat)
    requires RosterInvariant(users) && i < |users|
    ensures RosterInvariant(users[..i] + users[i + 1..])
  {
    var next := users[..i] + users[i + 1..];
    forall a | 0 <= a < |next| ensures next[a] == users[if a < i then a else a + 1] { }
  }

  /** A new social account, created when neither its provider and e-mail nor a
      password account's e-mail matched, keeps the invariant. */
  lemma SocialAccountKeepsInvariant(users: seq<UserRecord>, u: UserRecord, mail: string)
    requires u.email == mail && mail == Lower(mail) && u.password.None? && u.provider.Some?
    requires !NameTaken(users, u.username) && u.spins >= 0 && u.savedSpins.None? && u.history == []
    requires IndexOfSocial(users, u.provider.value, mail).None? && !EmailOfPasswordAccount(users, mail)
    ensures RosterInvariant(users) ==> RosterInvariant(users + [u])
  {
    if RosterInvariant(users) {
      NoPasswordRecordWithEmail(users, mail);
      AppendPreservesInvariant(users, u);
    }
  }

  /** Under the invariant the record a social login finds is the only one of
      that provider and e-mail. */
  lemma SocialRecordUnique(users: seq<UserRecord>, provider: string, mail: string, j: nat)
    requires RosterInvariant(users) && IndexOfSocial(users, provider, mail).Some?
    requires j < |users| && users[j].provider == Some(provider) && Lower(users[j].email) == mail
    ensures IndexOfSocial(users, provider, mail) == Some(j)
  {
    var i := IndexOfSocial(users, provider, mail).value;
    assert users[i].provider == Some(provider) && Lower(users[i].email) == mail;
  }

  /** With the e-mail of no password account (checked with providers), no record
      that has a password uses it. */
  lemma NoPasswordRecordWithEmail(users: seq<UserRecord>, mail: string)
    requires RosterInvariant(users) && mail == Lower(mail) && !EmailOfPasswordAccount(users, mail)
    ensures !PasswordEmailInUse(users, mail)
  {
    forall k | 0 <= k < |users| && users[k].password.Some?
      ensures Lower(users[k].email) != Lower(mail)
    {
      assert WellFormed(users[k]);
    }
  }

  // ---- Record updates ----

  /** `setUserRole`'s update of the record it found: promotion stores the
      balance in the snapshot and makes it unlimited, demotion puts the
      snapshot back (0 if there is none) and drops it. */
  function WithRole(u: UserRecord, newRole: string): (r: UserRecord)
    ensures r == u.(spins := r.spins, savedSpins := r.savedSpins, role := newRole)
    ensures newRole == ADMIN_ROLE && u.role != ADMIN_ROLE ==> r.spins == UNLIMITED && r.savedSpins == Some(u.spins)
    ensures newRole == USER_ROLE && u.role == ADMIN_ROLE ==>
      r.savedSpins.None? && r.spins == (if u.savedSpins.Some? then u.savedSpins.value else 0)
    ensures !(newRole == ADMIN_ROLE && u.role != ADMIN_ROLE) && !(newRole == USER_ROLE && u.role == ADMIN_ROLE)
      ==> r == u.(role := newRole)
  {
    if newRole == ADMIN_ROLE && u.role != ADMIN_ROLE then
      u.(savedSpins := Some(u.spins), spins := UNLIMITED, role := newRole)
    else if newRole == USER_ROLE && u.role == ADMIN_ROLE then
      u.(spins := if u.savedSpins.Some? then u.savedSpins.value else 0, savedSpins := None, role := newRole)
    else
      u.(role := newRole)
  }

  /** Promotion followed by demotion gives back the balance the user had. */
  lemma PromoteThenDemoteRestores(u: UserRecord)
    requires u.role != ADMIN_ROLE
    ensures WithRole(WithRole(u, ADMIN_ROLE), USER_ROLE).spins == u.spins
    ensures WithRole(WithRole(u, ADMIN_ROLE), USER_ROLE).savedSpins.None?
    ensures u.role == USER_ROLE && u.savedSpins.None? ==> WithRole(WithRole(u, ADMIN_ROLE), USER_ROLE) == u
  {
  }

  lemma WithRoleWellFormed(u: UserRecord, newRole: string)
    requires WellFormed(u)
    ensures WellFormed(WithRole(u, newRole))
  {
  }

  /** `initUsers`' repair of a user-role record left with the unlimited balance. */
  function Repaired(u: UserRecord): (r: UserRecord)
    ensures r == u.(spins := r.spins, savedSpins := r.savedSpins)
    ensures u.role == USER_ROLE && u.spins >= UNLIMITED ==>
      r.savedSpins.None? && r.spins == (if u.savedSpins.Some? then u.savedSpins.value else 1)
    ensures !(u.role == USER_ROLE && u.spins >= UNLIMITED) ==> r == u
  {
    if u.role == USER_ROLE && u.spins >= UNLIMITED then
      u.(spins := if u.savedSpins.Some? then u.savedSpins.value else 1, savedSpins := None)
    else u
  }

  /** The root administrator's record that `initUsers` adds when it is missing. */
  function AdminSeed(now: string): (u: UserRecord)
    ensures u.username == ROOT_USERNAME && u.role == ADMIN_ROLE && u.spins == UNLIMITED
    ensures u.password.Some? && !HasProvider(u) && u.createdAt == now
    ensures WellFormed(u)
  {
    UserRecord(ROOT_USERNAME, "admin@vqmm.com", Some("admin123"), ADMIN_ROLE, UNLIMITED,
               None, None, None, [], now)
  }

  // ---- History ----

  /** `history.unshift(record)` followed by one `pop` when the result is longer
      than MAX_HISTORY. */
  function PushHistory(h: seq<SpinRecord>, rec: SpinRecord): (r: seq<SpinRecord>)
    ensures |r| >= 1 && r[0] == rec
    ensures |h| <= MAX_HISTORY ==> r == Take([rec] + h, MAX_HISTORY)
  {
    var grown := [rec] + h;
    if |grown| > MAX_HISTORY then grown[..|grown| - 1] else grown
  }

  /** The history after recording `recs`, oldest first, one `addHistory` each. */
  function PushAll(h: seq<SpinRecord>, recs: seq<SpinRecord>): seq<SpinRecord>
    decreases |recs|
  {
    if recs == [] then h else PushAll(PushHistory(h, recs[0]), recs[1..])
  }

  /** After any number of prizes, the history holds the MAX_HISTORY most recent
      entries, newest first. */
  lemma {:induction false} PushAllKeepsMostRecent(h: seq<SpinRecord>, recs: seq<SpinRecord>)
    requires |h| <= MAX_HISTORY
    ensures PushAll(h, recs) == Take(Reverse(recs) + h, MAX_HISTORY)
    decreases |recs|
  {
    if recs != [] {
      var next := PushHistory(h, recs[0]);
      PushAllKeepsMostRecent(next, recs[1..]);
      TakeOfConcatTake(Reverse(recs[1..]), [recs[0]] + h, MAX_HISTORY);
      assert Reverse(recs) == Reverse(recs[1..]) + [recs[0]];
      assert Reverse(recs[1..]) + ([recs[0]] + h) == Reverse(recs) + h;
    }
  }

  /** Once at least MAX_HISTORY prizes were recorded, the history is exactly the
      last MAX_HISTORY of them in reverse order, whatever it held before. */
  lemma LastPrizesRemain(h: seq<SpinRecord>, recs: seq<SpinRecord>)
    requires |h| <= MAX_HISTORY && |recs| >= MAX_HISTORY
    ensures PushAll(h, recs) == Reverse(recs[|recs| - MAX_HISTORY..])
  {
    PushAllKeepsMostRecent(h, recs);
    var rev := Reverse(recs);
    assert (rev + h)[..MAX_HISTORY] == rev[..MAX_HISTORY];
    ReverseOfSuffix(recs, MAX_HISTORY);
  }

  // ---- Social usernames ----

  /** The name a new social account starts from: the display name with every
      run of white space replaced by `_`, then `_` and the provider. */
  function SocialBaseName(displayName: string, provider: string): (r: string)
    ensures |r| <= |displayName| + 1 + |provider|
    ensures |r| > |provider| && r[|r| - |provider| - 1..] == "_" + provider
    ensures (forall k :: 0 <= k < |provider| ==> !IsWhitespace(provider[k])) ==>
      forall k :: 0 <= k < |r| ==> !IsWhitespace(r[k])
  {
    var joined := ReplaceWhitespaceRuns(displayName, '_');
    var r := joined + "_" + provider;
    assert r[|joined|..] == "_" + provider;
    assert forall k :: |joined| < k < |r| ==> r[k] == provider[k - |joined| - 1];
    r
  }

  /** The k-th name tried: the base itself, then `base_1`, `base_2`, ... */
  function Candidate(base: string, k: nat): string {
    if k == 0 then base else base + "_" + NatToString(k)
  }

  /** `name` is the first candidate not taken (ignoring case) in `users`. */
  ghost predicate IsFirstFreeCandidate(users: seq<UserRecord>, base: string, name: string) {
    !NameTaken(users, name) &&
    exists k: nat :: name == Candidate(base, k) && forall j: nat :: j < k ==> NameTaken(users, Candidate(base, j))
  }

  lemma LowerCandidate(base: string, k: nat)
    requires k > 0
    ensures Lower(Candidate(base, k)) == Lower(base) + "_" + NatToString(k)
  {
    var digits := NatToString(k);
    assert Candidate(base, k) == (base + "_") + digits;
    LowerConcat(base + "_", digits);
    LowerConcat(base, "_");
    assert Lower("_") == "_";
    assert Lower(digits) == digits;
  }

  /** Different counters give names that differ even ignoring case. */
  lemma CandidatesDistinct(base: string, i: nat, j: nat)
    requires i < j
    ensures Lower(Candidate(base, i)) != Lower(Candidate(base, j))
  {
    LowerCandidate(base, j);
    if i > 0 {
      LowerCandidate(base, i);
      var a, b := Lower(Candidate(base, i)), Lower(Candidate(base, j));
      var p := |Lower(base)| + 1;
      if a == b {
        assert a[p..] == NatToString(i) && b[p..] == NatToString(j);
        NatToStringInjective(i, j);
      }
    }
  }

  lemma SubsetCardinality(a: set<string>, b: set<string>)
    requires a <= b
    ensures |a| <= |b|
  {
    if a != {} {
      var x :| x in a;
      SubsetCardinality(a - {x}, b - {x});
    }
  }

  /** The lower-case forms of the first `n` candidates. */
  ghost function Tried(base: string, n: nat): set<string> {
    if n == 0 then {} else Tried(base, n - 1) + {Lower(Candidate(base, n - 1))}
  }

  /** The first `n` candidates are `n` different names, none of them equal to a later one. */
  lemma {:induction false} TriedSize(base: string, n: nat)
    ensures |Tried(base, n)| == n
    ensures forall m: nat :: n <= m ==> Lower(Candidate(base, m)) !in Tried(base, n)
  {
    if n > 0 {
      TriedSize(base, n - 1);
      forall m: nat | n <= m ensures Lower(Candidate(base, m)) !in Tried(base, n) {
        CandidatesDistinct(base, n - 1, m);
      }
    }
  }

  /** The lower-case forms of the names in use. */
  ghost function TakenNames(users: seq<UserRecord>): set<string> {
    set i | 0 <= i < |users| :: Lower(users[i].username)
  }

  /** A taken candidate joins the tried ones, and the tried ones never outnumber the taken names. */
  lemma TriedStaysTaken(users: seq<UserRecord>, base: string, n: nat)
    requires Tried(base, n) <= TakenNames(users)
    requires NameTaken(users, Candidate(base, n))
    ensures Tried(base, n + 1) <= TakenNames(users)
    ensures n + 1 <= |TakenNames(users)|
  {
    var i :| 0 <= i < |users| && Lower(users[i].username) == Lower(Candidate(base, n));
    assert Lower(Candidate(base, n)) in TakenNames(users);
    SubsetCardinality(Tried(base, n + 1), TakenNames(users));
    TriedSize(base, n + 1);
  }

  /** The loop of `socialLogin` that appends `_1`, `_2`, ... to `base` until the
      name is free ignoring case. It stops because the candidates are pairwise
      different and only finitely many names are taken. */
  method UniqueUsername(users: seq<UserRecord>, base: string) returns (name: string)
    ensures IsFirstFreeCandidate(users, base, name)
  {
    name := base;
    var counter: nat := 1;
    while NameTaken(users, name)
      invariant counter >= 1 && name == Candidate(base, counter - 1)
      invariant forall j: nat :: j < counter - 1 ==> NameTaken(users, Candidate(base, j))
      invariant Tried(base, counter - 1) <= TakenNames(users)
      decreases |TakenNames(users)| - (counter - 1)
    {
      TriedStaysTaken(users, base, counter - 1);
      assert forall j: nat :: j < counter ==> NameTaken(users, Candidate(base, j));
      name := base + "_" + NatToString(counter);
      counter := counter + 1;
    }
    assert name == Candidate(base, counter - 1);
  }

  /** Appending the root administrator's record makes the name `admin` found. */
  lemma SeedAddsRoot(users: seq<UserRecord>, now: string)
    ensures IndexOfName(users + [AdminSeed(now)], ROOT_USERNAME).Some?
  {
    var seeded := users + [AdminSeed(now)];
    assert seeded[|users|].username == ROOT_USERNAME;
  }

  /** Rosters with the same usernames position by position find the same names. */
  lemma SameNamesKeepIndex(a: seq<UserRecord>, b: seq<UserRecord>, name: string)
    requires |a| == |b| && forall k :: 0 <= k < |a| ==> a[k].username == b[k].username
    ensures IndexOfName(a, name).Some? ==> IndexOfName(b, name).Some?
  {
    if IndexOfName(a, name).Some? {
      var i := IndexOfName(a, name).value;
      assert b[i].username == name;
    }
  }

  /** The repair loop of `initUsers`: every record goes through Repaired;
      `changed` tells whether any record needed it. */
  method RepairAll(list: seq<UserRecord>) returns (fixed: seq<UserRecord>, changed: bool)
    ensures |fixed| == |list| && forall k :: 0 <= k < |list| ==> fixed[k] == Repaired(list[k])
    ensures !changed ==> fixed == list
    ensures RosterInvariant(list) ==> RosterInvariant(fixed)
  {
    fixed := list;
    changed := false;
    var i := 0;
    while i < |fixed|
      invariant 0 <= i <= |fixed| && |fixed| == |list|
      invariant forall k :: 0 <= k < i ==> fixed[k] == Repaired(list[k])
      invariant forall k :: i <= k < |fixed| ==> fixed[k] == list[k]
      invariant !changed ==> fixed == list
      invariant RosterInvariant(list) ==> RosterInvariant(fixed)
    {
      var u := fixed[i];
      if u.role == USER_ROLE && u.spins >= UNLIMITED {
        if RosterInvariant(fixed) {
          ReplacePreservesInvariant(fixed, i, Repaired(u));
        }
        fixed := fixed[i := Repaired(u)];
        changed := true;
      }
      i := i + 1;
    }
  }

  /** The registration form passes the checks that need no roster: a trimmed
      name of at least 3 characters, a non-blank e-mail, a password of at least 4. */
  predicate FieldsAcceptable(username: string, email: string, password: string) {
    Trim(email) != "" && |Trim(username)| >= 3 && |password| >= 4
  }

  /** The roster and the session as they sit in the browser's store. */
  class Store {
    var users: seq<UserRecord>
    var session: Option<Session>

    /** `getUsers` / `getSession` on what the store holds: a missing or
        unparseable roster reads as empty, a missing or unparseable session as none. */
    constructor Load(storedUsers: Option<seq<UserRecord>>, storedSession: Option<Session>)
      ensures users == (if storedUsers.Some? then storedUsers.value else [])
      ensures session == storedSession
    {
      users := if storedUsers.Some? then storedUsers.value else [];
      session := storedSession;
    }

    /** `setSession`: the session becomes the projection of `u`. */
    method SetSession(u: UserRecord)
      modifies this
      ensures session == Some(Project(u)) && users == old(users)
    {
      session := Some(Project(u));
    }

    /** `initUsers`: add the root administrator if no record is named `admin`,
        then repair every user-role record that holds the unlimited balance;
        the roster is written back only when something changed. */
    method Init(now: string)
      modifies this
      ensures session == old(session)
      ensures IndexOfName(users, ROOT_USERNAME).Some?
      ensures var seeded := if IndexOfName(old(users), ROOT_USERNAME).Some? then old(users)
                            else old(users) + [AdminSeed(now)];
              |users| == |seeded| && forall i :: 0 <= i < |users| ==> users[i] == Repaired(seeded[i])
      ensures old(RosterInvariant(users)) &&
              (IndexOfName(old(users), ROOT_USERNAME).Some?
               || (!NameTaken(old(users), ROOT_USERNAME) && !EmailInUse(old(users), AdminSeed(now).email)))
              ==> RosterInvariant(users)
    {
      var list := users;
      var dirty := false;
      if IndexOfName(list, ROOT_USERNAME).None? {
        SeedAddsRoot(list, now);
        if RosterInvariant(list) && !NameTaken(list, ROOT_USERNAME) && !EmailInUse(list, AdminSeed(now).email) {
          AppendPreservesInvariant(list, AdminSeed(now));
        }
        list := list + [AdminSeed(now)];
        dirty := true;
      }
      var fixed, repaired := RepairAll(list);
      SameNamesKeepIndex(list, fixed, ROOT_USERNAME);
      if dirty || repaired {
        users := fixed;
      }
    }

    /** `register`: validate, check that the name and the e-mail are free
        ignoring case, append a user-role record with one spin and log it in. */
    method Register(username: string, email: string, password: string, now: string)
      returns (res: AuthResult)
      modifies this
      ensures res.Failure? ==> users == old(users) && session == old(session)
      ensures Trim(username) == "" || Trim(email) == "" || password == "" ==> res == Failure(MissingFields)
      ensures Trim(username) != "" && Trim(email) != "" && password != "" && |Trim(username)| < 3
              ==> res == Failure(UsernameTooShort)
      ensures Trim(email) != "" && |Trim(username)| >= 3 && 0 < |password| < 4 ==> res == Failure(PasswordTooShort)
      ensures FieldsAcceptable(username, email, password) && NameTaken(old(users), Trim(username))
              ==> res == Failure(UsernameTaken)
      ensures (FieldsAcceptable(username, email, password) && !NameTaken(old(users), Trim(username))
               && EmailInUse(old(users), Trim(email))) ==> res == Failure(EmailTaken)
      ensures res.Success? <==> (FieldsAcceptable(username, email, password)
              && !NameTaken(old(users), Trim(username)) && !EmailInUse(old(users), Trim(email)))
      ensures res.Success? ==>
        && res.user == UserRecord(Trim(username), Trim(email), Some(password), USER_ROLE, 1, None, None, None, [], now)
        && res.returning.None?
        && users == old(users) + [res.user] && session == Some(Project(res.user))
      ensures old(RosterInvariant(users)) ==> RosterInvariant(users)
    {
      var name := Trim(username);
      var mail := Trim(email);
      if name == "" || mail == "" || password == "" {
        return Failure(MissingFields);
      }
      if |name| < 3 {
        return Failure(UsernameTooShort);
      }
      if |password| < 4 {
        return Failure(PasswordTooShort);
      }
      if NameTaken(users, name) {
        return Failure(UsernameTaken);
      }
      if EmailInUse(users, mail) {
        return Failure(EmailTaken);
      }
      var newUser := UserRecord(name, mail, Some(password), USER_ROLE, 1, None, None, None, [], now);
      if RosterInvariant(users) {
        AppendPreservesInvariant(users, newUser);
      }
      users := users + [newUser];
      SetSession(newUser);
      res := Success(newUser, None);
    }

    /** `login`: the first record whose name matches ignoring case; an unknown
        name and a wrong password give the same failure; a social account with
        no password is refused with its provider named. */
    method Login(username: string, password: string) returns (res: AuthResult)
      modifies this
      ensures users == old(users)
      ensures res.Failure? ==> session == old(session)
      ensures Trim(username) == "" || password == "" ==> res == Failure(MissingCredentials)
      ensures Trim(username) != "" && password != "" ==>
        match IndexOfNameIgnoringCase(users, Trim(username))
        case None => res == Failure(InvalidCredentials)
        case Some(i) =>
          && (HasProvider(users[i]) && users[i].password.None? ==> res == Failure(SocialOnlyAccount(users[i].provider.value)))
          && (!HasProvider(users[i]) && users[i].password != Some(password) ==> res == Failure(InvalidCredentials))
          && (users[i].password.Some? && users[i].password != Some(password) ==> res == Failure(InvalidCredentials))
          && (users[i].password == Some(password) ==> res == Success(users[i], None))
      ensures res.Success? ==> res.user in users && res.user.password == Some(password)
                               && session == Some(Project(res.user))
    {
      var name := Trim(username);
      if name == "" || password == "" {
        return Failure(MissingCredentials);
      }
      var found := IndexOfNameIgnoringCase(users, name);
      if found.None? {
        return Failure(InvalidCredentials);
      }
      var user := users[found.value];
      if HasProvider(user) && user.password.None? {
        return Failure(SocialOnlyAccount(user.provider.value));
      }
      if user.password != Some(password) {
        return Failure(InvalidCredentials);
      }
      SetSession(user);
      res := Success(user, None);
    }

    /** `socialLogin(provider, email, displayName)` once the identity provider
        has answered: a returning social account is logged back in (and given
        the admin role when it carries the root e-mail); an e-mail already used
        by a password account is refused; otherwise a new account is created
        under the first free name derived from the display name. */
    method SocialLogin(provider: string, email: string, displayName: string, now: string)
      returns (res: AuthResult)
      modifies this
      ensures res.Failure? ==> users == old(users) && session == old(session)
      ensures Lower(Trim(email)) == "" ==> res == Failure(MissingEmail)
      ensures Lower(Trim(email)) != "" && |Trim(displayName)| < 2 ==> res == Failure(DisplayNameTooShort)
      ensures var mail := Lower(Trim(email));
        mail != "" && |Trim(displayName)| >= 2 ==>
        match IndexOfSocial(old(users), provider, mail)
        case Some(i) =>
          && res.Success? && res.returning == Some(true)
          && users == (if mail == ROOT_ADMIN_EMAIL && old(users)[i].role != ADMIN_ROLE
                       then old(users)[i := old(users)[i].(role := ADMIN_ROLE, spins := UNLIMITED)]
                       else old(users))
          && res.user == users[i] && session == Some(Project(users[i]))
        case None =>
          if EmailOfPasswordAccount(old(users), mail) then res == Failure(EmailUsedByPasswordAccount)
          else
            && res.Success? && res.returning == Some(false)
            && users == old(users) + [res.user] && session == Some(Project(res.user))
            && IsFirstFreeCandidate(old(users), SocialBaseName(Trim(displayName), provider), res.user.username)
            && res.user.email == mail && res.user.password.None?
            && res.user.provider == Some(provider) && res.user.displayName == Some(Trim(displayName))
            && res.user.role == (if mail == ROOT_ADMIN_EMAIL then ADMIN_ROLE else USER_ROLE)
            && res.user.spins == (if mail == ROOT_ADMIN_EMAIL then UNLIMITED else 1)
            && res.user.savedSpins.None? && res.user.history == [] && res.user.createdAt == now
      ensures old(RosterInvariant(users)) ==> RosterInvariant(users)
    {
      var mail := Lower(Trim(email));
      var shown := Trim(displayName);
      if mail == "" {
        return Failure(MissingEmail);
      }
      if |shown| < 2 {
        return Failure(DisplayNameTooShort);
      }
      var existing := IndexOfSocial(users, provider, mail);
      if existing.Some? {
        res := LogBackIn(existing.value, mail == ROOT_ADMIN_EMAIL);
        return;
      }
      if EmailOfPasswordAccount(users, mail) {
        return Failure(EmailUsedByPasswordAccount);
      }
      LowerIdempotent(Trim(email));
      res := CreateSocialAccount(provider, mail, shown, now);
    }

    /** The returning branch of `socialLogin`: the root e-mail forces the admin
        role and the unlimited balance, then the record is logged in. */
    method LogBackIn(i: nat, rootAdmin: bool) returns (res: AuthResult)
      requires i < |users|
      modifies this
      ensures users == (if rootAdmin && old(users)[i].role != ADMIN_ROLE
                        then old(users)[i := old(users)[i].(role := ADMIN_ROLE, spins := UNLIMITED)]
                        else old(users))
      ensures res == Success(users[i], Some(true)) && session == Some(Project(users[i]))
      ensures old(RosterInvariant(users)) ==> RosterInvariant(users)
    {
      if rootAdmin && users[i].role != ADMIN_ROLE {
        var promoted := users[i].(role := ADMIN_ROLE, spins := UNLIMITED);
        if RosterInvariant(users) {
          ReplacePreservesInvariant(users, i, promoted);
        }
        users := users[i := promoted];
      }
      SetSession(users[i]);
      res := Success(users[i], Some(true));
    }

    /** The creating branch of `socialLogin`: a record under the first free
        name derived from the display name, with no password, logged in. */
    method CreateSocialAccount(provider: string, mail: string, shown: string, now: string)
      returns (res: AuthResult)
      requires mail == Lower(mail)
      requires IndexOfSocial(users, provider, mail).None? && !EmailOfPasswordAccount(users, mail)
      modifies this
      ensures && res.Success? && res.returning == Some(false)
              && users == old(users) + [res.user] && session == Some(Project(res.user))
      ensures IsFirstFreeCandidate(old(users), SocialBaseName(shown, provider), res.user.username)
      ensures && res.user.email == mail && res.user.password.None?
              && res.user.provider == Some(provider) && res.user.displayName == Some(shown)
              && res.user.role == (if mail == ROOT_ADMIN_EMAIL then ADMIN_ROLE else USER_ROLE)
              && res.user.spins == (if mail == ROOT_ADMIN_EMAIL then UNLIMITED else 1)
              && res.user.savedSpins.None? && res.user.history == [] && res.user.createdAt == now
      ensures old(RosterInvariant(users)) ==> RosterInvariant(users)
    {
      var isRootAdmin := mail == ROOT_ADMIN_EMAIL;
      var finalName := UniqueUsername(users, SocialBaseName(shown, provider));
      var newUser := UserRecord(finalName, mail, None,
                                if isRootAdmin then ADMIN_ROLE else USER_ROLE,
                                if isRootAdmin then UNLIMITED else 1,
                                None, Some(provider), Some(shown), [], now);
      SocialAccountKeepsInvariant(users, newUser, mail);
      users := users + [newUser];
      SetSession(newUser);
      res := Success(newUser, Some(false));
    }

    /** `logout`: forget the session, keep the roster. */
    method Logout()
      modifies this
      ensures !IsLoggedIn() && users == old(users)
    {
      session := None;
    }

    /** `refreshSession` (`getCurrentUser`): re-read the session's record; the
        stored session is rewritten from it, and the answer shows an admin's
        balance as unlimited. A session whose record is gone gives none and is
        left in place. */
    method GetCurrentUser() returns (cur: Option<Session>)
      modifies this
      ensures users == old(users)
      ensures old(session).None? ==> cur.None? && session == old(session)
      ensures old(session).Some? ==>
        match IndexOfName(users, old(session).value.username)
        case None => cur.None? && session == old(session)
        case Some(i) =>
          && session == Some(Project(users[i]))
          && cur == Some(Session(users[i].username, users[i].email, users[i].role,
                                 if users[i].role == ADMIN_ROLE then UNLIMITED else users[i].spins))
    {
      if session.None? {
        return None;
      }
      var found := IndexOfName(users, session.value.username);
      if found.None? {
        return None;
      }
      var user := users[found.value];
      SetSession(user);
      cur := Some(Session(user.username, user.email, user.role,
                          if user.role == ADMIN_ROLE then UNLIMITED else user.spins));
    }

    /** `isLoggedIn`: a session is stored. */
    function IsLoggedIn(): (b: bool)
      reads this
      ensures b <==> session.Some?
    {
      session.Some?
    }

    /** `isAdmin`: the cached session's role, not the record's. */
    predicate IsAdmin()
      reads this
      ensures IsAdmin() ==> IsLoggedIn()
    {
      session.Some? && session.value.role == ADMIN_ROLE
    }

    /** `getSpins`: the live balance of the session's record, unlimited for an
        admin, 0 without a session or a record. */
    method GetSpins() returns (n: int)
      modifies this
      ensures users == old(users)
      ensures old(session).None? ==> n == 0 && session == old(session)
      ensures old(session).Some? ==>
        match IndexOfName(users, old(session).value.username)
        case None => n == 0 && session == old(session)
        case Some(i) =>
          && session == Some(Project(users[i]))
          && n == (if users[i].role == ADMIN_ROLE then UNLIMITED else users[i].spins)
    {
      var cur := GetCurrentUser();
      if cur.None? {
        return 0;
      }
      if cur.value.role == ADMIN_ROLE {
        return UNLIMITED;
      }
      n := cur.value.spins;
    }

    /** `useOneSpin`: an admin session spends nothing; otherwise one spin is
        taken from the session's record if it has one left. */
    method UseOneSpin() returns (ok: bool)
      modifies this
      ensures old(session).None? ==> !ok && unchanged(this)
      ensures old(session).Some? && old(session).value.role == ADMIN_ROLE ==> ok && unchanged(this)
      ensures old(session).Some? && old(session).value.role != ADMIN_ROLE ==>
        match IndexOfName(old(users), old(session).value.username)
        case None => !ok && unchanged(this)
        case Some(i) =>
          if old(users)[i].spins <= 0 then !ok && unchanged(this)
          else
            && ok && users == old(users)[i := old(users)[i].(spins := old(users)[i].spins - 1)]
            && users[i].spins >= 0 && session == Some(Project(users[i]))
      ensures old(RosterInvariant(users)) ==> RosterInvariant(users)
    {
      if session.None? {
        return false;
      }
      if session.value.role == ADMIN_ROLE {
        return true;
      }
      var found := IndexOfName(users, session.value.username);
      if found.None? {
        return false;
      }
      var i := found.value;
      if users[i].spins <= 0 {
        return false;
      }
      var spent := users[i].(spins := users[i].spins - 1);
      if RosterInvariant(users) {
        ReplacePreservesInvariant(users, i, spent);
      }
      users := users[i := spent];
      SetSession(users[i]);
      ok := true;
    }

    /** `getAllUsers`. */
    function GetAllUsers(): (r: seq<PublicUser>)
      reads this
      ensures |r| == |users|
      ensures forall i :: 0 <= i < |users| ==>
        && r[i].username == users[i].username && r[i].email == users[i].email
        && r[i].role == users[i].role && r[i].spins == users[i].spins
        && r[i].createdAt == users[i].createdAt
        && r[i].provider == (if HasProvider(users[i]) then users[i].provider else None)
    {
      PublicUsers(users)
    }

    /** `setUserRole`: the root administrator only accepts the admin role; the
        record found by exact name gets the new role with the balance saved
        on promotion and restored on demotion. The session is not touched. */
    method SetUserRole(username: string, newRole: string) returns (ok: bool)
      modifies this
      ensures session == old(session)
      ensures username == ROOT_USERNAME && newRole != ADMIN_ROLE ==> !ok && users == old(users)
      ensures !(username == ROOT_USERNAME && newRole != ADMIN_ROLE) ==>
        match IndexOfName(old(users), username)
        case None => !ok && users == old(users)
        case Some(i) => ok && users == old(users)[i := WithRole(old(users)[i], newRole)]
      ensures old(RosterInvariant(users)) ==> RosterInvariant(users)
    {
      if username == ROOT_USERNAME && newRole != ADMIN_ROLE {
        return false;
      }
      var found := IndexOfName(users, username);
      if found.None? {
        return false;
      }
      var i := found.value;
      if RosterInvariant(users) {
        WithRoleWellFormed(users[i], newRole);
        ReplacePreservesInvariant(users, i, WithRole(users[i], newRole));
      }
      users := users[i := WithRole(users[i], newRole)];
      ok := true;
    }

    /** `addSpinsToUser`: the count is printed and parsed again, so from 10^21
        on only its leading digit is granted; a count that is NaN (None) or not
        positive, or an unknown user, changes nothing; otherwise the balance
        grows by the re-read count. */
    method AddSpinsToUser(username: string, count: Option<int>) returns (ok: bool)
      modifies this
      ensures session == old(session)
      ensures count.None? || count.value <= 0 ==> !ok && users == old(users)
      ensures count.Some? && count.value > 0 ==>
        match IndexOfName(old(users), username)
        case None => !ok && users == old(users)
        case Some(i) => ok && users == old(users)[i := old(users)[i].(spins := old(users)[i].spins + Reparsed(count.value))]
      ensures old(RosterInvariant(users)) ==> RosterInvariant(users)
    {
      var reread := ParseNumber(count);
      if reread.None? || reread.value <= 0 {
        return false;
      }
      ok := TopUp(username, reread.value);
    }

    /** The part of `addSpinsToUser` after a positive count is read: an
        unknown user changes nothing, otherwise that balance grows by `amount`. */
    method TopUp(username: string, amount: int) returns (ok: bool)
      requires amount > 0
      modifies this
      ensures session == old(session)
      ensures match IndexOfName(old(users), username)
        case None => !ok && users == old(users)
        case Some(i) => ok && users == old(users)[i := old(users)[i].(spins := old(users)[i].spins + amount)]
      ensures old(RosterInvariant(users)) ==> RosterInvariant(users)
    {
      var found := IndexOfName(users, username);
      if found.None? {
        return false;
      }
      var i := found.value;
      var topped := users[i].(spins := users[i].spins + amount);
      if RosterInvariant(users) {
        ReplacePreservesInvariant(users, i, topped);
      }
      users := users[i := topped];
      ok := true;
    }

    /** `addHistory`: put the prize at the front of the session user's history,
        keeping at most MAX_HISTORY entries. */
    method AddHistory(prize: string, now: string) returns (ok: bool)
      modifies this
      ensures session == old(session)
      ensures old(session).None? ==> !ok && users == old(users)
      ensures old(session).Some? ==>
        match IndexOfName(old(users), old(session).value.username)
        case None => !ok && users == old(users)
        case Some(i) =>
          ok && users == old(users)[i := old(users)[i].(history := PushHistory(old(users)[i].history, SpinRecord(prize, now)))]
      ensures old(RosterInvariant(users)) ==> RosterInvariant(users)
    {
      if session.None? {
        return false;
      }
      var found := IndexOfName(users, session.value.username);
      if found.None? {
        return false;
      }
      var i := found.value;
      var logged := users[i].(history := PushHistory(users[i].history, SpinRecord(prize, now)));
      if RosterInvariant(users) {
        ReplacePreservesInvariant(users, i, logged);
      }
      users := users[i := logged];
      ok := true;
    }

    /** `getHistory`: the session user's history, newest first, after
        refreshing the session; empty without a session or a record. */
    method GetHistory() returns (h: seq<SpinRecord>)
      modifies this
      ensures users == old(users)
      ensures old(session).None? ==> h == [] && session == old(session)
      ensures old(session).Some? ==>
        match IndexOfName(users, old(session).value.username)
        case None => h == [] && session == old(session)
        case Some(i) =>
          session == Some(Project(users[i])) && h == (if users[i].username == "" then [] else users[i].history)
    {
      var cur := GetCurrentUser();
      if cur.Some? && cur.value.username != "" {
        var found := IndexOfName(users, cur.value.username);
        h := if found.Some? then users[found.value].history else [];
      } else {
        h := [];
      }
    }

    /** `deleteUser`: never the root administrator; otherwise the first record
        with that exact name is removed, and the session goes with it if it
        was that user's. */
    method DeleteUser(username: string) returns (ok: bool)
      modifies this
      ensures username == ROOT_USERNAME ==> !ok && unchanged(this)
      ensures username != ROOT_USERNAME ==>
        match IndexOfName(old(users), username)
        case None => !ok && unchanged(this)
        case Some(i) =>
          && ok && users == old(users)[..i] + old(users)[i + 1..]
          && session == (if old(session).Some? && old(session).value.username == username then None else old(session))
      ensures old(RosterInvariant(users)) ==> RosterInvariant(users)
    {
      if username == ROOT_USERNAME {
        return false;
      }
      var found := IndexOfName(users, username);
      if found.None? {
        return false;
      }
      var i := found.value;
      if RosterInvariant(users) {
        RemovePreservesInvariant(users, i);
      }
      users := users[..i] + users[i + 1..];
      if session.Some? && session.value.username == username {
        session := None;
      }
      ok := true;
    }
  }
}
