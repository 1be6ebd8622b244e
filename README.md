# Lucky wheel: account, entitlement and prize-selection model

This project models in Dafny the client-side logic of a browser "lucky wheel"
game: the account store, the spin allowance, the choice of prize and the admin
tools built on the store.

- `util.dfy` (module `Util`): `Option`, and `FirstIndex`, the model of
  `find`/`findIndex`. It also has the sequence helpers `Take`, `Reverse` and
  `IsSubsequence`.
- `text.dfy` (module `Text`): the JavaScript string operations the code relies
  on:
  - `trim`, `toLowerCase` and `includes`;
  - `replace(/\s+/g, '_')`;
  - printing a counter in a template string;
  - `parseInt`, of a typed text and of a number (which `String` first prints,
    in exponent form from 10^21 on).
- `auth.dfy` (module `Auth`): the account module.
  - Class `Store` holds the two values kept in the browser store. `users` is
    the roster of user records. `session` is an optional projection
    `{username, email, role, spins}`.
  - Each operation of the module is a method of `Store` and states its whole
    effect on both values: registration, password login, social login, logout,
    session refresh, spin balance and spending, role changes, spin grants, the
    prize history, deletion, and the start-up seeding and repair.
  - Every mutator keeps the roster invariant `RosterInvariant`:
    - usernames are unique ignoring case;
    - no record with a password shares its e-mail, ignoring case, with another record;
    - no two records of one provider share an e-mail ignoring case;
    - balances and snapshots are never negative, and histories hold at most 20 entries;
    - a record with a password has no provider.
  - "Unlimited" is the number `UNLIMITED == 999999`, as in the code.
- `wheel.dfy` (module `Wheel`):
  - the ten-segment catalogue and the two weight tables;
  - `weightedRandom` as a loop proved against a declarative description
    (`IsPick`) of the selected index;
  - the colour shading functions;
  - class `WheelState`, whose `spinning` flag keeps one spin at a time.
- `admin.dfy` (module `Admin`): the admin panel's search filter and its guarded
  actions:
  - flip a role;
  - grant spins;
  - delete an account after confirmation.
- `app.dfy` (module `App`): the spin button's action. It checks the balance,
  spends a spin, spins the wheel for the user's role and records the prize.
  - `HandleSpin` shows that the store never refuses the spin right after a
    positive balance check.
  - It also shows that the session user is still found there, so the source's
    `user.role` on a null user cannot happen.

The random draw (`Math.random() * total`) and the timestamps
(`new Date().toISOString()`) are parameters. The browser store is the two
fields of `Store`; a missing or unparseable value reads as an empty roster or
as no session.

## Model

| member | source | states |
|---|---|---|
| Util.FirstIndex | js/auth.js:246 | The index of the first element satisfying the predicate. None exactly when no element does, as `findIndex` returns -1. |
| Text.Trim | js/auth.js:96-97 | The result is empty exactly when the input is all white space. Otherwise it starts and ends with a non-space. It occurs in the input between a prefix and a suffix that are all white space, so only white space is cut. |
| Text.TrimIdempotent | js/auth.js:129 | Trimming an already trimmed name changes nothing. |
| Text.Lower | js/auth.js:108 | Same length as the input, each character lower-cased. |
| Text.LowerIdempotent | js/auth.js:152 | Lower-casing an already lower-cased e-mail changes nothing. |
| Text.Includes | js/admin.js:14-17 | True exactly when the query occurs as a contiguous piece of the text. |
| Text.ReplaceWhitespaceRuns | js/auth.js:192 | Never longer than the input. No white space is left when the joiner is not white space. Text without white space is unchanged. |
| Text.ReplaceOneRun | js/auth.js:192 | A word, one run of white space and a rest starting with a non-space: the word is copied and the whole run becomes exactly one joiner. |
| Text.NatToString | js/auth.js:197 | A non-empty string of decimal digits, with two digits or more exactly when the counter is at least 10. |
| Text.NatToStringInjective | js/auth.js:196-199 | Different counters print as different texts. |
| Text.ParseInt | js/admin.js:232 | NaN (None) exactly when no digit follows the leading white space and optional sign. |
| Text.ParseIntReadsBack | js/admin.js:232 | Leading white space, an optional sign, the digits of `n` and any rest not starting with a digit parse as `n`, negated after `-`. |
| Text.ParseIntOfNatToString | js/admin.js:232 | The plain decimal digits of `n`, typed into a field, parse as `n`. |
| Text.NumberText | js/auth.js:289 | `String(n)` of a whole number starts with `-` exactly when n is negative, and a digit follows the sign. Only 0 to 9 print as one character. |
| Text.MagnitudeText | js/auth.js:289 | `String(n)` of a whole number below 10^21 is its decimal digits. From 10^21 on it is the leading digit followed by `.` or `e`. |
| Text.Reparsed | js/auth.js:289 | Reading a printed number back keeps its sign. It keeps the number itself below 10^21 in magnitude, and only a digit from 1 to 9, signed, from there on. |
| Text.ParseIntOfNumberText | js/auth.js:289 | `parseInt` of the text `String` prints for a whole number gives exactly `Reparsed` of it. |
| Text.ParseNumber | js/auth.js:289 | `parseInt(count)` of a number: NaN stays NaN, otherwise the result is `Reparsed(count)`. |
| Auth.PublicUsers | js/auth.js:256-265 | One entry per record, in order. Each entry has the record's name, e-mail, role, balance and creation time, and its provider only when that is truthy. |
| Auth.ReplacePreservesInvariant | js/auth.js:249 | Replacing a record by a well-formed one with the same name, e-mail, password and provider keeps the roster invariant. |
| Auth.AppendPreservesInvariant | js/auth.js:122 | Appending a well-formed record keeps the roster invariant when its name is free ignoring case, no password record uses its e-mail, no record of its provider uses its e-mail, and, if it has a password, no record at all uses its e-mail. |
| Auth.RemovePreservesInvariant | js/auth.js:340 | Removing one record keeps the roster invariant. |
| Auth.SocialAccountKeepsInvariant | js/auth.js:185-211 | A new social record, created after neither a record of its provider with its e-mail nor a password account with its e-mail was found, keeps the roster invariant. |
| Auth.NoPasswordRecordWithEmail | js/auth.js:186 | Under the invariant, when no account without a provider has the e-mail, no record with a password has it either. |
| Auth.SocialRecordUnique | js/auth.js:168-170 | Under the invariant, the record the social lookup finds is the only record of that provider and e-mail. |
| Auth.RegisteredAccountFound | js/auth.js:134-136 | After registration, a login typing the same name (spaces included) finds the new record. |
| Auth.SocialAccountFoundAgain | js/auth.js:168-170 | After a social sign-up, the next social login with the same provider and e-mail finds the new record as a returning account. |
| Auth.WithRole | js/auth.js:275-283 | The record takes the new role; besides it only the balance and the snapshot can change. Promotion snapshots the balance and sets it to 999999. Demotion restores the snapshot (0 if there is none) and drops it. Any other role change sets the role only. |
| Auth.PromoteThenDemoteRestores | js/auth.js:275-283 | Promotion followed by demotion gives back the original balance and no snapshot. For a plain user it gives back the very same record. |
| Auth.WithRoleWellFormed | js/auth.js:267-286 | A role change keeps a well-formed record well-formed. |
| Auth.Repaired | js/auth.js:27-33 | Only the balance and the snapshot can change. A user-role record holding 999999 or more gets its snapshot back (1 if there is none) and loses the snapshot. Every other record is unchanged. |
| Auth.RepairAll | js/auth.js:27-33 | Every record goes through the repair. The change flag is false only if nothing changed. The roster invariant is kept. |
| Auth.SeedAddsRoot | js/auth.js:14-24 | After seeding, the name `admin` is found. |
| Auth.AdminSeed | js/auth.js:15-22 | The seed is named `admin`, has the admin role, 999999 spins, a password and no provider, carries the given creation time, and is well-formed. |
| Auth.PushHistory | js/auth.js:315-316 | The new prize comes first. A history of at most 20 becomes the first 20 of the prize followed by the old history. |
| Auth.PushAllKeepsMostRecent | js/auth.js:299-322 | After any sequence of prizes, the history is the first 20 of the prizes newest first, followed by the old history. |
| Auth.LastPrizesRemain | js/auth.js:315-316 | After at least 20 prizes, the history is exactly the last 20, newest first. |
| Auth.CandidatesDistinct | js/auth.js:196-199 | `base`, `base_1`, `base_2`, ... differ pairwise even ignoring case. |
| Auth.SocialBaseName | js/auth.js:192 | The base name ends with `_` and the provider, is at most one character longer than display name and provider together, and holds no white space when the provider holds none. |
| Auth.UniqueUsername | js/auth.js:192-199 | The name is the first of `base`, `base_1`, `base_2`, ... not taken ignoring case. Every earlier candidate is taken. The loop terminates. |
| Auth.Store.Load | js/auth.js:38-56 | A missing or unparseable roster reads as empty. The session is read as stored. |
| Auth.Store.SetSession | js/auth.js:58-66 | The session becomes the record's projection and the roster is untouched. |
| Auth.Store.Init | js/auth.js:10-36 | Appends the admin seed if no record is named `admin`, then repairs every record. Afterwards `admin` exists and the session is unchanged. The invariant is kept when no other case variant of `admin` exists and no record uses the seed's e-mail. |
| Auth.Store.Register | js/auth.js:95-126 | Each failure in the code's order: missing field, name shorter than 3, password shorter than 4, name taken ignoring case, e-mail taken ignoring case. A failure changes nothing. Success appends exactly one record and logs it in: the trimmed name and e-mail, the password, the user role, one spin, no snapshot, no provider, no display name, an empty history and the given creation time. |
| Auth.Store.Login | js/auth.js:128-149 | Missing fields are refused. An unknown name and a wrong password give the same failure. A social account without a password is refused, naming its provider. Only the matching password logs in, and the roster is never changed. |
| Auth.Store.SocialLogin | js/auth.js:151-215 | The e-mail and display-name checks come first. A returning account logs in, and is promoted when it carries the root e-mail. An e-mail of a password account is refused. Otherwise one record, created at the given time, is appended under the first free derived name, with role and balance set by the root e-mail. |
| Auth.Store.LogBackIn | js/auth.js:172-182 | The found record is promoted to admin with 999999 spins exactly when the root e-mail logs in as a non-admin, then it is logged in and returned as returning. |
| Auth.Store.CreateSocialAccount | js/auth.js:191-214 | Exactly one record is appended under the first free derived name, with no password, the lower-case e-mail, the provider and the display name, and it is logged in. |
| Auth.Store.Logout | js/auth.js:217-219 | The session is removed and the roster is unchanged. |
| Auth.Store.IsLoggedIn | js/auth.js:225-227 | True exactly when a session is stored; after Logout it is false. |
| Auth.Store.GetCurrentUser | js/auth.js:73-88 | The answer comes from the live record, not the stored session, with an admin's balance shown as 999999. The session is rewritten from the record. A session without a record gives none and is left as it is. |
| Auth.Store.IsAdmin | js/auth.js:229-232 | Being admin implies being logged in. Both read the stored session only. |
| Auth.Store.GetSpins | js/auth.js:234-239 | The live balance: 999999 for an admin record, 0 without a session or a record. The session is refreshed as `getCurrentUser` does it. |
| Auth.Store.UseOneSpin | js/auth.js:241-253 | No session or no record: false. Admin session: true with nothing changed. A balance of 0 or less: false with nothing changed. Otherwise exactly that record loses one spin, stays non-negative, and the session follows it. |
| Auth.Store.GetAllUsers | js/auth.js:256-265 | One public entry per record, in order, with the record's name, e-mail, role, balance and creation time, and without passwords or histories. |
| Auth.Store.SetUserRole | js/auth.js:267-286 | `admin` can take no role but admin. An unknown name changes nothing. Otherwise only the found record changes, as WithRole describes. The session is untouched. |
| Auth.Store.AddSpinsToUser | js/auth.js:288-297 | The count is read back through `String` first. A NaN or non-positive count, or an unknown user, changes nothing. Otherwise only that balance grows, by `Reparsed(count)`: the count itself below 10^21, only its leading digit from there on. |
| Auth.Store.TopUp | js/auth.js:290-296 | For a positive amount, an unknown user changes nothing. Otherwise exactly that balance grows by the amount, and the invariant is kept. |
| Auth.Store.AddHistory | js/auth.js:299-322 | No session or no record: false with nothing changed. Otherwise only that record's history changes, as PushHistory describes. |
| Auth.Store.GetHistory | js/auth.js:324-333 | The session user's history from the live record, newest first. Empty without a session, a record or a username. |
| Auth.Store.DeleteUser | js/auth.js:335-348 | `admin` and unknown names: false with nothing changed. Otherwise exactly that record is removed, and the session is cleared exactly when it belonged to that name. |
| Wheel.WeightsFor | js/wheel.js:210 | The admin table for the admin role, the user table for every other role. Always one weight per segment. |
| Wheel.WeightedRandom | js/wheel.js:209-218 | The index is always a segment index, the fall-through included. It is the one IsPick describes: every earlier cumulative sum is below the draw, and the draw is within this index's sum unless it fell through. |
| Wheel.PickUnique | js/wheel.js:211-216 | The same weights and the same draw select the same index. |
| Wheel.PrefixIncreasing | js/wheel.js:213-214 | With positive weights, cumulative sums strictly increase. |
| Wheel.PickInInterval | js/wheel.js:213-216 | A draw in (sum before k, sum through k] selects k. A draw exactly on a boundary selects the earlier segment. |
| Wheel.PickLiesInInterval | js/wheel.js:213-217 | The selected index's interval holds the draw. The exceptions are draws at or below 0 (index 0) and draws past the total (the last index). |
| Wheel.WeightTables | js/wheel.js:26-29 | Both tables have 10 strictly positive weights summing to 100. |
| Wheel.EverySegmentReachable | js/wheel.js:13-29 | For either role, every segment, even those weighted 0.0001, is selected by some draw in [0, total). |
| Wheel.ChannelsRecompose | js/wheel.js:195-197 | The three shifted and masked channels are bytes and recompose the colour. |
| Wheel.Lighten | js/wheel.js:193-199 | Every channel is at most 255 and raised by at most the step. It never decreases for a non-negative step, and is either capped at 255 or raised by exactly the step. |
| Wheel.Darken | js/wheel.js:201-207 | Every channel is at least 0 and lowered by at most the step. It never increases for a non-negative step, and is either floored at 0 or lowered by exactly the step. |
| Wheel.ShadeExtremes | js/wheel.js:193-207 | A step of 0 gives the colour's own channels. A step of 255 or more gives white when lightening and black when darkening. |
| Wheel.CatalogueColours | js/wheel.js:13-24 | Every catalogue colour is a 24-bit number, so both shadings apply to it. |
| Wheel.WheelState.constructor | js/wheel.js:9 | A new wheel is not spinning. |
| Wheel.WheelState.IsSpinning | js/wheel.js:308-310 | True exactly while a spin is under way: Spin sets it and Complete clears it. |
| Wheel.WheelState.Spin | js/wheel.js:220-225 | A spin while spinning changes nothing. Otherwise the wheel is spinning, with the index IsPick selects for the role and the draw. |
| Wheel.WheelState.Complete | js/wheel.js:265-276 | The wheel stops. A spin under way yields `SEGMENTS[winIndex]`, and a second completion yields nothing, so each spin hands over its segment once. |
| Admin.Matches | js/admin.js:14-17 | An empty query matches every user, and a user's own lower-cased name, e-mail or role matches that user. |
| Admin.FilterMatching | js/admin.js:13-18 | An order-preserving subsequence of the list. Each user occurs in it exactly as often as in the list when it matches the query, and not at all otherwise. |
| Admin.FilterKeepsAllMatching | js/admin.js:13-18 | When every user matches, the whole list is returned. |
| Admin.FilterUsers | js/admin.js:9-19 | An empty search returns the list unchanged. Otherwise the result is the order-preserving subsequence of the users whose lower-cased username, e-mail, provider or role contains the lower-cased search, each as often as listed. |
| Admin.PublicIndexOfName | js/admin.js:219-220 | Finding a name in the public list gives the same index as finding it in the roster. |
| Admin.SpinInput | js/admin.js:232 | The text parsed is never empty: a non-empty field is kept as typed, anything else becomes `1`. |
| Admin.EmptyFieldGrantsOne | js/admin.js:232 | An absent or empty spin field parses as 1. |
| Admin.TypedCountGrant | js/admin.js:231-233 | The typed digits of a positive count parse as that count. The store grants it as typed below 10^21, and only its leading digit from 10^21 on. |
| Admin.AdminPanel.constructor | js/admin.js:7 | The search starts empty. |
| Admin.AdminPanel.OnSearchInput | js/admin.js:195-198 | The search becomes the typed text. |
| Admin.AdminPanel.FilteredUsers | js/admin.js:9-19 | The whole public list for an empty search box. Otherwise an order-preserving subsequence holding each listed user the lower-cased search matches, as often as listed, and no other. |
| Admin.AdminPanel.Open | js/admin.js:202-211 | The panel opens exactly for an admin session, and opening clears the search. |
| Admin.AdminPanel.ToggleRole | js/admin.js:217-227 | Without an admin session, or for an unknown name, nothing changes. Otherwise the requested role is user for an admin and admin for anyone else, and the store applies it as SetUserRole states. |
| Admin.AdminPanel.AddSpins | js/admin.js:229-238 | The store is called exactly for an admin session and a positive parsed count (an empty field counts as 1). It then grants `Reparsed` of that count, so a count of 10^21 or more grants only its leading digit. Otherwise nothing changes. |
| Admin.AdminPanel.ConfirmDelete | js/admin.js:240-244 | Only an admin session and a confirmed dialog reach `deleteUser`, with its effect. Otherwise nothing changes. |
| App.HandleSpin | js/app.js:250-279 | A spin runs exactly when the session user has a record with a positive balance or the admin role. Otherwise the roster and the wheel are unchanged. A busy wheel spends the spin but records no prize. Otherwise exactly one spin is spent (none for an admin) and exactly one history entry, the value of the segment IsPick selects for the user's role, is put first. The session ends as the projection of the user's record, rewritten even when out of spins, and is untouched when there is no record. The store is never left to refuse the spin. |
| App.SpinAndRecord | js/app.js:261-271 | After the spin is spent: a busy wheel changes nothing; otherwise the wheel stops on the index IsPick selects for the user's role and only that record's history changes, with the prize first. The session is untouched. |

## Left out

- DOM, canvas drawing, LED lights, the admin list's HTML and the delete
  dialog's markup are not modelled. Notifications, particle effects, sounds, the
  music player and the identity provider's sign-in popup are left out too. The
  social login takes the provider's answer (`provider`, `email`,
  `displayName`) as plain inputs.
- The wheel's animation is not modelled: angles, easing, durations, tick
  sounds and `requestAnimationFrame`. `Complete` stands for the last animation
  frame. `HandleSpin` runs it straight after the start, so nothing that happens
  while the wheel turns is modelled. The callback kept in `onSpinComplete` is
  not stored; `HandleSpin` runs its store part (`addHistory`).
- JSON serialisation and the browser's key/value store are the two `Store`
  fields. Other tabs writing the same store concurrently are not modelled.
- Rendering after an admin action or a spin is not modelled. It includes
  `renderUserList` and `updateUserInfo`, which call `getCurrentUser` and so
  rewrite the session from the live record again.
- Records whose `spins` is missing or not a number are not modelled. Balances
  are unbounded integers, not doubles, so `spins || 0` is the balance itself.
  Arithmetic on balances is exact; the lines below name the members this affects. A `_savedSpins` that is
  not a number is modelled as absent.
- Text.Lower: lower-cases only A to Z. Other letters are not folded as
  `toLowerCase` folds them, and lengths count characters, not UTF-16 code units.
- Text.ParseInt: reads decimal digits only. It does not treat a `0x` prefix
  as hexadecimal, as `parseInt` without a radix does. It does not lose
  precision on very long digit strings, and a digit run of about 1.8e308 or
  more is that number, not `Infinity`.
- Text.MagnitudeText: prints the exact digits of the count. `String` prints
  the shortest digits of the nearest double, so from 2^53 on a mantissa can
  differ. The leading digit can differ only when rounding carries into it
  (99999999999999999999999 prints as `1e+23`).
- Auth.Store.AddSpinsToUser: adds the count exactly. Above 2^53 the source's
  double-precision `+` rounds the new balance.
- Auth.Store.UseOneSpin: takes exactly one spin. Above 2^53 the source's
  `spins--` rounds, and can leave the balance unchanged.
- App.HandleSpin: spends exactly one spin through UseOneSpin, with the same
  difference above 2^53.
- Admin.AdminPanel.AddSpins: grants exactly `Reparsed` of the typed count.
  The double rounding of long typed counts and of the sum is not modelled. A
  typed count of about 1.8e308 or more (309 digits and up) is `Infinity` in
  the source; it passes the `count <= 0` guard, `parseInt` then reads the
  text `Infinity` as NaN and the store grants nothing. The model grants the
  count's leading digit instead.
- Wheel.WeightedRandom: computes on exact reals. The double-precision rounding
  of the running subtraction can move a draw that lies within about 1e-14 of a
  cumulative boundary.
- Wheel.WeightsFor: treats every role other than `admin` as `user`. It does
  not model role names that are inherited object properties (such as
  `constructor`), for which `PROBS[role]` is not a weight table.
- Wheel.Lighten: takes the channel step as an integer. The caller's
  `Math.round(2.55 * percent)` is floating-point arithmetic, and the
  `rgb(r,g,b)` text is not built.
- Wheel.Darken: takes the step the same way, for the same reason. A segment
  colour is the number its `#rrggbb` text denotes; the hexadecimal parse is
  not modelled.
- Admin.AdminPanel.ConfirmDelete: checks the admin session when the dialog is
  answered, not when it opens. A session change while the dialog is open is
  not modelled.
- Auth.Store.Init: keeps the roster invariant only when no case variant of
  `admin` is already present and no record uses `admin@vqmm.com`, because the
  seed is added on an exact-name check and its e-mail is not checked at all.
- Auth.Store.Register: lengths count characters, not UTF-16 code units, so a
  name such as two emoji is 2 long here but 4 for `username.length`.
- Auth.Store.SocialLogin: lengths count characters, not UTF-16 code units, so
  the two-character minimum of the display name is measured the same way.
