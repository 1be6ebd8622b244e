/** The spin button's action: check the balance, spend one spin, spin the
    wheel for the user's role and record the prize in the user's history. */
module App {
  import opened Util
  import opened Auth
  import opened Wheel

  /** How one press of the spin button ends. */
  datatype SpinOutcome =
    | OutOfSpins         // no session, no record, or a balance of zero or less
    | NotConsumed        // the store refused the spin
    | WheelBusy          // the spin was spent but the wheel was already turning
    | Won(prize: Segment)

  /** The index of the session user's record, if there is a session and a record. */
  function SessionIndex(users: seq<UserRecord>, session: Option<Session>): Option<nat> {
    if session.None? then None else IndexOfName(users, session.value.username)
  }

  /** The record after one spin: an admin spends nothing, anyone else one spin. */
  function Spent(u: UserRecord): UserRecord {
    if u.role == ADMIN_ROLE then u else u.(spins := u.spins - 1)
  }

  /** `handleSpin`, with the wheel's animation run to its last frame at once
      and the prize callback run there. */
  method HandleSpin(store: Store, wheel: WheelState, draw: real, now: string) returns (outcome: SpinOutcome)
    requires wheel.Valid()
    modifies store, wheel
    ensures wheel.Valid() && !outcome.NotConsumed?
    ensures outcome.OutOfSpins? <==>
      (var i := SessionIndex(old(store.users), old(store.session));
       i.None? || (old(store.users)[i.value].role != ADMIN_ROLE && old(store.users)[i.value].spins <= 0))
    ensures outcome.OutOfSpins? ==> store.users == old(store.users) && unchanged(wheel)
    ensures !outcome.OutOfSpins? ==> (outcome.WheelBusy? <==> old(wheel.spinning))
    ensures outcome.WheelBusy? ==>
      var i := SessionIndex(old(store.users), old(store.session)).value;
      unchanged(wheel) && store.users == old(store.users)[i := Spent(old(store.users)[i])]
    ensures outcome.Won? ==>
      var i := SessionIndex(old(store.users), old(store.session)).value;
      && !wheel.spinning
      && IsPick(WeightsFor(old(store.users)[i].role), draw, wheel.winIndex)
      && outcome.prize == SEGMENTS[wheel.winIndex]
      && store.users == old(store.users)[i := Spent(old(store.users)[i]).(
           history := PushHistory(old(store.users)[i].history, SpinRecord(outcome.prize.value, now)))]
    ensures |store.users| == |old(store.users)|
    ensures var i := SessionIndex(old(store.users), old(store.session));
      store.session == (if i.None? then old(store.session) else Some(Project(store.users[i.value])))
    ensures old(RosterInvariant(store.users)) ==> RosterInvariant(store.users)
  {
    ghost var users0 := store.users;
    ghost var found := SessionIndex(store.users, store.session);
    var spins := store.GetSpins();
    if spins <= 0 {
      return OutOfSpins;
    }
    ghost var i := found.value;
    assert store.users == users0 && store.session == Some(Project(users0[i]));
    var ok := store.UseOneSpin();
    if !ok {
      assert false;
      return NotConsumed;
    }
    assert store.users == users0[i := Spent(users0[i])];
    outcome := SpinAndRecord(store, wheel, draw, now, i);
  }

  /** The part of `handleSpin` after the spin was spent: re-read the user,
      spin the wheel for their role and, at the last frame, record the prize
      in the history of record `i`. */
  method SpinAndRecord(store: Store, wheel: WheelState, draw: real, now: string, ghost i: nat)
    returns (outcome: SpinOutcome)
    requires wheel.Valid() && i < |store.users|
    requires store.session == Some(Project(store.users[i]))
    requires IndexOfName(store.users, store.users[i].username) == Some(i)
    modifies store, wheel
    ensures wheel.Valid() && (outcome.WheelBusy? || outcome.Won?)
    ensures outcome.WheelBusy? <==> old(wheel.spinning)
    ensures store.session == old(store.session)
    ensures outcome.WheelBusy? ==> unchanged(wheel) && store.users == old(store.users)
    ensures outcome.Won? ==>
      && !wheel.spinning
      && IsPick(WeightsFor(old(store.users)[i].role), draw, wheel.winIndex)
      && outcome.prize == SEGMENTS[wheel.winIndex]
      && store.users == old(store.users)[i := old(store.users)[i].(
           history := PushHistory(old(store.users)[i].history, SpinRecord(outcome.prize.value, now)))]
    ensures old(RosterInvariant(store.users)) ==> RosterInvariant(store.users)
  {
    var user := store.GetCurrentUser();
    assert user.Some? && user.value.role == store.users[i].role;
    var started := wheel.Spin(user.value.role, draw);
    if !started {
      return WheelBusy;
    }
    var result := wheel.Complete();
    var _ := store.AddHistory(result.value.value, now);
    outcome := Won(result.value);
  }
}
