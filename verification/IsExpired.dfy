/** lib/isexpired.c: the age of a password as a chain of day comparisons. */
module IsExpired {
  import opened Wrappers
  import opened Adds

  /** The fields of `struct spwd` the check reads; -1 stands for an empty field. */
  datatype Spwd = Spwd(lstchg: long, max: long, inact: long, expire: long)

  /** `isexpired` on day `now`: 0 valid, 1 must be changed, 2 disabled, 3 expired.
      `shadowed` says that the password field of the account is "x". */
  function Status(shadowed: bool, sp: Option<Spwd>, now: long): int {
    match sp
    case None => 0
    case Some(s) =>
      if s.expire > 0 && now >= s.expire then 3
      else if s.lstchg == 0 && shadowed then 1
      else if s.lstchg > 0 && s.max >= 0 && s.inact >= 0 && now >= Clamp(Sum([s.lstchg, s.max, s.inact])) then 2
      else if s.lstchg == -1 || s.max == -1 then 0
      else if now >= Clamp(Sum([s.lstchg, s.max])) then 1
      else 0
  }

  lemma {:induction false} Sums(a: long, b: long, c: long)
    ensures Sum([a, b]) == (a as int) + (b as int)
    ensures Sum([a, b, c]) == (a as int) + (b as int) + (c as int)
  {
    SumSnoc([], a);
    SumSnoc([a], b);
    SumSnoc([a, b], c);
    assert [] + [a] == [a] && [a] + [b] == [a, b] && [a, b] + [c] == [a, b, c];
  }

  /** As the days pass an account never becomes less expired. */
  lemma {:induction false} NeverDecreases(shadowed: bool, sp: Option<Spwd>, now: long, later: long)
    requires now <= later
    ensures Status(shadowed, sp, now) <= Status(shadowed, sp, later)
  {
    if sp.Some? {
      Sums(sp.value.lstchg, sp.value.max, sp.value.inact);
    }
  }

  /** The account is reported disabled only from the day the password's maximum
      age is over, and then only after the inactivity period. */
  lemma {:induction false} DisabledOnlyAfterMaxAge(shadowed: bool, s: Spwd, now: long)
    requires Status(shadowed, Some(s), now) == 2
    ensures now >= Clamp((s.lstchg as int) + (s.max as int))
    ensures now == LONG_MAX || now >= (s.lstchg as int) + (s.max as int) + (s.inact as int)
  {
    Sums(s.lstchg, s.max, s.inact);
  }

  /** The clamped comparison is the exact one on every day but the last representable. */
  lemma {:induction false} ClampIsExact(total: int, now: long)
    requires LONG_MIN < now < LONG_MAX
    ensures now >= Clamp(total) <==> now >= total
  {
  }

  /** On such a day and for an account with all fields set and no expiry date,
      the status is decided by two exact dates. */
  lemma {:induction false} StatusByDates(shadowed: bool, s: Spwd, now: long)
    requires LONG_MIN < now < LONG_MAX && s.lstchg > 0 && s.max >= 0 && s.inact >= 0 && s.expire <= 0
    ensures var age := (s.lstchg as int) + (s.max as int);
            Status(shadowed, Some(s), now) == if now >= age + (s.inact as int) then 2 else if now >= age then 1 else 0
  {
    Sums(s.lstchg, s.max, s.inact);
  }

  /** The day has come; the last representable day counts as any later one. */
  predicate Reached(now: long, day: int) {
    now == LONG_MAX || now >= day
  }

  /** The account itself has expired. */
  predicate AccountOver(s: Spwd, now: long) {
    s.expire > 0 && now >= s.expire
  }

  /** The administrator asked for a change, and the password is a shadowed one. */
  predicate MustChange(shadowed: bool, s: Spwd) {
    s.lstchg == 0 && shadowed
  }

  /** The inactivity period after the maximum age is over. */
  predicate InactiveTooLong(s: Spwd, now: long) {
    s.lstchg > 0 && s.max >= 0 && s.inact >= 0 && Reached(now, s.lstchg + s.max + s.inact)
  }

  /** Exactly when each status is reported, on any day. */
  lemma {:induction false} StatusExactly(shadowed: bool, s: Spwd, now: long)
    ensures Status(shadowed, None, now) == 0
    ensures Status(shadowed, Some(s), now) == 3 <==> AccountOver(s, now)
    ensures Status(shadowed, Some(s), now) == 2 <==>
              !AccountOver(s, now) && !MustChange(shadowed, s) && InactiveTooLong(s, now)
    ensures Status(shadowed, Some(s), now) == 1 <==>
              && !AccountOver(s, now)
              && (MustChange(shadowed, s)
                  || (!InactiveTooLong(s, now) && s.lstchg != -1 && s.max != -1 && Reached(now, s.lstchg + s.max)))
    ensures 0 <= Status(shadowed, Some(s), now) <= 3
  {
    Sums(s.lstchg, s.max, s.inact);
  }
}
