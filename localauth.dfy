/** The local-authentication state machine (src/services/localAuth.js).
    A `request` in Idle opens a Working session and arms a timer that returns to Idle
    after 60 seconds; `auth` in Working answers and returns to Idle.

    Time is a parameter: each operation receives the current time in milliseconds, never
    earlier than the time of the previous one, and a timer fires through `Fire` once its
    deadline has passed, earliest deadline first. The source arms the timer without keeping
    its handle and `auth` clears `this.timer`, which is never assigned, so a session closed
    by `auth` leaves its timer armed. `LocalAuthAsWritten` models that code;
    `LocalAuth` keeps the handle and clears it, which is what `auth` evidently means. */
module LocalAuth {
  import opened Wrappers

  datatype Phase = Idle | Working

  /** The session length, `60 * 1000` milliseconds. */
  const SessionMs: nat := 60 * 1000

  /** The fixed answer of a granted request. */
  const Challenge: seq<int> := [120, 203, 123, 102]

  /** `verify`: every token is accepted. */
  function Verify(token: string): (ok: bool)
    ensures ok
  {
    true
  }

  /** The code as written: `auth` leaves the request's timer armed. */
  class LocalAuthAsWritten {
    var state: Phase
    /** Deadlines of the armed timers, in firing order. */
    var armed: seq<nat>
    var clock: nat

    predicate Valid()
      reads this
    {
      forall i :: 0 <= i < |armed| ==> armed[i] <= clock + SessionMs
    }

    constructor ()
      ensures Valid() && state == Idle && armed == [] && clock == 0
    {
      state := Idle;
      armed := [];
      clock := 0;
    }

    method Request(now: nat) returns (r: Result<seq<int>>)
      requires Valid() && clock <= now
      modifies this
      ensures Valid() && clock == now
      ensures old(state) == Idle ==>
        r == Ok(Challenge) && state == Working && armed == old(armed) + [now + SessionMs]
      ensures old(state) != Idle ==> r == Err("EBUSY") && state == old(state) && armed == old(armed)
    {
      clock := now;
      if state == Idle {
        state := Working;
        armed := armed + [now + SessionMs];
        r := Ok(Challenge);
      } else {
        r := Err("EBUSY");
      }
    }

    method Auth(data: seq<int>, now: nat) returns (r: Result<string>)
      requires Valid() && clock <= now
      modifies this
      ensures Valid() && clock == now && armed == old(armed)
      ensures old(state) == Working ==> r == Ok("abc") && state == Idle
      ensures old(state) != Working ==> r == Err("ESTATE") && state == old(state)
    {
      clock := now;
      if state != Working {
        return Err("ESTATE");
      }
      r := Ok("abc");
      state := Idle;
    }

    /** The earliest armed timer fires and sets the state to Idle. */
    method Fire(now: nat)
      requires Valid() && clock <= now && armed != [] && armed[0] <= now
      modifies this
      ensures Valid() && clock == now && state == Idle && armed == old(armed[1..])
    {
      clock := now;
      armed := armed[1..];
      state := Idle;
    }
  }

  /** A request at 0, `auth` at 10 and a new request at 20: the first session's timer still
      fires at 60000 and ends the second session 59980 ms after it was granted. */
  method StaleTimerCutsSession() returns (granted: nat, ended: nat, outcome: Phase)
    ensures granted == 20 && ended == SessionMs && outcome == Idle
    ensures ended - granted < SessionMs
  {
    var m := new LocalAuthAsWritten();
    var r1 := m.Request(0);
    var r2 := m.Auth([], 10);
    var r3 := m.Request(20);
    assert r3.Ok? && m.state == Working;
    granted := 20;
    m.Fire(SessionMs);
    ended := SessionMs;
    outcome := m.state;
  }

  /** `auth` clearing the timer that `request` armed. */
  class LocalAuth {
    var state: Phase
    /** Deadlines of the armed timers, in firing order. */
    var armed: seq<nat>
    var clock: nat
    /** When the current session was granted. */
    var since: nat

    /** Idle exactly when no timer is armed; a Working session has just its own timer. */
    predicate Valid()
      reads this
    {
      && (state == Idle ==> armed == [])
      && (state == Working ==> armed == [since + SessionMs] && since <= clock)
    }

    constructor ()
      ensures Valid() && state == Idle && clock == 0
    {
      state := Idle;
      armed := [];
      clock := 0;
      since := 0;
    }

    method Request(now: nat) returns (r: Result<seq<int>>)
      requires Valid() && clock <= now
      modifies this
      ensures Valid() && clock == now
      ensures old(state) == Idle ==> r == Ok(Challenge) && state == Working && since == now
      ensures old(state) != Idle ==>
        r == Err("EBUSY") && state == old(state) && since == old(since)
    {
      clock := now;
      if state == Idle {
        state := Working;
        since := now;
        armed := [now + SessionMs];
        r := Ok(Challenge);
      } else {
        r := Err("EBUSY");
      }
    }

    method Auth(data: seq<int>, now: nat) returns (r: Result<string>)
      requires Valid() && clock <= now
      modifies this
      ensures Valid() && clock == now
      ensures old(state) == Working ==> r == Ok("abc") && state == Idle && armed == []
      ensures old(state) != Working ==> r == Err("ESTATE") && state == old(state)
    {
      clock := now;
      if state != Working {
        return Err("ESTATE");
      }
      armed := [];
      r := Ok("abc");
      state := Idle;
    }

    /** A timer that fires always ends the session that armed it, and not before the full
        session length has passed. */
    method Fire(now: nat)
      requires Valid() && clock <= now && armed != [] && armed[0] <= now
      modifies this
      ensures Valid() && state == Idle && clock == now
      ensures old(state) == Working && now >= old(since) + SessionMs
    {
      clock := now;
      armed := armed[1..];
      state := Idle;
    }
  }
}
