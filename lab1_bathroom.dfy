/** The refactored thread variant (lab1/code/src/bathroom.c with the constants
    of lab1/code/include/bathroom.h): the same controller as lab1/code/task.c,
    over a `struct Bathroom` without a `max_streak` field. */
module Lab1Bathroom {
  import opened Common
  import Lab1Task

  const MAX_STREAK_FOR_STATE: nat := 5
  const BATHROOM_CAPACITY: nat := 4

  /** The fields of `struct Bathroom` from bathroom.h. */
  datatype Record = Record(
    cabinsTotal: nat,
    cabinsUsed: nat,
    state: State,
    waitingMen: nat,
    waitingWomen: nat,
    streak: nat)

  function Waiting(b: Record, s: Sex): nat
  {
    if s == Man then b.waitingMen else b.waitingWomen
  }

  predicate Invariant(b: Record)
  {
    b.cabinsUsed <= b.cabinsTotal && (b.state == Nobody <==> b.cabinsUsed == 0)
  }

  /** The initialiser of `b`: four cabins, empty, and a run count of 5 that
      an empty bathroom never consults. */
  function Initial(): (b: Record)
    ensures Invariant(b) && b.cabinsTotal == BATHROOM_CAPACITY
    ensures b.state == Nobody && b.streak == MAX_STREAK_FOR_STATE
    ensures Waiting(b, Man) == 0 && Waiting(b, Woman) == 0
    ensures forall s: Sex :: CanEnter(b, s)
  {
    Record(BATHROOM_CAPACITY, 0, Nobody, 0, 0, MAX_STREAK_FOR_STATE)
  }

  /** `canEnter`. */
  function CanEnter(b: Record, s: Sex): (r: bool)
    ensures b.cabinsUsed == b.cabinsTotal ==> !r
    ensures b.cabinsUsed != b.cabinsTotal && b.state == Nobody ==> r
    ensures r && b.state != Nobody ==> b.state == s
    ensures b.cabinsUsed != b.cabinsTotal && b.state == s ==>
              (r <==> b.streak < MAX_STREAK_FOR_STATE || Waiting(b, Opposite(s)) == 0)
  {
    if b.cabinsUsed == b.cabinsTotal then false
    else if b.state == Nobody then true
    else if b.state != s then false
    else if b.streak >= MAX_STREAK_FOR_STATE && s == Man && b.waitingWomen > 0 then false
    else if b.streak >= MAX_STREAK_FOR_STATE && s == Woman && b.waitingMen > 0 then false
    else true
  }

  /** `enterBathroom` before its wait loop. */
  function Arrive(b: Record, s: Sex): (r: Record)
    ensures Waiting(r, s) == Waiting(b, s) + 1
    ensures Waiting(r, Opposite(s)) == Waiting(b, Opposite(s))
    ensures r.(waitingMen := b.waitingMen, waitingWomen := b.waitingWomen) == b
    ensures CanEnter(r, s) == CanEnter(b, s)
  {
    if s == Man then b.(waitingMen := b.waitingMen + 1)
    else b.(waitingWomen := b.waitingWomen + 1)
  }

  /** `enterBathroom` after its wait loop. */
  function Enter(b: Record, s: Sex): (r: Record)
    requires CanEnter(b, s) && Waiting(b, s) > 0
    ensures r.cabinsUsed == b.cabinsUsed + 1 && r.state == s
    ensures b.state == Nobody ==> r.streak == 1
    ensures b.state != Nobody ==> r.streak == b.streak + 1
    ensures Waiting(r, s) == Waiting(b, s) - 1
    ensures Waiting(r, Opposite(s)) == Waiting(b, Opposite(s))
    ensures r.cabinsTotal == b.cabinsTotal
    ensures Invariant(b) ==> Invariant(r)
  {
    var counted := if s == Man then b.(waitingMen := b.waitingMen - 1)
                   else b.(waitingWomen := b.waitingWomen - 1);
    var taken := if counted.state == Nobody then counted.(state := s, streak := 0) else counted;
    taken.(cabinsUsed := taken.cabinsUsed + 1, streak := taken.streak + 1)
  }

  /** `leaveBathroom`. */
  function Leave(b: Record, s: Sex): (r: Record)
    requires b.cabinsUsed > 0
    ensures r.cabinsUsed == b.cabinsUsed - 1
    ensures r.cabinsUsed == 0 ==> r.state == Nobody && r.streak == 0
    ensures r.cabinsUsed > 0 ==> r.state == b.state && r.streak == b.streak
    ensures Waiting(r, Man) == Waiting(b, Man) && Waiting(r, Woman) == Waiting(b, Woman)
    ensures r.cabinsTotal == b.cabinsTotal
    ensures Invariant(b) ==> Invariant(r)
    ensures r.cabinsUsed == 0 && r.cabinsTotal > 0 ==> CanEnter(r, Man) && CanEnter(r, Woman)
  {
    var freed := b.(cabinsUsed := b.cabinsUsed - 1);
    if freed.cabinsUsed == 0 then freed.(state := Nobody, streak := 0) else freed
  }

  /** The same record seen through the thread variant's `struct Bathroom`,
      whose extra `max_streak` field takes the value `maxStreak`. */
  function AsThreadRecord(b: Record, maxStreak: nat): Lab1Task.Record
  {
    Lab1Task.Record(b.cabinsTotal, b.cabinsUsed, b.state, b.waitingMen, b.waitingWomen, b.streak, maxStreak)
  }

  /** This file and lab1/code/task.c decide admission alike, enter alike and
      leave alike, whatever the thread variant's `max_streak` holds. */
  lemma AgreesWithThreadVariant(b: Record, s: Sex, maxStreak: nat)
    ensures CanEnter(b, s) == Lab1Task.CanEnter(AsThreadRecord(b, maxStreak), s)
    ensures AsThreadRecord(Arrive(b, s), maxStreak) == Lab1Task.Arrive(AsThreadRecord(b, maxStreak), s)
    ensures CanEnter(b, s) && Waiting(b, s) > 0 ==>
              AsThreadRecord(Enter(b, s), maxStreak) == Lab1Task.Enter(AsThreadRecord(b, maxStreak), s)
    ensures b.cabinsUsed > 0 ==>
              AsThreadRecord(Leave(b, s), maxStreak) == Lab1Task.Leave(AsThreadRecord(b, maxStreak), s)
    ensures Invariant(b) == Lab1Task.Invariant(AsThreadRecord(b, maxStreak))
  {
  }

  predicate Enabled(b: Record, e: Event)
  {
    match e
    case Arrival(_) => true
    case Entry(s, waited) => waited && Waiting(b, s) > 0 && CanEnter(b, s)
    case Departure(s) => b.cabinsUsed > 0 && b.state == s
    case Abandonment(_) => false
  }

  function Step(b: Record, e: Event): Record
    requires Enabled(b, e)
  {
    match e
    case Arrival(s) => Arrive(b, s)
    case Entry(s, _) => Enter(b, s)
    case Departure(s) => Leave(b, s)
    case Abandonment(_) => b
  }

  function Run(b: Record, t: seq<Event>): Option<Record>
    decreases |t|
  {
    if t == [] then Some(b)
    else if Enabled(b, t[0]) then Run(Step(b, t[0]), t[1..])
    else None
  }

  /** A run of this variant is a run of the thread variant, step for step. */
  lemma {:induction false} RunAgreesWithThreadVariant(b: Record, t: seq<Event>, maxStreak: nat)
    decreases |t|
    ensures Run(b, t).Some? <==> Lab1Task.Run(AsThreadRecord(b, maxStreak), t).Some?
    ensures Run(b, t).Some? ==>
              AsThreadRecord(Run(b, t).value, maxStreak) == Lab1Task.Run(AsThreadRecord(b, maxStreak), t).value
  {
    if t != [] {
      AgreesWithThreadVariant(b, t[0].sex, maxStreak);
      if Enabled(b, t[0]) {
        RunAgreesWithThreadVariant(Step(b, t[0]), t[1..], maxStreak);
      }
    }
  }

  /** Every state reachable from the initialiser keeps the invariant, the
      students inside are all of one sex, and the waiting counters count
      exactly the callers still waiting. */
  lemma ReachableIsSafe(t: seq<Event>)
    requires Run(Initial(), t).Some?
    ensures Invariant(Run(Initial(), t).value)
    ensures Segregated(Run(Initial(), t).value.cabinsUsed, Run(Initial(), t).value.state,
                       Inside(t, Man), Inside(t, Woman))
    ensures Waiting(Run(Initial(), t).value, Man) == Waiters(t, Man)
    ensures Waiting(Run(Initial(), t).value, Woman) == Waiters(t, Woman)
  {
    var thread := AsThreadRecord(Initial(), 0);
    RunAgreesWithThreadVariant(Initial(), t, 0);
    assert thread == Lab1Task.Initial(BATHROOM_CAPACITY, 0);
    Lab1Task.ReachableIsSafe(BATHROOM_CAPACITY, 0, t);
    Lab1Task.RunCountsWaiters(thread, t, Man);
    Lab1Task.RunCountsWaiters(thread, t, Woman);
  }

  /** The global `b` and the code that updates it. */
  class Bathroom {
    var cabinsTotal: nat
    var cabinsUsed: nat
    var state: State
    var waitingMen: nat
    var waitingWomen: nat
    var streak: nat

    function Snapshot(): Record
      reads this
    {
      Record(cabinsTotal, cabinsUsed, state, waitingMen, waitingWomen, streak)
    }

    predicate Valid()
      reads this
    {
      Invariant(Snapshot())
    }

    constructor ()
      ensures Valid() && Snapshot() == Initial()
    {
      cabinsTotal := BATHROOM_CAPACITY;
      cabinsUsed := 0;
      state := Nobody;
      waitingMen := 0;
      waitingWomen := 0;
      streak := MAX_STREAK_FOR_STATE;
    }

    /** `enterBathroom` up to its wait loop. */
    method BeginEnter(s: Sex)
      requires Valid()
      modifies this
      ensures Valid() && Snapshot() == Arrive(old(Snapshot()), s)
    {
      if s == Man {
        waitingMen := waitingMen + 1;
      } else {
        waitingWomen := waitingWomen + 1;
      }
    }

    /** `enterBathroom` once its wait loop has exited. */
    method FinishEnter(s: Sex)
      requires Valid() && CanEnter(Snapshot(), s) && Waiting(Snapshot(), s) > 0
      modifies this
      ensures Valid() && Snapshot() == Enter(old(Snapshot()), s)
    {
      if s == Man {
        waitingMen := waitingMen - 1;
      } else {
        waitingWomen := waitingWomen - 1;
      }
      if state == Nobody {
        state := s;
        streak := 0;
      }
      cabinsUsed := cabinsUsed + 1;
      streak := streak + 1;
    }

    /** A whole `enterBathroom` whose wait loop finds `canEnter` true at once:
        the waiting counter goes up and back down. */
    method EnterBathroom(s: Sex)
      requires Valid() && CanEnter(Snapshot(), s)
      modifies this
      ensures Valid() && Snapshot() == Enter(Arrive(old(Snapshot()), s), s)
      ensures waitingMen == old(waitingMen) && waitingWomen == old(waitingWomen)
    {
      BeginEnter(s);
      FinishEnter(s);
    }

    /** `leaveBathroom`. */
    method LeaveBathroom(s: Sex)
      requires Valid() && cabinsUsed > 0
      modifies this
      ensures Valid() && Snapshot() == Leave(old(Snapshot()), s)
    {
      cabinsUsed := cabinsUsed - 1;
      if cabinsUsed == 0 {
        state := Nobody;
        streak := 0;
      }
    }
  }
}
