/** The process variant in lab2/info/code/task.c:
    the run threshold is the `max_streak` field, and a caller is counted as
    waiting only when its first check fails (`must_wait`). */
module Lab2Info {
  import opened Common
  import Lab1Task

  const MAX_STREAK_FOR_STATE: nat := 5

  /** The fields of `Br` that the controller reads and writes. */
  datatype Record = Record(
    cabinsTotal: nat,
    cabinsUsed: nat,
    state: State,
    waitingMen: nat,
    waitingWomen: nat,
    streak: nat,
    maxStreak: nat)

  function Waiting(b: Record, s: Sex): nat
  {
    if s == Man then b.waitingMen else b.waitingWomen
  }

  predicate Invariant(b: Record)
  {
    b.cabinsUsed <= b.cabinsTotal && (b.state == Nobody <==> b.cabinsUsed == 0)
  }

  /** The record `initBathroom` fills in (four cabins, threshold 5), with the
      command-line overrides of `cabins_total` and `max_streak`. */
  function Initial(cabinsTotal: nat, maxStreak: nat): (b: Record)
    ensures Invariant(b) && b.cabinsTotal == cabinsTotal && b.maxStreak == maxStreak
    ensures b.state == Nobody && b.streak == 0
    ensures Waiting(b, Man) == 0 && Waiting(b, Woman) == 0
  {
    Record(cabinsTotal, 0, Nobody, 0, 0, 0, maxStreak)
  }

  /** `canEnter`, with the threshold `max_streak`. */
  function CanEnter(b: Record, s: Sex): (r: bool)
    ensures b.cabinsUsed == b.cabinsTotal ==> !r
    ensures b.cabinsUsed != b.cabinsTotal && b.state == Nobody ==> r
    ensures r && b.state != Nobody ==> b.state == s
    ensures b.cabinsUsed != b.cabinsTotal && b.state == s ==>
              (r <==> b.streak < b.maxStreak || Waiting(b, Opposite(s)) == 0)
  {
    if b.cabinsUsed == b.cabinsTotal then false
    else if b.state == Nobody then true
    else if b.state != s then false
    else if b.streak >= b.maxStreak && s == Man && b.waitingWomen > 0 then false
    else if b.streak >= b.maxStreak && s == Woman && b.waitingMen > 0 then false
    else true
  }

  /** `enterBathroom` before its wait loop: `must_wait` is the failure of
      the first check, and only then is the caller counted as waiting. */
  function Arrive(b: Record, s: Sex): (r: Record)
    ensures CanEnter(b, s) ==> r == b
    ensures !CanEnter(b, s) ==> Waiting(r, s) == Waiting(b, s) + 1
    ensures Waiting(r, Opposite(s)) == Waiting(b, Opposite(s))
    ensures r.(waitingMen := b.waitingMen, waitingWomen := b.waitingWomen) == b
    ensures CanEnter(r, s) == CanEnter(b, s)
  {
    var mustWait := !CanEnter(b, s);
    if !mustWait then b
    else if s == Man then b.(waitingMen := b.waitingMen + 1)
    else b.(waitingWomen := b.waitingWomen + 1)
  }

  /** `enterBathroom` after its wait loop: the caller's waiting count comes
      down under the same `must_wait` that put it up, and it takes a cabin. */
  function Enter(b: Record, s: Sex, mustWait: bool): (r: Record)
    requires CanEnter(b, s) && (mustWait ==> Waiting(b, s) > 0)
    ensures r.cabinsUsed == b.cabinsUsed + 1 && r.state == s
    ensures b.state == Nobody ==> r.streak == 1
    ensures b.state != Nobody ==> r.streak == b.streak + 1
    ensures Waiting(r, s) == Waiting(b, s) - (if mustWait then 1 else 0)
    ensures Waiting(r, Opposite(s)) == Waiting(b, Opposite(s))
    ensures r.cabinsTotal == b.cabinsTotal && r.maxStreak == b.maxStreak
    ensures Invariant(b) ==> Invariant(r)
  {
    var counted := if !mustWait then b
                   else if s == Man then b.(waitingMen := b.waitingMen - 1)
                   else b.(waitingWomen := b.waitingWomen - 1);
    var taken := if counted.state == Nobody then counted.(state := s, streak := 0) else counted;
    taken.(cabinsUsed := taken.cabinsUsed + 1, streak := taken.streak + 1)
  }

  /** `leaveBathroom`. */
  function Leave(b: Record, s: Sex): (r: Record)
    requires b.cabinsUsed > 0
    ensures r.cabinsUsed == b.cabinsUsed - 1
    ensures r.cabinsUsed == 0 ==> r.state == Nobody && r.streak == 0
    ensures r.cabinsUsed > 0 ==> r.state == b.state && r.streak == b.streak
    ensures Waiting(r, Man) == Waiting(b, Man) && Waiting(r, Woman) == Waiting(b, Woman)
    ensures r.cabinsTotal == b.cabinsTotal && r.maxStreak == b.maxStreak
    ensures Invariant(b) ==> Invariant(r)
    ensures r.cabinsUsed == 0 && r.cabinsTotal > 0 ==> CanEnter(r, Man) && CanEnter(r, Woman)
  {
    var freed := b.(cabinsUsed := b.cabinsUsed - 1);
    if freed.cabinsUsed == 0 then freed.(state := Nobody, streak := 0) else freed
  }

  /** The same record in the thread variant's layout. */
  function AsThreadRecord(b: Record): Lab1Task.Record
  {
    Lab1Task.Record(b.cabinsTotal, b.cabinsUsed, b.state, b.waitingMen, b.waitingWomen, b.streak, b.maxStreak)
  }

  /** With `max_streak` at its default of 5 this variant admits exactly whom
      the thread variant admits, and an admission of a caller that had to
      wait updates the record the same way. */
  lemma AgreesWithThreadVariant(b: Record, s: Sex)
    requires b.maxStreak == MAX_STREAK_FOR_STATE
    ensures CanEnter(b, s) == Lab1Task.CanEnter(AsThreadRecord(b), s)
    ensures CanEnter(b, s) && Waiting(b, s) > 0 ==>
              AsThreadRecord(Enter(b, s, true)) == Lab1Task.Enter(AsThreadRecord(b), s)
  {
  }

  /** An arrival is a step only when the caller must wait; a caller that may
      enter at once goes straight to `Entry` with `waited` false. */
  predicate Enabled(b: Record, e: Event)
  {
    match e
    case Arrival(s) => !CanEnter(b, s)
    case Entry(s, waited) => (waited ==> Waiting(b, s) > 0) && CanEnter(b, s)
    case Departure(s) => b.cabinsUsed > 0 && b.state == s
    case Abandonment(_) => false
  }

  function Step(b: Record, e: Event): Record
    requires Enabled(b, e)
  {
    match e
    case Arrival(s) => Arrive(b, s)
    case Entry(s, waited) => Enter(b, s, waited)
    case Departure(s) => Leave(b, s)
    case Abandonment(_) => b
  }

  function Run(b: Record, t: seq<Event>): Option<Record>
    decreases |t|
  {
    if t == [] then Some(b)
    else if Enabled(b, t[0]) then Run(Step(b, t[0]), t[1..])
    else None
  }

  /** Any run keeps the invariant, the students inside segregated, and the
      waiting counters equal to the callers the events leave waiting. */
  lemma {:induction false} RunIsSafe(b: Record, t: seq<Event>, men: int, women: int)
    requires Invariant(b) && Segregated(b.cabinsUsed, b.state, men, women)
    requires Run(b, t).Some?
    decreases |t|
    ensures Invariant(Run(b, t).value)
    ensures Segregated(Run(b, t).value.cabinsUsed, Run(b, t).value.state,
                       men + Inside(t, Man), women + Inside(t, Woman))
    ensures Waiting(Run(b, t).value, Man) == Waiting(b, Man) + Waiters(t, Man)
    ensures Waiting(Run(b, t).value, Woman) == Waiting(b, Woman) + Waiters(t, Woman)
  {
    if t != [] {
      var e := t[0];
      assert [e][1..] == [];
      match e {
        case Arrival(_) =>
        case Entry(s, _) =>
          EntryKeepsSegregated(b.cabinsUsed, b.state, men, women, s);
        case Departure(s) =>
          DepartureKeepsSegregated(b.cabinsUsed, b.state, men, women, s, Step(b, e).state);
      }
      assert Inside(t, Man) == Inside([e], Man) + Inside(t[1..], Man);
      assert Inside(t, Woman) == Inside([e], Woman) + Inside(t[1..], Woman);
      RunIsSafe(Step(b, e), t[1..], men + Inside([e], Man), women + Inside([e], Woman));
    }
  }

  /** Every state reachable from `initBathroom`'s record is safe, and no
      waiting count is left behind by callers that were admitted. */
  lemma ReachableIsSafe(cabinsTotal: nat, maxStreak: nat, t: seq<Event>)
    requires Run(Initial(cabinsTotal, maxStreak), t).Some?
    ensures Invariant(Run(Initial(cabinsTotal, maxStreak), t).value)
    ensures Segregated(Run(Initial(cabinsTotal, maxStreak), t).value.cabinsUsed,
                       Run(Initial(cabinsTotal, maxStreak), t).value.state,
                       Inside(t, Man), Inside(t, Woman))
    ensures Waiting(Run(Initial(cabinsTotal, maxStreak), t).value, Man) == Waiters(t, Man)
    ensures Waiting(Run(Initial(cabinsTotal, maxStreak), t).value, Woman) == Waiters(t, Woman)
  {
    RunIsSafe(Initial(cabinsTotal, maxStreak), t, 0, 0);
  }

  /** `must_wait` is computed once and both raises and lowers the caller's
      waiting count: whatever other callers did while it waited, if they
      left its count where the arrival put it, the admission puts the count
      back where it was before the call. */
  lemma EnterRestoresWaiting(b: Record, s: Sex, b': Record)
    requires CanEnter(b', s) && Waiting(b', s) == Waiting(Arrive(b, s), s)
    ensures Waiting(Enter(b', s, !CanEnter(b, s)), s) == Waiting(b, s)
  {
  }

  /** The record `b` points to, and the code that updates it. */
  class Bathroom {
    var cabinsTotal: nat
    var cabinsUsed: nat
    var state: State
    var waitingMen: nat
    var waitingWomen: nat
    var streak: nat
    var maxStreak: nat

    function Snapshot(): Record
      reads this
    {
      Record(cabinsTotal, cabinsUsed, state, waitingMen, waitingWomen, streak, maxStreak)
    }

    predicate Valid()
      reads this
    {
      Invariant(Snapshot())
    }

    /** `initBathroom`, followed by the command-line overrides. */
    constructor (cabinsTotal: nat, maxStreak: nat)
      ensures Valid() && Snapshot() == Initial(cabinsTotal, maxStreak)
    {
      this.cabinsTotal := cabinsTotal;
      cabinsUsed := 0;
      state := Nobody;
      waitingMen := 0;
      waitingWomen := 0;
      streak := 0;
      this.maxStreak := maxStreak;
    }

    /** `enterBathroom` up to its wait loop. */
    method BeginEnter(s: Sex) returns (mustWait: bool)
      requires Valid()
      modifies this
      ensures mustWait == !CanEnter(old(Snapshot()), s)
      ensures Valid() && Snapshot() == Arrive(old(Snapshot()), s)
    {
      mustWait := !CanEnter(Snapshot(), s);
      if mustWait {
        if s == Man {
          waitingMen := waitingMen + 1;
        } else {
          waitingWomen := waitingWomen + 1;
        }
      }
    }

    /** `enterBathroom` once its wait loop has exited. */
    method FinishEnter(s: Sex, mustWait: bool)
      requires Valid() && CanEnter(Snapshot(), s) && (mustWait ==> Waiting(Snapshot(), s) > 0)
      modifies this
      ensures Valid() && Snapshot() == Enter(old(Snapshot()), s, mustWait)
    {
      if mustWait {
        if s == Man {
          waitingMen := waitingMen - 1;
        } else {
          waitingWomen := waitingWomen - 1;
        }
      }
      if state == Nobody {
        state := s;
        streak := 0;
      }
      cabinsUsed := cabinsUsed + 1;
      streak := streak + 1;
    }

    /** A whole `enterBathroom` whose first check succeeds: nobody is
        counted as waiting. */
    method EnterBathroom(s: Sex)
      requires Valid() && CanEnter(Snapshot(), s)
      modifies this
      ensures Valid() && Snapshot() == Enter(old(Snapshot()), s, false)
      ensures waitingMen == old(waitingMen) && waitingWomen == old(waitingWomen)
    {
      var mustWait := BeginEnter(s);
      FinishEnter(s, mustWait);
    }

    /** `leaveBathroom`. */
    method LeaveBathroom(s: Sex)
      requires Valid() && cabinsUsed > 0
      modifies this
      ensures Valid() && Snapshot() == Leave(old(Snapshot()), s)
    {
      cabinsUsed := cabinsUsed - 1;
      if cabinsUsed == 0 {
        state := Nobody;
        streak := 0;
      }
    }
  }
}
