/** The thread variant of the controller (lab1/code/task.c): a fixed run
    threshold, no memory of who left last. */
module Lab1Task {
  import opened Common

  /** The run threshold `canEnter` uses; the `max_streak` field plays no part. */
  const MAX_STREAK_FOR_STATE: nat := 5

  /** The fields of `struct Bathroom` that the controller reads and writes. */
  datatype Record = Record(
    cabinsTotal: nat,
    cabinsUsed: nat,
    state: State,
    waitingMen: nat,
    waitingWomen: nat,
    streak: nat,
    maxStreak: nat)

  /** The waiting counter of sex `s`. */
  function Waiting(b: Record, s: Sex): nat
  {
    if s == Man then b.waitingMen else b.waitingWomen
  }

  /** Never more occupants than cabins, and `state` is `nobody` exactly when
      the bathroom is empty. */
  predicate Invariant(b: Record)
  {
    b.cabinsUsed <= b.cabinsTotal && (b.state == Nobody <==> b.cabinsUsed == 0)
  }

  /** The static initialiser of `b`, with `cabins_total` and `max_streak` as
      the command line leaves them (4 and 0 by default). */
  function Initial(cabinsTotal: nat, maxStreak: nat): (b: Record)
    ensures Invariant(b) && b.cabinsTotal == cabinsTotal && b.maxStreak == maxStreak
    ensures b.state == Nobody && Waiting(b, Man) == 0 && Waiting(b, Woman) == 0
    ensures b.streak == MAX_STREAK_FOR_STATE
  {
    Record(cabinsTotal, 0, Nobody, 0, 0, MAX_STREAK_FOR_STATE, maxStreak)
  }

  /** `canEnter`: may a student of sex `s` take a cabin now? */
  function CanEnter(b: Record, s: Sex): (r: bool)
    ensures b.cabinsUsed == b.cabinsTotal ==> !r
    ensures b.cabinsUsed != b.cabinsTotal && b.state == Nobody ==> r
    ensures r && b.state != Nobody ==> b.state == s
    ensures b.cabinsUsed != b.cabinsTotal && b.state == s ==>
              (r <==> b.streak < MAX_STREAK_FOR_STATE || Waiting(b, Opposite(s)) == 0)
  {
    if b.cabinsUsed == b.cabinsTotal then false
    else if b.state == Nobody then true
    else if b.state != s then false
    else if b.streak >= MAX_STREAK_FOR_STATE && s == Man && b.waitingWomen > 0 then false
    else if b.streak >= MAX_STREAK_FOR_STATE && s == Woman && b.waitingMen > 0 then false
    else true
  }

  /** `enterBathroom` before its wait loop: the caller is counted as waiting.
      The caller's own count does not bear on its admission. */
  function Arrive(b: Record, s: Sex): (r: Record)
    ensures Waiting(r, s) == Waiting(b, s) + 1
    ensures Waiting(r, Opposite(s)) == Waiting(b, Opposite(s))
    ensures r.(waitingMen := b.waitingMen, waitingWomen := b.waitingWomen) == b
    ensures CanEnter(r, s) == CanEnter(b, s)
  {
    if s == Man then b.(waitingMen := b.waitingMen + 1)
    else b.(waitingWomen := b.waitingWomen + 1)
  }

  /** `enterBathroom` after its wait loop: the caller leaves the waiting
      count and takes a cabin. */
  function Enter(b: Record, s: Sex): (r: Record)
    requires CanEnter(b, s) && Waiting(b, s) > 0
    ensures r.cabinsUsed == b.cabinsUsed + 1 && r.state == s
    ensures b.state == Nobody ==> r.streak == 1
    ensures b.state != Nobody ==> r.streak == b.streak + 1
    ensures Waiting(r, s) == Waiting(b, s) - 1
    ensures Waiting(r, Opposite(s)) == Waiting(b, Opposite(s))
    ensures r.cabinsTotal == b.cabinsTotal && r.maxStreak == b.maxStreak
    ensures Invariant(b) ==> Invariant(r)
  {
    var counted := if s == Man then b.(waitingMen := b.waitingMen - 1)
                   else b.(waitingWomen := b.waitingWomen - 1);
    var taken := if counted.state == Nobody then counted.(state := s, streak := 0) else counted;
    taken.(cabinsUsed := taken.cabinsUsed + 1, streak := taken.streak + 1)
  }

  /** `leaveBathroom`: one cabin is freed; the last one out resets the state
      and the run. Nothing records who left, so an empty bathroom that has
      a free cabin admits either sex. */
  function Leave(b: Record, s: Sex): (r: Record)
    requires b.cabinsUsed > 0
    ensures r.cabinsUsed == b.cabinsUsed - 1
    ensures r.cabinsUsed == 0 ==> r.state == Nobody && r.streak == 0
    ensures r.cabinsUsed > 0 ==> r.state == b.state && r.streak == b.streak
    ensures Waiting(r, Man) == Waiting(b, Man) && Waiting(r, Woman) == Waiting(b, Woman)
    ensures r.cabinsTotal == b.cabinsTotal && r.maxStreak == b.maxStreak
    ensures Invariant(b) ==> Invariant(r)
    ensures r.cabinsUsed == 0 && r.cabinsTotal > 0 ==> CanEnter(r, Man) && CanEnter(r, Woman)
  {
    var freed := b.(cabinsUsed := b.cabinsUsed - 1);
    if freed.cabinsUsed == 0 then freed.(state := Nobody, streak := 0) else freed
  }

  /** Whether event `e` can happen in state `b`: an admission needs the
      predicate to hold (the wait loop exits only then), and a student who
      leaves is one of the sex inside. */
  predicate Enabled(b: Record, e: Event)
  {
    match e
    case Arrival(_) => true
    case Entry(s, waited) => waited && Waiting(b, s) > 0 && CanEnter(b, s)
    case Departure(s) => b.cabinsUsed > 0 && b.state == s
    case Abandonment(_) => false
  }

  function Step(b: Record, e: Event): Record
    requires Enabled(b, e)
  {
    match e
    case Arrival(s) => Arrive(b, s)
    case Entry(s, _) => Enter(b, s)
    case Departure(s) => Leave(b, s)
    case Abandonment(_) => b
  }

  /** The state after the events `t`, or `None` if one of them cannot happen. */
  function Run(b: Record, t: seq<Event>): Option<Record>
    decreases |t|
  {
    if t == [] then Some(b)
    else if Enabled(b, t[0]) then Run(Step(b, t[0]), t[1..])
    else None
  }

  /** Any run keeps the invariant, and keeps the students inside segregated:
      whoever is inside is of the sex `state` names. */
  lemma {:induction false} RunIsSafe(b: Record, t: seq<Event>, men: int, women: int)
    requires Invariant(b) && Segregated(b.cabinsUsed, b.state, men, women)
    requires Run(b, t).Some?
    decreases |t|
    ensures Invariant(Run(b, t).value)
    ensures Segregated(Run(b, t).value.cabinsUsed, Run(b, t).value.state,
                       men + Inside(t, Man), women + Inside(t, Woman))
  {
    if t != [] {
      var e := t[0];
      var m', w' := men + Inside([e], Man), women + Inside([e], Woman);
      match e {
        case Arrival(_) =>
          assert [e][1..] == [];
        case Entry(s, _) =>
          EntryKeepsSegregated(b.cabinsUsed, b.state, men, women, s);
        case Departure(s) =>
          DepartureKeepsSegregated(b.cabinsUsed, b.state, men, women, s, Step(b, e).state);
      }
      assert Inside(t, Man) == Inside([e], Man) + Inside(t[1..], Man);
      assert Inside(t, Woman) == Inside([e], Woman) + Inside(t[1..], Woman);
      RunIsSafe(Step(b, e), t[1..], m', w');
    }
  }

  /** Every state reachable from the initial record keeps the invariant, and
      the students inside are all of one sex. */
  lemma ReachableIsSafe(cabinsTotal: nat, maxStreak: nat, t: seq<Event>)
    requires Run(Initial(cabinsTotal, maxStreak), t).Some?
    ensures Invariant(Run(Initial(cabinsTotal, maxStreak), t).value)
    ensures Segregated(Run(Initial(cabinsTotal, maxStreak), t).value.cabinsUsed,
                       Run(Initial(cabinsTotal, maxStreak), t).value.state,
                       Inside(t, Man), Inside(t, Woman))
  {
    RunIsSafe(Initial(cabinsTotal, maxStreak), t, 0, 0);
  }

  /** Every increment of a waiting counter is matched by one decrement: the
      counters move exactly by the waiters the events add and remove. */
  lemma {:induction false} RunCountsWaiters(b: Record, t: seq<Event>, s: Sex)
    requires Run(b, t).Some?
    decreases |t|
    ensures Waiting(Run(b, t).value, s) == Waiting(b, s) + Waiters(t, s)
  {
    if t != [] {
      assert Waiters(t, s) == Waiters([t[0]], s) + Waiters(t[1..], s) by {
        assert [t[0]][1..] == [];
      }
      RunCountsWaiters(Step(b, t[0]), t[1..], s);
    }
  }

  /** A whole `enterBathroom` that finds the predicate true at once leaves
      both waiting counters as they were. */
  lemma EnterRestoresWaiting(b: Record, s: Sex)
    requires CanEnter(b, s)
    ensures Waiting(Enter(Arrive(b, s), s), Man) == Waiting(b, Man)
    ensures Waiting(Enter(Arrive(b, s), s), Woman) == Waiting(b, Woman)
  {
  }

  /** Whatever `max_streak` is set to, admission uses the fixed threshold. */
  lemma MaxStreakIgnored(b: Record, s: Sex, maxStreak: nat)
    ensures CanEnter(b.(maxStreak := maxStreak), s) == CanEnter(b, s)
  {
  }

  /** The global `struct Bathroom b` and the code that updates it. */
  class Bathroom {
    var cabinsTotal: nat
    var cabinsUsed: nat
    var state: State
    var waitingMen: nat
    var waitingWomen: nat
    var streak: nat
    var maxStreak: nat

    function Snapshot(): Record
      reads this
    {
      Record(cabinsTotal, cabinsUsed, state, waitingMen, waitingWomen, streak, maxStreak)
    }

    predicate Valid()
      reads this
    {
      Invariant(Snapshot())
    }

    /** The static initialiser, followed by the command-line overrides of
        `cabins_total` and `max_streak`. */
    constructor (cabinsTotal: nat, maxStreak: nat)
      ensures Valid() && Snapshot() == Initial(cabinsTotal, maxStreak)
    {
      this.cabinsTotal := cabinsTotal;
      cabinsUsed := 0;
      state := Nobody;
      waitingMen := 0;
      waitingWomen := 0;
      streak := MAX_STREAK_FOR_STATE;
      this.maxStreak := maxStreak;
    }

    /** `enterBathroom` up to its wait loop. */
    method BeginEnter(s: Sex)
      requires Valid()
      modifies this
      ensures Valid() && Snapshot() == Arrive(old(Snapshot()), s)
    {
      if s == Man {
        waitingMen := waitingMen + 1;
      } else {
        waitingWomen := waitingWomen + 1;
      }
    }

    /** `enterBathroom` once its wait loop has exited, which it does only
        when `canEnter` holds. */
    method FinishEnter(s: Sex)
      requires Valid() && CanEnter(Snapshot(), s) && Waiting(Snapshot(), s) > 0
      modifies this
      ensures Valid() && Snapshot() == Enter(old(Snapshot()), s)
    {
      if s == Man {
        waitingMen := waitingMen - 1;
      } else {
        waitingWomen := waitingWomen - 1;
      }
      if state == Nobody {
        state := s;
        streak := 0;
      }
      cabinsUsed := cabinsUsed + 1;
      streak := streak + 1;
    }

    /** A whole `enterBathroom` whose wait loop finds `canEnter` true at once. */
    method EnterBathroom(s: Sex)
      requires Valid() && CanEnter(Snapshot(), s)
      modifies this
      ensures Valid() && Snapshot() == Enter(Arrive(old(Snapshot()), s), s)
      ensures waitingMen == old(waitingMen) && waitingWomen == old(waitingWomen)
    {
      BeginEnter(s);
      FinishEnter(s);
      EnterRestoresWaiting(old(Snapshot()), s);
    }

    /** `leaveBathroom`. */
    method LeaveBathroom(s: Sex)
      requires Valid() && cabinsUsed > 0
      modifies this
      ensures Valid() && Snapshot() == Leave(old(Snapshot()), s)
    {
      cabinsUsed := cabinsUsed - 1;
      if cabinsUsed == 0 {
        state := Nobody;
        streak := 0;
      }
    }
  }
}
