/** The process variant (lab2/code/task.c): the record lives in shared
    memory, a caller is counted as waiting only when its first check fails,
    and a run that reaches `max_streak` forces a hand-over when the bathroom
    drains (`force_change`, `last_state`). */
module Lab2Task {
  import opened Common
  import Lab2Info

  const MAX_STREAK_FOR_STATE: nat := 5
  const BATHROOM_CAPACITY: nat := 4

  /** The fields of `Br` that the controller reads and writes. */
  datatype Record = Record(
    cabinsTotal: nat,
    cabinsUsed: nat,
    state: State,
    lastState: State,
    forceChange: bool,
    waitingMen: nat,
    waitingWomen: nat,
    streak: nat,
    maxStreak: nat)

  function Waiting(b: Record, s: Sex): nat
  {
    if s == Man then b.waitingMen else b.waitingWomen
  }

  /** Never more occupants than cabins; `state` is `nobody` exactly when the
      bathroom is empty; a pending hand-over exists only in an empty
      bathroom, and names the sex that drained it. */
  predicate Invariant(b: Record)
  {
    b.cabinsUsed <= b.cabinsTotal && (b.state == Nobody <==> b.cabinsUsed == 0)
    && (b.forceChange ==> b.state == Nobody && b.lastState != Nobody)
  }

  /** The record `init` fills in (four cabins, threshold 5; `force_change`
      is the zero the anonymous mapping starts with), with the command-line
      overrides of `cabins_total` and `max_streak`. */
  function Initial(cabinsTotal: nat, maxStreak: nat): (b: Record)
    ensures Invariant(b) && b.cabinsTotal == cabinsTotal && b.maxStreak == maxStreak
    ensures b.state == Nobody && b.lastState == Nobody && !b.forceChange && b.streak == 0
    ensures Waiting(b, Man) == 0 && Waiting(b, Woman) == 0
  {
    Record(cabinsTotal, 0, Nobody, Nobody, false, 0, 0, 0, maxStreak)
  }

  /** `canEnter`. */
  function CanEnter(b: Record, s: Sex): (r: bool)
    ensures b.cabinsUsed == b.cabinsTotal ==> !r
    ensures b.cabinsUsed != b.cabinsTotal && b.state == Nobody ==>
              (r <==> !(b.forceChange && b.lastState == s))
    ensures r && b.state != Nobody ==> b.state == s
    ensures b.cabinsUsed != b.cabinsTotal && b.state == s ==>
              (r <==> b.streak < b.maxStreak || Waiting(b, Opposite(s)) == 0)
  {
    if b.cabinsUsed == b.cabinsTotal then false
    else if b.state == Nobody then !(b.forceChange && b.lastState == s)
    else if b.state != s then false
    else if b.streak >= b.maxStreak && s == Man && b.waitingWomen > 0 then false
    else if b.streak >= b.maxStreak && s == Woman && b.waitingMen > 0 then false
    else true
  }

  /** `enterBathroom` before its wait loop: the caller is counted as waiting
      only when the first check fails. */
  function Arrive(b: Record, s: Sex): (r: Record)
    ensures CanEnter(b, s) ==> r == b
    ensures !CanEnter(b, s) ==> Waiting(r, s) == Waiting(b, s) + 1
    ensures Waiting(r, Opposite(s)) == Waiting(b, Opposite(s))
    ensures r.(waitingMen := b.waitingMen, waitingWomen := b.waitingWomen) == b
    ensures CanEnter(r, s) == CanEnter(b, s)
  {
    var mustWait := !CanEnter(b, s);
    if !mustWait then b
    else if s == Man then b.(waitingMen := b.waitingMen + 1)
    else b.(waitingWomen := b.waitingWomen + 1)
  }

  /** `enterBathroom` after its wait loop. Taking an empty bathroom starts a
      new run and completes a pending hand-over. */
  function Enter(b: Record, s: Sex, mustWait: bool): (r: Record)
    requires CanEnter(b, s) && (mustWait ==> Waiting(b, s) > 0)
    ensures r.cabinsUsed == b.cabinsUsed + 1 && r.state == s
    ensures b.state == Nobody ==> r.streak == 1
    ensures b.state != Nobody ==> r.streak == b.streak + 1
    ensures b.state == Nobody ==> !r.forceChange && (b.forceChange ==> b.lastState != s)
    ensures b.state != Nobody ==> r.forceChange == b.forceChange
    ensures r.lastState == b.lastState
    ensures Waiting(r, s) == Waiting(b, s) - (if mustWait then 1 else 0)
    ensures Waiting(r, Opposite(s)) == Waiting(b, Opposite(s))
    ensures r.cabinsTotal == b.cabinsTotal && r.maxStreak == b.maxStreak
    ensures Invariant(b) ==> Invariant(r)
  {
    var counted := if !mustWait then b
                   else if s == Man then b.(waitingMen := b.waitingMen - 1)
                   else b.(waitingWomen := b.waitingWomen - 1);
    var taken :=
      if counted.state == Nobody then
        var handedOver := if counted.forceChange && counted.lastState != s
                          then counted.(forceChange := false) else counted;
        handedOver.(state := s, streak := 0)
      else counted;
    taken.(cabinsUsed := taken.cabinsUsed + 1, streak := taken.streak + 1)
  }

  /** `leaveBathroom`. The last one out resets the state and the run, and
      demands a hand-over exactly when the run reached `max_streak`,
      recording the sex of that run. */
  function Leave(b: Record, s: Sex): (r: Record)
    requires b.cabinsUsed > 0
    ensures r.cabinsUsed == b.cabinsUsed - 1
    ensures r.cabinsUsed == 0 ==> r.state == Nobody && r.streak == 0
    ensures r.cabinsUsed == 0 ==> (r.forceChange <==> b.streak >= b.maxStreak)
    ensures r.cabinsUsed == 0 ==> r.lastState == if b.streak >= b.maxStreak then b.state else b.lastState
    ensures r.cabinsUsed > 0 ==>
              r.state == b.state && r.streak == b.streak
              && r.forceChange == b.forceChange && r.lastState == b.lastState
    ensures Waiting(r, Man) == Waiting(b, Man) && Waiting(r, Woman) == Waiting(b, Woman)
    ensures r.cabinsTotal == b.cabinsTotal && r.maxStreak == b.maxStreak
    ensures Invariant(b) ==> Invariant(r)
  {
    var freed := b.(cabinsUsed := b.cabinsUsed - 1);
    if freed.cabinsUsed == 0 then
      var flagged := if freed.streak >= freed.maxStreak
                     then freed.(lastState := freed.state, forceChange := true)
                     else freed.(forceChange := false);
      flagged.(state := Nobody, streak := 0)
    else freed
  }

  /** The last student of a run of `max_streak` or more leaving locks that
      sex out of the empty bathroom and lets only the other sex in, however
      many of either sex are waiting. */
  lemma DrainForcesHandover(b: Record)
    requires Invariant(b) && b.cabinsUsed == 1 && b.streak >= b.maxStreak
    ensures !CanEnter(Leave(b, b.state), b.state)
    ensures CanEnter(Leave(b, b.state), Opposite(b.state))
  {
  }

  /** From `init`'s record, four men take the four cabins, one leaves and a
      fifth enters, and all leave: the run reached 5, so the last one out
      sets `force_change`, and a man who then arrives is refused an empty
      bathroom although no woman is waiting to take the hand-over. */
  lemma LoneSexLockedOut()
    ensures var t := [Entry(Man, false), Entry(Man, false), Entry(Man, false), Entry(Man, false),
                      Departure(Man), Entry(Man, false),
                      Departure(Man), Departure(Man), Departure(Man), Departure(Man)];
            var r := Run(Initial(BATHROOM_CAPACITY, MAX_STREAK_FOR_STATE), t);
            r.Some? && r.value.cabinsUsed == 0 && Waiting(r.value, Woman) == 0 && !CanEnter(r.value, Man)
  {
    var e, d := Entry(Man, false), Departure(Man);
    var b0 := Initial(BATHROOM_CAPACITY, MAX_STREAK_FOR_STATE);
    var b1 := Step(b0, e);
    var b2 := Step(b1, e);
    var b3 := Step(b2, e);
    var b4 := Step(b3, e);
    var b5 := Step(b4, d);
    var b6 := Step(b5, e);
    var b7 := Step(b6, d);
    var b8 := Step(b7, d);
    var b9 := Step(b8, d);
    var b10 := Step(b9, d);
    assert Run(b10, []) == Some(b10);
    assert Run(b9, [d]) == Some(b10);
    assert Run(b8, [d, d]) == Some(b10);
    assert Run(b7, [d, d, d]) == Some(b10);
    assert Run(b6, [d, d, d, d]) == Some(b10);
    assert Run(b5, [e, d, d, d, d]) == Some(b10);
    assert Run(b4, [d, e, d, d, d, d]) == Some(b10);
    assert Run(b3, [e, d, e, d, d, d, d]) == Some(b10);
    assert Run(b2, [e, e, d, e, d, d, d, d]) == Some(b10);
    assert Run(b1, [e, e, e, d, e, d, d, d, d]) == Some(b10);
  }

  /** The same record without `force_change` and `last_state`, in the
      layout of lab2/info/code/task.c. */
  function AsInfoRecord(b: Record): Lab2Info.Record
  {
    Lab2Info.Record(b.cabinsTotal, b.cabinsUsed, b.state, b.waitingMen, b.waitingWomen, b.streak, b.maxStreak)
  }

  /** Without a pending hand-over this variant admits, counts waiters and
      enters exactly as lab2/info/code/task.c does, and an entry leaves no
      hand-over pending; a departure differs only in `force_change` and
      `last_state`. */
  lemma AgreesWithInfoVariant(b: Record, s: Sex, mustWait: bool)
    requires !b.forceChange
    ensures CanEnter(b, s) == Lab2Info.CanEnter(AsInfoRecord(b), s)
    ensures AsInfoRecord(Arrive(b, s)) == Lab2Info.Arrive(AsInfoRecord(b), s)
    ensures CanEnter(b, s) && (mustWait ==> Waiting(b, s) > 0) ==>
              AsInfoRecord(Enter(b, s, mustWait)) == Lab2Info.Enter(AsInfoRecord(b), s, mustWait)
              && !Enter(b, s, mustWait).forceChange
    ensures b.cabinsUsed > 0 ==> AsInfoRecord(Leave(b, s)) == Lab2Info.Leave(AsInfoRecord(b), s)
  {
  }

  predicate Enabled(b: Record, e: Event)
  {
    match e
    case Arrival(s) => !CanEnter(b, s)
    case Entry(s, waited) => (waited ==> Waiting(b, s) > 0) && CanEnter(b, s)
    case Departure(s) => b.cabinsUsed > 0 && b.state == s
    case Abandonment(_) => false
  }

  function Step(b: Record, e: Event): Record
    requires Enabled(b, e)
  {
    match e
    case Arrival(s) => Arrive(b, s)
    case Entry(s, waited) => Enter(b, s, waited)
    case Departure(s) => Leave(b, s)
    case Abandonment(_) => b
  }

  function Run(b: Record, t: seq<Event>): Option<Record>
    decreases |t|
  {
    if t == [] then Some(b)
    else if Enabled(b, t[0]) then Run(Step(b, t[0]), t[1..])
    else None
  }

  /** Any run keeps the invariant, the students inside segregated, and the
      waiting counters equal to the callers the events leave waiting. */
  lemma {:induction false} RunIsSafe(b: Record, t: seq<Event>, men: int, women: int)
    requires Invariant(b) && Segregated(b.cabinsUsed, b.state, men, women)
    requires Run(b, t).Some?
    decreases |t|
    ensures Invariant(Run(b, t).value)
    ensures Segregated(Run(b, t).value.cabinsUsed, Run(b, t).value.state,
                       men + Inside(t, Man), women + Inside(t, Woman))
    ensures Waiting(Run(b, t).value, Man) == Waiting(b, Man) + Waiters(t, Man)
    ensures Waiting(Run(b, t).value, Woman) == Waiting(b, Woman) + Waiters(t, Woman)
  {
    if t != [] {
      var e := t[0];
      assert [e][1..] == [];
      match e {
        case Arrival(_) =>
        case Entry(s, _) =>
          EntryKeepsSegregated(b.cabinsUsed, b.state, men, women, s);
        case Departure(s) =>
          DepartureKeepsSegregated(b.cabinsUsed, b.state, men, women, s, Step(b, e).state);
      }
      assert Inside(t, Man) == Inside([e], Man) + Inside(t[1..], Man);
      assert Inside(t, Woman) == Inside([e], Woman) + Inside(t[1..], Woman);
      RunIsSafe(Step(b, e), t[1..], men + Inside([e], Man), women + Inside([e], Woman));
    }
  }

  /** Every state reachable from `init`'s record is safe, and the waiting
      counters count exactly the callers still waiting. */
  lemma ReachableIsSafe(cabinsTotal: nat, maxStreak: nat, t: seq<Event>)
    requires Run(Initial(cabinsTotal, maxStreak), t).Some?
    ensures Invariant(Run(Initial(cabinsTotal, maxStreak), t).value)
    ensures Segregated(Run(Initial(cabinsTotal, maxStreak), t).value.cabinsUsed,
                       Run(Initial(cabinsTotal, maxStreak), t).value.state,
                       Inside(t, Man), Inside(t, Woman))
    ensures Waiting(Run(Initial(cabinsTotal, maxStreak), t).value, Man) == Waiters(t, Man)
    ensures Waiting(Run(Initial(cabinsTotal, maxStreak), t).value, Woman) == Waiters(t, Woman)
  {
    RunIsSafe(Initial(cabinsTotal, maxStreak), t, 0, 0);
  }

  /** Once `force_change` is set, whatever arrivals come before it, the next
      student admitted is of the sex opposite to `last_state`. */
  lemma {:induction false} ForceChangeHandsOver(b: Record, t: seq<Event>)
    requires Invariant(b) && b.forceChange && Run(b, t).Some?
    decreases |t|
    ensures FirstEntry(t) == None || FirstEntry(t) == Some(Opposite(b.lastState))
  {
    if t != [] {
      match t[0] {
        case Entry(s, _) =>
          assert s != b.lastState;
        case Arrival(s) =>
          ForceChangeHandsOver(Arrive(b, s), t[1..]);
        case Departure(_) =>
          assert false;
        case Abandonment(_) =>
          assert false;
      }
    }
  }

  /** `must_wait` is computed once and both raises and lowers the caller's
      waiting count: if the other callers left that count where the arrival
      put it, the admission puts it back where it was before the call. */
  lemma EnterRestoresWaiting(b: Record, s: Sex, b': Record)
    requires CanEnter(b', s) && Waiting(b', s) == Waiting(Arrive(b, s), s)
    ensures Waiting(Enter(b', s, !CanEnter(b, s)), s) == Waiting(b, s)
  {
  }

  /** The shared record `b` points to, and the code that updates it. */
  class Bathroom {
    var cabinsTotal: nat
    var cabinsUsed: nat
    var state: State
    var lastState: State
    var forceChange: bool
    var waitingMen: nat
    var waitingWomen: nat
    var streak: nat
    var maxStreak: nat

    function Snapshot(): Record
      reads this
    {
      Record(cabinsTotal, cabinsUsed, state, lastState, forceChange, waitingMen, waitingWomen, streak, maxStreak)
    }

    predicate Valid()
      reads this
    {
      Invariant(Snapshot())
    }

    /** `init`, followed by the command-line overrides. */
    constructor (cabinsTotal: nat, maxStreak: nat)
      ensures Valid() && Snapshot() == Initial(cabinsTotal, maxStreak)
    {
      this.cabinsTotal := cabinsTotal;
      cabinsUsed := 0;
      state := Nobody;
      lastState := Nobody;
      forceChange := false;
      waitingMen := 0;
      waitingWomen := 0;
      streak := 0;
      this.maxStreak := maxStreak;
    }

    /** `enterBathroom` up to its wait loop. */
    method BeginEnter(s: Sex) returns (mustWait: bool)
      requires Valid()
      modifies this
      ensures mustWait == !CanEnter(old(Snapshot()), s)
      ensures Valid() && Snapshot() == Arrive(old(Snapshot()), s)
    {
      mustWait := !CanEnter(Snapshot(), s);
      if mustWait {
        if s == Man {
          waitingMen := waitingMen + 1;
        } else {
          waitingWomen := waitingWomen + 1;
        }
      }
    }

    /** `enterBathroom` once its wait loop has exited. */
    method FinishEnter(s: Sex, mustWait: bool)
      requires Valid() && CanEnter(Snapshot(), s) && (mustWait ==> Waiting(Snapshot(), s) > 0)
      modifies this
      ensures Valid() && Snapshot() == Enter(old(Snapshot()), s, mustWait)
    {
      if mustWait {
        if s == Man {
          waitingMen := waitingMen - 1;
        } else {
          waitingWomen := waitingWomen - 1;
        }
      }
      if state == Nobody {
        if forceChange && lastState != s {
          forceChange := false;
        }
        state := s;
        streak := 0;
      }
      cabinsUsed := cabinsUsed + 1;
      streak := streak + 1;
    }

    /** A whole `enterBathroom` whose first check succeeds. */
    method EnterBathroom(s: Sex)
      requires Valid() && CanEnter(Snapshot(), s)
      modifies this
      ensures Valid() && Snapshot() == Enter(old(Snapshot()), s, false)
      ensures waitingMen == old(waitingMen) && waitingWomen == old(waitingWomen)
    {
      var mustWait := BeginEnter(s);
      FinishEnter(s, mustWait);
    }

    /** `leaveBathroom`. */
    method LeaveBathroom(s: Sex)
      requires Valid() && cabinsUsed > 0
      modifies this
      ensures Valid() && Snapshot() == Leave(old(Snapshot()), s)
    {
      cabinsUsed := cabinsUsed - 1;
      if cabinsUsed == 0 {
        if streak >= maxStreak {
          lastState := state;
          forceChange := true;
        } else {
          forceChange := false;
        }
        state := Nobody;
        streak := 0;
      }
    }
  }
}
