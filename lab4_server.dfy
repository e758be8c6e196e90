/** The network server (lab4/code/server.c): each client is a student whose
    commands a connection thread carries out on the one `bathroom` record.
    On top of the run threshold it gives an empty bathroom, unless a forced
    switch is pending, to the sex with more waiters; on a tie, to the sex that did not leave last, or to either
    sex if nobody has left yet. A forced switch blocks the sex that has had
    its run until the other sex has taken the bathroom. Its methods accept
    any state, including one left by an exit with nobody inside. */
module Lab4Server {
  import opened Common

  // Protocol commands
  const CMD_CHECK_ENTRY: int := 1
  const CMD_ENTER: int := 2
  const CMD_EXIT: int := 3
  const CMD_GET_STATUS: int := 4

  // Server answers
  const RESP_OK: int := 1
  const RESP_DENIED: int := 0

  // Sex codes on the wire and in `current_gender` / `last_gender`
  const GENDER_MALE: int := 1
  const GENDER_FEMALE: int := 2

  /** The fields of `Bathroom` that the controller reads and writes. */
  datatype Record = Record(
    totalCabins: nat,
    occupiedCabins: int,
    currentGender: State,
    consecutiveEntries: nat,
    maxConsecutive: nat,
    forcedSwitch: bool,
    lastGender: State,
    waitingMales: nat,
    waitingFemales: nat,
    totalEntered: nat,
    malesEntered: nat,
    femalesEntered: nat)

  function Waiting(b: Record, g: Sex): nat
  {
    if g == Man then b.waitingMales else b.waitingFemales
  }

  function Entered(b: Record, g: Sex): nat
  {
    if g == Man then b.malesEntered else b.femalesEntered
  }

  /** The integer a `State` is stored as: 0 for nobody, `GENDER_MALE`,
      `GENDER_FEMALE`. */
  function GenderCode(st: State): (r: int)
    ensures r == 0 <==> st == Nobody
    ensures r == GENDER_MALE <==> st == Man
    ensures r == GENDER_FEMALE <==> st == Woman
  {
    match st
    case Nobody => 0
    case Man => GENDER_MALE
    case Woman => GENDER_FEMALE
  }

  /** `getStatusString`: the label the log prints for a gender code. */
  function StatusString(gender: int): (r: string)
    ensures r == "???" <==> !(gender == 0 || gender == GENDER_MALE || gender == GENDER_FEMALE)
  {
    if gender == 0 then "ПУСТО"
    else if gender == GENDER_MALE then "МУЖЧИНЫ"
    else if gender == GENDER_FEMALE then "ЖЕНЩИНЫ"
    else "???"
  }

  /** Every state the bathroom can be in has its own label. */
  lemma StatusStringsDistinct(a: State, c: State)
    requires StatusString(GenderCode(a)) == StatusString(GenderCode(c))
    ensures a == c
  {
  }

  /** Never more occupants than cabins; `current_gender` is 0 exactly when
      the bathroom is empty; the entry statistics add up; and a forced switch
      pending in an empty bathroom names the sex that last left it. */
  predicate Invariant(b: Record)
  {
    0 <= b.occupiedCabins <= b.totalCabins
    && (b.currentGender == Nobody <==> b.occupiedCabins == 0)
    && b.totalEntered == b.malesEntered + b.femalesEntered
    && (b.forcedSwitch && b.currentGender == Nobody ==> b.lastGender != Nobody)
  }

  /** `initBathroom(cabins, max_consecutive)`. */
  function Initial(cabins: nat, maxConsecutive: nat): (b: Record)
    ensures Invariant(b) && b.totalCabins == cabins && b.maxConsecutive == maxConsecutive
    ensures b.currentGender == Nobody && b.lastGender == Nobody && !b.forcedSwitch
    ensures b.consecutiveEntries == 0 && b.totalEntered == 0
    ensures Waiting(b, Man) == 0 && Waiting(b, Woman) == 0
  {
    Record(cabins, 0, Nobody, 0, maxConsecutive, false, Nobody, 0, 0, 0, 0, 0)
  }

  /** `canEnter(gender)`. The waiting counts it reads include the requester. */
  function CanEnter(b: Record, g: Sex): (r: bool)
    ensures b.occupiedCabins >= b.totalCabins ==> !r
    ensures b.occupiedCabins < b.totalCabins && b.currentGender == Nobody && b.forcedSwitch ==>
              (r <==> g != b.lastGender)
    ensures b.occupiedCabins < b.totalCabins && b.currentGender == Nobody && !b.forcedSwitch
            && Waiting(b, Man) > 0 && Waiting(b, Woman) > 0 ==>
              (r <==> Waiting(b, g) > Waiting(b, Opposite(g))
                      || (Waiting(b, g) == Waiting(b, Opposite(g)) && g != b.lastGender))
    ensures b.occupiedCabins < b.totalCabins && b.currentGender == Nobody && !b.forcedSwitch
            && (Waiting(b, Man) == 0 || Waiting(b, Woman) == 0)
            ==> r
    ensures r && b.currentGender != Nobody ==> b.currentGender == g && !b.forcedSwitch
    ensures b.occupiedCabins < b.totalCabins && b.currentGender == g ==> (r <==> !b.forcedSwitch)
  {
    if b.occupiedCabins >= b.totalCabins then false
    else if b.currentGender == Nobody then
      if b.forcedSwitch then g != b.lastGender
      else if b.waitingMales > 0 && b.waitingFemales > 0 then
        if b.waitingFemales > b.waitingMales then g == Woman
        else if b.waitingMales > b.waitingFemales then g == Man
        else if b.lastGender == Man then g == Woman
        else if b.lastGender == Woman then g == Man
        else true
      else true
    else if b.currentGender == g then !b.forcedSwitch
    else false
  }

  /** `enterBathroom` before its wait loop: the caller is counted as waiting. */
  function Arrive(b: Record, g: Sex): (r: Record)
    ensures Waiting(r, g) == Waiting(b, g) + 1
    ensures Waiting(r, Opposite(g)) == Waiting(b, Opposite(g))
    ensures r.(waitingMales := b.waitingMales, waitingFemales := b.waitingFemales) == b
  {
    if g == Man then b.(waitingMales := b.waitingMales + 1)
    else b.(waitingFemales := b.waitingFemales + 1)
  }

  /** `enterBathroom` when the wait loop exits because the server stopped:
      the caller leaves the waiting count and is denied; it undoes exactly
      what its arrival did. */
  function Abandon(b: Record, g: Sex): (r: Record)
    requires Waiting(b, g) > 0
    ensures Arrive(r, g) == b
    ensures Invariant(b) ==> Invariant(r)
  {
    if g == Man then b.(waitingMales := b.waitingMales - 1)
    else b.(waitingFemales := b.waitingFemales - 1)
  }

  /** `enterBathroom` when the wait loop exits because `canEnter` holds.
      A sex other than the last to leave that takes an empty bathroom starts
      a new run and clears the forced switch; the same sex taking it again
      continues its run. The switch is then forced exactly when the run has
      reached `max_consecutive` while the other sex is waiting. */
  function Enter(b: Record, g: Sex): (r: Record)
    requires CanEnter(b, g) && Waiting(b, g) > 0
    ensures r.occupiedCabins == b.occupiedCabins + 1 && r.currentGender == g
    ensures b.currentGender == Nobody && g != b.lastGender ==> r.consecutiveEntries == 1
    ensures b.currentGender != Nobody || g == b.lastGender ==>
              r.consecutiveEntries == b.consecutiveEntries + 1
    ensures r.forcedSwitch <==>
              r.consecutiveEntries >= r.maxConsecutive && Waiting(r, Opposite(g)) > 0
    ensures r.lastGender == b.lastGender
    ensures r.totalEntered == b.totalEntered + 1
    ensures Entered(r, g) == Entered(b, g) + 1 && Entered(r, Opposite(g)) == Entered(b, Opposite(g))
    ensures Waiting(r, g) == Waiting(b, g) - 1 && Waiting(r, Opposite(g)) == Waiting(b, Opposite(g))
    ensures r.totalCabins == b.totalCabins && r.maxConsecutive == b.maxConsecutive
    ensures Invariant(b) ==> Invariant(r)
  {
    var restart := b.currentGender == Nobody && (g != b.lastGender || b.lastGender == Nobody);
    var consecutive := (if restart then 0 else b.consecutiveEntries) + 1;
    var males := if g == Man then b.waitingMales - 1 else b.waitingMales;
    var females := if g == Man then b.waitingFemales else b.waitingFemales - 1;
    var oppositeWaiting := (g == Man && females > 0) || (g == Woman && males > 0);
    var forced := (if restart then false else b.forcedSwitch)
                  || (consecutive >= b.maxConsecutive && oppositeWaiting);
    Record(b.totalCabins, b.occupiedCabins + 1, g, consecutive, b.maxConsecutive, forced,
           b.lastGender, males, females, b.totalEntered + 1,
           if g == Man then b.malesEntered + 1 else b.malesEntered,
           if g == Man then b.femalesEntered else b.femalesEntered + 1)
  }

  /** `exitBathroom(gender)`: a cabin is freed and `last_gender` records the
      leaver; the last one out empties the state. The run count and the
      forced switch stay as they are. The server trusts its client: nothing
      checks that a cabin is occupied, or occupied by that sex. */
  function Exit(b: Record, g: Sex): (r: Record)
    ensures r.occupiedCabins == b.occupiedCabins - 1 && r.lastGender == g
    ensures r.occupiedCabins == 0 ==> r.currentGender == Nobody
    ensures r.occupiedCabins != 0 ==> r.currentGender == b.currentGender
    ensures r.consecutiveEntries == b.consecutiveEntries && r.forcedSwitch == b.forcedSwitch
    ensures Waiting(r, Man) == Waiting(b, Man) && Waiting(r, Woman) == Waiting(b, Woman)
    ensures r.totalEntered == b.totalEntered && r.totalCabins == b.totalCabins
    ensures r.maxConsecutive == b.maxConsecutive
    ensures Entered(r, Man) == Entered(b, Man) && Entered(r, Woman) == Entered(b, Woman)
    ensures Invariant(b) && b.occupiedCabins > 0 ==> Invariant(r)
  {
    var freed := b.(occupiedCabins := b.occupiedCabins - 1, lastGender := g);
    if freed.occupiedCabins == 0 then freed.(currentGender := Nobody) else freed
  }

  /** A `CMD_EXIT` from a client that is not inside, sent to an empty
      bathroom, leaves `occupied_cabins` at -1: the invariant holds only for
      clients that exit after entering. */
  lemma UnmatchedExitBreaksInvariant(b: Record, g: Sex)
    requires Invariant(b) && b.occupiedCabins == 0
    ensures Exit(b, g).occupiedCabins == -1 && !Invariant(Exit(b, g))
  {
  }

  /** A forced switch pending in an empty bathroom with a free cabin refuses
      exactly the sex that left last and admits the other. */
  lemma ForcedSwitchInEmptyBathroom(b: Record)
    requires Invariant(b) && b.forcedSwitch && b.currentGender == Nobody && b.totalCabins > 0
    ensures !CanEnter(b, b.lastGender)
    ensures CanEnter(b, Opposite(b.lastGender))
  {
  }

  /** A whole `enterBathroom` that finds the server stopped leaves the record
      as it was: occupancy and both waiting counts. */
  lemma StoppedEntryChangesNothing(b: Record, g: Sex)
    ensures Abandon(Arrive(b, g), g) == b
  {
  }

  /** The command codes `handleClient` dispatches on. */
  datatype Command = CheckEntryCommand | EnterCommand | ExitCommand | StatusCommand | UnknownCommand

  /** The `switch (cmd)` of `handleClient`. */
  function Dispatch(cmd: int): (c: Command)
    ensures c == UnknownCommand <==> !(CMD_CHECK_ENTRY <= cmd <= CMD_GET_STATUS)
    ensures cmd == CMD_CHECK_ENTRY ==> c == CheckEntryCommand
    ensures cmd == CMD_ENTER ==> c == EnterCommand
    ensures cmd == CMD_EXIT ==> c == ExitCommand
    ensures cmd == CMD_GET_STATUS ==> c == StatusCommand
  {
    if cmd == CMD_CHECK_ENTRY then CheckEntryCommand
    else if cmd == CMD_ENTER then EnterCommand
    else if cmd == CMD_EXIT then ExitCommand
    else if cmd == CMD_GET_STATUS then StatusCommand
    else UnknownCommand
  }

  /** The code a client sends for a command. */
  function CommandCode(c: Command): (cmd: int)
    requires c != UnknownCommand
    ensures CMD_CHECK_ENTRY <= cmd <= CMD_GET_STATUS
  {
    match c
    case CheckEntryCommand => CMD_CHECK_ENTRY
    case EnterCommand => CMD_ENTER
    case ExitCommand => CMD_EXIT
    case StatusCommand => CMD_GET_STATUS
  }

  /** Client codes and the server's dispatch agree: every command the client
      sends is carried out as that command, and every code is one command. */
  lemma DispatchRoundTrip(c: Command, cmd: int)
    ensures c != UnknownCommand ==> Dispatch(CommandCode(c)) == c
    ensures Dispatch(cmd) != UnknownCommand ==> CommandCode(Dispatch(cmd)) == cmd
  {
  }

  predicate Enabled(b: Record, e: Event)
  {
    match e
    case Arrival(_) => true
    case Entry(g, waited) => waited && Waiting(b, g) > 0 && CanEnter(b, g)
    case Departure(g) => b.occupiedCabins > 0 && b.currentGender == g
    case Abandonment(g) => Waiting(b, g) > 0
  }

  function Step(b: Record, e: Event): Record
    requires Enabled(b, e)
  {
    match e
    case Arrival(g) => Arrive(b, g)
    case Entry(g, _) => Enter(b, g)
    case Departure(g) => Exit(b, g)
    case Abandonment(g) => Abandon(b, g)
  }

  function Run(b: Record, t: seq<Event>): Option<Record>
    decreases |t|
  {
    if t == [] then Some(b)
    else if Enabled(b, t[0]) then Run(Step(b, t[0]), t[1..])
    else None
  }

  /** One event keeps the invariant and the segregation of the students
      inside, and moves each waiting counter by that event's waiters. */
  lemma StepIsSafe(b: Record, e: Event, men: int, women: int)
    requires Invariant(b) && Segregated(b.occupiedCabins, b.currentGender, men, women)
    requires Enabled(b, e)
    ensures Invariant(Step(b, e))
    ensures Segregated(Step(b, e).occupiedCabins, Step(b, e).currentGender,
                       men + Inside([e], Man), women + Inside([e], Woman))
    ensures Waiting(Step(b, e), Man) == Waiting(b, Man) + Waiters([e], Man)
    ensures Waiting(Step(b, e), Woman) == Waiting(b, Woman) + Waiters([e], Woman)
    ensures Step(b, e).totalCabins == b.totalCabins
  {
    assert [e][1..] == [];
    match e {
      case Arrival(_) =>
      case Abandonment(_) =>
      case Entry(g, _) =>
        EntryKeepsSegregated(b.occupiedCabins, b.currentGender, men, women, g);
      case Departure(g) =>
        DepartureKeepsSegregated(b.occupiedCabins, b.currentGender, men, women, g, Step(b, e).currentGender);
    }
  }

  /** Any run keeps the invariant, the students inside segregated, and the
      waiting counters equal to the callers the events leave waiting. */
  lemma {:induction false} RunIsSafe(b: Record, t: seq<Event>, men: int, women: int)
    requires Invariant(b) && Segregated(b.occupiedCabins, b.currentGender, men, women)
    requires Run(b, t).Some?
    decreases |t|
    ensures Invariant(Run(b, t).value)
    ensures Segregated(Run(b, t).value.occupiedCabins, Run(b, t).value.currentGender,
                       men + Inside(t, Man), women + Inside(t, Woman))
    ensures Waiting(Run(b, t).value, Man) == Waiting(b, Man) + Waiters(t, Man)
    ensures Waiting(Run(b, t).value, Woman) == Waiting(b, Woman) + Waiters(t, Woman)
    ensures Run(b, t).value.totalCabins == b.totalCabins
  {
    if t != [] {
      var e := t[0];
      StepIsSafe(b, e, men, women);
      assert Inside(t, Man) == Inside([e], Man) + Inside(t[1..], Man);
      assert Inside(t, Woman) == Inside([e], Woman) + Inside(t[1..], Woman);
      assert Waiters(t, Man) == Waiters([e], Man) + Waiters(t[1..], Man);
      assert Waiters(t, Woman) == Waiters([e], Woman) + Waiters(t[1..], Woman);
      RunIsSafe(Step(b, e), t[1..], men + Inside([e], Man), women + Inside([e], Woman));
    }
  }

  /** Every state reachable from `initBathroom` is safe, and the waiting
      counters count exactly the callers still waiting. */
  lemma ReachableIsSafe(cabins: nat, maxConsecutive: nat, t: seq<Event>)
    requires Run(Initial(cabins, maxConsecutive), t).Some?
    ensures Invariant(Run(Initial(cabins, maxConsecutive), t).value)
    ensures Segregated(Run(Initial(cabins, maxConsecutive), t).value.occupiedCabins,
                       Run(Initial(cabins, maxConsecutive), t).value.currentGender,
                       Inside(t, Man), Inside(t, Woman))
    ensures Waiting(Run(Initial(cabins, maxConsecutive), t).value, Man) == Waiters(t, Man)
    ensures Waiting(Run(Initial(cabins, maxConsecutive), t).value, Woman) == Waiters(t, Woman)
    ensures Run(Initial(cabins, maxConsecutive), t).value.totalCabins == cabins
  {
    RunIsSafe(Initial(cabins, maxConsecutive), t, 0, 0);
  }

  /** A forced switch against sex `g`: `g` holds the bathroom, or left it
      empty last. */
  predicate SwitchForcedAgainst(b: Record, g: Sex)
  {
    b.forcedSwitch && (b.currentGender == g || (b.currentGender == Nobody && b.lastGender == g))
  }

  /** Once the switch is forced against `g`, however the others arrive, give
      up or leave, the next student admitted is of the other sex. */
  lemma {:induction false} ForcedSwitchHandsOver(b: Record, t: seq<Event>, g: Sex)
    requires Invariant(b) && SwitchForcedAgainst(b, g) && Run(b, t).Some?
    decreases |t|
    ensures FirstEntry(t) == None || FirstEntry(t) == Some(Opposite(g))
  {
    if t != [] && !t[0].Entry? {
      ForcedSwitchHandsOver(Step(b, t[0]), t[1..], g);
    }
  }

  /** The run bound: an admission that brings the run of `g` to
      `max_consecutive` while the other sex waits means that the next
      student admitted after it is of the other sex. */
  lemma RunBound(b: Record, g: Sex, t: seq<Event>)
    requires Invariant(b) && CanEnter(b, g) && Waiting(b, g) > 0
    requires Enter(b, g).consecutiveEntries >= b.maxConsecutive
    requires Waiting(b, Opposite(g)) > 0
    requires Run(Enter(b, g), t).Some?
    ensures FirstEntry(t) == None || FirstEntry(t) == Some(Opposite(g))
  {
    ForcedSwitchHandsOver(Enter(b, g), t, g);
  }

  /** The sex a forced switch holds back: the one inside, or the one that
      left an empty bathroom last. */
  function HeldBack(b: Record): State
  {
    if b.currentGender != Nobody then b.currentGender else b.lastGender
  }

  /** A forced switch is always awaited by a student of the other sex. */
  predicate SwitchAwaited(b: Record)
  {
    b.forcedSwitch ==> HeldBack(b) != Nobody && Waiting(b, Opposite(HeldBack(b))) > 0
  }

  /** Callers give up only when the server stops. */
  predicate ServerRunning(t: seq<Event>)
  {
    forall i :: 0 <= i < |t| ==> !t[i].Abandonment?
  }

  /** While the server runs, every run keeps a forced switch awaited: an
      admission forces it only with the other sex waiting, departures of
      the sex held back keep it held back, and arrivals only add waiters. */
  lemma {:induction false} RunKeepsSwitchAwaited(b: Record, t: seq<Event>)
    requires Invariant(b) && SwitchAwaited(b) && ServerRunning(t) && Run(b, t).Some?
    decreases |t|
    ensures SwitchAwaited(Run(b, t).value)
  {
    if t != [] {
      assert !t[0].Abandonment?;
      StepIsSafe(b, t[0], if b.currentGender == Man then b.occupiedCabins else 0,
                 if b.currentGender == Woman then b.occupiedCabins else 0);
      assert ServerRunning(t[1..]) by {
        forall i | 0 <= i < |t[1..]|
          ensures !t[1..][i].Abandonment?
        {
          assert t[1..][i] == t[i + 1];
        }
      }
      RunKeepsSwitchAwaited(Step(b, t[0]), t[1..]);
    }
  }

  /** In a state whose forced switch is awaited, whenever someone waits, an
      empty bathroom with a cabin admits some sex that has a waiter. A
      particular waiting sex may still be refused. */
  lemma EmptyBathroomAdmitsAWaiter(b: Record)
    requires Invariant(b) && SwitchAwaited(b)
    requires b.currentGender == Nobody && b.totalCabins > 0
    requires Waiting(b, Man) > 0 || Waiting(b, Woman) > 0
    ensures (Waiting(b, Man) > 0 && CanEnter(b, Man)) || (Waiting(b, Woman) > 0 && CanEnter(b, Woman))
  {
    if b.forcedSwitch {
      ForcedSwitchInEmptyBathroom(b);
      assert Opposite(b.lastGender) == Man || Opposite(b.lastGender) == Woman;
    }
  }

  /** In a server that starts from `initBathroom` and keeps running,
      whenever someone waits, an empty bathroom with a cabin admits some sex
      that has a waiter. A particular waiting sex may still be refused. */
  lemma ServerNeverLocksOut(cabins: nat, maxConsecutive: nat, t: seq<Event>)
    requires cabins > 0 && ServerRunning(t) && Run(Initial(cabins, maxConsecutive), t).Some?
    requires Run(Initial(cabins, maxConsecutive), t).value.currentGender == Nobody
    requires Waiters(t, Man) > 0 || Waiters(t, Woman) > 0
    ensures var b := Run(Initial(cabins, maxConsecutive), t).value;
            (Waiting(b, Man) > 0 && CanEnter(b, Man)) || (Waiting(b, Woman) > 0 && CanEnter(b, Woman))
  {
    var b := Run(Initial(cabins, maxConsecutive), t).value;
    ReachableIsSafe(cabins, maxConsecutive, t);
    RunKeepsSwitchAwaited(Initial(cabins, maxConsecutive), t);
    EmptyBathroomAdmitsAWaiter(b);
  }

  /** The `bathroom` global and the code that updates it. */
  class Bathroom {
    var totalCabins: nat
    var occupiedCabins: int
    var currentGender: State
    var consecutiveEntries: nat
    var maxConsecutive: nat
    var forcedSwitch: bool
    var lastGender: State
    var waitingMales: nat
    var waitingFemales: nat
    var totalEntered: nat
    var malesEntered: nat
    var femalesEntered: nat

    function Snapshot(): Record
      reads this
    {
      Record(totalCabins, occupiedCabins, currentGender, consecutiveEntries, maxConsecutive,
             forcedSwitch, lastGender, waitingMales, waitingFemales,
             totalEntered, malesEntered, femalesEntered)
    }

    predicate Valid()
      reads this
    {
      Invariant(Snapshot())
    }

    /** `initBathroom(cabins, max_consecutive)`. */
    constructor (cabins: nat, maxConsecutive: nat)
      ensures Valid() && Snapshot() == Initial(cabins, maxConsecutive)
    {
      totalCabins := cabins;
      occupiedCabins := 0;
      currentGender := Nobody;
      consecutiveEntries := 0;
      this.maxConsecutive := maxConsecutive;
      forcedSwitch := false;
      lastGender := Nobody;
      waitingMales := 0;
      waitingFemales := 0;
      totalEntered := 0;
      malesEntered := 0;
      femalesEntered := 0;
    }

    /** `enterBathroom` up to its wait loop. */
    method BeginEnter(g: Sex)
      modifies this
      ensures old(Valid()) ==> Valid()
      ensures Snapshot() == Arrive(old(Snapshot()), g)
    {
      if g == Man {
        waitingMales := waitingMales + 1;
      } else {
        waitingFemales := waitingFemales + 1;
      }
    }

    /** `enterBathroom` once its wait loop has exited: either `canEnter`
        holds or the server has stopped, and a stopped server denies. */
    method FinishEnter(g: Sex, serverRunning: bool) returns (response: int)
      requires Waiting(Snapshot(), g) > 0
      requires serverRunning ==> CanEnter(Snapshot(), g)
      modifies this
      ensures response == if serverRunning then RESP_OK else RESP_DENIED
      ensures old(Valid()) ==> Valid()
      ensures Snapshot() == if serverRunning then Enter(old(Snapshot()), g) else Abandon(old(Snapshot()), g)
    {
      ghost var before := Snapshot();
      if g == Man {
        waitingMales := waitingMales - 1;
      } else {
        waitingFemales := waitingFemales - 1;
      }
      if !serverRunning {
        assert Snapshot() == Abandon(before, g);
        return RESP_DENIED;
      }
      ghost var entered := Enter(before, g);
      if currentGender == Nobody {
        if g != lastGender || lastGender == Nobody {
          consecutiveEntries := 0;
          forcedSwitch := false;
        }
        currentGender := g;
      }
      consecutiveEntries := consecutiveEntries + 1;
      occupiedCabins := occupiedCabins + 1;
      totalEntered := totalEntered + 1;
      if g == Man {
        malesEntered := malesEntered + 1;
      } else {
        femalesEntered := femalesEntered + 1;
      }
      assert consecutiveEntries == entered.consecutiveEntries;
      var oppositeWaiting := (g == Man && waitingFemales > 0) || (g == Woman && waitingMales > 0);
      if consecutiveEntries >= maxConsecutive && oppositeWaiting {
        forcedSwitch := true;
      }
      assert Snapshot() == entered;
      response := RESP_OK;
    }

    /** A whole `enterBathroom` whose wait loop stops at its first test. */
    method EnterBathroom(g: Sex, serverRunning: bool) returns (response: int)
      requires serverRunning ==> CanEnter(Arrive(Snapshot(), g), g)
      modifies this
      ensures response == if serverRunning then RESP_OK else RESP_DENIED
      ensures old(Valid()) ==> Valid()
      ensures Snapshot() == if serverRunning then Enter(Arrive(old(Snapshot()), g), g) else old(Snapshot())
    {
      BeginEnter(g);
      response := FinishEnter(g, serverRunning);
    }

    /** `exitBathroom(gender)`, called by a student of the sex inside. */
    method ExitBathroom(g: Sex)
      modifies this
      ensures Snapshot() == Exit(old(Snapshot()), g)
      ensures old(Valid()) && old(occupiedCabins) > 0 ==> Valid()
    {
      occupiedCabins := occupiedCabins - 1;
      lastGender := g;
      if occupiedCabins == 0 {
        currentGender := Nobody;
      }
    }

    /** `getStatus`: the state code, the occupied and the total cabins. */
    method GetStatus() returns (status: int, occupied: int, total: int)
      ensures status == GenderCode(currentGender) && occupied == occupiedCabins && total == totalCabins
      ensures Valid() ==> (status == 0 <==> occupied == 0)
      ensures Valid() ==> 0 <= occupied <= total
    {
      status := GenderCode(currentGender);
      occupied := occupiedCabins;
      total := totalCabins;
    }

    /** `CMD_CHECK_ENTRY`: asks `canEnter` without waiting. */
    method CheckEntry(g: Sex) returns (response: int)
      ensures response == RESP_OK <==> CanEnter(Snapshot(), g)
      ensures response == RESP_OK || response == RESP_DENIED
    {
      response := if CanEnter(Snapshot(), g) then RESP_OK else RESP_DENIED;
    }

    /** One pass of `handleClient`'s loop: the command `cmd` from a student
        of sex `g`, and the words sent back. An `CMD_ENTER` is modelled when
        its wait loop stops at the first test. */
    method HandleCommand(cmd: int, g: Sex, serverRunning: bool) returns (response: seq<int>)
      requires Dispatch(cmd) == EnterCommand && serverRunning ==> CanEnter(Arrive(Snapshot(), g), g)
      modifies this
      ensures old(Valid()) && (Dispatch(cmd) != ExitCommand || old(occupiedCabins) > 0) ==> Valid()
      ensures Dispatch(cmd) == CheckEntryCommand ==>
                response == [if CanEnter(old(Snapshot()), g) then RESP_OK else RESP_DENIED]
                && Snapshot() == old(Snapshot())
      ensures Dispatch(cmd) == EnterCommand ==>
                response == [if serverRunning then RESP_OK else RESP_DENIED]
                && Snapshot() == if serverRunning then Enter(Arrive(old(Snapshot()), g), g) else old(Snapshot())
      ensures Dispatch(cmd) == ExitCommand ==>
                response == [RESP_OK] && Snapshot() == Exit(old(Snapshot()), g)
      ensures Dispatch(cmd) == StatusCommand ==>
                response == [GenderCode(old(currentGender)), old(occupiedCabins), old(totalCabins)]
                && Snapshot() == old(Snapshot())
      ensures Dispatch(cmd) == UnknownCommand ==>
                response == [RESP_DENIED] && Snapshot() == old(Snapshot())
    {
      match Dispatch(cmd) {
        case CheckEntryCommand =>
          var can := CheckEntry(g);
          response := [can];
        case EnterCommand =>
          var result := EnterBathroom(g, serverRunning);
          response := [result];
        case ExitCommand =>
          ExitBathroom(g);
          response := [RESP_OK];
        case StatusCommand =>
          var status, occupied, total := GetStatus();
          response := [status, occupied, total];
        case UnknownCommand =>
          response := [RESP_DENIED];
      }
    }
  }
}
