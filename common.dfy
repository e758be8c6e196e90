/** Vocabulary shared by every variant of the bathroom admission controller:
    who can be inside, the steps actors take, and how a run of steps is
    counted. */
module Common {

  /** Who holds the bathroom: `enum State { nobody, man, woman }` of the
      thread and process variants, and the integer codes 0, 1 and 2 of
      `current_gender` / `last_gender` in the network server. */
  datatype State = Nobody | Man | Woman

  /** A student's sex: a `State` other than `Nobody`. */
  type Sex = s: State | s != Nobody witness Man

  /** The other sex. */
  function Opposite(s: Sex): (r: Sex)
    ensures r != s
  {
    if s == Man then Woman else Man
  }

  datatype Option<T> = None | Some(value: T)

  /** One step of one actor, as the controller sees it. Between the part of
      `enterBathroom` that runs before its wait loop (`Arrival`) and the part
      that runs after it (`Entry`), the steps of other actors interleave. */
  datatype Event =
    | Arrival(sex: Sex)              // the caller is counted as waiting
    | Entry(sex: Sex, waited: bool)  // the wait loop exits; `waited`: the caller had been counted
    | Departure(sex: Sex)            // leaveBathroom / exitBathroom
    | Abandonment(sex: Sex)          // the server stopped while the caller waited

  /** How many students of sex `s` the events let in, net of those they let out. */
  function Inside(t: seq<Event>, s: Sex): int
  {
    if t == [] then 0
    else
      (match t[0]
       case Entry(x, _) => if x == s then 1 else 0
       case Departure(x) => if x == s then -1 else 0
       case _ => 0)
      + Inside(t[1..], s)
  }

  /** How many callers of sex `s` the events leave counted as waiting: one
      more per arrival, one less per admission of a counted caller and per
      abandonment. */
  function Waiters(t: seq<Event>, s: Sex): int
  {
    if t == [] then 0
    else
      (match t[0]
       case Arrival(x) => if x == s then 1 else 0
       case Entry(x, waited) => if x == s && waited then -1 else 0
       case Abandonment(x) => if x == s then -1 else 0
       case Departure(_) => 0)
      + Waiters(t[1..], s)
  }

  /** The sex of the first student the events admit, if they admit anyone. */
  function FirstEntry(t: seq<Event>): Option<Sex>
  {
    if t == [] then None
    else if t[0].Entry? then Some(t[0].sex)
    else FirstEntry(t[1..])
  }

  /** `used` occupants, `men` men and `women` women, and only the sex that
      `state` names is inside: never both sexes at once, nobody when
      `state` is `Nobody`. */
  predicate Segregated(used: int, state: State, men: int, women: int)
  {
    0 <= men && 0 <= women && used == men + women
    && (state != Man ==> men == 0)
    && (state != Woman ==> women == 0)
  }

  /** Admitting a student of sex `s` into a bathroom that is empty or already
      held by `s` keeps it segregated, with one more of `s` inside. */
  lemma EntryKeepsSegregated(used: int, state: State, men: int, women: int, s: Sex)
    requires Segregated(used, state, men, women)
    requires state == Nobody || state == s
    ensures Segregated(used + 1, s, men + Inside([Entry(s, true)], Man), women + Inside([Entry(s, true)], Woman))
    ensures Inside([Entry(s, true)], Man) == Inside([Entry(s, false)], Man)
    ensures Inside([Entry(s, true)], Woman) == Inside([Entry(s, false)], Woman)
  {
    assert [Entry(s, true)][1..] == [] && [Entry(s, false)][1..] == [];
  }

  /** A student of the sex that holds the bathroom leaving it keeps it
      segregated, with one fewer of that sex inside; once it is empty it may
      be marked `Nobody`. */
  lemma DepartureKeepsSegregated(used: int, state: State, men: int, women: int, s: Sex, next: State)
    requires Segregated(used, state, men, women)
    requires used > 0 && state == s
    requires next == state || (used == 1 && next == Nobody)
    ensures Segregated(used - 1, next, men + Inside([Departure(s)], Man), women + Inside([Departure(s)], Woman))
  {
    assert [Departure(s)][1..] == [];
  }
}
