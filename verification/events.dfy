/**
 * EventManager: commands keyed by window events under the EventLess ordering. Two events
 * share a slot of the table when neither is less than the other.
 */
module Events {
  import opened Wrappers

  /** sf::Event::EventType values as numbered in SFML 2.x. */
  const KeyPressed: nat := 5
  const KeyReleased: nat := 6
  const MouseButtonPressed: nat := 9
  const MouseButtonReleased: nat := 10

  /**
   * The part of an sf::Event the ordering reads: its type, the key code of a keyboard
   * event and the button of a mouse-button event.
   */
  datatype Event = Event(eventType: nat, keyCode: int, button: int)

  /** An std::function: empty, or a callable identified by a number. */
  type Command = Option<nat>

  /** One invocation of a command: which command, and the event it was called with. */
  datatype Invocation = Invocation(command: nat, event: Event)

  predicate IsKey(t: nat) { t == KeyPressed || t == KeyReleased }

  predicate IsMouseButton(t: nat) { t == MouseButtonPressed || t == MouseButtonReleased }

  /** EventLess::operator() exactly as written: the mouse-button branch compares with ==. */
  function EventLessAsWritten(lhs: Event, rhs: Event): (r: bool)
    ensures r ==> lhs.eventType <= rhs.eventType
    ensures lhs.eventType < rhs.eventType ==> r
    ensures lhs == rhs && !IsMouseButton(lhs.eventType) ==> !r
  {
    if lhs.eventType == rhs.eventType then
      if IsKey(lhs.eventType) then lhs.keyCode < rhs.keyCode
      else if IsMouseButton(lhs.eventType) then lhs.button == rhs.button
      else false
    else lhs.eventType < rhs.eventType
  }

  /** EventLess with the mouse-button branch ordering buttons by <, as the key branch does. */
  function EventLess(lhs: Event, rhs: Event): (r: bool)
    ensures r ==> lhs.eventType <= rhs.eventType
    ensures lhs.eventType < rhs.eventType ==> r
    ensures lhs == rhs ==> !r
  {
    if lhs.eventType == rhs.eventType then
      if IsKey(lhs.eventType) then lhs.keyCode < rhs.keyCode
      else if IsMouseButton(lhs.eventType) then lhs.button < rhs.button
      else false
    else lhs.eventType < rhs.eventType
  }

  /** As written, a mouse-button event is less than itself, so the order is not irreflexive. */
  lemma AsWrittenNotIrreflexive()
    ensures EventLessAsWritten(Event(MouseButtonPressed, 0, 0), Event(MouseButtonPressed, 0, 0))
  {
  }

  /** As written, pressing the left and the right button are equivalent events. */
  lemma AsWrittenMergesButtons()
    ensures !EventLessAsWritten(Event(MouseButtonPressed, 0, 0), Event(MouseButtonPressed, 0, 1))
    ensures !EventLessAsWritten(Event(MouseButtonPressed, 0, 1), Event(MouseButtonPressed, 0, 0))
  {
  }

  /** The corrected ordering agrees with the written one everywhere but on two mouse-button events of one type. */
  lemma CorrectionOnlyTouchesMouse(lhs: Event, rhs: Event)
    requires !(lhs.eventType == rhs.eventType && IsMouseButton(lhs.eventType))
    ensures EventLess(lhs, rhs) == EventLessAsWritten(lhs, rhs)
  {
  }

  /**
   * The slot of an event: its type and the field its type is ordered by (zero for the
   * types whose events all compare equivalent).
   */
  datatype Slot = Slot(eventType: nat, detail: int)

  function SlotOf(e: Event): (s: Slot)
    ensures s.eventType == e.eventType
  {
    if IsKey(e.eventType) then Slot(e.eventType, e.keyCode)
    else if IsMouseButton(e.eventType) then Slot(e.eventType, e.button)
    else Slot(e.eventType, 0)
  }

  predicate SlotLess(a: Slot, b: Slot)
  {
    a.eventType < b.eventType || (a.eventType == b.eventType && a.detail < b.detail)
  }

  predicate Equivalent(a: Event, b: Event)
  {
    !EventLess(a, b) && !EventLess(b, a)
  }

  /** EventLess is the lexicographic order on slots. */
  lemma EventLessBySlot(a: Event, b: Event)
    ensures EventLess(a, b) <==> SlotLess(SlotOf(a), SlotOf(b))
  {
  }

  /** Two events are equivalent under EventLess exactly when they have the same slot. */
  lemma EquivalentIffSameSlot(a: Event, b: Event)
    ensures Equivalent(a, b) <==> SlotOf(a) == SlotOf(b)
  {
  }

  /** EventLess is a strict weak ordering, as std::map requires of its comparator. */
  lemma StrictWeakOrder(a: Event, b: Event, c: Event)
    ensures !EventLess(a, a)
    ensures EventLess(a, b) ==> !EventLess(b, a)
    ensures EventLess(a, b) && EventLess(b, c) ==> EventLess(a, c)
    ensures Equivalent(a, b) && Equivalent(b, c) ==> Equivalent(a, c)
  {
    EquivalentIffSameSlot(a, b);
    EquivalentIffSameSlot(b, c);
    EquivalentIffSameSlot(a, c);
  }

  /** Key events are told apart by key code; other events of one type by nothing. */
  lemma SlotsOfKeysAndOthers(a: Event, b: Event)
    ensures a.eventType != b.eventType ==> !Equivalent(a, b)
    ensures a.eventType == b.eventType && IsKey(a.eventType) ==> (Equivalent(a, b) <==> a.keyCode == b.keyCode)
    ensures a.eventType == b.eventType && !IsKey(a.eventType) && !IsMouseButton(a.eventType) ==> Equivalent(a, b)
  {
  }

  /**
   * The std::map of EventManager: for every occupied slot, the event that first claimed
   * it (std::map keeps the original key) and the command stored there.
   */
  type Table = map<Slot, (Event, Command)>

  ghost predicate WellKeyed(t: Table)
  {
    forall s :: s in t ==> SlotOf(t[s].0) == s
  }

  /** EventManager::add: events_[event] = command, which replaces an equivalent entry's command. */
  function Add(t: Table, e: Event, c: Command): (r: Table)
    ensures r.Keys == t.Keys + {SlotOf(e)}
    ensures r[SlotOf(e)].1 == c
    ensures SlotOf(e) in t ==> r[SlotOf(e)].0 == t[SlotOf(e)].0
    ensures SlotOf(e) !in t ==> r[SlotOf(e)].0 == e
    ensures forall s :: s in t && s != SlotOf(e) ==> r[s] == t[s]
  {
    var s := SlotOf(e);
    if s in t then t[s := (t[s].0, c)] else t[s := (e, c)]
  }

  lemma AddWellKeyed(t: Table, e: Event, c: Command)
    requires WellKeyed(t)
    ensures WellKeyed(Add(t, e, c))
  {
  }

  /** EventManager::find: the stored command, or an empty one when no equivalent event is registered. */
  function Find(t: Table, e: Event): (c: Command)
    ensures SlotOf(e) !in t ==> c.None?
    ensures SlotOf(e) in t ==> c == t[SlotOf(e)].1
  {
    if SlotOf(e) in t then t[SlotOf(e)].1 else None
  }

  /** EventManager::dispatch: calls the found command with the dispatched event, if it is not empty. */
  function Dispatch(t: Table, e: Event): (r: Option<Invocation>)
    ensures r.Some? <==> Find(t, e).Some?
    ensures r.Some? ==> r.value == Invocation(Find(t, e).value, e)
  {
    match Find(t, e)
    case Some(id) => Some(Invocation(id, e))
    case None => None
  }

  /** A command added for an event is found for every event equivalent to it. */
  lemma FindAfterAdd(t: Table, e: Event, c: Command, q: Event)
    ensures Equivalent(e, q) ==> Find(Add(t, e, c), q) == c
    ensures !Equivalent(e, q) ==> Find(Add(t, e, c), q) == Find(t, q)
  {
    EquivalentIffSameSlot(e, q);
  }

  /** The later of two adds for equivalent events wins. */
  lemma LaterAddWins(t: Table, e1: Event, e2: Event, c1: Command, c2: Command)
    requires Equivalent(e1, e2)
    ensures Find(Add(Add(t, e1, c1), e2, c2), e1) == c2
  {
    EquivalentIffSameSlot(e1, e2);
  }

  /** Registering an empty command makes dispatch do nothing for that event. */
  lemma EmptyCommandSilences(t: Table, e: Event)
    ensures Dispatch(Add(t, e, None), e).None?
  {
  }

  /** Pressing and releasing the same key are separate entries; a different key code is too. */
  lemma PressAndReleaseSeparate(t: Table, code: int)
    requires t == Add(map[], Event(KeyPressed, code, 0), Some(1))
    ensures Dispatch(t, Event(KeyPressed, code, 7)) == Some(Invocation(1, Event(KeyPressed, code, 7)))
    ensures Dispatch(t, Event(KeyReleased, code, 0)).None?
    ensures Dispatch(t, Event(KeyPressed, code + 1, 0)).None?
  {
  }
}
