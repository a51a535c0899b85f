/**
 * One of the three count cards (stitches, rows, repeats) of the selected section: its value and
 * its decrement, increment and reset buttons.
 */
module DataPointCounter {
  import opened Optional
  import opened Dicts
  import opened Projects
  import opened Updates
  import opened Store
  import opened UseProjects
  import SectionTimer

  /** The counters a card can show; the time has the timer instead. */
  type DataPointKey = c: Counter | c != Time witness Stitches

  datatype Button = Decrement | Increment | Reset

  /** The shown value: the section's count, 0 when the pointer dangles. */
  function CounterValue(root: Root, key: DataPointKey): int
    requires SectionShown(root)
  {
    match ShownSections(root).Get(ShownSection(root))
    case Some(s) => s.data.Get(key)
    case None => 0
  }

  /** The value a button writes. */
  function Pressed(b: Button, v: int): (r: int)
    ensures b == Decrement ==> r >= 0 && (v > 0 ==> r == v - 1) && (v <= 0 ==> r == 0)
    ensures b == Increment ==> r == v + 1
    ensures b == Reset ==> r == 0
  {
    match b
    case Decrement => if v - 1 > 0 then v - 1 else 0
    case Increment => v + 1
    case Reset => 0
  }

  /** Decrement is disabled at or below 0, reset at exactly 0. */
  predicate Enabled(b: Button, v: int) {
    match b
    case Decrement => v > 0
    case Increment => true
    case Reset => v != 0
  }

  /** From a non-negative count every button keeps it non-negative, and an enabled button always
      changes it. */
  lemma PressKeepsCountNatural(b: Button, v: int)
    requires v >= 0
    ensures Pressed(b, v) >= 0
    ensures Enabled(b, v) ==> Pressed(b, v) != v
  {
  }

  /** Decrement undoes increment on a non-negative count, and increment undoes an enabled
      decrement. */
  lemma IncrementDecrementInverse(v: int)
    ensures v >= 0 ==> Pressed(Decrement, Pressed(Increment, v)) == v
    ensures Enabled(Decrement, v) ==> Pressed(Increment, Pressed(Decrement, v)) == v
  {
  }

  /** The store after pressing `b` on the card for `key`. */
  function PressStep(root: Root, key: DataPointKey, b: Button, now: int): (r: Root)
    requires SectionShown(root)
    ensures SectionShown(r) && ShownSection(r) == ShownSection(root)
    ensures root.selectedProjectID != "" && ShownSection(root) in ShownSections(root).items ==>
      && CounterValue(r, key) == Pressed(b, CounterValue(root, key))
      && (forall k: DataPointKey :: k != key ==> CounterValue(r, k) == CounterValue(root, k))
    ensures ShownSection(root) !in ShownSections(root).items || root.selectedProjectID == "" ==>
      ShownSections(r) == ShownSections(root)
  {
    WriteCounter(root, ShownSection(root), key, Pressed(b, CounterValue(root, key)), now)
  }

  /** A press: the store write, then the timer's interaction mark when a timer has exposed it. */
  method Press(store: ProjectStore, timer: SectionTimer.Timer?, key: DataPointKey, b: Button, now: int)
    requires SectionShown(store.State())
    modifies store, timer
    ensures store.State() == PressStep(old(store.State()), key, b, now)
    ensures timer != null ==> timer.State() == old(timer.State()) && timer.lastInteraction == now
  {
    var root := store.State();
    store.UpdateSelectedProject(DataUpdate(SetCounter(ShownSection(root), key, Pressed(b, CounterValue(root, key)))), now);
    if timer != null {
      timer.MarkInteraction(now);
    }
  }
}
