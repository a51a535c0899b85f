/**
 * The timer settings card: two switches and two minute inputs, each editing one timer option of
 * the selected project.
 */
module TimerSettings {
  import opened Optional
  import opened Dicts
  import opened Projects
  import opened Updates
  import opened Store
  import opened UseProjects
  import opened Text

  /** The card reads the selected project's timer options: it must be a complete project. */
  predicate SettingsReadable(root: Root) {
    SelectedTimerOptions(root).Some? && SelectionUsable(root)
  }

  function Options(root: Root): TimerOptions
    requires SettingsReadable(root)
  {
    SelectedTimerOptions(root).value
  }

  /** `parseInt(text) || 1`: the parsed integer, or 1 for text that is not a number or reads 0. */
  function StoredDelay(text: string): (m: int)
    ensures m != 0
    ensures ParseInt(text).None? ==> m == 1
    ensures ParseInt(text).Some? ==> m == (if ParseInt(text).value == 0 then 1 else ParseInt(text).value)
  {
    match ParseInt(text)
    case None => 1
    case Some(n) => if n == 0 then 1 else n
  }

  /** Typing the decimal form of a non-zero number stores that number. */
  lemma StoredDelayOfIntToString(n: int)
    requires n != 0
    ensures StoredDelay(IntToString(n)) == n
  {
    ParseIntOfIntToString(n);
  }

  /** Clearing the field, or typing 0, stores 1 rather than 0; so once edited a delay never
      switches its feature off. */
  lemma EmptyOrZeroStoresOne()
    ensures StoredDelay("") == 1 && StoredDelay("0") == 1
  {
    assert ParseInt("") == None by {
      assert SplitSign(TrimStart("")) == (false, "");
      assert DigitPrefix("", 10) == [];
    }
    assert ParseInt("0") == Some(0) by {
      ParseIntOfIntToString(0);
      assert IntToString(0) == "0";
    }
  }

  /** The store after flipping a switch (the switch reports the negation of what it shows). */
  function ToggleStep(root: Root, flag: TimerFlag, now: int): (r: Root)
    requires SettingsReadable(root)
    ensures SettingsReadable(r)
    ensures root.selectedProjectID == "" ==> r == root
    ensures root.selectedProjectID != "" ==>
      && Options(r).Flag(flag) == !Options(root).Flag(flag)
      && (forall f :: f != flag ==> Options(r).Flag(f) == Options(root).Flag(f))
      && (forall d :: Options(r).Delay(d) == Options(root).Delay(d))
  {
    UpdateSelectedProject(root, OptionsUpdate(SetFlag(flag, !Options(root).Flag(flag))), now)
  }

  /** Flipping a switch twice restores every timer option. */
  lemma ToggleTwice(root: Root, flag: TimerFlag, t1: int, t2: int)
    requires SettingsReadable(root)
    ensures Options(ToggleStep(ToggleStep(root, flag, t1), flag, t2)) == Options(root)
  {
    var r := ToggleStep(ToggleStep(root, flag, t1), flag, t2);
    if root.selectedProjectID != "" {
      var o, o' := Options(root), Options(r);
      assert o'.Flag(RemindTurnOn) == o.Flag(RemindTurnOn) && o'.Flag(AutoTurnOff) == o.Flag(AutoTurnOff);
      assert o'.Delay(RemindTurnOnDelay) == o.Delay(RemindTurnOnDelay);
      assert o'.Delay(AutoTurnOffDelay) == o.Delay(AutoTurnOffDelay);
    }
  }

  /** The store after a change event of a delay input. */
  function ChangeDelayStep(root: Root, delay: TimerDelay, text: string, now: int): (r: Root)
    requires SettingsReadable(root)
    ensures SettingsReadable(r)
    ensures root.selectedProjectID == "" ==> r == root
    ensures root.selectedProjectID != "" ==>
      && Options(r).Delay(delay) == StoredDelay(text)
      && (forall d :: d != delay ==> Options(r).Delay(d) == Options(root).Delay(d))
      && (forall f :: Options(r).Flag(f) == Options(root).Flag(f))
  {
    UpdateSelectedProject(root, OptionsUpdate(SetDelay(delay, StoredDelay(text))), now)
  }

  /** A switch: it shows the option, and a click flips it. */
  method Toggle(store: ProjectStore, flag: TimerFlag, now: int)
    requires SettingsReadable(store.State())
    modifies store
    ensures store.State() == ToggleStep(old(store.State()), flag, now)
  {
    var on := Options(store.State()).Flag(flag);
    store.UpdateSelectedProject(OptionsUpdate(SetFlag(flag, !on)), now);
  }

  /** A minute input. While focused it shows what was typed; otherwise the stored number. */
  class DelayInput {
    const delay: TimerDelay
    var focused: bool
    var tempValue: string

    /** What the input shows. */
    function Shown(root: Root): string
      requires SettingsReadable(root)
      reads this
    {
      if focused then tempValue else IntToString(Options(root).Delay(delay))
    }

    constructor (root: Root, delay: TimerDelay)
      requires SettingsReadable(root)
      ensures this.delay == delay && !focused && tempValue == IntToString(Options(root).Delay(delay))
    {
      this.delay := delay;
      focused := false;
      tempValue := IntToString(Options(root).Delay(delay));
    }

    method Focus(store: ProjectStore)
      requires SettingsReadable(store.State())
      modifies this
      ensures focused && tempValue == IntToString(Options(store.State()).Delay(delay))
      ensures !old(focused) ==> Shown(store.State()) == old(Shown(store.State()))
    {
      tempValue := IntToString(Options(store.State()).Delay(delay));
      focused := true;
    }

    /** A change event: the text is kept for display and its `parseInt(..) || 1` is stored. */
    method Change(store: ProjectStore, text: string, now: int)
      requires SettingsReadable(store.State())
      modifies this, store
      ensures store.State() == ChangeDelayStep(old(store.State()), delay, text, now)
      ensures tempValue == text && focused == old(focused)
    {
      tempValue := text;
      store.UpdateSelectedProject(OptionsUpdate(SetDelay(delay, StoredDelay(text))), now);
    }

    /** Losing focus (also what Enter does). */
    method Blur(store: ProjectStore)
      requires SettingsReadable(store.State())
      modifies this
      ensures !focused && tempValue == IntToString(Options(store.State()).Delay(delay))
    {
      tempValue := IntToString(Options(store.State()).Delay(delay));
      focused := false;
    }
  }

  /** Focus, type, blur: the input then shows the stored number, which is the typed number when
      the text is the decimal form of a non-zero integer. */
  method EditDelay(store: ProjectStore, input: DelayInput, text: string, now: int)
    requires SettingsReadable(store.State()) && store.State().selectedProjectID != ""
    modifies store, input
    ensures SettingsReadable(store.State())
    ensures input.Shown(store.State()) == IntToString(StoredDelay(text))
    ensures forall n :: n != 0 && text == IntToString(n) ==> input.Shown(store.State()) == text
  {
    input.Focus(store);
    input.Change(store, text, now);
    input.Blur(store);
    forall n | n != 0 && text == IntToString(n)
      ensures IntToString(StoredDelay(text)) == text
    {
      StoredDelayOfIntToString(n);
    }
  }
}
