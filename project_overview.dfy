/**
 * The project overview card: section count, per-counter totals over all sections, the total
 * time as hours and minutes, and the notes of every section.
 */
module ProjectOverview {
  import opened Optional
  import opened Dicts
  import opened Projects
  import opened Store
  import opened Text

  /** One step of the `reduce`: the running totals plus one section's counts. */
  function AddCounts(acc: StitchTypes, s: Section): (r: StitchTypes)
    ensures forall c :: r.Get(c) == acc.Get(c) + s.data.Get(c)
  {
    StitchTypes(acc.stitches + s.data.stitches, acc.rows + s.data.rows,
                acc.repeats + s.data.repeats, acc.time + s.data.time)
  }

  /** `Object.values(sections).reduce(.., zeros)`: a left fold in key order. */
  function Reduce(acc: StitchTypes, vals: seq<Section>): StitchTypes
    decreases |vals|
  {
    if vals == [] then acc else Reduce(AddCounts(acc, vals[0]), vals[1..])
  }

  function Totals(sections: Dict<Section>): StitchTypes {
    Reduce(ZeroCounts, sections.Values())
  }

  /** Reference definition: the sum of one counter over a list of sections. */
  function Sum(vals: seq<Section>, c: Counter): int {
    if vals == [] then 0 else vals[0].data.Get(c) + Sum(vals[1..], c)
  }

  lemma {:induction false} ReduceIsSum(acc: StitchTypes, vals: seq<Section>, c: Counter)
    ensures Reduce(acc, vals).Get(c) == acc.Get(c) + Sum(vals, c)
    decreases |vals|
  {
    if vals != [] {
      ReduceIsSum(AddCounts(acc, vals[0]), vals[1..], c);
    }
  }

  /** Each total is the sum of that counter over all sections; with no sections every total is 0. */
  lemma TotalsAreSums(sections: Dict<Section>, c: Counter)
    ensures Totals(sections).Get(c) == Sum(sections.Values(), c)
    ensures sections.keys == [] ==> Totals(sections) == ZeroCounts
  {
    ReduceIsSum(ZeroCounts, sections.Values(), c);
  }

  /** Replacing one section changes each sum by exactly the difference at that place. */
  lemma {:induction false} SumUpdate(vals: seq<Section>, i: nat, s: Section, c: Counter)
    requires i < |vals|
    ensures Sum(vals[i := s], c) == Sum(vals, c) - vals[i].data.Get(c) + s.data.Get(c)
  {
    if i > 0 {
      SumUpdate(vals[1..], i - 1, s, c);
      assert vals[i := s][1..] == vals[1..][i - 1 := s];
    }
  }

  /** Replacing the section at one place moves every total by that section's change. */
  lemma TotalsAfterReplace(before: Dict<Section>, after: Dict<Section>, i: nat, c: Counter)
    requires before.Valid() && after.Valid() && after.keys == before.keys && i < |before.keys|
    requires forall k :: k != before.keys[i] ==> after.Get(k) == before.Get(k)
    ensures var sid := before.keys[i];
      Totals(after).Get(c) == Totals(before).Get(c) - before.items[sid].data.Get(c) + after.items[sid].data.Get(c)
  {
    var s' := after.items[before.keys[i]];
    ValuesReplaced(before, after, i);
    ValuesValid(before);
    TotalsAreSums(before, c);
    TotalsAreSums(after, c);
    SumUpdate(before.Values(), i, s', c);
  }

  /** Writing one section's counter (a counter button, a timer save) moves that total by the
      change of that counter and leaves the other totals alone. */
  lemma TotalsAfterWrite(root: Root, c: Counter, v: int, now: int)
    requires RootValid(root) && SectionShown(root) && root.selectedProjectID != ""
    requires ShownSection(root) in ShownSections(root).items
    ensures var before, after := ShownSections(root), ShownSections(WriteCounter(root, ShownSection(root), c, v, now));
      && Totals(after).Get(c) == Totals(before).Get(c) - before.items[ShownSection(root)].data.Get(c) + v
      && (forall c' :: c' != c ==> Totals(after).Get(c') == Totals(before).Get(c'))
  {
    var sid := ShownSection(root);
    var r := WriteCounter(root, sid, c, v, now);
    var before, after := ShownSections(root), ShownSections(r);
    assert before.Valid() && after.Valid();
    var i :| 0 <= i < |before.keys| && before.keys[i] == sid;
    TotalsAfterReplace(before, after, i, c);
    forall c' | c' != c ensures Totals(after).Get(c') == Totals(before).Get(c') {
      TotalsAfterReplace(before, after, i, c');
    }
  }

  /** `${hours}h ${mins}m` with `Math.floor` and JavaScript's `%`. */
  function FormatMinutes(minutes: int): string {
    IntToString(minutes / 60) + "h " + IntToString(JsRem(minutes, 60)) + "m"
  }

  /** For a non-negative count of minutes the text is the whole hours and the leftover minutes,
      which recombine to the count. */
  lemma FormatMinutesParts(minutes: nat)
    ensures var h, m := minutes / 60, minutes % 60;
      && FormatMinutes(minutes) == NatToString(h) + "h " + NatToString(m) + "m"
      && m < 60 && h * 60 + m == minutes
  {
    assert JsRem(minutes, 60) == minutes % 60;
  }

  /** The total time as written: the seconds total handed to the minutes formatter. */
  function TimeTextAsWritten(totalTime: int): string {
    FormatMinutes(totalTime)
  }

  /** The total time as the stored unit requires: whole minutes of the seconds total, formatted. */
  function FormatDuration(seconds: int): string {
    FormatMinutes(seconds / 60)
  }

  /** The corrected text shows the whole hours and the leftover whole minutes of the seconds:
      what it shows is at most the total and less than a minute short of it. */
  lemma FormatDurationShowsHoursMinutes(n: nat)
    ensures var h, m := n / 3600, n % 3600 / 60;
      && FormatDuration(n) == NatToString(h) + "h " + NatToString(m) + "m"
      && m < 60
      && h * 3600 + m * 60 <= n < h * 3600 + m * 60 + 60
  {
    var q := n / 60;
    assert q / 60 == n / 3600 && q % 60 == n % 3600 / 60 by {
      assert n == 3600 * (n / 3600) + 60 * (n % 3600 / 60) + (n % 3600) % 60;
    }
  }

  /** One hour of timed work (3600 stored seconds) reads "60h 0m" as written and "1h 0m" as
      corrected. */
  lemma OneHourShownAsSixtyHours()
    ensures TimeTextAsWritten(3600) == "60h 0m"
    ensures FormatDuration(3600) == "1h 0m"
  {
    assert NatToString(60) == NatToString(6) + [DigitChar(0)];
  }

  /** `Object.values(sections).flatMap(s => s.notes)` with the notes a string: one element per
      section. */
  function AllNotes(vals: seq<Section>): (r: seq<string>)
    ensures |r| == |vals| && forall i :: 0 <= i < |vals| ==> r[i] == vals[i].notes
  {
    seq(|vals|, i requires 0 <= i < |vals| => vals[i].notes)
  }

  datatype NoteCard = NoteCard(name: string, items: seq<string>)

  /** The notes cards as written: `section.notes.map(..)` on a non-empty string throws (strings
      have no `map`), shown here as `None`; with every text empty no card is drawn. */
  function NoteCardsAsWritten(vals: seq<Section>): (r: Option<seq<NoteCard>>)
    ensures r.None? <==> exists i :: 0 <= i < |vals| && vals[i].notes != ""
    ensures r.Some? ==> r.value == []
  {
    if vals == [] then Some([])
    else if vals[0].notes != "" then None
    else
      var rest := NoteCardsAsWritten(vals[1..]);
      assert forall i :: 1 <= i < |vals| ==> vals[i] == vals[1..][i - 1];
      rest
  }

  /** The notes cards as intended: one card per section with non-empty notes, in key order,
      holding that text. */
  function NoteCards(vals: seq<Section>): (r: seq<NoteCard>)
    ensures forall s :: s in vals && s.notes != "" ==> NoteCard(s.name, [s.notes]) in r
    ensures forall card :: card in r ==> exists s :: s in vals && s.notes != "" && card == NoteCard(s.name, [s.notes])
    ensures |r| <= |vals|
  {
    if vals == [] then []
    else
      var rest := NoteCards(vals[1..]);
      assert forall s :: s in vals[1..] ==> s in vals;
      assert forall s :: s in vals ==> s == vals[0] || s in vals[1..];
      if vals[0].notes != "" then [NoteCard(vals[0].name, [vals[0].notes])] + rest else rest
  }

  /** A section whose notes were saved through the notes editor breaks the card as written,
      while the corrected card shows the text. */
  lemma SavedNotesBreakOverview()
    ensures var vals := [Section("Border", "Keep tension loose", ZeroCounts)];
      NoteCardsAsWritten(vals).None? && NoteCards(vals) == [NoteCard("Border", ["Keep tension loose"])]
  {
    var vals := [Section("Border", "Keep tension loose", ZeroCounts)];
    assert vals[0].notes != "";
  }

  datatype OverviewView = OverviewView(
    lastModified: int, sectionCount: nat, totals: StitchTypes, timeText: string,
    notesShown: bool, cards: seq<NoteCard>)

  /** The card for the selected project; nothing without one. */
  function Overview(root: Root): (v: Option<OverviewView>)
    requires NoPartialSelected(root)
    ensures v.Some? <==> SelectedProject(root).Some?
    ensures v.Some? ==>
      var sections := SelectedProject(root).value.data.sections;
      && v.value.sectionCount == |sections.keys|
      && v.value.totals == Totals(sections)
      && v.value.timeText == FormatDuration(Totals(sections).time)
      && (v.value.notesShown <==> |sections.Values()| > 0)
      && v.value.cards == NoteCards(sections.Values())
  {
    match SelectedProject(root)
    case None => None
    case Some(p) =>
      var sections := p.data.sections;
      var totals := Totals(sections);
      Some(OverviewView(p.lastModified, |sections.keys|, totals, FormatDuration(totals.time),
                        |AllNotes(sections.Values())| > 0, NoteCards(sections.Values())))
  }

  /** The outcome of rendering: nothing, a thrown `TypeError`, or the card. */
  datatype Rendered = Blank | Throws | Shown(view: OverviewView)

  /** The card as written: nothing without a project; a throw as soon as some section's notes
      are non-empty (the heading is then shown, and its cards call `map` on the text);
      otherwise the card, whose time text is the seconds total read as minutes. */
  function OverviewAsWritten(root: Root): (v: Rendered)
    requires NoPartialSelected(root)
    ensures v.Blank? <==> SelectedProject(root).None?
    ensures v.Throws? <==> (
      && SelectedProject(root).Some?
      && exists i :: 0 <= i < |SelectedProject(root).value.data.sections.Values()| &&
           SelectedProject(root).value.data.sections.Values()[i].notes != "")
    ensures v.Shown? ==>
      var c := Overview(root).value;
      && v.view == c.(timeText := TimeTextAsWritten(c.totals.time))
      && c.cards == []
  {
    match SelectedProject(root)
    case None => Blank
    case Some(p) =>
      var c := Overview(root).value;
      match NoteCardsAsWritten(p.data.sections.Values())
      case None => Throws
      case Some(cards) =>
        NoNotesNoCards(p.data.sections.Values());
        Shown(c.(timeText := TimeTextAsWritten(c.totals.time), cards := cards))
  }

  /** Without any non-empty notes the corrected view draws no card either. */
  lemma NoNotesNoCards(vals: seq<Section>)
    requires forall i :: 0 <= i < |vals| ==> vals[i].notes == ""
    ensures NoteCards(vals) == []
  {
  }

  /** Under the store's invariant the notes heading shows exactly when the project has a
      section. */
  lemma NotesShownIffSections(root: Root)
    requires RootValid(root) && NoPartialSelected(root) && SelectedProject(root).Some?
    ensures Overview(root).value.notesShown <==> |SelectedProject(root).value.data.sections.keys| > 0
  {
    EntriesValid(SelectedProject(root).value.data.sections);
  }
}
