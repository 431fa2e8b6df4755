/** The boot menu as a machine over key presses and timer ticks: `select` and
    `edit_config` of crates/r-boot/src/menu.rs, with the in-place screen
    updates they make. */
module MenuLoop {
  import opened Wrappers
  import opened BootConfig
  import opened Screen

  datatype Key = Up | Down | Left | Right | Enter | Escape | Letter(c: char) | NoKey

  /** A timer tick, a key press, or a failure of the keyboard or of waiting.
      `ok` is the outcome of the operation the key starts, if it starts one that
      can fail. */
  datatype Event = Tick | Press(key: Key, ok: bool) | Broken(message: string)

  datatype Reset = Reboot | Shutdown | FirmwareSetup

  /** The settings the menu holds in memory. */
  datatype Prefs = Prefs(timeout: Option<nat>, mode: Mode, logo: bool, images: seq<Option<Image>>)

  /** The local variables of `edit_config`. */
  datatype Draft = Draft(timeout: nat, mode: Mode, logo: bool, image: Option<Image>, option: nat)

  datatype Phase = Choosing | Editing(draft: Draft) | Booting(index: nat) | Resetting(how: Reset) | Failed(message: string)

  datatype Ui = Ui(phase: Phase, selected: nat, remaining: Option<nat>, prefs: Prefs, screen: Rows)

  const U64_MAX: nat := 0xffff_ffff_ffff_ffff

  function NextMode(m: Mode): Mode { match m case Off => Mode.Text case Text => Graphical case Graphical => Off }
  function PreviousMode(m: Mode): Mode { match m case Off => Graphical case Text => Off case Graphical => Mode.Text }

  function NextImage(image: Option<Image>): Option<Image> {
    match image case None => Some(Nixos) case Some(Nixos) => Some(Linux) case Some(Linux) => None
  }

  function PreviousImage(image: Option<Image>): Option<Image> {
    match image case None => None case Some(Nixos) => None case Some(Linux) => Some(Nixos)
  }

  // ----- screen updates

  /** `update_status`. */
  function UpdateStatus(screen: Rows, remaining: Option<nat>): Rows {
    WriteAt(screen, STATUS_ROW, StatusUpdate(remaining))
  }

  /** `move_selection`. */
  function MoveSelection(screen: Rows, titles: seq<string>, previous: nat, selected: nat, remaining: Option<nat>): Rows
    requires previous < |titles| && selected < |titles|
  {
    if PageFor(previous) != PageFor(selected) then DrawMenu(titles, selected, remaining) else
    var first := PageFirst(selected);
    WriteAt(WriteAt(screen, ENTRY_LIST_ROW + (previous - first), " "), ENTRY_LIST_ROW + (selected - first), ">")
  }

  function UpdateConfigMarker(screen: Rows, previous: nat, option: nat): Rows {
    WriteAt(WriteAt(screen, CONFIG_ROW_BASE + previous, " "), CONFIG_ROW_BASE + option, ">")
  }

  function UpdateConfigLine(screen: Rows, d: Draft): Rows
    requires d.option < CONFIG_OPTION_COUNT
  {
    WriteAt(screen, CONFIG_ROW_BASE + d.option, Padded(ConfigLine(d.option, d.timeout, d.mode, d.logo, d.image, ">")))
  }

  function DraftRows(d: Draft): Rows { DrawConfig(d.timeout, d.mode, d.logo, d.image, d.option) }

  lemma DraftRow(d: Draft, i: nat)
    requires i < CONFIG_OPTION_COUNT
    ensures |DraftRows(d)| == 9
    ensures DraftRows(d)[CONFIG_ROW_BASE + i] ==
      ConfigLine(i, d.timeout, d.mode, d.logo, d.image, MarkerFor(i, d.option))
  {
    hide ConfigLine;
  }

  // ----- the configuration page

  function DraftOf(prefs: Prefs, selected: nat): Draft
    requires selected < |prefs.images|
  {
    Draft(OrElse(prefs.timeout, 5), prefs.mode, prefs.logo, prefs.images[selected], 0)
  }

  function Decrease(d: Draft): Draft {
    if d.option == 0 then d.(timeout := if d.timeout == 0 then 0 else d.timeout - 1)
    else if d.option == 1 then d.(mode := PreviousMode(d.mode))
    else if d.option == 2 then d.(logo := !d.logo)
    else d.(image := PreviousImage(d.image))
  }

  function Increase(d: Draft): Draft {
    if d.option == 0 then d.(timeout := if d.timeout >= U64_MAX then d.timeout else d.timeout + 1)
    else if d.option == 1 then d.(mode := NextMode(d.mode))
    else if d.option == 2 then d.(logo := !d.logo)
    else d.(image := NextImage(d.image))
  }

  function EditKey(ui: Ui, titles: seq<string>, d: Draft, key: Key, ok: bool): Ui
    requires ui.selected < |titles| == |ui.prefs.images| && d.option < CONFIG_OPTION_COUNT
  {
    match key
    case Up =>
      var option := if d.option == 0 then 0 else d.option - 1;
      ui.(phase := Editing(d.(option := option)), screen := UpdateConfigMarker(ui.screen, d.option, option))
    case Down =>
      var option := (d.option + 1) % CONFIG_OPTION_COUNT;
      ui.(phase := Editing(d.(option := option)), screen := UpdateConfigMarker(ui.screen, d.option, option))
    case Left => ui.(phase := Editing(Decrease(d)), screen := UpdateConfigLine(ui.screen, Decrease(d)))
    case Right => ui.(phase := Editing(Increase(d)), screen := UpdateConfigLine(ui.screen, Increase(d)))
    case Enter =>
      if !ok then ui.(phase := Failed("cannot save boot configuration")) else
      var prefs := Prefs(Some(d.timeout), d.mode, d.logo, ui.prefs.images[ui.selected := d.image]);
      var remaining := if d.timeout > 0 then Some(d.timeout) else None;
      Ui(Choosing, ui.selected, remaining, prefs, DrawMenu(titles, ui.selected, remaining))
    case Escape => ui.(phase := Choosing, screen := DrawMenu(titles, ui.selected, ui.remaining))
    case _ => ui
  }

  // ----- the entry list

  /** A key press on the entry list, the countdown being stopped already. */
  function ChooseKey(ui: Ui, titles: seq<string>, key: Key, ok: bool): Ui
    requires ui.selected < |titles| == |ui.prefs.images|
  {
    var n := |titles|;
    match key
    case Up =>
      var to := if ui.selected == 0 then n - 1 else ui.selected - 1;
      ui.(selected := to, screen := MoveSelection(ui.screen, titles, ui.selected, to, ui.remaining))
    case Down =>
      var to := (ui.selected + 1) % n;
      ui.(selected := to, screen := MoveSelection(ui.screen, titles, ui.selected, to, ui.remaining))
    case Left =>
      Turned(ui, titles, PageBack(ui.selected, n))
    case Right =>
      Turned(ui, titles, PageOn(ui.selected, n))
    case Enter => ui.(phase := Booting(ui.selected))
    case Letter(c) =>
      if c == 'r' || c == 'R' then ui.(phase := Resetting(Reboot))
      else if c == 's' || c == 'S' then ui.(phase := Resetting(Shutdown))
      else if c == 'f' || c == 'F' then ui.(phase := Resetting(FirmwareSetup))
      else if c == 't' || c == 'T' || c == 'e' || c == 'E' then
        ui.(screen := DrawMenu(titles, ui.selected, ui.remaining))
      else if c == 'b' || c == 'B' then
        if ok then ui.(screen := DrawMenu(titles, ui.selected, ui.remaining)) else ui.(phase := Failed("chainload"))
      else if c == 'c' || c == 'C' then
        var d := DraftOf(ui.prefs, ui.selected);
        ui.(phase := Editing(d), screen := DraftRows(d))
      else ui
    case _ => ui
  }

  /** The page before, and the page after, as far as there is one. */
  function PageBack(selected: nat, n: nat): (page: nat)
    requires selected < n
    ensures page * ENTRIES_PER_PAGE < n
  {
    if PageFor(selected) == 0 then 0 else PageFor(selected) - 1
  }

  function PageOn(selected: nat, n: nat): (page: nat)
    requires selected < n
    ensures page * ENTRIES_PER_PAGE < n
  {
    MinOf(PageFor(selected) + 1, PageCount(n) - 1)
  }

  function Turned(ui: Ui, titles: seq<string>, page: nat): Ui
    requires ui.selected < |titles| && page * ENTRIES_PER_PAGE < |titles|
  {
    PageMoveLands(ui.selected, |titles|, page);
    var to := EntryOnPage(ui.selected, |titles|, page);
    ui.(selected := to, screen := DrawMenu(titles, to, ui.remaining))
  }

  /** A key stops the countdown before it does anything else. */
  function Stopped(ui: Ui): Ui {
    if ui.remaining.Some? then ui.(remaining := None, screen := UpdateStatus(ui.screen, None)) else ui
  }

  // ----- the machine

  /** Everything the code relies on between two events. */
  predicate Sound(ui: Ui, titles: seq<string>) {
    && ui.selected < |titles| == |ui.prefs.images|
    && (ui.remaining.Some? ==> ui.remaining.value >= 1)
    && (ui.phase.Editing? ==> ui.phase.draft.option < CONFIG_OPTION_COUNT && ui.remaining.None?)
    && (ui.phase.Booting? ==> ui.phase.index < |titles|)
  }

  function Start(titles: seq<string>, index: nat, prefs: Prefs): Ui
    requires index < |titles| == |prefs.images|
  {
    var timeout := OrElse(prefs.timeout, 5);
    if timeout == 0 then Ui(Booting(index), index, None, prefs, [])
    else Ui(Choosing, index, Some(timeout), prefs, DrawMenu(titles, index, Some(timeout)))
  }

  function Handle(ui: Ui, titles: seq<string>, event: Event): Ui
    requires Sound(ui, titles)
  {
    match ui.phase
    case Choosing =>
      (match event
       case Tick =>
         if ui.remaining.None? then ui
         else if ui.remaining.value == 1 then ui.(phase := Booting(ui.selected))
         else
           var left := Some(ui.remaining.value - 1);
           ui.(remaining := left, screen := UpdateStatus(ui.screen, left))
       case Press(key, ok) => ChooseKey(Stopped(ui), titles, key, ok)
       case Broken(m) => ui.(phase := Failed(m)))
    case Editing(d) =>
      (match event
       case Tick => ui
       case Press(key, ok) => EditKey(ui, titles, d, key, ok)
       case Broken(m) => ui.(phase := Failed(m)))
    case _ => ui
  }

  lemma TurnedSound(ui: Ui, titles: seq<string>, page: nat)
    requires Sound(ui, titles) && page * ENTRIES_PER_PAGE < |titles| && ui.phase.Choosing?
    ensures Sound(Turned(ui, titles, page), titles)
  {
    hide DrawMenu;
    PageMoveLands(ui.selected, |titles|, page);
  }

  lemma ChooseSound(ui: Ui, titles: seq<string>, key: Key, ok: bool)
    requires Sound(ui, titles) && ui.phase.Choosing? && ui.remaining.None?
    ensures Sound(ChooseKey(ui, titles, key, ok), titles)
  {
    hide MoveSelection, DrawMenu, DraftRows, Turned, PageBack, PageOn;
    TurnedSound(ui, titles, PageBack(ui.selected, |titles|));
    TurnedSound(ui, titles, PageOn(ui.selected, |titles|));
  }

  lemma EditSound(ui: Ui, titles: seq<string>, d: Draft, key: Key, ok: bool)
    requires Sound(ui, titles) && ui.phase == Editing(d)
    ensures Sound(EditKey(ui, titles, d, key, ok), titles)
  {
    hide UpdateConfigLine, UpdateConfigMarker, DrawMenu;
  }

  lemma StepSound(ui: Ui, titles: seq<string>, event: Event)
    requires Sound(ui, titles)
    ensures Sound(Handle(ui, titles, event), titles)
  {
    hide UpdateStatus, ChooseKey, EditKey;
    if event.Press? {
      match ui.phase {
        case Choosing => ChooseSound(Stopped(ui), titles, event.key, event.ok);
        case Editing(d) => EditSound(ui, titles, d, event.key, event.ok);
        case _ =>
      }
    }
  }

  /** The machine after a sequence of events. */
  function Play(ui: Ui, titles: seq<string>, events: seq<Event>): (r: Ui)
    requires Sound(ui, titles)
    ensures Sound(r, titles)
    decreases |events|
  {
    if events == [] then ui else
    StepSound(ui, titles, events[0]);
    Play(Handle(ui, titles, events[0]), titles, events[1..])
  }
}
