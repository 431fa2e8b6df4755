/** What the keys of the boot menu do, told by what is on the screen and by
    where a run ends. */
module MenuRuns {
  import opened Wrappers
  import opened Text
  import opened BootConfig
  import opened Screen
  import opened MenuLoop
  import opened MenuSafety

  // ----- the entry list

  /** The row of an entry on its page. */
  function RowOf(entry: nat): nat { 3 + entry % 10 }

  /** From a faithful screen Enter boots the entry the user sees marked: its row
      carries ">" and its title, and no other entry of the page is marked. */
  lemma EnterBootsMarked(ui: Ui, titles: seq<string>, ok: bool)
    requires Sound(ui, titles) && ui.phase.Choosing? && Faithful(ui, titles)
    ensures var to := Handle(ui, titles, Press(Enter, ok)).phase;
      && to.Booting? && to.index < |titles|
      && (forall c :: Cell(ui.screen, RowOf(to.index), c) == CellOf("> " + titles[to.index], c))
      && (forall e: nat | e < |titles| && e / 10 == to.index / 10 ::
            Cell(ui.screen, RowOf(e), 0) == if e == to.index then '>' else ' ')
  {
    var k := ui.selected;
    StoppedFacts(ui);
    assert Handle(ui, titles, Press(Enter, ok)).phase == Booting(k) by { hide Stopped; }
    forall e: nat, c: nat | e < |titles| && e / 10 == k / 10
      ensures Cell(ui.screen, RowOf(e), c) == CellOf(EntryRow(titles[e], e == k), c)
    {
      SamePageBounds(e, k, |titles|);
      EntryRowAt(titles, k, ui.remaining, e);
      hide DrawMenu, EntryRow;
    }
    hide Cell, DrawMenu, Faithful, Handle;
    assert EntryRow(titles[k], true) == "> " + titles[k];
    forall e: nat | e < |titles| && e / 10 == k / 10
      ensures Cell(ui.screen, RowOf(e), 0) == if e == k then '>' else ' '
    {
      assert CellOf(EntryRow(titles[e], e == k), 0) == if e == k then '>' else ' ';
    }
  }

  lemma SamePageBounds(e: nat, k: nat, n: nat)
    requires e < n && k < n && e / 10 == k / 10
    ensures PageFirst(k) <= e < PageLast(k, n) && RowOf(e) == ENTRY_LIST_ROW + (e - PageFirst(k))
  {}

  function Downs(k: nat): seq<Event> { seq(k, _ => Press(Down, true)) }

  /** The place after `i` around a list of `n`, and the place before. */
  function After(i: nat, n: nat): nat
    requires i < n
  {
    if i + 1 == n then 0 else i + 1
  }

  function Before(i: nat, n: nat): nat
    requires i < n
  {
    if i == 0 then n - 1 else i - 1
  }

  lemma RemainderIs(x: nat, n: nat, q: nat, r: nat)
    requires r < n && x == q * n + r
    ensures x % n == r
  {
    var p := x / n;
    assert x == p * n + x % n;
    if p < q { MoreTimes(p, q, n); }
    if q < p { MoreTimes(q, p, n); }
  }

  lemma {:induction false} MoreTimes(p: nat, q: nat, n: nat)
    requires p < q
    ensures q * n >= p * n + n
    decreases q
  {
    OneMore(q - 1, n);
    if p < q - 1 { MoreTimes(p, q - 1, n); }
  }

  lemma OneMore(p: nat, n: nat)
    ensures (p + 1) * n == p * n + n
  {}

  lemma AfterSum(x: nat, n: nat)
    requires n > 0
    ensures x % n < n && (x + 1) % n == After(x % n, n)
  {
    var q, r := x / n, x % n;
    assert x == q * n + r;
    if r + 1 == n {
      assert (q + 1) * n == q * n + n;
      RemainderIs(x + 1, n, q + 1, 0);
    } else {
      RemainderIs(x + 1, n, q, r + 1);
    }
  }

  lemma InList(i: nat, n: nat)
    requires i < n
    ensures i % n == i && (i + 1) % n == After(i, n)
  {
    RemainderIs(i, n, 0, i);
    AfterSum(i, n);
  }

  lemma DownMoves(ui: Ui, titles: seq<string>, ok: bool)
    requires Sound(ui, titles) && ui.phase.Choosing?
    ensures ui.selected < |titles|
    ensures var to := Handle(ui, titles, Press(Down, ok));
      to.phase.Choosing? && to.selected == After(ui.selected, |titles|)
    ensures var to := Handle(ui, titles, Press(Up, ok));
      to.phase.Choosing? && to.selected == Before(ui.selected, |titles|)
  {
    StoppedFacts(ui);
    InList(ui.selected, |titles|);
    hide Stopped, MoveSelection;
  }

  lemma {:induction false} DownsMove(ui: Ui, titles: seq<string>, k: nat)
    requires Sound(ui, titles) && ui.phase.Choosing?
    ensures |titles| > 0
    ensures var to := Play(ui, titles, Downs(k)); to.phase.Choosing? && to.selected == (ui.selected + k) % |titles|
  {
    hide Handle, Sound;
    SelectionInside(ui, titles);
    if k == 0 {
      assert Downs(0) == [];
      InList(ui.selected, |titles|);
    } else {
      DownsMove(ui, titles, k - 1);
      assert Downs(k) == Downs(k - 1) + [Press(Down, true)];
      PlayLast(ui, titles, Downs(k - 1), Press(Down, true));
      DownMoves(Play(ui, titles, Downs(k - 1)), titles, true);
      AfterSum(ui.selected + (k - 1), |titles|);
    }
  }

  lemma SelectionInside(ui: Ui, titles: seq<string>)
    requires Sound(ui, titles)
    ensures ui.selected < |titles|
  {}

  /** From the start, `k` presses of Down and then Enter boot the entry `k`
      places further, around the end of the list. */
  lemma DownThenEnter(titles: seq<string>, index: nat, prefs: Prefs, k: nat, ok: bool)
    requires index < |titles| == |prefs.images| && OrElse(prefs.timeout, 5) > 0
    ensures Sound(Start(titles, index, prefs), titles)
    ensures Play(Start(titles, index, prefs), titles, Downs(k) + [Press(Enter, ok)]).phase == Booting((index + k) % |titles|)
  {
    hide Start, Handle, Sound, Play;
    StartChoosing(titles, index, prefs);
    var ui := Start(titles, index, prefs);
    DownsMove(ui, titles, k);
    PlayLast(ui, titles, Downs(k), Press(Enter, ok));
    EnterBoots(Play(ui, titles, Downs(k)), titles, ok);
  }

  lemma StartChoosing(titles: seq<string>, index: nat, prefs: Prefs)
    requires index < |titles| == |prefs.images| && OrElse(prefs.timeout, 5) > 0
    ensures var ui := Start(titles, index, prefs); Sound(ui, titles) && ui.phase == Choosing && ui.selected == index
  {
    hide DrawMenu;
  }

  lemma EnterBoots(ui: Ui, titles: seq<string>, ok: bool)
    requires Sound(ui, titles) && ui.phase.Choosing?
    ensures Handle(ui, titles, Press(Enter, ok)).phase == Booting(ui.selected)
  {
    StoppedFacts(ui);
    hide Stopped;
  }

  /** Up undoes Down, and Down undoes Up. */
  lemma UpUndoesDown(ui: Ui, titles: seq<string>, a: bool, b: bool)
    requires Sound(ui, titles) && ui.phase.Choosing?
    ensures Sound(Handle(ui, titles, Press(Down, a)), titles) && Sound(Handle(ui, titles, Press(Up, a)), titles)
    ensures Handle(Handle(ui, titles, Press(Down, a)), titles, Press(Up, b)).selected == ui.selected
    ensures Handle(Handle(ui, titles, Press(Up, a)), titles, Press(Down, b)).selected == ui.selected
  {
    hide Handle, Sound;
    StepSound(ui, titles, Press(Down, a));
    StepSound(ui, titles, Press(Up, a));
    DownMoves(ui, titles, a);
    var down, up := Handle(ui, titles, Press(Down, a)), Handle(ui, titles, Press(Up, a));
    DownMoves(down, titles, b);
    DownMoves(up, titles, b);
  }

  /** Right goes one page on, Left one page back, as far as there are pages, and
      the place on the page stays unless the page is too short for it. */
  lemma PageKeysTurn(ui: Ui, titles: seq<string>, ok: bool)
    requires Sound(ui, titles) && ui.phase.Choosing?
    ensures var to := Handle(ui, titles, Press(Right, ok));
      var page := if (ui.selected / 10 + 1) * 10 < |titles| then ui.selected / 10 + 1 else ui.selected / 10;
      to.phase.Choosing? && to.selected == MinOf(page * 10 + ui.selected % 10, |titles| - 1)
    ensures var to := Handle(ui, titles, Press(Left, ok));
      to.phase.Choosing? && to.selected == if ui.selected < 10 then ui.selected else ui.selected - 10
  {
    StoppedFacts(ui);
    var n := |titles|;
    PageNumbers(ui.selected, n);
    hide Stopped, DrawMenu, PageOn, PageBack;
    OnPage(ui.selected, n, PageOn(ui.selected, n));
    OnPage(ui.selected, n, PageBack(ui.selected, n));
  }

  lemma PageNumbers(selected: nat, n: nat)
    requires selected < n
    ensures PageOn(selected, n) == if (selected / 10 + 1) * 10 < n then selected / 10 + 1 else selected / 10
    ensures PageBack(selected, n) == if selected < 10 then 0 else selected / 10 - 1
  {}

  lemma OnPage(selected: nat, n: nat, page: nat)
    requires selected < n && page * 10 < n
    ensures EntryOnPage(selected, n, page) == MinOf(page * 10 + selected % 10, n - 1)
  {}

  /** The letters reset the machine, in either case. */
  lemma LettersReset(ui: Ui, titles: seq<string>, ok: bool)
    requires Sound(ui, titles) && ui.phase.Choosing?
    ensures Handle(ui, titles, Press(Letter('r'), ok)).phase == Resetting(Reboot) == Handle(ui, titles, Press(Letter('R'), ok)).phase
    ensures Handle(ui, titles, Press(Letter('s'), ok)).phase == Resetting(Shutdown) == Handle(ui, titles, Press(Letter('S'), ok)).phase
    ensures Handle(ui, titles, Press(Letter('f'), ok)).phase == Resetting(FirmwareSetup)
         == Handle(ui, titles, Press(Letter('F'), ok)).phase
  {
    hide Stopped, DrawMenu, DraftRows, MoveSelection, UpdateStatus, Turned, PageBack, PageOn;
  }

  /** All other keys leave the selection and the settings alone; only chain
      loading can fail. */
  lemma OtherKeysStay(ui: Ui, titles: seq<string>, key: Key, ok: bool)
    requires Sound(ui, titles) && ui.phase.Choosing?
    requires match key
      case Letter(c) => c !in "rRsSfFcC"
      case Escape => true
      case NoKey => true
      case _ => false
    ensures var to := Handle(ui, titles, Press(key, ok));
      && to.selected == ui.selected && to.prefs == ui.prefs
      && (if !ok && (key == Letter('b') || key == Letter('B')) then to.phase == Failed("chainload") else to.phase.Choosing?)
  {
    StoppedFacts(ui);
    hide Stopped, DrawMenu;
  }

  // ----- the configuration page

  /** The configuration page opens with the settings in force and the image of
      the selected entry. */
  lemma ConfigureOpens(ui: Ui, titles: seq<string>, c: char, ok: bool)
    requires Sound(ui, titles) && ui.phase.Choosing? && (c == 'c' || c == 'C')
    ensures var to := Handle(ui, titles, Press(Letter(c), ok));
      && to.phase == Editing(Draft(OrElse(ui.prefs.timeout, 5), ui.prefs.mode, ui.prefs.logo, ui.prefs.images[ui.selected], 0))
      && to.selected == ui.selected && to.prefs == ui.prefs
  {
    StoppedFacts(ui);
    hide Stopped, DraftRows;
  }

  /** Up and Down choose the option; Down goes around, Up stops at the first. */
  lemma OptionKeys(ui: Ui, titles: seq<string>, d: Draft, ok: bool)
    requires Sound(ui, titles) && ui.phase == Editing(d)
    ensures Handle(ui, titles, Press(Down, ok)).phase == Editing(d.(option := if d.option == 3 then 0 else d.option + 1))
    ensures Handle(ui, titles, Press(Up, ok)).phase == Editing(d.(option := if d.option == 0 then 0 else d.option - 1))
  {
    hide UpdateConfigMarker;
  }

  /** What Right changes: the chosen option alone, by one step. */
  lemma RightSteps(ui: Ui, titles: seq<string>, d: Draft, ok: bool)
    requires Sound(ui, titles) && ui.phase == Editing(d)
    ensures Handle(ui, titles, Press(Right, ok)).phase.Editing? && Handle(ui, titles, Press(Right, ok)).prefs == ui.prefs
    ensures var e := Handle(ui, titles, Press(Right, ok)).phase.draft;
      match d.option
      case 0 => e == d.(timeout := e.timeout) && (d.timeout < 0xffff_ffff_ffff_ffff ==> e.timeout == d.timeout + 1)
      case 1 => (e == d.(mode := e.mode) &&
        (ModeName(d.mode), ModeName(e.mode)) in {("off", "text"), ("text", "graphical"), ("graphical", "off")})
      case 2 => e == d.(logo := !d.logo)
      case _ => (e == d.(image := e.image) &&
        (d.image, e.image) in {(None, Some(Nixos)), (Some(Nixos), Some(Linux)), (Some(Linux), None)})
  {
    hide Handle, Sound;
    SideKeys(ui, titles, d, ok);
    assert Handle(ui, titles, Press(Right, ok)).prefs == ui.prefs by { SideKeepsPrefs(ui, titles, d, ok); }
  }

  lemma SideKeys(ui: Ui, titles: seq<string>, d: Draft, ok: bool)
    requires Sound(ui, titles) && ui.phase == Editing(d)
    ensures d.option < 4
    ensures var to := Handle(ui, titles, Press(Right, ok)); Sound(to, titles) && to.phase == Editing(Increase(d))
    ensures var to := Handle(ui, titles, Press(Left, ok)); Sound(to, titles) && to.phase == Editing(Decrease(d))
  {
    hide UpdateConfigLine, Increase, Decrease;
    StepSound(ui, titles, Press(Right, ok));
    StepSound(ui, titles, Press(Left, ok));
  }

  lemma SideKeepsPrefs(ui: Ui, titles: seq<string>, d: Draft, ok: bool)
    requires Sound(ui, titles) && ui.phase == Editing(d)
    ensures Handle(ui, titles, Press(Right, ok)).prefs == ui.prefs
  {
    hide UpdateConfigLine, Increase, Decrease;
  }

  /** Left after Right restores the draft exactly when the timeout was below the
      limit and the image not the last one, as far as those are chosen. */
  lemma LeftUndoesRightIff(ui: Ui, titles: seq<string>, d: Draft, a: bool, b: bool)
    requires Sound(ui, titles) && ui.phase == Editing(d) && d.timeout <= U64_MAX
    ensures Sound(Handle(ui, titles, Press(Right, a)), titles)
    ensures Handle(Handle(ui, titles, Press(Right, a)), titles, Press(Left, b)).phase == Editing(d) <==>
            (d.option == 0 ==> d.timeout < 0xffff_ffff_ffff_ffff) && (d.option == 3 ==> d.image != Some(Linux))
  {
    hide Handle, Sound;
    SideKeys(ui, titles, d, a);
    SideKeys(Handle(ui, titles, Press(Right, a)), titles, Increase(d), b);
  }

  /** And Right after Left exactly when there was something to go back to. */
  lemma RightUndoesLeftIff(ui: Ui, titles: seq<string>, d: Draft, a: bool, b: bool)
    requires Sound(ui, titles) && ui.phase == Editing(d) && d.timeout <= U64_MAX
    ensures Sound(Handle(ui, titles, Press(Left, a)), titles)
    ensures Handle(Handle(ui, titles, Press(Left, a)), titles, Press(Right, b)).phase == Editing(d) <==>
            (d.option == 0 ==> d.timeout > 0) && (d.option == 3 ==> d.image != None)
  {
    hide Handle, Sound;
    SideKeys(ui, titles, d, a);
    SideKeys(Handle(ui, titles, Press(Left, a)), titles, Decrease(d), b);
  }

  /** What the user reads on the configuration page. */
  ghost predicate Shows(screen: Rows, row: nat, marked: bool, text: string) {
    forall c :: Cell(screen, row, c) == CellOf((if marked then ">" else " ") + text, c)
  }

  lemma DraftShown(screen: Rows, d: Draft)
    requires d.option < 4 && SamePicture(screen, DraftRows(d))
    ensures Shows(screen, 2, d.option == 0, " Timeout: " + Print(d.timeout) + "s")
    ensures Shows(screen, 3, d.option == 1, " Spinner: " + ModeName(d.mode))
    ensures Shows(screen, 4, d.option == 2, " Firmware logo: " + if d.logo then "on" else "off")
    ensures Shows(screen, 5, d.option == 3, " Selected entry image: " +
      (if d.image == None then "none" else if d.image == Some(Nixos) then "nixos" else "linux"))
  {
    DraftRow(d, 0);
    DraftRow(d, 1);
    DraftRow(d, 2);
    DraftRow(d, 3);
    hide DraftRows, Print;
  }

  /** From a faithful screen, Enter on the configuration page saves the values
      shown, for the selected entry, and starts the countdown anew from them. */
  lemma EnterSavesShown(ui: Ui, titles: seq<string>, d: Draft)
    requires Sound(ui, titles) && ui.phase == Editing(d) && Faithful(ui, titles)
    ensures var to := Handle(ui, titles, Press(Enter, true));
      && to.phase.Choosing? && to.selected == ui.selected && to.prefs.timeout.Some? && |to.prefs.images| == |titles|
      && Shows(ui.screen, 2, d.option == 0, " Timeout: " + Print(to.prefs.timeout.value) + "s")
      && Shows(ui.screen, 3, d.option == 1, " Spinner: " + ModeName(to.prefs.mode))
      && Shows(ui.screen, 4, d.option == 2, " Firmware logo: " + if to.prefs.logo then "on" else "off")
      && Shows(ui.screen, 5, d.option == 3, " Selected entry image: " +
           (if to.prefs.images[ui.selected] == None then "none"
            else if to.prefs.images[ui.selected] == Some(Nixos) then "nixos" else "linux"))
      && (forall i | 0 <= i < |titles| && i != ui.selected :: to.prefs.images[i] == ui.prefs.images[i])
      && to.remaining == (if to.prefs.timeout.value == 0 then None else to.prefs.timeout)
  {
    assert SamePicture(ui.screen, DraftRows(d));
    hide SamePicture, DraftRows, DrawMenu, Shows, Print, Faithful;
    DraftShown(ui.screen, d);
  }

  /** Escape leaves the settings as they were, and so does a save that fails. */
  lemma EscapeKeeps(ui: Ui, titles: seq<string>, d: Draft, ok: bool)
    requires Sound(ui, titles) && ui.phase == Editing(d)
    ensures var to := Handle(ui, titles, Press(Escape, ok));
      to.phase.Choosing? && to.prefs == ui.prefs && to.selected == ui.selected && to.remaining == ui.remaining
    ensures var to := Handle(ui, titles, Press(Enter, false)); to.phase.Failed? && to.prefs == ui.prefs
  {
    hide DrawMenu;
  }
}
