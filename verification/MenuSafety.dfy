/** What holds of the boot menu over every sequence of keys and ticks. */
module MenuSafety {
  import opened Wrappers
  import opened Text
  import opened BootConfig
  import opened Screen
  import opened MenuLoop

  // ----- rows

  /** Two rows that show the same. */
  ghost predicate SameRow(a: string, b: string) {
    forall c: nat :: CellOf(a, c) == CellOf(b, c)
  }

  function CellOf(row: string, c: nat): char { if c < |row| then row[c] else ' ' }

  lemma SameRowsSamePicture(a: Rows, b: Rows)
    requires |a| == |b| && forall r | 0 <= r < |a| :: SameRow(a[r], b[r])
    ensures SamePicture(a, b)
  {
    forall r: nat, c: nat ensures Cell(a, r, c) == Cell(b, r, c) {
      if r < |a| { assert CellOf(a[r], c) == CellOf(b[r], c); }
    }
  }

  lemma SamePictureRow(a: Rows, b: Rows, r: nat)
    requires SamePicture(a, b) && r < |a|
    ensures SameRow(a[r], b[r])
  {
    forall c: nat ensures CellOf(a[r], c) == CellOf(b[r], c) {
      assert Cell(a, r, c) == Cell(b, r, c);
    }
  }

  /** Writing one row over a faithful picture gives another: the other rows
      agree, and the written text covers what it must. */
  lemma RewriteRow(screen: Rows, before: Rows, after: Rows, row: nat, text: string)
    requires SamePicture(screen, before) && |before| == |after| && row < |before|
    requires forall r | 0 <= r < |before| && r != row :: before[r] == after[r]
    requires SameRow(Overwrite(before[row], text), after[row])
    ensures SamePicture(WriteAt(screen, row, text), after)
  {
    var result := WriteAt(screen, row, text);
    forall r: nat | r < |after| ensures SameRow(result[r], after[r]) {
      SamePictureRow(screen, before, r);
      if r == row {
        forall c: nat ensures CellOf(result[r], c) == CellOf(after[r], c) {
          assert CellOf(screen[r], c) == CellOf(before[r], c);
          assert CellOf(Overwrite(before[row], text), c) == CellOf(after[row], c);
        }
      }
    }
    SameRowsSamePicture(result, after);
  }

  lemma SameRowItself(a: string)
    ensures SameRow(a, a)
  {}

  /** Text followed by blanks covers a row that is no longer than both. */
  lemma CoverRow(was: string, text: string, blanks: nat)
    requires |was| <= |text| + blanks
    ensures SameRow(Overwrite(was, text + Blanks(blanks)), text)
  {}

  /** What lies beyond the written text stays on the screen. */
  lemma LeftoverShows(was: string, text: string, blanks: nat, c: nat)
    requires |text| + blanks <= c < |was| && was[c] != ' '
    ensures !SameRow(Overwrite(was, text + Blanks(blanks)), text)
  {
    assert CellOf(Overwrite(was, text + Blanks(blanks)), c) == was[c];
    assert CellOf(text, c) == ' ';
  }

  // ----- the status line

  /** The largest countdown, exclusive, that the blank literal can clear. */
  const COUNTDOWN_LIMIT: nat := 10_000_000_000_000

  lemma ThirteenDigits(n: nat)
    ensures |Print(n)| <= 13 <==> n < COUNTDOWN_LIMIT
  {
    PrintLength(n, 13);
    assert Power10(4) == 10_000;
    assert Power10(8) == 10_000 * Power10(4);
    assert Power10(12) == 10_000 * Power10(8);
    assert Power10(13) == 10 * Power10(12);
  }

  lemma StatusLength(n: nat)
    ensures |StatusText(Some(n))| == 29 + |Print(n)| && StatusText(Some(n))[|StatusText(Some(n))| - 1] == ':'
    ensures |StatusText(None)| == 16
  {
    hide Print;
    var prefix := "Select an entry" + " (boots in ";
    assert |prefix| == 26;
    assert StatusText(Some(n)) == prefix + Print(n) + "s):";
  }

  /** The countdown text is cleared exactly when it is short enough. */
  lemma ClearedIff(n: nat)
    ensures SameRow(Overwrite(StatusText(Some(n)), StatusUpdate(None)), StatusText(None)) <==> n < COUNTDOWN_LIMIT
  {
    StatusLength(n);
    ThirteenDigits(n);
    hide Print;
    var was := StatusText(Some(n));
    assert StatusUpdate(None) == StatusText(None) + Blanks(26);
    if |was| <= 42 {
      CoverRow(was, StatusText(None), 26);
    } else {
      LeftoverShows(was, StatusText(None), 26, |was| - 1);
    }
  }

  lemma CountedDown(n: nat)
    requires n > 0
    ensures SameRow(Overwrite(StatusText(Some(n)), StatusUpdate(Some(n - 1))), StatusText(Some(n - 1)))
  {
    StatusLength(n);
    StatusLength(n - 1);
    DigitsFallByOne(n);
    hide Print, StatusText;
    assert " " == Blanks(1);
    CoverRow(StatusText(Some(n)), StatusText(Some(n - 1)), 1);
  }

  /** The entry list drawn with two status lines differs in that row alone. */
  lemma StatusRowOnly(titles: seq<string>, selected: nat, a: Option<nat>, b: Option<nat>)
    requires selected < |titles|
    ensures var x, y := DrawMenu(titles, selected, a), DrawMenu(titles, selected, b);
      && |x| == |y| && STATUS_ROW < |x| && x[STATUS_ROW] == StatusText(a) && y[STATUS_ROW] == StatusText(b)
      && forall r | 0 <= r < |x| && r != STATUS_ROW :: x[r] == y[r]
  {
    hide StatusText, Footer, EntryRow, Print;
  }

  lemma UpdatedStatus(screen: Rows, titles: seq<string>, selected: nat, n: nat, to: Option<nat>)
    requires selected < |titles| && SamePicture(screen, DrawMenu(titles, selected, Some(n)))
    requires (to == None && n < COUNTDOWN_LIMIT) || (n > 0 && to == Some(n - 1))
    ensures SamePicture(UpdateStatus(screen, to), DrawMenu(titles, selected, to))
  {
    StatusRowOnly(titles, selected, Some(n), to);
    if to == None { ClearedIff(n); } else { CountedDown(n); }
    hide DrawMenu, StatusText, StatusUpdate;
    RewriteRow(screen, DrawMenu(titles, selected, Some(n)), DrawMenu(titles, selected, to), STATUS_ROW, StatusUpdate(to));
  }

  // ----- the selection marker

  lemma EntryRowAt(titles: seq<string>, selected: nat, remaining: Option<nat>, e: nat)
    requires selected < |titles| && PageFirst(selected) <= e < PageLast(selected, |titles|)
    ensures var row := ENTRY_LIST_ROW + (e - PageFirst(selected));
      row < |DrawMenu(titles, selected, remaining)| &&
      DrawMenu(titles, selected, remaining)[row] == EntryRow(titles[e], e == selected)
  {
    hide StatusText, Footer, EntryRow, Print;
  }

  /** Rows of the same page agree, whatever is selected on it, away from the
      two entries that change. */
  lemma SamePageRows(titles: seq<string>, a: nat, b: nat, remaining: Option<nat>)
    requires a < |titles| && b < |titles| && PageFor(a) == PageFor(b)
    ensures var x, y := DrawMenu(titles, a, remaining), DrawMenu(titles, b, remaining);
      && |x| == |y|
      && forall r | 0 <= r < |x| && r != ENTRY_LIST_ROW + (a - PageFirst(a)) && r != ENTRY_LIST_ROW + (b - PageFirst(b)) ::
           x[r] == y[r]
  {
    SamePage(a, b, |titles|);
    PageBounds(a, |titles|);
    PageBounds(b, |titles|);
    hide StatusText, EntryRow, Print, Footer, PageFirst, PageLast;
  }

  lemma SamePage(a: nat, b: nat, n: nat)
    requires PageFor(a) == PageFor(b)
    ensures PageFirst(a) == PageFirst(b) && PageLast(a, n) == PageLast(b, n) && Footer(a, n) == Footer(b, n)
  {
    hide Print;
  }

  /** Two writes: the first unmarks row `i`, the second marks row `j`. */
  lemma TwoWrites(screen: Rows, before: Rows, after: Rows, i: nat, j: nat, unmarked: string, a: string, b: string)
    requires SamePicture(screen, before) && |before| == |after| && i < |before| && j < |before|
    requires forall r | 0 <= r < |before| && r != i && r != j :: before[r] == after[r]
    requires SameRow(Overwrite(before[i], a), unmarked) && (i != j ==> unmarked == after[i])
    requires SameRow(Overwrite(if i == j then unmarked else before[j], b), after[j])
    ensures SamePicture(WriteAt(WriteAt(screen, i, a), j, b), after)
  {
    hide SamePicture, SameRow, Overwrite;
    var middle := before[i := unmarked];
    SizeOfSame(screen, before);
    RewriteRow(screen, before, middle, i, a);
    RewriteRow(WriteAt(screen, i, a), middle, after, j, b);
  }

  lemma SizeOfSame(a: Rows, b: Rows)
    requires SamePicture(a, b)
    ensures |a| == |b|
  {}

  lemma MovedMarker(screen: Rows, titles: seq<string>, from: nat, to: nat, remaining: Option<nat>)
    requires from < |titles| && to < |titles| && SamePicture(screen, DrawMenu(titles, from, remaining))
    ensures SamePicture(MoveSelection(screen, titles, from, to, remaining), DrawMenu(titles, to, remaining))
  {
    hide SamePicture, DrawMenu, EntryRow, SameRow, WriteAt, Overwrite;
    if PageFor(from) == PageFor(to) {
      PageBounds(from, |titles|);
      PageBounds(to, |titles|);
      EntryRowAt(titles, from, remaining, from);
      EntryRowAt(titles, from, remaining, to);
      EntryRowAt(titles, to, remaining, from);
      EntryRowAt(titles, to, remaining, to);
      SamePageRows(titles, from, to, remaining);
      MarkerCovers(titles[from]);
      MarkerCovers(titles[to]);
      TwoWrites(screen, DrawMenu(titles, from, remaining), DrawMenu(titles, to, remaining),
                ENTRY_LIST_ROW + (from - PageFirst(from)), ENTRY_LIST_ROW + (to - PageFirst(to)),
                EntryRow(titles[from], false), " ", ">");
    } else {
      SameItself(DrawMenu(titles, to, remaining));
    }
  }

  lemma MarkerOver(title: string, m: bool)
    ensures Overwrite(EntryRow(title, m), " ") == EntryRow(title, false)
    ensures Overwrite(EntryRow(title, m), ">") == EntryRow(title, true)
  {
    var row := EntryRow(title, m);
    assert row[1..] == " " + title;
  }

  lemma MarkerCovers(title: string)
    ensures forall m :: Overwrite(EntryRow(title, m), " ") == EntryRow(title, false)
    ensures forall m :: Overwrite(EntryRow(title, m), ">") == EntryRow(title, true)
    ensures SameRow(EntryRow(title, false), EntryRow(title, false)) && SameRow(EntryRow(title, true), EntryRow(title, true))
  {
    MarkerOver(title, true);
    MarkerOver(title, false);
    hide EntryRow, Overwrite;
  }

  lemma SameItself(a: Rows)
    ensures SamePicture(a, a)
  {}

  // ----- the configuration page

  lemma DraftOtherRows(d: Draft, e: Draft)
    ensures forall r | 0 <= r < 9 && !(CONFIG_ROW_BASE <= r < CONFIG_ROW_BASE + CONFIG_OPTION_COUNT) ::
      DraftRows(d)[r] == DraftRows(e)[r]
  {
    hide ConfigLine;
  }

  lemma MarkerOverLine(text: string, a: string, b: string)
    requires |a| == |b| == 1
    ensures Overwrite(a + text, b) == b + text
  {
    assert (a + text)[1..] == text;
  }

  /** Rows of two drafts agree where their texts and markers do. */
  lemma DraftRowsAgree(d: Draft, e: Draft, r: nat)
    requires r < 9
    requires CONFIG_ROW_BASE <= r < CONFIG_ROW_BASE + CONFIG_OPTION_COUNT ==>
      var k := r - CONFIG_ROW_BASE;
      ConfigText(k, d.timeout, d.mode, d.logo, d.image) == ConfigText(k, e.timeout, e.mode, e.logo, e.image) &&
      MarkerFor(k, d.option) == MarkerFor(k, e.option)
    ensures |DraftRows(d)| == |DraftRows(e)| == 9 && DraftRows(d)[r] == DraftRows(e)[r]
  {
    hide ConfigText, DraftRows;
    DraftOtherRows(d, e);
    DraftRow(d, 0);
    DraftRow(e, 0);
    if CONFIG_ROW_BASE <= r < CONFIG_ROW_BASE + CONFIG_OPTION_COUNT {
      DraftRow(d, r - CONFIG_ROW_BASE);
      DraftRow(e, r - CONFIG_ROW_BASE);
    }
  }

  lemma MovedConfigMarker(screen: Rows, d: Draft, option: nat)
    requires d.option < CONFIG_OPTION_COUNT && option < CONFIG_OPTION_COUNT && SamePicture(screen, DraftRows(d))
    ensures SamePicture(UpdateConfigMarker(screen, d.option, option), DraftRows(d.(option := option)))
  {
    hide SamePicture, DraftRows, ConfigText, SameRow, WriteAt, Overwrite;
    var e := d.(option := option);
    var i, j := d.option, option;
    DraftRow(d, i);
    DraftRow(e, i);
    DraftRow(d, j);
    DraftRow(e, j);
    var ti := ConfigText(i, d.timeout, d.mode, d.logo, d.image);
    var tj := ConfigText(j, d.timeout, d.mode, d.logo, d.image);
    MarkerOverLine(ti, ">", " ");
    MarkerOverLine(tj, " ", ">");
    SameRowItself(" " + ti);
    SameRowItself(">" + tj);
    forall r | 0 <= r < |DraftRows(d)| && r != CONFIG_ROW_BASE + i && r != CONFIG_ROW_BASE + j
      ensures DraftRows(d)[r] == DraftRows(e)[r]
    {
      DraftRowsAgree(d, e, r);
    }
    TwoWrites(screen, DraftRows(d), DraftRows(e), CONFIG_ROW_BASE + i, CONFIG_ROW_BASE + j, " " + ti, " ", ">");
  }

  lemma TwentyDigits(n: nat)
    requires n <= U64_MAX
    ensures |Print(n)| <= 20
  {
    PrintLength(n, 20);
    assert Power10(4) == 10_000;
    assert Power10(8) == 10_000 * Power10(4);
    assert Power10(12) == 10_000 * Power10(8);
    assert Power10(16) == 10_000 * Power10(12);
    assert Power10(20) == 10_000 * Power10(16);
  }

  /** Every configuration line fits the padding width. */
  lemma ConfigLineFits(index: nat, timeout: nat, mode: Mode, logo: bool, image: Option<Image>, option: nat)
    requires index < CONFIG_OPTION_COUNT && timeout <= U64_MAX
    ensures |ConfigLine(index, timeout, mode, logo, image, MarkerFor(index, option))| <= CONFIG_LINE_WIDTH
  {
    TwentyDigits(timeout);
    hide Print;
  }

  lemma PaddedCovers(was: string, line: string)
    requires |was| <= CONFIG_LINE_WIDTH && |line| <= CONFIG_LINE_WIDTH
    ensures SameRow(Overwrite(was, Padded(line)), line)
  {
    CoverRow(was, line, CONFIG_LINE_WIDTH - |line|);
    assert line + Blanks(0) == line;
  }

  /** The options of two drafts differ at most in the selected one. */
  predicate OneChange(d: Draft, e: Draft) {
    && e.option == d.option < CONFIG_OPTION_COUNT
    && (d.option != 0 ==> e.timeout == d.timeout) && (d.option != 1 ==> e.mode == d.mode)
    && (d.option != 2 ==> e.logo == d.logo) && (d.option != 3 ==> e.image == d.image)
    && d.timeout <= U64_MAX && e.timeout <= U64_MAX
  }

  lemma UpdatedConfigLine(screen: Rows, d: Draft, e: Draft)
    requires OneChange(d, e) && SamePicture(screen, DraftRows(d))
    ensures SamePicture(UpdateConfigLine(screen, e), DraftRows(e))
  {
    var o := d.option;
    DraftRow(d, o);
    DraftRow(e, o);
    forall r | 0 <= r < |DraftRows(d)| && r != CONFIG_ROW_BASE + o ensures DraftRows(d)[r] == DraftRows(e)[r] {
      hide DraftRows;
      DraftRowsAgree(d, e, r);
    }
    hide SamePicture, DraftRows, ConfigText, SameRow, WriteAt, Overwrite, Padded;
    ConfigLineFits(o, d.timeout, d.mode, d.logo, d.image, o);
    ConfigLineFits(o, e.timeout, e.mode, e.logo, e.image, o);
    PaddedCovers(DraftRows(d)[CONFIG_ROW_BASE + o], DraftRows(e)[CONFIG_ROW_BASE + o]);
    RewriteRow(screen, DraftRows(d), DraftRows(e), CONFIG_ROW_BASE + o, Padded(DraftRows(e)[CONFIG_ROW_BASE + o]));
  }

  // ----- every loop head

  /** The screen is what a full redraw would show. */
  ghost predicate Faithful(ui: Ui, titles: seq<string>)
    requires Sound(ui, titles)
  {
    match ui.phase
    case Choosing => SamePicture(ui.screen, DrawMenu(titles, ui.selected, ui.remaining))
    case Editing(d) => SamePicture(ui.screen, DraftRows(d))
    case _ => true
  }

  /** Every timeout in play is a 64-bit number. */
  predicate Bounded(ui: Ui) {
    && OrElse(ui.prefs.timeout, 5) <= U64_MAX
    && (ui.remaining.Some? ==> ui.remaining.value <= U64_MAX)
    && (ui.phase.Editing? ==> ui.phase.draft.timeout <= U64_MAX)
  }

  /** Keys after which the entry list is not drawn afresh: moves within a page,
      and keys without a meaning. */
  predicate LeavesRows(titles: seq<string>, selected: nat, key: Key)
    requires selected < |titles|
  {
    match key
    case Up => PageFor(if selected == 0 then |titles| - 1 else selected - 1) == PageFor(selected)
    case Down => PageFor((selected + 1) % |titles|) == PageFor(selected)
    case Left => false
    case Right => false
    case Enter => false
    case Letter(c) => c !in "rRsSfFtTeEbBcC"
    case _ => true
  }

  /** The event stops a countdown whose text is too long to be cleared, and
      nothing draws over it. */
  predicate LeavesText(ui: Ui, titles: seq<string>, event: Event)
    requires Sound(ui, titles)
  {
    && ui.phase.Choosing? && event.Press? && LeavesRows(titles, ui.selected, event.key)
    && ui.remaining.Some? && ui.remaining.value >= COUNTDOWN_LIMIT
  }

  lemma StoppedFaithful(ui: Ui, titles: seq<string>)
    requires Sound(ui, titles) && ui.phase.Choosing? && Faithful(ui, titles)
    requires ui.remaining.Some? ==> ui.remaining.value < COUNTDOWN_LIMIT
    ensures Sound(Stopped(ui), titles) && Faithful(Stopped(ui), titles)
  {
    hide SamePicture, DrawMenu, UpdateStatus;
    if ui.remaining.Some? {
      UpdatedStatus(ui.screen, titles, ui.selected, ui.remaining.value, None);
    }
  }

  lemma ChooseFaithful(ui: Ui, titles: seq<string>, key: Key, ok: bool)
    requires Sound(ui, titles) && ui.phase.Choosing? && Faithful(ui, titles) && ui.remaining.None?
    ensures Sound(ChooseKey(ui, titles, key, ok), titles) && Faithful(ChooseKey(ui, titles, key, ok), titles)
  {
    hide SamePicture, DrawMenu, DraftRows, MoveSelection, Turned;
    ChooseSound(ui, titles, key, ok);
    SameItself(DrawMenu(titles, ui.selected, ui.remaining));
    SameItself(DraftRows(DraftOf(ui.prefs, ui.selected)));
    match key {
      case Up => MovedMarker(ui.screen, titles, ui.selected, if ui.selected == 0 then |titles| - 1 else ui.selected - 1, None);
      case Down => MovedMarker(ui.screen, titles, ui.selected, (ui.selected + 1) % |titles|, None);
      case Left => TurnedFaithful(ui, titles, PageBack(ui.selected, |titles|));
      case Right => TurnedFaithful(ui, titles, PageOn(ui.selected, |titles|));
      case _ =>
    }
  }

  lemma TurnedFaithful(ui: Ui, titles: seq<string>, page: nat)
    requires Sound(ui, titles) && ui.phase.Choosing? && page * ENTRIES_PER_PAGE < |titles|
    ensures Sound(Turned(ui, titles, page), titles) && Faithful(Turned(ui, titles, page), titles)
  {
    hide SamePicture, DrawMenu;
    TurnedSound(ui, titles, page);
    PageMoveLands(ui.selected, |titles|, page);
    SameItself(DrawMenu(titles, EntryOnPage(ui.selected, |titles|, page), ui.remaining));
  }

  lemma EditFaithful(ui: Ui, titles: seq<string>, d: Draft, key: Key, ok: bool)
    requires Sound(ui, titles) && ui.phase == Editing(d) && Faithful(ui, titles) && d.timeout <= U64_MAX
    ensures Sound(EditKey(ui, titles, d, key, ok), titles) && Faithful(EditKey(ui, titles, d, key, ok), titles)
  {
    hide SamePicture, DrawMenu, DraftRows, UpdateConfigLine, UpdateConfigMarker;
    EditSound(ui, titles, d, key, ok);
    match key {
      case Up => MovedConfigMarker(ui.screen, d, if d.option == 0 then 0 else d.option - 1);
      case Down => MovedConfigMarker(ui.screen, d, (d.option + 1) % CONFIG_OPTION_COUNT);
      case Left => UpdatedConfigLine(ui.screen, d, Decrease(d));
      case Right => UpdatedConfigLine(ui.screen, d, Increase(d));
      case Enter => SameItself(DrawMenu(titles, ui.selected, if d.timeout > 0 then Some(d.timeout) else None));
      case Escape => SameItself(DrawMenu(titles, ui.selected, ui.remaining));
      case _ =>
    }
  }

  /** A key that draws the entry list afresh, or leaves it, needs no faithful
      screen to begin with. */
  lemma ChooseRedraws(ui: Ui, titles: seq<string>, key: Key, ok: bool)
    requires Sound(ui, titles) && ui.phase.Choosing? && ui.remaining.None? && !LeavesRows(titles, ui.selected, key)
    ensures Sound(ChooseKey(ui, titles, key, ok), titles) && Faithful(ChooseKey(ui, titles, key, ok), titles)
  {
    hide SamePicture, DrawMenu, DraftRows, Turned;
    ChooseSound(ui, titles, key, ok);
    SameItself(DrawMenu(titles, ui.selected, ui.remaining));
    SameItself(DraftRows(DraftOf(ui.prefs, ui.selected)));
    match key {
      case Up => SameItself(DrawMenu(titles, if ui.selected == 0 then |titles| - 1 else ui.selected - 1, None));
      case Down => SameItself(DrawMenu(titles, (ui.selected + 1) % |titles|, None));
      case Left => TurnedFaithful(ui, titles, PageBack(ui.selected, |titles|));
      case Right => TurnedFaithful(ui, titles, PageOn(ui.selected, |titles|));
      case _ =>
    }
  }

  /** The other keys change nothing but the rows of two entries. */
  lemma ChooseKeepsStatus(ui: Ui, titles: seq<string>, key: Key, ok: bool)
    requires Sound(ui, titles) && ui.phase.Choosing? && ui.remaining.None? && LeavesRows(titles, ui.selected, key)
    ensures Sound(ChooseKey(ui, titles, key, ok), titles)
    ensures var to := ChooseKey(ui, titles, key, ok);
      && to.phase.Choosing? && to.remaining == ui.remaining && to.selected < |titles|
      && forall c :: Cell(to.screen, STATUS_ROW, c) == Cell(ui.screen, STATUS_ROW, c)
  {
    hide DrawMenu, DraftRows, Turned;
    ChooseSound(ui, titles, key, ok);
  }

  /** The last character of a long countdown text stays. */
  lemma TextStays(screen: Rows, titles: seq<string>, selected: nat, n: nat)
    requires selected < |titles| && n >= COUNTDOWN_LIMIT && SamePicture(screen, DrawMenu(titles, selected, Some(n)))
    ensures Cell(UpdateStatus(screen, None), STATUS_ROW, |StatusText(Some(n))| - 1) == ':'
  {
    StatusRowOnly(titles, selected, Some(n), None);
    StatusLength(n);
    ThirteenDigits(n);
    var c := |StatusText(Some(n))| - 1;
    assert Cell(screen, STATUS_ROW, c) == Cell(DrawMenu(titles, selected, Some(n)), STATUS_ROW, c) == ':' by {
      hide DrawMenu, StatusText;
    }
    assert |StatusUpdate(None)| == 42;
    WriteAtCells(screen, STATUS_ROW, StatusUpdate(None), STATUS_ROW, c);
  }

  lemma TextShows(screen: Rows, titles: seq<string>, selected: nat, c: nat)
    requires selected < |titles| && c >= 16 && Cell(screen, STATUS_ROW, c) == ':'
    ensures !SamePicture(screen, DrawMenu(titles, selected, None))
  {
    StatusRowOnly(titles, selected, None, None);
    StatusLength(0);
    hide DrawMenu, StatusText;
    assert Cell(DrawMenu(titles, selected, None), STATUS_ROW, c) == ' ';
  }

  /** One event: from a faithful screen the next is faithful exactly when the
      event does not leave the text of a long countdown behind. */
  lemma StepFaithfulIff(ui: Ui, titles: seq<string>, event: Event)
    requires Sound(ui, titles) && Faithful(ui, titles) && Bounded(ui)
    ensures Sound(Handle(ui, titles, event), titles) && Bounded(Handle(ui, titles, event))
    ensures Faithful(Handle(ui, titles, event), titles) <==> !LeavesText(ui, titles, event)
  {
    hide Handle, Faithful, Bounded, Sound, LeavesText;
    StepSound(ui, titles, event);
    StepBounded(ui, titles, event);
    match ui.phase {
      case Choosing => ChoosingFaithfulIff(ui, titles, event);
      case Editing(d) => EditingFaithful(ui, titles, event);
      case _ => OverFaithful(ui, titles, event);
    }
  }

  lemma ChoosingFaithfulIff(ui: Ui, titles: seq<string>, event: Event)
    requires Sound(ui, titles) && Faithful(ui, titles) && ui.phase.Choosing?
    ensures Sound(Handle(ui, titles, event), titles)
    ensures Faithful(Handle(ui, titles, event), titles) <==> !LeavesText(ui, titles, event)
  {
    hide SamePicture, DrawMenu, DraftRows, ChooseKey, Stopped, UpdateStatus, LeavesRows;
    StepSound(ui, titles, event);
    if event.Tick? {
      if ui.remaining.Some? && ui.remaining.value != 1 {
        UpdatedStatus(ui.screen, titles, ui.selected, ui.remaining.value, Some(ui.remaining.value - 1));
      }
    } else if event.Press? {
      StoppedFacts(ui);
      if LeavesText(ui, titles, event) {
        TextLeft(ui, titles, event.key, event.ok);
      } else if !LeavesRows(titles, ui.selected, event.key) {
        ChooseRedraws(Stopped(ui), titles, event.key, event.ok);
      } else {
        StoppedFaithful(ui, titles);
        ChooseFaithful(Stopped(ui), titles, event.key, event.ok);
      }
    }
  }

  lemma TextLeft(ui: Ui, titles: seq<string>, key: Key, ok: bool)
    requires Sound(ui, titles) && Faithful(ui, titles) && LeavesText(ui, titles, Press(key, ok))
    ensures Sound(ChooseKey(Stopped(ui), titles, key, ok), titles)
    ensures !Faithful(ChooseKey(Stopped(ui), titles, key, ok), titles)
  {
    hide SamePicture, DrawMenu, ChooseKey, LeavesRows, UpdateStatus;
    var n := ui.remaining.value;
    var to := ChooseKey(Stopped(ui), titles, key, ok);
    TextStays(ui.screen, titles, ui.selected, n);
    StatusLength(n);
    ChooseKeepsStatus(Stopped(ui), titles, key, ok);
    TextShows(to.screen, titles, to.selected, |StatusText(Some(n))| - 1);
  }

  lemma EditingFaithful(ui: Ui, titles: seq<string>, event: Event)
    requires Sound(ui, titles) && Faithful(ui, titles) && Bounded(ui) && ui.phase.Editing?
    ensures Sound(Handle(ui, titles, event), titles) && Faithful(Handle(ui, titles, event), titles)
    ensures !LeavesText(ui, titles, event)
  {
    hide SamePicture, DrawMenu, DraftRows, EditKey, Faithful;
    if event.Press? { EditFaithful(ui, titles, ui.phase.draft, event.key, event.ok); }
    if event.Broken? { FailedFaithful(Handle(ui, titles, event), titles); }
  }

  lemma FailedFaithful(ui: Ui, titles: seq<string>)
    requires Sound(ui, titles) && ui.phase.Failed?
    ensures Faithful(ui, titles)
  {}

  lemma OverFaithful(ui: Ui, titles: seq<string>, event: Event)
    requires Sound(ui, titles) && !ui.phase.Choosing? && !ui.phase.Editing?
    ensures Sound(Handle(ui, titles, event), titles) && Faithful(Handle(ui, titles, event), titles)
    ensures !LeavesText(ui, titles, event)
  {}

  lemma StoppedFacts(ui: Ui)
    ensures Stopped(ui).remaining.None? && Stopped(ui).phase == ui.phase && Stopped(ui).selected == ui.selected
    ensures Stopped(ui).prefs == ui.prefs
  {}

  lemma StepBounded(ui: Ui, titles: seq<string>, event: Event)
    requires Sound(ui, titles) && Bounded(ui)
    ensures Bounded(Handle(ui, titles, event))
  {
    hide SamePicture, DrawMenu, DraftRows, UpdateStatus, UpdateConfigLine, UpdateConfigMarker, MoveSelection, Turned;
    if ui.phase.Choosing? && event.Press? {
      StoppedFacts(ui);
      ChooseBounded(Stopped(ui), titles, event.key, event.ok);
    }
    hide ChooseKey, Stopped;
  }

  lemma ChooseBounded(ui: Ui, titles: seq<string>, key: Key, ok: bool)
    requires ui.selected < |titles| == |ui.prefs.images| && ui.phase.Choosing?
    ensures var to := ChooseKey(ui, titles, key, ok);
      && to.remaining == ui.remaining && to.prefs == ui.prefs
      && (to.phase.Editing? ==> to.phase.draft.timeout == OrElse(ui.prefs.timeout, 5))
  {
    hide SamePicture, DrawMenu, DraftRows, MoveSelection;
  }

  // ----- whole runs

  /** The state after `k` events. */
  function After(titles: seq<string>, index: nat, prefs: Prefs, events: seq<Event>, k: nat): (ui: Ui)
    requires index < |titles| == |prefs.images| && k <= |events|
    ensures Sound(ui, titles)
  {
    StartSound(titles, index, prefs);
    Play(Start(titles, index, prefs), titles, events[..k])
  }

  lemma StartSound(titles: seq<string>, index: nat, prefs: Prefs)
    requires index < |titles| == |prefs.images|
    ensures Sound(Start(titles, index, prefs), titles)
  {
    hide DrawMenu;
  }

  lemma {:induction false} PlayLast(ui: Ui, titles: seq<string>, events: seq<Event>, last: Event)
    requires Sound(ui, titles)
    ensures Play(ui, titles, events + [last]) == Handle(Play(ui, titles, events), titles, last)
    decreases |events|
  {
    hide Handle, Sound;
    StepSound(ui, titles, last);
    if events == [] {
      assert [] + [last] == [last] && [last][1..] == [];
      assert Play(Handle(ui, titles, last), titles, []) == Handle(ui, titles, last);
    } else {
      StepSound(ui, titles, events[0]);
      assert (events + [last])[1..] == events[1..] + [last];
      PlayLast(Handle(ui, titles, events[0]), titles, events[1..], last);
    }
  }

  lemma AfterStep(titles: seq<string>, index: nat, prefs: Prefs, events: seq<Event>, k: nat)
    requires index < |titles| == |prefs.images| && k < |events|
    ensures After(titles, index, prefs, events, k + 1) == Handle(After(titles, index, prefs, events, k), titles, events[k])
  {
    hide Handle, Sound, Start, Play;
    StartSound(titles, index, prefs);
    assert events[..k + 1] == events[..k] + [events[k]];
    PlayLast(Start(titles, index, prefs), titles, events[..k], events[k]);
  }

  /** Until a text is left behind the screen is faithful. */
  lemma {:induction false} FaithfulUntil(titles: seq<string>, index: nat, prefs: Prefs, events: seq<Event>, k: nat)
    requires index < |titles| == |prefs.images| && OrElse(prefs.timeout, 5) <= U64_MAX && k <= |events|
    requires forall j | 0 <= j < k :: !LeavesText(After(titles, index, prefs, events, j), titles, events[j])
    ensures Bounded(After(titles, index, prefs, events, k)) && Faithful(After(titles, index, prefs, events, k), titles)
  {
    hide Faithful, Handle, LeavesText, Sound;
    if k == 0 {
      StartFaithful(titles, index, prefs);
      assert events[..0] == [];
    } else {
      hide After, Bounded;
      FaithfulUntil(titles, index, prefs, events, k - 1);
      AfterStep(titles, index, prefs, events, k - 1);
      StepFaithfulIff(After(titles, index, prefs, events, k - 1), titles, events[k - 1]);
    }
  }

  lemma StartFaithful(titles: seq<string>, index: nat, prefs: Prefs)
    requires index < |titles| == |prefs.images| && OrElse(prefs.timeout, 5) <= U64_MAX
    ensures var ui := Start(titles, index, prefs); Sound(ui, titles) && Faithful(ui, titles) && Bounded(ui)
  {
    hide SamePicture, DrawMenu;
    SameItself(Start(titles, index, prefs).screen);
  }

  /** Over every sequence of keys and ticks, of any length: each visited state
      shows what a full redraw would show exactly when no key that leaves the
      rows in place meets a countdown too long to be cleared. */
  lemma ScreenFaithfulIff(titles: seq<string>, index: nat, prefs: Prefs, events: seq<Event>)
    requires index < |titles| == |prefs.images| && OrElse(prefs.timeout, 5) <= U64_MAX
    ensures (forall k | 0 <= k <= |events| :: Faithful(After(titles, index, prefs, events, k), titles)) <==>
            (forall k | 0 <= k < |events| :: !LeavesText(After(titles, index, prefs, events, k), titles, events[k]))
  {
    hide Faithful, After, LeavesText, Handle, Sound, Bounded;
    if forall k | 0 <= k < |events| :: !LeavesText(After(titles, index, prefs, events, k), titles, events[k]) {
      forall k | 0 <= k <= |events| ensures Faithful(After(titles, index, prefs, events, k), titles) {
        FaithfulUntil(titles, index, prefs, events, k);
      }
    } else {
      var k := FirstText(titles, index, prefs, events);
      FaithfulUntil(titles, index, prefs, events, k);
      AfterStep(titles, index, prefs, events, k);
      StepFaithfulIff(After(titles, index, prefs, events, k), titles, events[k]);
    }
  }

  ghost function FirstText(titles: seq<string>, index: nat, prefs: Prefs, events: seq<Event>): (k: nat)
    requires index < |titles| == |prefs.images|
    requires exists k | 0 <= k < |events| :: LeavesText(After(titles, index, prefs, events, k), titles, events[k])
    ensures k < |events| && LeavesText(After(titles, index, prefs, events, k), titles, events[k])
    ensures forall j | 0 <= j < k :: !LeavesText(After(titles, index, prefs, events, j), titles, events[j])
  {
    var k :| 0 <= k < |events| && LeavesText(After(titles, index, prefs, events, k), titles, events[k]);
    FirstFrom(titles, index, prefs, events, 0, k)
  }

  ghost function FirstFrom(titles: seq<string>, index: nat, prefs: Prefs, events: seq<Event>, i: nat, k: nat): (r: nat)
    requires index < |titles| == |prefs.images| && i <= k < |events|
    requires LeavesText(After(titles, index, prefs, events, k), titles, events[k])
    requires forall j | 0 <= j < i :: !LeavesText(After(titles, index, prefs, events, j), titles, events[j])
    ensures r < |events| && LeavesText(After(titles, index, prefs, events, r), titles, events[r])
    ensures forall j | 0 <= j < r :: !LeavesText(After(titles, index, prefs, events, j), titles, events[j])
    decreases k - i
  {
    if i == k || LeavesText(After(titles, index, prefs, events, i), titles, events[i]) then i
    else FirstFrom(titles, index, prefs, events, i + 1, k)
  }

  /** In particular whenever no countdown on the way is too long. */
  lemma ShortCountdownsFaithful(titles: seq<string>, index: nat, prefs: Prefs, events: seq<Event>)
    requires index < |titles| == |prefs.images| && OrElse(prefs.timeout, 5) < COUNTDOWN_LIMIT
    requires forall k | 0 <= k < |events| ::
      var ui := After(titles, index, prefs, events, k);
      ui.phase.Editing? && events[k] == Press(Enter, true) ==> ui.phase.draft.timeout < COUNTDOWN_LIMIT
    ensures forall k | 0 <= k <= |events| :: Faithful(After(titles, index, prefs, events, k), titles)
  {
    hide Faithful, After, Handle, Sound;
    forall k | 0 <= k < |events| ensures !LeavesText(After(titles, index, prefs, events, k), titles, events[k]) {
      CountdownShort(titles, index, prefs, events, k);
    }
    ScreenFaithfulIff(titles, index, prefs, events);
  }

  /** A countdown starts from the timeout of the file or of a save. */
  lemma {:induction false} CountdownShort(titles: seq<string>, index: nat, prefs: Prefs, events: seq<Event>, k: nat)
    requires index < |titles| == |prefs.images| && OrElse(prefs.timeout, 5) < COUNTDOWN_LIMIT && k <= |events|
    requires forall j | 0 <= j < k ::
      var ui := After(titles, index, prefs, events, j);
      ui.phase.Editing? && events[j] == Press(Enter, true) ==> ui.phase.draft.timeout < COUNTDOWN_LIMIT
    ensures var ui := After(titles, index, prefs, events, k);
      ui.remaining.Some? ==> ui.remaining.value < COUNTDOWN_LIMIT
  {
    hide Handle, DrawMenu, Sound;
    if k == 0 {
      assert events[..0] == [];
    } else {
      hide After;
      CountdownShort(titles, index, prefs, events, k - 1);
      AfterStep(titles, index, prefs, events, k - 1);
      if After(titles, index, prefs, events, k).remaining.Some? {
        CountdownFrom(After(titles, index, prefs, events, k - 1), titles, events[k - 1]);
      }
    }
  }

  lemma CountdownFrom(ui: Ui, titles: seq<string>, event: Event)
    requires Sound(ui, titles) && Handle(ui, titles, event).remaining.Some?
    ensures
      || (ui.remaining.Some? && Handle(ui, titles, event).remaining.value <= ui.remaining.value)
      || (ui.phase.Editing? && event == Press(Enter, true) && Handle(ui, titles, event).remaining == Some(ui.phase.draft.timeout))
  {
    if ui.phase.Choosing? || ui.phase.Editing? { CountdownRestarts(ui, titles, event); }
    hide ChooseKey, Stopped, UpdateConfigLine, UpdateConfigMarker, DrawMenu, UpdateStatus;
  }

  /** Stopping a countdown of `n` leaves a faithful screen exactly when `n` is
      below the limit. */
  lemma StopFaithfulIff(titles: seq<string>, selected: nat, n: nat)
    requires selected < |titles|
    ensures SamePicture(UpdateStatus(DrawMenu(titles, selected, Some(n)), None), DrawMenu(titles, selected, None)) <==>
            n < COUNTDOWN_LIMIT
  {
    var before, after := DrawMenu(titles, selected, Some(n)), DrawMenu(titles, selected, None);
    StatusRowOnly(titles, selected, Some(n), None);
    ClearedIff(n);
    SameItself(before);
    if n < COUNTDOWN_LIMIT {
      UpdatedStatus(before, titles, selected, n, None);
    } else if SamePicture(UpdateStatus(before, None), after) {
      SamePictureRow(UpdateStatus(before, None), after, STATUS_ROW);
    }
  }

  // ----- the countdown

  /** Any key on the entry list stops the countdown. */
  lemma KeyStopsCountdown(ui: Ui, titles: seq<string>, key: Key, ok: bool)
    requires Sound(ui, titles) && ui.phase.Choosing?
    ensures Handle(ui, titles, Press(key, ok)).remaining.None?
  {
    StoppedFacts(ui);
    ChooseBounded(Stopped(ui), titles, key, ok);
  }

  /** A countdown runs after an event only if a tick advanced it, or a
      configuration with a positive timeout was saved; or the menu has failed. */
  lemma CountdownRestarts(ui: Ui, titles: seq<string>, event: Event)
    requires Sound(ui, titles) && Handle(ui, titles, event).remaining.Some? && (ui.phase.Choosing? || ui.phase.Editing?)
    ensures
      || (event.Tick? && ui.phase.Choosing? && ui.remaining.Some?)
      || (event.Broken? && Handle(ui, titles, event).phase == Failed(event.message))
      || (ui.phase.Editing? && event == Press(Enter, true) && ui.phase.draft.timeout > 0 &&
          Handle(ui, titles, event).remaining == Some(ui.phase.draft.timeout))
  {
    if ui.phase.Choosing? && event.Press? {
      KeyStopsCountdown(ui, titles, event.key, event.ok);
    }
    hide ChooseKey, Stopped, UpdateConfigLine, UpdateConfigMarker, DrawMenu, UpdateStatus;
  }

  function Ticks(k: nat): seq<Event> { seq(k, _ => Tick) }

  lemma {:induction false} TicksCountDown(ui: Ui, titles: seq<string>, k: nat)
    requires Sound(ui, titles) && ui.phase.Choosing? && ui.remaining.Some? && k <= ui.remaining.value
    ensures var to := Play(ui, titles, Ticks(k));
      && to.selected == ui.selected
      && (k < ui.remaining.value ==> to.phase.Choosing? && to.remaining == Some(ui.remaining.value - k))
      && (k == ui.remaining.value ==> to.phase == Booting(ui.selected))
    decreases k
  {
    hide UpdateStatus;
    if k > 0 {
      var next := Handle(ui, titles, Tick);
      StepSound(ui, titles, Tick);
      assert Ticks(k)[0] == Tick && Ticks(k)[1..] == Ticks(k - 1);
      if k == 1 {
        assert Play(next, titles, []) == next;
      } else {
        TicksCountDown(next, titles, k - 1);
      }
    }
  }

  /** Left alone, the menu boots the default entry after exactly `timeout`
      ticks, at once when the timeout is zero, and not a tick earlier. */
  lemma DefaultBootsOnTime(titles: seq<string>, index: nat, prefs: Prefs, k: nat)
    requires index < |titles| == |prefs.images| && k <= OrElse(prefs.timeout, 5)
    ensures Play(Start(titles, index, prefs), titles, Ticks(k)).phase ==
      if k == OrElse(prefs.timeout, 5) then Booting(index) else Choosing
  {
    hide DrawMenu;
    var ui := Start(titles, index, prefs);
    if OrElse(prefs.timeout, 5) > 0 {
      TicksCountDown(ui, titles, k);
    } else {
      assert Ticks(k) == [];
    }
    hide Play;
  }
}
