/** The menu's own loops, with its fields and its screen updated in place, and
    the proof that they follow the machine of `MenuLoop`. */
module MenuUi {
  import opened Wrappers
  import opened Text
  import opened BootConfig
  import opened Screen
  import opened MenuLoop

  lemma PlayNext(ui: Ui, titles: seq<string>, events: seq<Event>, i: nat)
    requires Sound(ui, titles) && i < |events|
    ensures Sound(Handle(ui, titles, events[i]), titles)
    ensures Play(ui, titles, events[i..]) == Play(Handle(ui, titles, events[i]), titles, events[i + 1..])
  {
    hide Handle, Sound;
    StepSound(ui, titles, events[i]);
    assert events[i..][0] == events[i] && events[i..][1..] == events[i + 1..];
  }

  lemma PlayEnd(ui: Ui, titles: seq<string>, events: seq<Event>)
    requires Sound(ui, titles)
    ensures Play(ui, titles, events[|events|..]) == ui
  {}

  /** Once the menu is left nothing more happens. */
  lemma {:induction false} PlayOver(ui: Ui, titles: seq<string>, events: seq<Event>)
    requires Sound(ui, titles) && !ui.phase.Choosing? && !ui.phase.Editing?
    ensures Play(ui, titles, events) == ui
    decreases |events|
  {
    if events != [] { PlayOver(ui, titles, events[1..]); }
  }

  /** `default_index`: the first entry the configured default names, by title,
      by id, or by an id prefix ending in '*'. */
  predicate NamedBy(default: string, title: string, id: string) {
    || title == default || id == default
    || (default != "" && default[|default| - 1] == '*' && default[..|default| - 1] <= id)
  }

  /** A default names an entry by its title, by its id, or, ending in '*', by
      anything its id starts with. */
  lemma NamedByMeaning(default: string, title: string, id: string)
    ensures NamedBy(default, title, id) <==>
      title == default || id == default || exists start, rest :: default == start + "*" && id == start + rest
  {
    if default != "" && default[|default| - 1] == '*' && default[..|default| - 1] <= id {
      var start := default[..|default| - 1];
      assert default == start + "*" && id == start + id[|start|..];
    }
    forall start, rest | default == start + "*" && id == start + rest ensures NamedBy(default, title, id) {
      assert default[..|default| - 1] == start;
    }
  }

  datatype EditEnd = Saved | Cancelled | EditFailed(message: string) | Unfinished

  class BootMenu {
    const titles: seq<string>
    const ids: seq<string>
    const default: Option<string>
    var timeout: Option<nat>
    var mode: Mode
    var logo: bool
    var images: seq<Option<Image>>
    var screen: Rows

    ghost predicate Valid()
      reads this
    {
      |titles| == |ids| == |images|
    }

    function Settings(): Prefs
      reads this
    {
      Prefs(timeout, mode, logo, images)
    }

    constructor (entries: seq<Entry>, default: Option<string>, timeout: Option<nat>, mode: Mode, logo: bool)
      ensures Valid() && Settings().timeout == timeout && |titles| == |entries| && this.default == default
      ensures forall i | 0 <= i < |entries| ::
        titles[i] == entries[i].title && ids[i] == entries[i].id && images[i] == entries[i].image
    {
      this.titles := seq(|entries|, i requires 0 <= i < |entries| => entries[i].title);
      this.ids := seq(|entries|, i requires 0 <= i < |entries| => entries[i].id);
      this.images := seq(|entries|, i requires 0 <= i < |entries| => entries[i].image);
      this.default, this.timeout, this.mode, this.logo, this.screen := default, timeout, mode, logo, [];
    }

    /** The first entry the default names, or the first entry of all. */
    ghost predicate IsDefaultIndex(index: nat)
      requires |titles| == |ids|
    {
      index < |titles| &&
      if default.Some? && exists i | 0 <= i < |titles| :: NamedBy(default.value, titles[i], ids[i]) then
        NamedBy(default.value, titles[index], ids[index]) &&
        forall i | 0 <= i < index :: !NamedBy(default.value, titles[i], ids[i])
      else index == 0
    }

    /** `default_index`. */
    method DefaultIndex() returns (index: nat)
      requires Valid()
      ensures titles != [] ==> IsDefaultIndex(index)
    {
      index := 0;
      if default.None? { return; }
      while index < |titles|
        invariant index <= |titles| && forall i | 0 <= i < index :: !NamedBy(default.value, titles[i], ids[i])
      {
        if NamedBy(default.value, titles[index], ids[index]) { return; }
        index := index + 1;
      }
      index := 0;
    }

    method Clear()
      modifies this`screen
      ensures screen == []
    {
      screen := [];
    }

    method Println(line: string)
      modifies this`screen
      ensures screen == old(screen) + [line]
    {
      screen := screen + [line];
    }

    /** The entries of one page. */
    method PrintEntries(first: nat, last: nat, selected: nat)
      requires first <= last <= |titles|
      modifies this`screen
      ensures screen == old(screen) + EntryRows(titles, first, last, selected)
    {
      hide EntryRow;
      ghost var top := screen;
      for index := first to last
        invariant screen == top + EntryRows(titles, first, last, selected)[..index - first]
      {
        Println(EntryRow(titles[index], index == selected));
      }
    }

    /** The page number and the help lines. */
    method PrintFooter(selected: nat)
      modifies this`screen
      ensures screen == old(screen) + Footer(selected, |titles|)
    {
      hide Print, HelpRows;
      Println("");
      var pages := PageCount(|titles|);
      if pages > 1 { Println("Page " + Print(PageFor(selected) + 1) + " of " + Print(pages)); }
      PrintHelp();
    }

    method PrintHelp()
      modifies this`screen
      ensures screen == old(screen) + HelpRows()
    {
      Println("Use Up/Down and Enter. Left/Right changes pages. Press c to configure.");
      Println("Press r to reboot, s to shut down, f for firmware setup, t for console.");
      Println("Press b to chainload another bootloader.");
      Println("Press e to enroll secure boot keys.");
    }

    /** `draw`. */
    method Draw(selected: nat, remaining: Option<nat>)
      requires Valid() && selected < |titles|
      modifies this`screen
      ensures screen == DrawMenu(titles, selected, remaining)
    {
      hide StatusText, EntryRows, Footer;
      Clear();
      Println("r-boot");
      Println(StatusText(remaining));
      Println("");
      assert screen == ["r-boot", StatusText(remaining), ""];
      PageBounds(selected, |titles|);
      var first := PageFor(selected) * ENTRIES_PER_PAGE;
      PrintEntries(first, MinOf(first + ENTRIES_PER_PAGE, |titles|), selected);
      PrintFooter(selected);
    }

    /** `set_marker` and `set_config_marker`. */
    method SetMarker(row: nat, marker: string)
      modifies this`screen
      ensures screen == WriteAt(old(screen), row, marker)
    {
      screen := WriteAt(screen, row, marker);
    }

    /** `move_selection`. */
    method Move(previous: nat, selected: nat, remaining: Option<nat>)
      requires Valid() && previous < |titles| && selected < |titles|
      modifies this`screen
      ensures screen == MoveSelection(old(screen), titles, previous, selected, remaining)
    {
      if PageFor(previous) != PageFor(selected) {
        Draw(selected, remaining);
        return;
      }
      var first := PageFor(selected) * ENTRIES_PER_PAGE;
      SetMarker(ENTRY_LIST_ROW + (previous - first), " ");
      SetMarker(ENTRY_LIST_ROW + (selected - first), ">");
    }

    /** `update_status`. */
    method Status(remaining: Option<nat>)
      modifies this`screen
      ensures screen == UpdateStatus(old(screen), remaining)
    {
      screen := WriteAt(screen, STATUS_ROW, StatusUpdate(remaining));
    }

    /** `draw_config`. */
    method DrawDraft(d: Draft)
      modifies this`screen
      ensures screen == DraftRows(d)
    {
      hide ConfigText;
      Clear();
      Println("r-boot configuration");
      Println("");
      ghost var top := screen;
      DraftRow(d, 0);
      for index := 0 to CONFIG_OPTION_COUNT
        invariant screen == top + DraftRows(d)[2..2 + index]
      {
        DraftRow(d, index);
        assert DraftRows(d)[2..2 + (index + 1)] == DraftRows(d)[2..2 + index] + [DraftRows(d)[2 + index]];
        Println(ConfigLine(index, d.timeout, d.mode, d.logo, d.image, MarkerFor(index, d.option)));
      }
      Println("");
      Println("Use Up/Down to select, Left/Right to change.");
      Println("Enter saves to boot/r-boot.toml. Esc cancels.");
    }

    /** The machine's state while `edit_config` runs. */
    ghost function EditingUi(selected: nat, d: Draft): Ui
      reads this
    {
      Ui(Editing(d), selected, None, Settings(), screen)
    }

    /** The machine's state once the entry list is drawn again. */
    ghost function ChoosingUi(selected: nat, remaining: Option<nat>): Ui
      requires selected < |titles|
      reads this
    {
      Ui(Choosing, selected, remaining, Settings(), DrawMenu(titles, selected, remaining))
    }

    /** The machine's state when the configuration page opens. */
    ghost function EditStart(prefs: Prefs, selected: nat): Ui
      requires selected < |prefs.images|
    {
      var d := DraftOf(prefs, selected);
      Ui(Editing(d), selected, None, prefs, DraftRows(d))
    }

    /** And when it has been left, or the events run out on it. */
    ghost function EditedUi(end: EditEnd, selected: nat, draft: Draft): Ui
      requires selected < |titles|
      reads this
    {
      match end
      case Saved => ChoosingUi(selected, if OrElse(timeout, 5) > 0 then Some(OrElse(timeout, 5)) else None)
      case Cancelled => ChoosingUi(selected, None)
      case EditFailed(m) => Ui(Failed(m), selected, None, Settings(), screen)
      case Unfinished => EditingUi(selected, draft)
    }

    /** `edit_config`, from event `from` on. */
    method EditConfig(events: seq<Event>, from: nat, selected: nat) returns (end: EditEnd, next: nat, draft: Draft)
      requires Valid() && selected < |titles| && from <= |events|
      modifies this
      ensures Valid() && from <= next <= |events| && (end.Unfinished? ==> next == |events|)
      ensures end.Saved? || Settings() == old(Settings())
      ensures Sound(EditStart(old(Settings()), selected), titles) && Sound(EditedUi(end, selected, draft), titles)
      ensures Play(EditStart(old(Settings()), selected), titles, events[from..]) ==
              Play(EditedUi(end, selected, draft), titles, events[next..])
    {
      hide Play, DrawMenu, DraftRows, UpdateConfigLine, UpdateConfigMarker, Decrease, Increase;
      draft := DraftOf(Settings(), selected);
      DrawDraft(draft);
      next := from;
      ghost var before, prefs := EditingUi(selected, draft), Settings();
      while next < |events|
        invariant Valid() && from <= next <= |events| && Settings() == prefs && draft.option < CONFIG_OPTION_COUNT
        invariant Play(before, titles, events[from..]) == Play(EditingUi(selected, draft), titles, events[next..])
        decreases |events| - next
      {
        ghost var ui := EditingUi(selected, draft);
        PlayNext(ui, titles, events, next);
        var event := events[next];
        next := next + 1;
        if event.Tick? { continue; }
        if event.Broken? {
          end := EditFailed(event.message);
          return;
        }
        match event.key {
          case Up =>
            var option := if draft.option == 0 then 0 else draft.option - 1;
            MoveConfigMarker(draft.option, option);
            draft := draft.(option := option);
          case Down =>
            var option := (draft.option + 1) % CONFIG_OPTION_COUNT;
            MoveConfigMarker(draft.option, option);
            draft := draft.(option := option);
          case Left =>
            OptionKept(draft);
            draft := Decrease(draft);
            RewriteConfigLine(draft);
          case Right =>
            OptionKept(draft);
            draft := Increase(draft);
            RewriteConfigLine(draft);
          case Enter =>
            if !event.ok {
              end := EditFailed("cannot save boot configuration");
              return;
            }
            timeout := Some(draft.timeout);
            mode := draft.mode;
            logo := draft.logo;
            images := images[selected := draft.image];
            return Saved, next, draft;
          case Escape => return Cancelled, next, draft;
          case _ =>
        }
      }
      end := Unfinished;
    }

    lemma OptionKept(d: Draft)
      requires d.option < CONFIG_OPTION_COUNT
      ensures Decrease(d).option == d.option && Increase(d).option == d.option
    {}

    /** `update_config_marker`. */
    method MoveConfigMarker(previous: nat, option: nat)
      modifies this`screen
      ensures screen == UpdateConfigMarker(old(screen), previous, option)
    {
      SetMarker(CONFIG_ROW_BASE + previous, " ");
      SetMarker(CONFIG_ROW_BASE + option, ">");
    }

    /** `update_config_line`. */
    method RewriteConfigLine(d: Draft)
      requires d.option < CONFIG_OPTION_COUNT
      modifies this`screen
      ensures screen == UpdateConfigLine(old(screen), d)
    {
      var text := ConfigLine(d.option, d.timeout, d.mode, d.logo, d.image, ">");
      screen := WriteAt(screen, CONFIG_ROW_BASE + d.option, Padded(text));
    }

    /** `select`: the state of the menu when the events run out or the user has
        decided. */
    method Select(events: seq<Event>) returns (final: Option<Ui>)
      requires Valid()
      modifies this
      ensures Valid()
      ensures final.None? <==> titles == []
      ensures final.Some? ==> exists index: nat ::
        && IsDefaultIndex(index) && Sound(Start(titles, index, old(Settings())), titles)
        && final.value == Play(Start(titles, index, old(Settings())), titles, events)
    {
      hide Play, DrawMenu, Turned, UpdateStatus, MoveSelection, DraftRows, IsDefaultIndex;
      if titles == [] { return None; }
      var selected: nat := DefaultIndex();
      ghost var index, start := selected, Start(titles, selected, Settings());
      var seconds := OrElse(timeout, 5);
      if seconds == 0 {
        PlayOver(start, titles, events);
        return Some(Ui(Booting(selected), selected, None, Settings(), []));
      }
      var remaining := Some(seconds);
      Draw(selected, remaining);
      var i := 0;
      assert events[0..] == events;
      while i < |events|
        invariant Valid() && i <= |events| && selected < |titles|
        invariant Sound(ListUi(selected, remaining), titles)
        invariant Play(ListUi(selected, remaining), titles, events[i..]) ==
                  Play(start, titles, events)
        decreases |events| - i
      {
        ghost var ui := ListUi(selected, remaining);
        PlayNext(ui, titles, events, i);
        var event := events[i];
        i := i + 1;
        if event.Tick? {
          if remaining.Some? {
            if remaining.value == 1 {
              PlayOver(Handle(ui, titles, event), titles, events[i..]);
              return Some(Ui(Booting(selected), selected, remaining, Settings(), screen));
            }
            remaining := Some(remaining.value - 1);
            Status(remaining);
          }
          continue;
        }
        if event.Broken? {
          PlayOver(Handle(ui, titles, event), titles, events[i..]);
          return Some(Ui(Failed(event.message), selected, remaining, Settings(), screen));
        }
        if remaining.Some? {
          remaining := None;
          Status(remaining);
        }
        assert Stopped(ui) == Ui(Choosing, selected, None, Settings(), screen);
        if event.key.Letter? && (event.key.c == 'c' || event.key.c == 'C') {
          assert Handle(ui, titles, event) == EditStart(Settings(), selected);
          var left;
          left, i, remaining := Configure(events, i, selected);
          if left.Some? { return left; }
          continue;
        }
        var done: Option<Phase>;
        selected, done := Choose(selected, event.key, event.ok);
        if done.Some? {
          PlayOver(Handle(ui, titles, event), titles, events[i..]);
          return Some(Ui(done.value, selected, None, Settings(), screen));
        }
      }
      PlayEnd(ListUi(selected, remaining), titles, events);
      final := Some(Ui(Choosing, selected, remaining, Settings(), screen));
    }

    /** The `c` key: the configuration page, and the entry list again unless
        the menu ends there. */
    method Configure(events: seq<Event>, from: nat, selected: nat)
        returns (left: Option<Ui>, next: nat, remaining: Option<nat>)
      requires Valid() && selected < |titles| && from <= |events|
      modifies this
      ensures Valid() && from <= next <= |events|
      ensures Sound(EditStart(old(Settings()), selected), titles)
      ensures left.Some? ==> left.value == Play(EditStart(old(Settings()), selected), titles, events[from..])
      ensures left.None? ==>
        && Sound(ListUi(selected, remaining), titles)
        && Play(EditStart(old(Settings()), selected), titles, events[from..]) ==
           Play(ListUi(selected, remaining), titles, events[next..])
    {
      hide Play, DrawMenu, DraftRows, DraftOf;
      remaining := None;
      var end, draft;
      end, next, draft := EditConfig(events, from, selected);
      match end {
        case Saved =>
          var seconds := OrElse(timeout, 5);
          remaining := if seconds > 0 then Some(seconds) else None;
        case Cancelled =>
        case EditFailed(m) =>
          PlayOver(EditedUi(end, selected, draft), titles, events[next..]);
          return Some(Ui(Failed(m), selected, None, Settings(), screen)), next, None;
        case Unfinished =>
          PlayEnd(EditedUi(end, selected, draft), titles, events);
          return Some(Ui(Editing(draft), selected, None, Settings(), screen)), next, None;
      }
      Draw(selected, remaining);
      left := None;
    }

    /** The machine's state on the entry list. */
    ghost function ListUi(selected: nat, remaining: Option<nat>): Ui
      reads this
    {
      Ui(Choosing, selected, remaining, Settings(), screen)
    }

    /** The key dispatch of `select`, the configuration page apart. */
    method Choose(selected: nat, key: Key, ok: bool) returns (to: nat, done: Option<Phase>)
      requires Valid() && selected < |titles| && !(key.Letter? && (key.c == 'c' || key.c == 'C'))
      modifies this`screen
      ensures to < |titles| && (done.Some? ==> !done.value.Choosing? && !done.value.Editing?)
      ensures Ui(OrElse(done, Choosing), to, None, Settings(), screen) ==
        ChooseKey(Ui(Choosing, selected, None, Settings(), old(screen)), titles, key, ok)
    {
      hide DrawMenu, MoveSelection;
      to, done := selected, None;
      match key {
        case Up =>
          to := if selected == 0 then |titles| - 1 else selected - 1;
          Move(selected, to, None);
        case Down =>
          to := (selected + 1) % |titles|;
          Move(selected, to, None);
        case Left =>
          var page := PageBack(selected, |titles|);
          PageMoveLands(selected, |titles|, page);
          to := EntryOnPage(selected, |titles|, page);
          Draw(to, None);
        case Right =>
          var page := PageOn(selected, |titles|);
          PageMoveLands(selected, |titles|, page);
          to := EntryOnPage(selected, |titles|, page);
          Draw(to, None);
        case Enter => done := Some(Booting(selected));
        case Letter(c) =>
          if c == 'r' || c == 'R' { done := Some(Resetting(Reboot)); }
          else if c == 's' || c == 'S' { done := Some(Resetting(Shutdown)); }
          else if c == 'f' || c == 'F' { done := Some(Resetting(FirmwareSetup)); }
          else if c == 't' || c == 'T' || c == 'e' || c == 'E' { Draw(selected, None); }
          else if c == 'b' || c == 'B' {
            if ok { Draw(selected, None); } else { done := Some(Failed("chainload")); }
          }
        case _ =>
      }
    }
  }
}
