/** The text console as the boot menu uses it: rows of characters, written from
    the first column, and the full pictures the menu can show
    (crates/r-boot/src/menu.rs). Titles are taken to fit on one row. */
module Screen {
  import opened Wrappers
  import opened Text
  import opened BootConfig

  type Rows = seq<string>

  const ENTRIES_PER_PAGE: nat := 10
  const ENTRY_LIST_ROW: nat := 3
  const STATUS_ROW: nat := 1
  const CONFIG_ROW_BASE: nat := 2
  const CONFIG_OPTION_COUNT: nat := 4
  const CONFIG_LINE_WIDTH: nat := 40

  /** The character shown in a cell; nothing written is a blank. */
  function Cell(rows: Rows, row: nat, column: nat): char {
    if row < |rows| && column < |rows[row]| then rows[row][column] else ' '
  }

  /** The same picture: equal up to trailing blanks. */
  ghost predicate SamePicture(a: Rows, b: Rows) {
    |a| == |b| && forall row: nat, column: nat :: Cell(a, row, column) == Cell(b, row, column)
  }

  /** A row after `text` is written from its first column. */
  function Overwrite(row: string, text: string): string {
    text + if |text| < |row| then row[|text|..] else ""
  }

  /** `set_cursor_position(0, row)` and a write. */
  function WriteAt(rows: Rows, row: nat, text: string): Rows {
    if row < |rows| then rows[row := Overwrite(rows[row], text)] else rows
  }

  lemma WriteAtCells(rows: Rows, row: nat, text: string, r: nat, c: nat)
    requires row < |rows|
    ensures |WriteAt(rows, row, text)| == |rows|
    ensures Cell(WriteAt(rows, row, text), r, c) ==
      if r == row && c < |text| then text[c] else Cell(rows, r, c)
  {}

  function Blanks(n: nat): string { seq(n, _ => ' ') }

  // ----- the entry list

  function PageCount(entries: nat): nat { (entries + (ENTRIES_PER_PAGE - 1)) / ENTRIES_PER_PAGE }
  function PageFor(index: nat): nat { index / ENTRIES_PER_PAGE }
  function MinOf(a: nat, b: nat): nat { if a <= b then a else b }

  /** `entry_on_page`: the entry in the same row of another page. */
  function EntryOnPage(selected: nat, entries: nat, page: nat): nat
    requires page * ENTRIES_PER_PAGE < entries
  {
    var first := page * ENTRIES_PER_PAGE;
    var last := MinOf(first + ENTRIES_PER_PAGE, entries);
    first + MinOf(selected % ENTRIES_PER_PAGE, last - first - 1)
  }

  /** A page move lands on the requested page, and keeps the row unless the
      page is too short for it. */
  lemma PageMoveLands(selected: nat, entries: nat, page: nat)
    requires page * ENTRIES_PER_PAGE < entries
    ensures var to := EntryOnPage(selected, entries, page);
      && to < entries && PageFor(to) == page
      && (to % ENTRIES_PER_PAGE == selected % ENTRIES_PER_PAGE || (to == entries - 1 && to % ENTRIES_PER_PAGE < selected % ENTRIES_PER_PAGE))
  {
    var first := page * ENTRIES_PER_PAGE;
    var to := EntryOnPage(selected, entries, page);
    assert to == page * ENTRIES_PER_PAGE + (to - first) && to - first < ENTRIES_PER_PAGE;
  }

  function StatusText(remaining: Option<nat>): string {
    match remaining
    case None => "Select an entry:"
    case Some(n) => "Select an entry" + " (boots in " + Print(n) + "s):"
  }

  /** What `update_status` writes. */
  function StatusUpdate(remaining: Option<nat>): string {
    match remaining
    case None => "Select an entry:" + Blanks(26)
    case Some(n) => StatusText(remaining) + " "
  }

  function EntryRow(title: string, marked: bool): string { (if marked then "> " else "  ") + title }

  function EntryRows(titles: seq<string>, from: nat, to: nat, selected: nat): Rows
    requires from <= to <= |titles|
  {
    seq(to - from, i requires 0 <= i < to - from => EntryRow(titles[from + i], from + i == selected))
  }

  function PageFirst(selected: nat): nat { PageFor(selected) * ENTRIES_PER_PAGE }
  function PageLast(selected: nat, entries: nat): nat { MinOf(PageFirst(selected) + ENTRIES_PER_PAGE, entries) }

  function Footer(selected: nat, entries: nat): Rows {
    [""] + (if PageCount(entries) > 1
            then ["Page " + Print(PageFor(selected) + 1) + " of " + Print(PageCount(entries))] else [])
    + HelpRows()
  }

  function HelpRows(): Rows {
    ["Use Up/Down and Enter. Left/Right changes pages. Press c to configure.",
     "Press r to reboot, s to shut down, f for firmware setup, t for console.",
     "Press b to chainload another bootloader.",
     "Press e to enroll secure boot keys."]
  }

  lemma PageBounds(selected: nat, entries: nat)
    requires selected < entries
    ensures PageFirst(selected) <= selected < PageLast(selected, entries) <= entries
  {}

  /** `draw`. */
  function DrawMenu(titles: seq<string>, selected: nat, remaining: Option<nat>): Rows
    requires selected < |titles|
  {
    PageBounds(selected, |titles|);
    ["r-boot", StatusText(remaining), ""]
    + EntryRows(titles, PageFirst(selected), PageLast(selected, |titles|), selected)
    + Footer(selected, |titles|)
  }

  // ----- the configuration page

  function OnOff(b: bool): string { if b then "on" else "off" }

  /** `config_line` without its marker. */
  function ConfigText(index: nat, timeout: nat, mode: Mode, logo: bool, image: Option<Image>): string
    requires index < CONFIG_OPTION_COUNT
  {
    if index == 0 then " Timeout: " + Print(timeout) + "s"
    else if index == 1 then " Spinner: " + ModeName(mode)
    else if index == 2 then " Firmware logo: " + OnOff(logo)
    else " Selected entry image: " + (match image case None => "none" case Some(i) => ImageName(i))
  }

  function ConfigLine(index: nat, timeout: nat, mode: Mode, logo: bool, image: Option<Image>, marker: string): string
    requires index < CONFIG_OPTION_COUNT
  {
    marker + ConfigText(index, timeout, mode, logo, image)
  }

  function MarkerFor(index: nat, selected: nat): string { if index == selected then ">" else " " }

  /** `draw_config`. */
  function DrawConfig(timeout: nat, mode: Mode, logo: bool, image: Option<Image>, selected: nat): Rows {
    ["r-boot configuration", "",
     ConfigLine(0, timeout, mode, logo, image, MarkerFor(0, selected)),
     ConfigLine(1, timeout, mode, logo, image, MarkerFor(1, selected)),
     ConfigLine(2, timeout, mode, logo, image, MarkerFor(2, selected)),
     ConfigLine(3, timeout, mode, logo, image, MarkerFor(3, selected)),
     "", "Use Up/Down to select, Left/Right to change.", "Enter saves to boot/r-boot.toml. Esc cancels."]
  }

  /** A line padded to the width every configuration line is given. */
  function Padded(line: string): string {
    if |line| < CONFIG_LINE_WIDTH then line + Blanks(CONFIG_LINE_WIDTH - |line|) else line
  }

  // ----- printed numbers

  function Power10(n: nat): (p: nat)
    ensures p > 0
  {
    if n == 0 then 1 else 10 * Power10(n - 1)
  }

  /** A number takes at most `k` digits exactly when it is below 10^k. */
  lemma {:induction false} PrintLength(n: nat, k: nat)
    requires k > 0
    ensures |Print(n)| <= k <==> n < Power10(k)
    decreases n
  {
    if n < 10 {
      PowerAtLeast(k);
    } else if k == 1 {
      assert Power10(1) == 10;
      assert |Print(n / 10)| > 0 by { PrintFacts(n / 10); }
    } else {
      PrintLength(n / 10, k - 1);
      assert Power10(k) == 10 * Power10(k - 1);
      TenTimes(n, Power10(k - 1));
    }
  }

  lemma TenTimes(n: nat, p: nat)
    ensures n / 10 < p <==> n < 10 * p
  {}

  lemma {:induction false} PowerAtLeast(k: nat)
    requires k > 0
    ensures Power10(k) >= 10
  {
    if k > 1 { PowerAtLeast(k - 1); }
  }

  /** Counting down by one never loses more than one digit. */
  lemma {:induction false} DigitsFallByOne(n: nat)
    requires n > 0
    ensures |Print(n)| - 1 <= |Print(n - 1)| <= |Print(n)|
  {
    if n >= 10 {
      PrintFacts(n - 1);
      if (n - 1) / 10 == n / 10 {
        assert n - 1 >= 10;
      } else {
        assert (n - 1) / 10 == n / 10 - 1;
        DigitsFallByOne(n / 10);
      }
    }
  }
}
