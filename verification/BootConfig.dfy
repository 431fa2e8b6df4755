/** The bootloader's reader of `r-boot.toml` (crates/r-boot/src/menu.rs). */
module BootConfig {
  import opened Wrappers
  import opened Text
  import opened ConfigLines

  const U64_LIMIT: nat := 0x1_0000_0000_0000_0000

  datatype Mode = Off | Text | Graphical
  datatype Image = Nixos | Linux
  datatype Kind = LinuxKernel | Limine | Efi
  datatype Fastboot = FastbootOff | NextBootOnly | FastbootOn

  function ParseMode(value: string): Option<Mode> {
    if value == "off" then Some(Off) else if value == "text" then Some(Text)
    else if value == "graphical" then Some(Graphical) else None
  }

  function ModeName(m: Mode): string {
    match m case Off => "off" case Text => "text" case Graphical => "graphical"
  }

  function ParseImage(value: string): Option<Image> {
    if value == "nixos" then Some(Nixos) else if value == "linux" then Some(Linux) else None
  }

  function ImageName(i: Image): string { match i case Nixos => "nixos" case Linux => "linux" }

  function ParseFastboot(value: string): Option<Fastboot> {
    if value == "off" then Some(FastbootOff)
    else if value == "next-boot" || value == "next" || value == "only-next-boot" then Some(NextBootOnly)
    else if value == "on" then Some(FastbootOn) else None
  }

  datatype Entry = Entry(id: string, title: string, kind: Kind, kernel: string, initrds: seq<string>,
                         options: Option<string>, image: Option<Image>)

  datatype RawEntry = RawEntry(id: Option<string>, title: Option<string>, kind: Option<string>, kernel: Option<string>,
                               initrds: seq<string>, options: Option<string>, image: Option<string>)

  const EMPTY_RAW := RawEntry(None, None, None, None, [], None, None)

  /** What a menu configuration amounts to. */
  datatype MenuData = MenuData(entries: seq<Entry>, default: Option<string>, timeout: Option<nat>, spinner: Mode, logo: bool)

  /** `Menu::load` before any file is read. */
  const INITIAL_MENU := MenuData([], None, None, Graphical, true)

  /** `RawEntry::set`. */
  function SetKey(raw: RawEntry, key: string, value: string): RawEntry {
    if key == "title" then raw.(title := Some(value))
    else if key == "id" then raw.(id := Some(value))
    else if key == "kind" then raw.(kind := Some(value))
    else if key == "linux" || key == "kernel" then raw.(kernel := Some(value))
    else if key == "efi" then raw.(kind := Some("efi"), kernel := Some(value))
    else if key == "initrd" then raw.(initrds := raw.initrds + [value])
    else if key == "options" then raw.(options := Some(value))
    else if key == "image" then raw.(image := Some(value))
    else raw
  }

  function KindOf(kind: Option<string>): Option<Kind> {
    match kind
    case None => Some(LinuxKernel)
    case Some(k) =>
      if k == "limine" then Some(Limine) else if k == "linux" then Some(LinuxKernel)
      else if k == "efi" then Some(Efi) else None
  }

  function OrElse<T>(o: Option<T>, default: T): T { if o.Some? then o.value else default }

  function ImageOf(value: Option<string>): Option<Image> {
    if value.Some? then ParseImage(value.value) else None
  }

  /** `push_entry`: the entry a table contributes, if it has a kernel and a
      known kind. */
  function Pushed(raw: RawEntry): seq<Entry> {
    if raw.kernel.None? || KindOf(raw.kind).None? then []
    else
      var kernel := raw.kernel.value;
      [Entry(OrElse(raw.id, OrElse(raw.title, kernel)), OrElse(raw.title, kernel), KindOf(raw.kind).value, kernel,
             raw.initrds, raw.options, ImageOf(raw.image))]
  }

  /** A setting outside the tables. */
  function SetHeader(m: MenuData, key: string, value: string): MenuData {
    if key == "default" then m.(default := Some(value))
    else if key == "timeout" then m.(timeout := ParseUnsigned(value, U64_LIMIT))
    else if key == "spinner" then m.(spinner := OrElse(ParseMode(value), m.spinner))
    else if key == "logo" then m.(logo := OrElse(ParseBool(value), m.logo))
    else m
  }

  // ----- the line-by-line reading

  datatype State = State(menu: MenuData, entry: Option<RawEntry>)

  function PushOpen(s: State): MenuData {
    match s.entry
    case None => s.menu
    case Some(raw) => s.menu.(entries := s.menu.entries + Pushed(raw))
  }

  function Step(s: State, item: Item): State {
    match item
    case Header => State(PushOpen(s), Some(EMPTY_RAW))
    case Other => s
    case Pair(key, value) =>
      match s.entry
      case Some(raw) => State(s.menu, Some(SetKey(raw, key, Unquote(value))))
      case None => State(SetHeader(s.menu, key, Unquote(value)), None)
  }

  function Run(s: State, items: seq<Item>): State
    decreases |items|
  {
    if items == [] then s else Run(Step(s, items[0]), items[1..])
  }

  function ReadItems(m: MenuData, items: seq<Item>): MenuData { PushOpen(Run(State(m, None), items)) }

  /** The menu a configuration text describes. */
  function ReadMenu(text: string): MenuData { ReadItems(INITIAL_MENU, Items(Lines(text))) }

  class Menu {
    var entries: seq<Entry>
    var default: Option<string>
    var timeout: Option<nat>
    var spinnerMode: Mode
    var logoVisible: bool

    constructor ()
      ensures Data() == INITIAL_MENU
    {
      entries, default, timeout, spinnerMode, logoVisible := [], None, None, Graphical, true;
    }

    function Data(): MenuData
      reads this
    {
      MenuData(entries, default, timeout, spinnerMode, logoVisible)
    }

    /** `push_entry`. */
    method PushEntry(raw: Option<RawEntry>)
      modifies this`entries
      ensures Data() == PushOpen(State(old(Data()), raw))
    {
      if raw.Some? { entries := entries + Pushed(raw.value); }
    }

    /** `parse_toml`. */
    method ParseToml(contents: string)
      modifies this
      ensures Data() == ReadItems(old(Data()), Items(Lines(contents)))
    {
      var lines := Lines(contents);
      var entry: Option<RawEntry> := None;
      ghost var final := Run(State(Data(), None), Items(lines));
      for i := 0 to |lines|
        invariant Run(State(Data(), entry), Items(lines)[i..]) == final
      {
        assert Items(lines)[i..][0] == Classify(lines[i]) && Items(lines)[i..][1..] == Items(lines)[i + 1..];
        match Classify(lines[i]) {
          case Header =>
            PushEntry(entry);
            entry := Some(EMPTY_RAW);
          case Other =>
          case Pair(key, quoted) =>
            var value := Unquote(quoted);
            if entry.Some? {
              entry := Some(SetKey(entry.value, key, value));
            } else if key == "default" {
              default := Some(value);
            } else if key == "timeout" {
              timeout := ParseUnsigned(value, U64_LIMIT);
            } else if key == "spinner" {
              if ParseMode(value).Some? { spinnerMode := ParseMode(value).value; }
            } else if key == "logo" {
              logoVisible := OrElse(ParseBool(value), logoVisible);
            }
        }
      }
      PushEntry(entry);
    }
  }

  // ----- the same reading, table by table

  function RunHeader(m: MenuData, items: seq<Item>): MenuData
    decreases |items|
  {
    if items == [] then m
    else RunHeader(if items[0].Pair? then SetHeader(m, items[0].key, Unquote(items[0].value)) else m, items[1..])
  }

  function RunRaw(raw: RawEntry, items: seq<Item>): RawEntry
    decreases |items|
  {
    if items == [] then raw
    else RunRaw(if items[0].Pair? then SetKey(raw, items[0].key, Unquote(items[0].value)) else raw, items[1..])
  }

  function BlockEntries(blocks: seq<seq<Item>>): seq<Entry> {
    if blocks == [] then [] else Pushed(RunRaw(EMPTY_RAW, blocks[0])) + BlockEntries(blocks[1..])
  }

  lemma {:induction false} RunConcat(s: State, a: seq<Item>, b: seq<Item>)
    ensures Run(s, a + b) == Run(Run(s, a), b)
    decreases |a|
  {
    if a == [] {
      assert a + b == b;
    } else {
      assert (a + b)[1..] == a[1..] + b;
      RunConcat(Step(s, a[0]), a[1..], b);
    }
  }

  /** One line's contribution to a raw entry. */
  function LineRaw(raw: RawEntry, line: string): RawEntry {
    var i := Classify(line);
    if i.Pair? then SetKey(raw, i.key, Unquote(i.value)) else raw
  }

  lemma RunLine(raw: RawEntry, line: string, rest: seq<string>)
    ensures RunRaw(raw, Items([line] + rest)) == RunRaw(LineRaw(raw, line), Items(rest))
  {
    hide Classify, SetKey, Unquote;
    assert Items([line] + rest) == [Classify(line)] + Items(rest);
    assert ([Classify(line)] + Items(rest))[1..] == Items(rest);
  }

  lemma RunNothing(raw: RawEntry)
    ensures RunRaw(raw, Items([])) == raw
  {}

  /** Reading decomposes: the settings come from the lines before the first
      table, the entries from the tables one by one. */
  lemma {:induction false} ReadByTables(m: MenuData, items: seq<Item>)
    ensures ReadItems(m, items) ==
      RunHeader(m, HeaderItems(items)).(entries := m.entries + BlockEntries(BlocksOf(items)))
    decreases |items|
  {
    if items == [] {
      assert m.entries + [] == m.entries;
    } else if items[0].Header? {
      OpenByTables(m, EMPTY_RAW, items[1..]);
      assert RunHeader(m, []) == m;
    } else {
      var m' := if items[0].Pair? then SetHeader(m, items[0].key, Unquote(items[0].value)) else m;
      ReadByTables(m', items[1..]);
      assert HeaderItems(items)[1..] == HeaderItems(items[1..]);
    }
  }

  lemma {:induction false} OpenByTables(m: MenuData, raw: RawEntry, items: seq<Item>)
    ensures PushOpen(Run(State(m, Some(raw)), items)) ==
      m.(entries := m.entries + (Pushed(RunRaw(raw, HeaderItems(items))) + BlockEntries(BlocksOf(items))))
    decreases |items|
  {
    hide Pushed, SetKey;
    if items == [] {
      assert Pushed(raw) + [] == Pushed(raw);
    } else if items[0].Header? {
      var pushed := m.(entries := m.entries + Pushed(raw));
      OpenByTables(pushed, EMPTY_RAW, items[1..]);
      var a, b := Pushed(RunRaw(EMPTY_RAW, HeaderItems(items[1..]))), BlockEntries(BlocksOf(items[1..]));
      assert m.entries + Pushed(raw) + (a + b) == m.entries + (Pushed(raw) + (a + b));
    } else {
      var raw' := if items[0].Pair? then SetKey(raw, items[0].key, Unquote(items[0].value)) else raw;
      OpenByTables(m, raw', items[1..]);
      assert HeaderItems(items)[1..] == HeaderItems(items[1..]);
    }
  }

  // ----- the early single-key readers

  /** The first header line with the key whose value `parse` accepts. */
  function FirstMode(items: seq<Item>): Mode {
    if items == [] || items[0].Header? then Graphical
    else if items[0].Pair? && items[0].key == "spinner" && ParseMode(Unquote(items[0].value)).Some? then
      ParseMode(Unquote(items[0].value)).value
    else FirstMode(items[1..])
  }

  function FirstFastboot(items: seq<Item>): Fastboot {
    if items == [] || items[0].Header? then FastbootOff
    else if items[0].Pair? && items[0].key == "fastboot" && ParseFastboot(Unquote(items[0].value)).Some? then
      ParseFastboot(Unquote(items[0].value)).value
    else FirstFastboot(items[1..])
  }

  /** The first `logo` line decides, and its value is not unquoted. */
  function FirstLogo(items: seq<Item>): bool {
    if items == [] || items[0].Header? then true
    else if items[0].Pair? && items[0].key == "logo" then OrElse(ParseBool(items[0].value), true)
    else FirstLogo(items[1..])
  }

  /** `configured_spinner_mode` on a file that could be read. */
  method ConfiguredSpinnerMode(contents: string) returns (mode: Mode)
    ensures mode == FirstMode(Items(Lines(contents)))
  {
    var lines := Lines(contents);
    for i := 0 to |lines|
      invariant FirstMode(Items(lines)[i..]) == FirstMode(Items(lines))
    {
      assert Items(lines)[i..][0] == Classify(lines[i]) && Items(lines)[i..][1..] == Items(lines)[i + 1..];
      var item := Classify(lines[i]);
      if item.Header? { return Graphical; }
      if item.Pair? && item.key == "spinner" && ParseMode(Unquote(item.value)).Some? {
        return ParseMode(Unquote(item.value)).value;
      }
    }
    mode := Graphical;
  }

  /** `configured_fastboot_mode`. */
  method ConfiguredFastbootMode(contents: string) returns (mode: Fastboot)
    ensures mode == FirstFastboot(Items(Lines(contents)))
  {
    var lines := Lines(contents);
    for i := 0 to |lines|
      invariant FirstFastboot(Items(lines)[i..]) == FirstFastboot(Items(lines))
    {
      assert Items(lines)[i..][0] == Classify(lines[i]) && Items(lines)[i..][1..] == Items(lines)[i + 1..];
      var item := Classify(lines[i]);
      if item.Header? { return FastbootOff; }
      if item.Pair? && item.key == "fastboot" && ParseFastboot(Unquote(item.value)).Some? {
        return ParseFastboot(Unquote(item.value)).value;
      }
    }
    mode := FastbootOff;
  }

  /** `configured_logo_visible`. */
  method ConfiguredLogoVisible(contents: string) returns (visible: bool)
    ensures visible == FirstLogo(Items(Lines(contents)))
  {
    var lines := Lines(contents);
    for i := 0 to |lines|
      invariant FirstLogo(Items(lines)[i..]) == FirstLogo(Items(lines))
    {
      assert Items(lines)[i..][0] == Classify(lines[i]) && Items(lines)[i..][1..] == Items(lines)[i + 1..];
      var item := Classify(lines[i]);
      if item.Header? { return true; }
      if item.Pair? && item.key == "logo" { return OrElse(ParseBool(item.value), true); }
    }
    visible := true;
  }
}
