/** The command-line tool's reader and writer of `r-boot.toml`
    (crates/r-boot-cli/src/config.rs). */
module CliConfig {
  import opened Wrappers
  import opened Text
  import opened ConfigLines

  const U32_LIMIT: nat := 0x1_0000_0000

  datatype Entry = Entry(id: string, title: Option<string>, kind: Option<string>, linux: Option<string>,
                         efi: Option<string>, image: Option<string>, initrd: seq<string>, options: Option<string>)

  datatype Config = Config(default: Option<string>, timeout: Option<nat>, spinner: Option<string>,
                           logo: Option<bool>, fastboot: Option<string>, entries: seq<Entry>)

  const EMPTY_ENTRY := Entry("", None, None, None, None, None, [], None)
  const EMPTY_CONFIG := Config(None, None, None, None, None, [])

  function SetEntry(e: Entry, key: string, value: string): Entry {
    if key == "id" then e.(id := value)
    else if key == "title" then e.(title := Some(value))
    else if key == "kind" then e.(kind := Some(value))
    else if key == "linux" then e.(linux := Some(value))
    else if key == "efi" then e.(efi := Some(value))
    else if key == "image" then e.(image := Some(value))
    else if key == "initrd" then e.(initrd := e.initrd + [value])
    else if key == "options" then e.(options := Some(value))
    else e
  }

  function SetConfig(c: Config, key: string, value: string): Config {
    if key == "default" then c.(default := Some(value))
    else if key == "timeout" then c.(timeout := ParseUnsigned(value, U32_LIMIT))
    else if key == "spinner" then c.(spinner := Some(value))
    else if key == "logo" then c.(logo := ParseBool(value))
    else if key == "fastboot" then c.(fastboot := Some(value))
    else c
  }

  datatype State = State(config: Config, entry: Option<Entry>)

  function Close(s: State): Config {
    match s.entry
    case None => s.config
    case Some(e) => s.config.(entries := s.config.entries + [e])
  }

  function Step(s: State, item: Item): State {
    match item
    case Header => State(Close(s), Some(EMPTY_ENTRY))
    case Other => s
    case Pair(key, value) =>
      match s.entry
      case Some(e) => State(s.config, Some(SetEntry(e, key, Unquote(value))))
      case None => State(SetConfig(s.config, key, Unquote(value)), None)
  }

  function Run(s: State, items: seq<Item>): State
    decreases |items|
  {
    if items == [] then s else Run(Step(s, items[0]), items[1..])
  }

  function ReadItems(items: seq<Item>): Config { Close(Run(State(EMPTY_CONFIG, None), items)) }

  /** The configuration a text describes to the tool. */
  function ReadConfig(text: string): Config { ReadItems(Items(Lines(text))) }

  /** `Config::parse`. */
  method Parse(contents: string) returns (config: Config)
    ensures config == ReadConfig(contents)
  {
    var lines := Lines(contents);
    config := EMPTY_CONFIG;
    var entry: Option<Entry> := None;
    for i := 0 to |lines|
      invariant Run(State(config, entry), Items(lines)[i..]) == Run(State(EMPTY_CONFIG, None), Items(lines))
    {
      assert Items(lines)[i..][0] == Classify(lines[i]) && Items(lines)[i..][1..] == Items(lines)[i + 1..];
      match Classify(lines[i]) {
        case Header =>
          if entry.Some? { config := config.(entries := config.entries + [entry.value]); }
          entry := Some(EMPTY_ENTRY);
        case Other =>
        case Pair(key, quoted) =>
          var value := Unquote(quoted);
          if entry.Some? {
            entry := Some(SetEntry(entry.value, key, value));
          } else {
            config := SetConfig(config, key, value);
          }
      }
    }
    if entry.Some? { config := config.(entries := config.entries + [entry.value]); }
  }

  // ----- writing

  const COMMENT := "# Generated file, all changes" + " will be lost on nixos-rebuild!"

  function OptionLine(key: string, value: Option<string>): seq<string> {
    match value case None => [] case Some(v) => [PairLine(key, Quote(v))]
  }

  function RepeatLines(key: string, values: seq<string>): seq<string> {
    if values == [] then [] else [PairLine(key, Quote(values[0]))] + RepeatLines(key, values[1..])
  }

  function TimeoutLine(timeout: Option<nat>): seq<string> {
    match timeout case None => [] case Some(n) => [PairLine("timeout", Print(n))]
  }

  function LogoLine(logo: Option<bool>): seq<string> {
    match logo case None => [] case Some(b) => [PairLine("logo", PrintBool(b))]
  }

  function HeadLines(c: Config): seq<string> {
    [COMMENT] + OptionLine("default", c.default)
    + TimeoutLine(c.timeout)
    + OptionLine("spinner", c.spinner)
    + LogoLine(c.logo)
    + OptionLine("fastboot", c.fastboot)
  }

  function EntryLines(e: Entry): seq<string> {
    ["", ENTRIES, PairLine("id", Quote(e.id))] + OptionLine("title", e.title) + OptionLine("kind", e.kind)
    + OptionLine("linux", e.linux) + OptionLine("efi", e.efi) + OptionLine("image", e.image)
    + RepeatLines("initrd", e.initrd) + OptionLine("options", e.options)
  }

  function AllEntryLines(entries: seq<Entry>): seq<string> {
    if entries == [] then [] else EntryLines(entries[0]) + AllEntryLines(entries[1..])
  }

  /** The text the tool writes for a configuration. */
  function Rendered(c: Config): string { Unlines(HeadLines(c) + AllEntryLines(c.entries)) }

  method WriteOption(out: string, key: string, value: Option<string>) returns (result: string)
    ensures result == out + Unlines(OptionLine(key, value))
  {
    result := out;
    if value.Some? {
      result := result + (PairLine(key, Quote(value.value)) + "\n");
      assert Unlines([PairLine(key, Quote(value.value))]) == PairLine(key, Quote(value.value)) + "\n" + "";
    }
  }

  lemma Appended(out: string, a: seq<string>, b: seq<string>)
    ensures out + Unlines(a) + Unlines(b) == out + Unlines(a + b)
  {
    UnlinesConcat(a, b);
  }

  method WriteRepeated(out: string, key: string, values: seq<string>) returns (result: string)
    ensures result == out + Unlines(RepeatLines(key, values))
  {
    hide PairLine, Quote;
    result := out;
    for i := 0 to |values|
      invariant result + Unlines(RepeatLines(key, values[i..])) == out + Unlines(RepeatLines(key, values))
    {
      ghost var before := result;
      assert values[i..][0] == values[i] && values[i..][1..] == values[i + 1..];
      UnlinesConcat([PairLine(key, Quote(values[i]))], RepeatLines(key, values[i + 1..]));
      result := result + (PairLine(key, Quote(values[i])) + "\n");
      assert Unlines([PairLine(key, Quote(values[i]))]) == PairLine(key, Quote(values[i])) + "\n" + "";
      assert before + (PairLine(key, Quote(values[i])) + "\n") + Unlines(RepeatLines(key, values[i + 1..])) ==
             before + ((PairLine(key, Quote(values[i])) + "\n") + Unlines(RepeatLines(key, values[i + 1..])));
    }
  }

  method WriteEntry(out: string, e: Entry) returns (result: string)
    ensures result == out + Unlines(EntryLines(e))
  {
    hide PairLine, Quote, OptionLine, RepeatLines, Unlines;
    ghost var w: seq<string> := ["", ENTRIES, PairLine("id", Quote(e.id))];
    UnlinesThree("", ENTRIES, PairLine("id", Quote(e.id)));
    result := out + ("\n" + (ENTRIES + "\n") + (PairLine("id", Quote(e.id)) + "\n"));
    result := WriteOption(result, "title", e.title);
    Appended(out, w, OptionLine("title", e.title));
    w := w + OptionLine("title", e.title);
    result := WriteOption(result, "kind", e.kind);
    Appended(out, w, OptionLine("kind", e.kind));
    w := w + OptionLine("kind", e.kind);
    result := WriteOption(result, "linux", e.linux);
    Appended(out, w, OptionLine("linux", e.linux));
    w := w + OptionLine("linux", e.linux);
    result := WriteOption(result, "efi", e.efi);
    Appended(out, w, OptionLine("efi", e.efi));
    w := w + OptionLine("efi", e.efi);
    result := WriteOption(result, "image", e.image);
    Appended(out, w, OptionLine("image", e.image));
    w := w + OptionLine("image", e.image);
    result := WriteRepeated(result, "initrd", e.initrd);
    Appended(out, w, RepeatLines("initrd", e.initrd));
    w := w + RepeatLines("initrd", e.initrd);
    result := WriteOption(result, "options", e.options);
    Appended(out, w, OptionLine("options", e.options));
  }

  lemma UnlinesThree(a: string, b: string, c: string)
    ensures Unlines([a, b, c]) == a + "\n" + (b + "\n") + (c + "\n")
  {
    hide Unlines;
    UnlinesOne(a);
    UnlinesOne(b);
    UnlinesOne(c);
    UnlinesConcat([a], [b]);
    UnlinesConcat([a] + [b], [c]);
    assert [a] + [b] + [c] == [a, b, c];
  }

  lemma UnlinesNone()
    ensures Unlines([]) == ""
  {}

  lemma UnlinesOne(a: string)
    ensures Unlines([a]) == a + "\n"
  {}

  /** The settings before the tables. */
  method WriteHead(c: Config) returns (out: string)
    ensures out == Unlines(HeadLines(c))
  {
    hide PairLine, Quote, OptionLine, TimeoutLine, LogoLine, Unlines, Print, PrintBool;
    UnlinesOne(COMMENT);
    ghost var w: seq<string> := [COMMENT];
    out := COMMENT + "\n";
    out := WriteOption(out, "default", c.default);
    UnlinesConcat(w, OptionLine("default", c.default));
    w := w + OptionLine("default", c.default);
    out := WriteTimeout(out, c.timeout);
    UnlinesConcat(w, TimeoutLine(c.timeout));
    w := w + TimeoutLine(c.timeout);
    out := WriteOption(out, "spinner", c.spinner);
    UnlinesConcat(w, OptionLine("spinner", c.spinner));
    w := w + OptionLine("spinner", c.spinner);
    out := WriteLogo(out, c.logo);
    UnlinesConcat(w, LogoLine(c.logo));
    w := w + LogoLine(c.logo);
    out := WriteOption(out, "fastboot", c.fastboot);
    UnlinesConcat(w, OptionLine("fastboot", c.fastboot));
  }

  method WriteTimeout(out: string, timeout: Option<nat>) returns (result: string)
    ensures result == out + Unlines(TimeoutLine(timeout))
  {
    hide PairLine, Print, Unlines;
    result := out;
    if timeout.Some? {
      UnlinesOne(PairLine("timeout", Print(timeout.value)));
      result := result + (PairLine("timeout", Print(timeout.value)) + "\n");
    } else {
      UnlinesNone();
      assert out + "" == out;
    }
  }

  method WriteLogo(out: string, logo: Option<bool>) returns (result: string)
    ensures result == out + Unlines(LogoLine(logo))
  {
    hide PairLine, PrintBool, Unlines;
    result := out;
    if logo.Some? {
      UnlinesOne(PairLine("logo", PrintBool(logo.value)));
      result := result + (PairLine("logo", PrintBool(logo.value)) + "\n");
    } else {
      UnlinesNone();
      assert out + "" == out;
    }
  }

  /** `Config::render`. */
  method Render(c: Config) returns (out: string)
    ensures out == Rendered(c)
  {
    hide HeadLines, EntryLines, Unlines;
    out := WriteHead(c);
    UnlinesConcat(HeadLines(c), AllEntryLines(c.entries));
    assert c.entries[0..] == c.entries;
    for i := 0 to |c.entries|
      invariant out + Unlines(AllEntryLines(c.entries[i..])) == Rendered(c)
    {
      ghost var before := out;
      assert c.entries[i..][0] == c.entries[i] && c.entries[i..][1..] == c.entries[i + 1..];
      UnlinesConcat(EntryLines(c.entries[i]), AllEntryLines(c.entries[i + 1..]));
      out := WriteEntry(out, c.entries[i]);
      assert out + Unlines(AllEntryLines(c.entries[i + 1..])) ==
             before + (Unlines(EntryLines(c.entries[i])) + Unlines(AllEntryLines(c.entries[i + 1..])));
    }
    assert c.entries[|c.entries|..] == [];
    UnlinesNone();
    assert out + "" == out;
  }
}
