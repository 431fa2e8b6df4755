/** The menu of a generated configuration, entry by entry. */
module InstallMenu {
  import opened Wrappers
  import opened Text
  import opened ConfigLines
  import opened BootConfig
  import opened InstallText
  import opened TableTexts

  /** The texts of a generation hold no comment sign. */
  predicate Uncommented(g: Generation) {
    WellFormed(g) && '#' !in g.id && '#' !in g.name && '#' !in g.params && '#' !in g.init
  }

  /** The entry of a generation. */
  function EntryOf(g: Generation): Entry {
    Entry(g.id, "NixOS (" + g.name + ", " + g.id + ")", LinuxKernel, "/boot/nixos/" + CleanName(g.kernel),
          ["/boot/nixos/" + CleanName(g.initrd)], Some("init=" + g.init + " " + g.params), Some(Nixos))
  }

  function EntriesFor(gs: seq<Generation>): seq<Entry> {
    if gs == [] then [] else (if gs[0].bootable then [EntryOf(gs[0])] else []) + EntriesFor(gs[1..])
  }

  lemma TextKeys(raw: RawEntry, v: string)
    ensures SetKey(raw, "id", v) == raw.(id := Some(v)) && SetKey(raw, "title", v) == raw.(title := Some(v))
    ensures SetKey(raw, "image", v) == raw.(image := Some(v)) && SetKey(raw, "options", v) == raw.(options := Some(v))
  {}

  /** The raw fields a generated table fills. */
  function RawFor(g: Generation): RawEntry {
    EMPTY_RAW.(id := Some(g.id), title := Some(TitleOf(g)), kind := Some("linux"),
               image := Some("nixos"), kernel := Some(ConfigPath(g.kernel)), initrds := [ConfigPath(g.initrd)],
               options := Some(OptionsOf(g)))
  }

  function TitleOf(g: Generation): string { "NixOS (" + g.name + ", " + g.id + ")" }
  function OptionsOf(g: Generation): string { "init=" + g.init + " " + g.params }

  /** The table as keys and values. */
  function PairsOf(g: Generation): Pairs {
    [("id", g.id)] + ([("title", TitleOf(g))] + ([("kind", "linux")] + ([("image", "nixos")] + FilePairs(g))))
  }

  function FilePairs(g: Generation): Pairs {
    [("linux", ConfigPath(g.kernel))] + ([("initrd", ConfigPath(g.initrd))] + ([("options", OptionsOf(g))] + []))
  }

  lemma LineCons(key: string, value: string, rest: Pairs)
    ensures QuotedLines([(key, value)] + rest) == [PairLine(key, Quote(value))] + QuotedLines(rest) && QuotedLines([]) == []
  {
    assert ([(key, value)] + rest)[1..] == rest;
  }

  lemma TableLines(g: Generation)
    ensures EntryText(g)[2..] == QuotedLines(PairsOf(g))
  {
    var o := [("options", OptionsOf(g))] + [];
    var i := [("initrd", ConfigPath(g.initrd))] + o;
    LineCons("options", OptionsOf(g), []);
    LineCons("initrd", ConfigPath(g.initrd), o);
    LineCons("linux", ConfigPath(g.kernel), i);
    LineCons("image", "nixos", FilePairs(g));
    LineCons("kind", "linux", [("image", "nixos")] + FilePairs(g));
    LineCons("title", TitleOf(g), [("kind", "linux")] + ([("image", "nixos")] + FilePairs(g)));
    LineCons("id", g.id, [("title", TitleOf(g))] + ([("kind", "linux")] + ([("image", "nixos")] + FilePairs(g))));
    hide QuotedLines, PairLine, Quote, ConfigPath;
  }

  lemma KeysPlain()
    ensures OneLine("id") && OneLine("title") && OneLine("kind") && OneLine("image") && OneLine("linux")
    ensures OneLine("initrd") && OneLine("options") && OneLine("nixos") && '#' !in "linux" && '#' !in "nixos"
  {}

  lemma TextsPlain(g: Generation)
    requires Uncommented(g)
    ensures OneLine(TitleOf(g)) && '#' !in TitleOf(g) && OneLine(OptionsOf(g)) && '#' !in OptionsOf(g)
  {}

  lemma TableWritable(g: Generation)
    requires Uncommented(g)
    ensures Writable(PairsOf(g))
  {
    CleanPath(g.kernel);
    CleanPath(g.initrd);
    ConfigKeys();
    KeysPlain();
    TextsPlain(g);
    assert OneLine(g.id) && '#' !in g.id;
    hide KeyLike, OneLine, ConfigPath, TitleOf, OptionsOf, Uncommented;
  }

  lemma FileFields(raw: RawEntry, g: Generation)
    ensures RunPairs(raw, FilePairs(g)) ==
      raw.(kernel := Some(ConfigPath(g.kernel)), initrds := raw.initrds + [ConfigPath(g.initrd)], options := Some(OptionsOf(g)))
  {
    hide RunPairs, SetKey, ConfigPath, OptionsOf;
    var o := [("options", OptionsOf(g))] + [];
    RunPair(raw, "linux", ConfigPath(g.kernel), [("initrd", ConfigPath(g.initrd))] + o);
    FileKeys(raw, ConfigPath(g.kernel));
    var r := raw.(kernel := Some(ConfigPath(g.kernel)));
    RunPair(r, "initrd", ConfigPath(g.initrd), o);
    FileKeys(r, ConfigPath(g.initrd));
    var t := r.(initrds := raw.initrds + [ConfigPath(g.initrd)]);
    RunPair(t, "options", OptionsOf(g), []);
    TextKeys(t, OptionsOf(g));
    RunPair(t.(options := Some(OptionsOf(g))), "", "", []);
  }

  lemma AllFields(g: Generation)
    ensures RunPairs(EMPTY_RAW, PairsOf(g)) == RawFor(g)
  {
    hide RunPairs, SetKey, ConfigPath, FilePairs;
    var image := [("image", "nixos")] + FilePairs(g);
    var kind := [("kind", "linux")] + image;
    RunPair(EMPTY_RAW, "id", g.id, [("title", TitleOf(g))] + kind);
    TextKeys(EMPTY_RAW, g.id);
    var r := EMPTY_RAW.(id := Some(g.id));
    RunPair(r, "title", TitleOf(g), kind);
    TextKeys(r, TitleOf(g));
    var t := r.(title := Some(TitleOf(g)));
    RunPair(t, "kind", "linux", image);
    FileKeys(t, "linux");
    var u := t.(kind := Some("linux"));
    RunPair(u, "image", "nixos", FilePairs(g));
    TextKeys(u, "nixos");
    FileFields(u.(image := Some("nixos")), g);
    assert [] + [ConfigPath(g.initrd)] == [ConfigPath(g.initrd)];
  }

  lemma TableFields(g: Generation)
    requires Uncommented(g)
    ensures RunRaw(EMPTY_RAW, Items(EntryText(g)[2..])) == RawFor(g)
  {
    hide Items, EntryText, PairsOf, RawFor, Writable, RunRaw, Uncommented, QuotedLines, QuotedItems, RunPairs;
    TableLines(g);
    TableWritable(g);
    QuotedLinesRead(PairsOf(g));
    RunQuoted(EMPTY_RAW, PairsOf(g));
    AllFields(g);
  }

  lemma FieldsShown(g: Generation)
    ensures Pushed(RawFor(g)) == [EntryOf(g)]
  {
    hide CleanName;
  }

  lemma {:induction false} RunEntries(s: State, gs: seq<Generation>)
    requires forall g <- gs :: Uncommented(g)
    ensures PushOpen(Run(s, Items(EntriesText(gs)))) == PushOpen(s).(entries := PushOpen(s).entries + EntriesFor(gs))
    decreases |gs|
  {
    hide Classify, EntryText, WellFormed, Uncommented, Run, Pushed, EntryOf, RawFor, RunRaw, ConfigPath;
    if gs == [] {
      assert Items([]) == [];
      RunEmpty(s);
      assert PushOpen(s).entries + [] == PushOpen(s).entries;
    } else if gs[0].bootable {
      var g := gs[0];
      assert WellFormed(g) by { UncommentedIsWell(g); }
      var first := Run(s, Items(EntryText(g)));
      ItemsConcat(EntryText(g), EntriesText(gs[1..]));
      RunConcat(s, Items(EntryText(g)), Items(EntriesText(gs[1..])));
      RunTable(s, g);
      TableFields(g);
      FieldsShown(g);
      RunEntries(first, gs[1..]);
      assert PushOpen(s).entries + [EntryOf(g)] + EntriesFor(gs[1..]) == PushOpen(s).entries + ([EntryOf(g)] + EntriesFor(gs[1..]));
    } else {
      assert [] + EntriesText(gs[1..]) == EntriesText(gs[1..]);
      assert [] + EntriesFor(gs[1..]) == EntriesFor(gs[1..]);
      RunEntries(s, gs[1..]);
    }
  }

  lemma UncommentedIsWell(g: Generation)
    requires Uncommented(g)
    ensures WellFormed(g)
  {}

  lemma HeaderKeys(m: MenuData, v: string)
    ensures SetHeader(m, "default", v) == m.(default := Some(v))
    ensures SetHeader(m, "timeout", v) == m.(timeout := ParseUnsigned(v, U64_LIMIT))
  {}

  lemma RunTwo(m: MenuData, a: Item, b: Item)
    requires a.Pair? && b.Pair?
    ensures Run(State(m, None), [Other, a, b]) ==
      State(SetHeader(SetHeader(m, a.key, Unquote(a.value)), b.key, Unquote(b.value)), None)
  {
    hide SetHeader, Unquote;
    assert [Other, a, b][1..] == [a, b] && [a, b][1..] == [b] && [b][1..] == [];
    var n := SetHeader(m, a.key, Unquote(a.value));
    var o := SetHeader(n, b.key, Unquote(b.value));
    assert Run(State(o, None), []) == State(o, None);
    assert Run(State(n, None), [b]) == Run(State(o, None), []);
    assert Run(State(m, None), [a, b]) == Run(State(n, None), [b]);
  }

  /** The settings of a generated file. */
  lemma HeadSettings(timeout: nat)
    requires timeout < U64_LIMIT
    ensures Run(State(INITIAL_MENU, None), Items(HeadText(timeout))) ==
      State(INITIAL_MENU.(default := Some("nixos-default"), timeout := Some(timeout)), None)
  {
    HeadReads(timeout);
    ParsePrint(timeout, U64_LIMIT);
    TimeoutReads(timeout);
    UnquoteQuote("nixos-default");
    hide Run, Print, Quote, Unquote, ParseUnsigned, SetHeader, HeadText;
    var a, b := Pair("default", Quote("nixos-default")), Pair("timeout", Print(timeout));
    RunTwo(INITIAL_MENU, a, b);
    HeaderKeys(INITIAL_MENU, "nixos-default");
    HeaderKeys(INITIAL_MENU.(default := Some("nixos-default")), Print(timeout));
  }

  lemma HeadReads(timeout: nat)
    ensures Items(HeadText(timeout)) == [Other, Pair("default", Quote("nixos-default")), Pair("timeout", Print(timeout))]
  {
    hide Classify, Print, Quote, Unquote, KeyLike, PairLine, OneLine;
    Comment();
    ConfigKeys();
    PlainDefault();
    QuotedReads("default", "nixos-default");
    TimeoutReads(timeout);
  }

  lemma PlainDefault()
    ensures '#' !in "nixos-default"
  {}

  /** The bootloader, reading the generated file, shows the bootable generations
      in the order they were given, the default first, each with its title,
      its two files, its init and parameters and the NixOS image; the default
      and the timeout are set. */
  lemma GeneratedMenu(timeout: nat, gs: seq<Generation>)
    requires timeout < U64_LIMIT && forall g <- gs :: Uncommented(g)
    ensures ReadMenu(Generated(timeout, gs)) ==
      MenuData(EntriesFor(gs), Some("nixos-default"), Some(timeout), Graphical, true)
  {
    forall g <- gs ensures WellFormed(g) { UncommentedIsWell(g); }
    hide Classify, EntryText, WellFormed, Uncommented, Run, HeadText, EntriesText, Lines, OneLine;
    HeadIsHeader(timeout);
    EntriesAreLines(gs);
    ReadBack(HeadText(timeout) + EntriesText(gs));
    ItemsConcat(HeadText(timeout), EntriesText(gs));
    var s0 := State(INITIAL_MENU, None);
    RunConcat(s0, Items(HeadText(timeout)), Items(EntriesText(gs)));
    HeadSettings(timeout);
    RunEntries(Run(s0, Items(HeadText(timeout))), gs);
    assert [] + EntriesFor(gs) == EntriesFor(gs);
  }
}
