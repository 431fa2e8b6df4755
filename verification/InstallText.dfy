/** The menu configuration the NixOS installer generates, and what the
    bootloader reads in it (crates/r-boot-conf-builder/src/main.rs, menu.rs). */
module InstallText {
  import opened Wrappers
  import opened Text
  import opened ConfigLines
  import opened BootConfig

  /** A boot generation in the Nix store, symbolic links resolved. */
  datatype Generation = Generation(id: string, bootable: bool, kernel: string, initrd: string,
                                   name: string, params: string, init: string)

  const STORE := "/nix/store/"
  const KERNELS := "/boot/nixos/"

  function ReplaceSlashes(s: string): string {
    if s == [] then [] else [if s[0] == '/' then '-' else s[0]] + ReplaceSlashes(s[1..])
  }

  /** `clean_name`. */
  function CleanName(path: string): string {
    ReplaceSlashes(if STORE <= path then path[|STORE|..] else path)
  }

  /** The path written into the configuration for a copied file. */
  function ConfigPath(path: string): string { KERNELS + CleanName(path) }

  function HeadText(timeout: nat): seq<string> {
    ["# Generated file, all changes" + " will be lost on nixos-rebuild!",
     PairLine("default", Quote("nixos-default")), PairLine("timeout", Print(timeout))]
  }

  /** The lines of one `[[entries]]` table. */
  function EntryText(g: Generation): seq<string> {
    ["", ENTRIES, PairLine("id", Quote(g.id)),
     PairLine("title", Quote("NixOS (" + g.name + ", " + g.id + ")")),
     PairLine("kind", Quote("linux")), PairLine("image", Quote("nixos")),
     PairLine("linux", Quote(ConfigPath(g.kernel))), PairLine("initrd", Quote(ConfigPath(g.initrd))),
     PairLine("options", Quote("init=" + g.init + " " + g.params))]
  }

  function EntriesText(gs: seq<Generation>): seq<string> {
    if gs == [] then [] else (if gs[0].bootable then EntryText(gs[0]) else []) + EntriesText(gs[1..])
  }

  /** The generated file. */
  function Generated(timeout: nat, gs: seq<Generation>): string { Unlines(HeadText(timeout) + EntriesText(gs)) }

  /** What the generator relies on without checking: one-line texts, and file
      names without a comment sign. */
  predicate WellFormed(g: Generation) {
    && OneLine(g.id) && OneLine(g.name) && OneLine(g.params) && OneLine(g.init)
    && OneLine(g.kernel) && '#' !in g.kernel && OneLine(g.initrd) && '#' !in g.initrd
  }

  /** Every file a menu's entries name. */
  function FilesOf(entries: seq<Entry>): set<string> {
    if entries == [] then {}
    else {entries[0].kernel} + (set i | i in entries[0].initrds) + FilesOf(entries[1..])
  }

  function References(text: string): set<string> { FilesOf(ReadMenu(text).entries) }

  /** The files the bootable generations need, as configuration paths. */
  function Needed(gs: seq<Generation>): set<string> {
    if gs == [] then {}
    else (if gs[0].bootable then {ConfigPath(gs[0].kernel), ConfigPath(gs[0].initrd)} else {}) + Needed(gs[1..])
  }

  // ----- reading a generated table

  lemma {:induction false} ReplaceKeeps(s: string)
    ensures '\n' !in s ==> '\n' !in ReplaceSlashes(s)
    ensures '#' !in s ==> '#' !in ReplaceSlashes(s)
  {
    if s != [] { ReplaceKeeps(s[1..]); }
  }

  /** The installed name of a store file: the path within the store, each slash
      a dash. */
  lemma NameOfStoreFile(rest: string)
    ensures |CleanName("/nix/store/" + rest)| == |rest|
    ensures forall i | 0 <= i < |rest| :: CleanName("/nix/store/" + rest)[i] == if rest[i] == '/' then '-' else rest[i]
  {
    assert ("/nix/store/" + rest)[|STORE|..] == rest;
    ReplacedAt(rest);
  }

  lemma {:induction false} ReplacedAt(s: string)
    ensures |ReplaceSlashes(s)| == |s|
    ensures forall i | 0 <= i < |s| :: ReplaceSlashes(s)[i] == if s[i] == '/' then '-' else s[i]
  {
    if s != [] { ReplacedAt(s[1..]); }
  }

  lemma CleanPath(path: string)
    requires OneLine(path) && '#' !in path
    ensures OneLine(ConfigPath(path)) && '#' !in ConfigPath(path)
  {
    ReplaceKeeps(if STORE <= path then path[|STORE|..] else path);
  }

  lemma {:induction false} StripCommentPrefix(a: string, b: string)
    requires '#' !in a
    ensures StripComment(a + b) == a + StripComment(b)
  {
    if a == [] {
      assert a + b == b;
    } else {
      assert (a + b)[1..] == a[1..] + b;
      StripCommentPrefix(a[1..], b);
    }
  }

  lemma {:induction false} TrimEndKeeps(s: string, n: nat)
    requires n < |s| && !IsWhitespace(s[n])
    ensures |TrimEnd(s)| > n && TrimEnd(s)[..n + 1] == s[..n + 1]
  {
    if IsWhitespace(s[|s| - 1]) {
      TrimEndKeeps(s[..|s| - 1], n);
    }
  }

  /** A quoted pair keeps its key whatever stands in the quotes, a comment sign
      included. */
  lemma KeyOfQuoted(key: string, v: string)
    requires KeyLike(key)
    ensures Classify(PairLine(key, Quote(v))).Pair? && Classify(PairLine(key, Quote(v))).key == key
  {
    hide IsWhitespace, TrimEnd, StripComment, SplitOnce;
    var before := key + " = \"";
    var line := PairLine(key, Quote(v));
    assert line == before + (v + "\"");
    assert '#' !in before;
    StripCommentPrefix(before, v + "\"");
    var s := before + StripComment(v + "\"");
    assert key[0] in key && s[0] == key[0];
    assert TrimStart(s) == s;
    Blank();
    assert s[|before| - 1] == '"';
    TrimEndKeeps(s, |before| - 1);
    var t := TrimEnd(s);
    assert t[..|before|] == before;
    assert t == (key + " ") + ['='] + t[|key| + 2..];
    assert '=' !in key + " ";
    SplitOnceAt(key + " ", '=', t[|key| + 2..]);
    TrimKey(key);
    assert t[|key| + 1] == '=';
    assert '=' !in ENTRIES;
  }

  /** A raw entry as far as booting goes: its kind and its files. */
  predicate BootsFrom(raw: RawEntry, kernel: string, initrd: string) {
    raw.kind == Some("linux") && raw.kernel == Some(kernel) && raw.initrds == [initrd]
  }

  lemma OtherKeys(raw: RawEntry, key: string, v: string)
    requires key == "id" || key == "title" || key == "image" || key == "options"
    ensures var r := SetKey(raw, key, v); r.kind == raw.kind && r.kernel == raw.kernel && r.initrds == raw.initrds
  {}

  lemma LineKeeps(raw: RawEntry, key: string, v: string)
    requires key == "id" || key == "title" || key == "image" || key == "options"
    ensures var r := LineRaw(raw, PairLine(key, Quote(v)));
      r.kind == raw.kind && r.kernel == raw.kernel && r.initrds == raw.initrds
  {
    ConfigKeys();
    KeyOfQuoted(key, v);
    hide Classify, PairLine, Quote, Unquote, SetKey, KeyLike;
    OtherKeys(raw, key, Unquote(Classify(PairLine(key, Quote(v))).value));
  }

  lemma LineSets(raw: RawEntry, key: string, v: string)
    requires KeyLike(key) && '#' !in v
    ensures LineRaw(raw, PairLine(key, Quote(v))) == SetKey(raw, key, v)
  {
    QuotedReads(key, v);
    hide Classify, PairLine, Quote, Unquote, KeyLike, SetKey;
  }

  lemma FileKeys(raw: RawEntry, v: string)
    ensures SetKey(raw, "kind", v) == raw.(kind := Some(v)) && SetKey(raw, "linux", v) == raw.(kernel := Some(v))
    ensures SetKey(raw, "initrd", v) == raw.(initrds := raw.initrds + [v])
  {}

  /** What the menu shows of such a table: one entry, a Linux kernel. */
  lemma BootsLinux(raw: RawEntry, kernel: string, initrd: string)
    requires BootsFrom(raw, kernel, initrd)
    ensures var shown := Pushed(raw);
      |shown| == 1 && shown[0].kind == LinuxKernel && shown[0].kernel == kernel && shown[0].initrds == [initrd]
  {}

  /** The body of a generated table boots, as a Linux kernel, from the two
      copied files. */
  lemma TableBoots(g: Generation)
    requires WellFormed(g)
    ensures BootsFrom(RunRaw(EMPTY_RAW, Items(EntryText(g)[2..])), ConfigPath(g.kernel), ConfigPath(g.initrd))
    ensures var shown := Pushed(RunRaw(EMPTY_RAW, Items(EntryText(g)[2..])));
      && |shown| == 1 && shown[0].kind == LinuxKernel
      && shown[0].kernel == "/boot/nixos/" + CleanName(g.kernel) && shown[0].initrds == ["/boot/nixos/" + CleanName(g.initrd)]
  {
    TableRaw(g);
    BootsLinux(RunRaw(EMPTY_RAW, Items(EntryText(g)[2..])), ConfigPath(g.kernel), ConfigPath(g.initrd));
    hide RunRaw, EntryText, CleanName;
  }

  lemma TableRaw(g: Generation)
    requires WellFormed(g)
    ensures BootsFrom(RunRaw(EMPTY_RAW, Items(EntryText(g)[2..])), ConfigPath(g.kernel), ConfigPath(g.initrd))
  {
    CleanPath(g.kernel);
    CleanPath(g.initrd);
    ConfigKeys();
    hide Classify, PairLine, Quote, ConfigPath, RunRaw, LineRaw, SetKey, OneLine, KeyLike;
    var title := "NixOS (" + g.name + ", " + g.id + ")";
    var options := "init=" + g.init + " " + g.params;
    var l := EntryText(g);
    assert l[2..] == [l[2]] + l[3..] && l[3..] == [l[3]] + l[4..] && l[4..] == [l[4]] + l[5..] && l[5..] == [l[5]] + l[6..]
        && l[6..] == [l[6]] + l[7..] && l[7..] == [l[7]] + l[8..] && l[8..] == [l[8]] + [];
    var r2 := LineRaw(EMPTY_RAW, l[2]);
    LineKeeps(EMPTY_RAW, "id", g.id);
    RunLine(EMPTY_RAW, l[2], l[3..]);
    var r3 := LineRaw(r2, l[3]);
    LineKeeps(r2, "title", title);
    RunLine(r2, l[3], l[4..]);
    var r4 := LineRaw(r3, l[4]);
    LineSets(r3, "kind", "linux");
    FileKeys(r3, "linux");
    RunLine(r3, l[4], l[5..]);
    var r5 := LineRaw(r4, l[5]);
    LineKeeps(r4, "image", "nixos");
    RunLine(r4, l[5], l[6..]);
    var r6 := LineRaw(r5, l[6]);
    LineSets(r5, "linux", ConfigPath(g.kernel));
    FileKeys(r5, ConfigPath(g.kernel));
    RunLine(r5, l[6], l[7..]);
    var r7 := LineRaw(r6, l[7]);
    LineSets(r6, "initrd", ConfigPath(g.initrd));
    FileKeys(r6, ConfigPath(g.initrd));
    RunLine(r6, l[7], l[8..]);
    var r8 := LineRaw(r7, l[8]);
    LineKeeps(r7, "options", options);
    RunLine(r7, l[8], []);
    RunNothing(r8);
  }

  // ----- reading the generated file

  /** Inside a table, reading lines is filling the raw entry. */
  lemma {:induction false} RunInTable(m: MenuData, raw: RawEntry, items: seq<Item>)
    requires forall i <- items :: !i.Header?
    ensures Run(State(m, Some(raw)), items) == State(m, Some(RunRaw(raw, items)))
    decreases |items|
  {
    hide SetKey, Unquote;
    if items != [] {
      assert items[0] in items;
      RunInTable(m, if items[0].Pair? then SetKey(raw, items[0].key, Unquote(items[0].value)) else raw, items[1..]);
    }
  }

  lemma NoHeaderLine(key: string, v: string)
    requires KeyLike(key)
    ensures !Classify(PairLine(key, Quote(v))).Header?
  {
    KeyOfQuoted(key, v);
    hide Classify;
  }

  lemma PlainItems(lines: seq<string>)
    requires forall n | 0 <= n < |lines| :: !Classify(lines[n]).Header?
    ensures forall i <- Items(lines) :: !i.Header?
  {
    hide Classify;
  }

  lemma TableItems(g: Generation)
    ensures Items(EntryText(g)) == [Other, Header] + Items(EntryText(g)[2..])
    ensures forall i <- Items(EntryText(g)[2..]) :: !i.Header?
  {
    hide Classify, PairLine, Quote, KeyLike, ConfigPath;
    ConfigKeys();
    EntriesLine();
    NoHeaderLine("id", g.id);
    NoHeaderLine("title", "NixOS (" + g.name + ", " + g.id + ")");
    NoHeaderLine("kind", "linux");
    NoHeaderLine("image", "nixos");
    NoHeaderLine("linux", ConfigPath(g.kernel));
    NoHeaderLine("initrd", ConfigPath(g.initrd));
    NoHeaderLine("options", "init=" + g.init + " " + g.params);
    var l := EntryText(g);
    assert l[0] == "" && l[1] == ENTRIES;
    assert !Classify(l[2]).Header? && !Classify(l[3]).Header? && !Classify(l[4]).Header? && !Classify(l[5]).Header?;
    assert !Classify(l[6]).Header? && !Classify(l[7]).Header? && !Classify(l[8]).Header?;
    hide EntryText;
    PlainItems(l[2..]);
  }

  lemma OpenTable(s: State)
    ensures Run(s, [Other, Header]) == State(PushOpen(s), Some(EMPTY_RAW))
  {
    assert [Other, Header][1..] == [Header] && [Header][1..] == [];
  }

  /** A generated table closes whatever was open and opens an entry that boots
      from its two files. */
  lemma RunTable(s: State, g: Generation)
    requires WellFormed(g)
    ensures var r := Run(s, Items(EntryText(g)));
      && r.menu == PushOpen(s) && r.entry == Some(RunRaw(EMPTY_RAW, Items(EntryText(g)[2..])))
      && BootsFrom(r.entry.value, ConfigPath(g.kernel), ConfigPath(g.initrd))
  {
    hide Classify, EntryText, ConfigPath, Run, RunRaw, PushOpen, WellFormed;
    TableItems(g);
    RunConcat(s, [Other, Header], Items(EntryText(g)[2..]));
    OpenTable(s);
    RunInTable(PushOpen(s), EMPTY_RAW, Items(EntryText(g)[2..]));
    TableBoots(g);
  }

  lemma {:induction false} FilesOfConcat(a: seq<Entry>, b: seq<Entry>)
    ensures FilesOf(a + b) == FilesOf(a) + FilesOf(b)
  {
    if a == [] {
      assert a + b == b;
    } else {
      assert (a + b)[1..] == a[1..] + b;
      FilesOfConcat(a[1..], b);
    }
  }

  lemma PushedFiles(raw: RawEntry, kernel: string, initrd: string)
    requires BootsFrom(raw, kernel, initrd)
    ensures FilesOf(Pushed(raw)) == {kernel, initrd}
  {
    var e := Pushed(raw);
    assert |e| == 1 && e[0].initrds == [initrd] && e[1..] == [];
    assert FilesOf([]) == {};
  }

  function OpenFiles(s: State): set<string> { FilesOf(PushOpen(s).entries) }

  lemma {:induction false} RunGenerated(s: State, gs: seq<Generation>)
    requires forall g <- gs :: WellFormed(g)
    ensures OpenFiles(Run(s, Items(EntriesText(gs)))) == OpenFiles(s) + Needed(gs)
    decreases |gs|
  {
    hide Classify, EntryText, ConfigPath, WellFormed, Run, Pushed;
    if gs == [] {
      assert Items([]) == [];
      RunEmpty(s);
    } else if gs[0].bootable {
      var g := gs[0];
      var first := Run(s, Items(EntryText(g)));
      ItemsConcat(EntryText(g), EntriesText(gs[1..]));
      RunConcat(s, Items(EntryText(g)), Items(EntriesText(gs[1..])));
      RunTable(s, g);
      RunGenerated(first, gs[1..]);
      FilesOfConcat(first.menu.entries, Pushed(first.entry.value));
      PushedFiles(first.entry.value, ConfigPath(g.kernel), ConfigPath(g.initrd));
    } else {
      assert [] + EntriesText(gs[1..]) == EntriesText(gs[1..]);
      RunGenerated(s, gs[1..]);
    }
  }

  lemma RunEmpty(s: State)
    ensures Run(s, []) == s
  {}

  lemma PairIsOneLine(key: string, v: string)
    requires OneLine(key) && OneLine(v)
    ensures OneLine(PairLine(key, Quote(v)))
  {}

  lemma EntryIsLines(g: Generation)
    requires WellFormed(g)
    ensures forall l <- EntryText(g) :: OneLine(l)
  {
    CleanPath(g.kernel);
    CleanPath(g.initrd);
    PairIsOneLine("id", g.id);
    PairIsOneLine("title", "NixOS (" + g.name + ", " + g.id + ")");
    PairIsOneLine("kind", "linux");
    PairIsOneLine("image", "nixos");
    PairIsOneLine("linux", ConfigPath(g.kernel));
    PairIsOneLine("initrd", ConfigPath(g.initrd));
    PairIsOneLine("options", "init=" + g.init + " " + g.params);
    assert OneLine("") && OneLine(ENTRIES);
    hide OneLine, PairLine, Quote, ConfigPath;
  }

  lemma {:induction false} EntriesAreLines(gs: seq<Generation>)
    requires forall g <- gs :: WellFormed(g)
    ensures forall l <- EntriesText(gs) :: OneLine(l)
  {
    hide EntryText, OneLine, WellFormed;
    if gs != [] {
      EntryIsLines(gs[0]);
      EntriesAreLines(gs[1..]);
    }
  }

  lemma HeadIsHeader(timeout: nat)
    ensures forall l <- HeadText(timeout) :: OneLine(l)
    ensures forall i <- Items(HeadText(timeout)) :: !i.Header?
  {
    hide Classify, PairLine, Quote, Print, KeyLike, OneLine;
    ConfigKeys();
    assert OneLine("default") && OneLine("nixos-default") by { Names(); }
    PairIsOneLine("default", "nixos-default");
    NoHeaderLine("default", "nixos-default");
    TimeoutReads(timeout);
    Comment();
    PlainItems(HeadText(timeout));
  }

  lemma Names()
    ensures OneLine("default") && OneLine("nixos-default")
  {}

  lemma Comment()
    ensures var c := "# Generated file, all changes" + " will be lost on nixos-rebuild!"; OneLine(c) && Classify(c) == Other
  {
    var c := "# Generated file, all changes" + " will be lost on nixos-rebuild!";
    assert c[0] == '#';
    assert StripComment(c) == "";
    TrimFixed("");
    SplitOnceFacts("", '=');
    assert forall i | 0 <= i < |c| :: c[i] != '\n';
  }

  lemma {:induction false} RunSettings(m: MenuData, items: seq<Item>)
    requires forall i <- items :: !i.Header?
    ensures Run(State(m, None), items).entry == None && Run(State(m, None), items).menu.entries == m.entries
    decreases |items|
  {
    hide Unquote;
    if items != [] {
      assert items[0] in items;
      RunSettings(if items[0].Pair? then SetHeader(m, items[0].key, Unquote(items[0].value)) else m, items[1..]);
    }
  }

  /** The bootloader, reading the generated file, looks for exactly the files
      the bootable generations need. */
  lemma GeneratedReferences(timeout: nat, gs: seq<Generation>)
    requires forall g <- gs :: WellFormed(g)
    ensures References(Generated(timeout, gs)) == Needed(gs)
  {
    hide Classify, EntryText, WellFormed, Run, HeadText, EntriesText, Lines, OneLine;
    HeadIsHeader(timeout);
    EntriesAreLines(gs);
    ReadBack(HeadText(timeout) + EntriesText(gs));
    ItemsConcat(HeadText(timeout), EntriesText(gs));
    var s0 := State(INITIAL_MENU, None);
    RunConcat(s0, Items(HeadText(timeout)), Items(EntriesText(gs)));
    RunSettings(INITIAL_MENU, Items(HeadText(timeout)));
    RunGenerated(Run(s0, Items(HeadText(timeout))), gs);
    assert FilesOf([]) == {};
  }
}
