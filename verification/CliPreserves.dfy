/** Exactly when an edit through the command-line tool leaves the boot menu as
    it was. */
module CliPreserves {
  import opened Wrappers
  import opened Text
  import opened ConfigLines
  import opened CliBoot
  import opened BootTables
  import opened TableTexts

  // ----- the tool's reading, table by table

  function CliHeader(c: C.Config, items: seq<Item>): C.Config
    decreases |items|
  {
    if items == [] then c
    else CliHeader(if items[0].Pair? then C.SetConfig(c, items[0].key, Unquote(items[0].value)) else c, items[1..])
  }

  function CliEntry(e: C.Entry, items: seq<Item>): C.Entry
    decreases |items|
  {
    if items == [] then e
    else CliEntry(if items[0].Pair? then C.SetEntry(e, items[0].key, Unquote(items[0].value)) else e, items[1..])
  }

  function CliEntries(blocks: seq<seq<Item>>): seq<C.Entry> {
    if blocks == [] then [] else [CliEntry(C.EMPTY_ENTRY, blocks[0])] + CliEntries(blocks[1..])
  }

  lemma {:induction false} CliByTables(c: C.Config, items: seq<Item>)
    ensures C.Close(C.Run(C.State(c, None), items)) ==
      CliHeader(c, HeaderItems(items)).(entries := c.entries + CliEntries(BlocksOf(items)))
    decreases |items|
  {
    hide C.SetConfig, Unquote;
    if items == [] {
      assert c.entries + [] == c.entries;
    } else if items[0].Header? {
      CliOpenByTables(c, C.EMPTY_ENTRY, items[1..]);
    } else {
      var c' := if items[0].Pair? then C.SetConfig(c, items[0].key, Unquote(items[0].value)) else c;
      if items[0].Pair? { SetConfigKeepsEntries(c, items[0].key, Unquote(items[0].value)); }
      CliByTables(c', items[1..]);
      assert HeaderItems(items)[1..] == HeaderItems(items[1..]);
    }
  }

  lemma SetConfigKeepsEntries(c: C.Config, key: string, v: string)
    ensures C.SetConfig(c, key, v).entries == c.entries
  {}

  lemma {:induction false} CliOpenByTables(c: C.Config, e: C.Entry, items: seq<Item>)
    ensures C.Close(C.Run(C.State(c, Some(e)), items)) ==
      c.(entries := c.entries + ([CliEntry(e, HeaderItems(items))] + CliEntries(BlocksOf(items))))
    decreases |items|
  {
    hide C.SetEntry, Unquote;
    if items == [] {
      assert [e] + [] == [e];
    } else if items[0].Header? {
      CliOpenByTables(c.(entries := c.entries + [e]), C.EMPTY_ENTRY, items[1..]);
      var more := [CliEntry(C.EMPTY_ENTRY, HeaderItems(items[1..]))] + CliEntries(BlocksOf(items[1..]));
      assert c.entries + [e] + more == c.entries + ([e] + more);
    } else {
      var e' := if items[0].Pair? then C.SetEntry(e, items[0].key, Unquote(items[0].value)) else e;
      CliOpenByTables(c, e', items[1..]);
      assert HeaderItems(items)[1..] == HeaderItems(items[1..]);
    }
  }

  // ----- the settings

  /** The last line with a key whose value `parse` understands. */
  function LastMode(items: seq<Item>): Option<B.Mode> {
    if items == [] then None else
    var rest := LastMode(items[1..]);
    if rest.Some? then rest
    else if items[0].Pair? && items[0].key == "spinner" then B.ParseMode(Unquote(items[0].value)) else None
  }

  function LastLogo(items: seq<Item>): Option<bool> {
    if items == [] then None else
    var rest := LastLogo(items[1..]);
    if rest.Some? then rest
    else if items[0].Pair? && items[0].key == "logo" then ParseBool(Unquote(items[0].value)) else None
  }

  lemma {:induction false} BootHeader(m: B.MenuData, items: seq<Item>)
    ensures var r := B.RunHeader(m, items);
      && r.entries == m.entries
      && r.default == (if LastValue(items, "default").Some? then LastValue(items, "default") else m.default)
      && r.timeout == (if LastValue(items, "timeout").Some?
                       then ParseUnsigned(LastValue(items, "timeout").value, B.U64_LIMIT) else m.timeout)
      && r.spinner == B.OrElse(LastMode(items), m.spinner)
      && r.logo == B.OrElse(LastLogo(items), m.logo)
    decreases |items|
  {
    hide ParseUnsigned, ParseBool, B.ParseMode, Unquote;
    if items != [] {
      BootHeader(if items[0].Pair? then B.SetHeader(m, items[0].key, Unquote(items[0].value)) else m, items[1..]);
    }
  }

  lemma {:induction false} ToolHeader(c: C.Config, items: seq<Item>)
    ensures var r := CliHeader(c, items);
      && r.entries == c.entries
      && r.default == (if LastValue(items, "default").Some? then LastValue(items, "default") else c.default)
      && r.timeout == (if LastValue(items, "timeout").Some?
                       then ParseUnsigned(LastValue(items, "timeout").value, C.U32_LIMIT) else c.timeout)
      && r.spinner == (if LastValue(items, "spinner").Some? then LastValue(items, "spinner") else c.spinner)
      && r.logo == (if LastValue(items, "logo").Some? then ParseBool(LastValue(items, "logo").value) else c.logo)
    decreases |items|
  {
    hide ParseUnsigned, ParseBool, Unquote;
    if items != [] {
      ToolHeader(if items[0].Pair? then C.SetConfig(c, items[0].key, Unquote(items[0].value)) else c, items[1..]);
    }
  }

  /** The last timeout, if a number at all, fits the tool's 32 bits. */
  predicate TimeoutFits(items: seq<Item>) {
    var last := LastValue(items, "timeout");
    last.None? || ParseUnsigned(last.value, B.U64_LIMIT).None? || ParseUnsigned(last.value, B.U64_LIMIT).value < C.U32_LIMIT
  }

  /** The last spinner line is one the bootloader understands, or no earlier
      line changes the default either. */
  predicate SpinnerSettled(items: seq<Item>) {
    var last := LastValue(items, "spinner");
    last.None? || B.ParseMode(last.value).Some? || B.OrElse(LastMode(items), B.Graphical) == B.Graphical
  }

  predicate LogoSettled(items: seq<Item>) {
    var last := LastValue(items, "logo");
    last.None? || ParseBool(last.value).Some? || B.OrElse(LastLogo(items), true)
  }

  lemma {:induction false} LastValid(items: seq<Item>)
    ensures LastValue(items, "spinner").None? ==> LastMode(items).None?
    ensures LastValue(items, "spinner").Some? && B.ParseMode(LastValue(items, "spinner").value).Some? ==>
      LastMode(items) == B.ParseMode(LastValue(items, "spinner").value)
    ensures LastValue(items, "logo").None? ==> LastLogo(items).None?
    ensures LastValue(items, "logo").Some? && ParseBool(LastValue(items, "logo").value).Some? ==>
      LastLogo(items) == ParseBool(LastValue(items, "logo").value)
  {
    hide B.ParseMode, ParseBool, Unquote;
    if items != [] { LastValid(items[1..]); }
  }

  /** The settings survive the tool exactly under these three conditions. */
  lemma SettingsSurviveIff(items: seq<Item>)
    ensures HeaderOf(CliHeader(C.EMPTY_CONFIG, items)) == B.RunHeader(B.INITIAL_MENU, items) <==>
            TimeoutFits(items) && SpinnerSettled(items) && LogoSettled(items)
  {
    BootHeader(B.INITIAL_MENU, items);
    ToolHeader(C.EMPTY_CONFIG, items);
    LastValid(items);
    if LastValue(items, "timeout").Some? { NarrowerParse(LastValue(items, "timeout").value); }
    hide ParseUnsigned, ParseBool, B.ParseMode, LastValue, LastMode, LastLogo, CliHeader, B.RunHeader;
  }

  lemma NarrowerParse(v: string)
    ensures var wide, narrow := ParseUnsigned(v, B.U64_LIMIT), ParseUnsigned(v, C.U32_LIMIT);
      wide == narrow <==> wide.None? || wide.value < C.U32_LIMIT
  {
    hide DigitsValue;
  }

  // ----- the tables

  predicate HasKey(block: seq<Item>, key: string) { exists i <- block :: i.Pair? && i.key == key }

  /** The file and the kind in the table the tool writes back: an `efi` line
      wins wherever it stands, and `kernel` lines are not known. */
  function ToolFile(block: seq<Item>): Option<string> { Later(LastValue(block, "efi"), LastValue(block, "linux")) }

  function ToolKind(block: seq<Item>): Option<string> {
    if LastValue(block, "efi").Some? then Some("efi") else LastValue(block, "kind")
  }

  predicate Shown(file: Option<string>, kind: Option<string>) { file.Some? && B.KindOf(kind).Some? }

  predicate ShownBefore(block: seq<Item>) { Shown(BootFile(block), BootKind(block)) }
  predicate ShownAfter(block: seq<Item>) { Shown(ToolFile(block), ToolKind(block)) }

  /** What a shown table is called when no `id` line says so. */
  predicate Named(block: seq<Item>) {
    HasKey(block, "id") || B.OrElse(Later(LastValue(block, "title"), BootFile(block)), "") == ""
  }

  /** A table that both readers show, and show alike, or that neither shows. */
  predicate Survives(block: seq<Item>) {
    if ShownBefore(block) then
      && ShownAfter(block) && Named(block) && ToolFile(block) == BootFile(block)
      && B.KindOf(ToolKind(block)) == B.KindOf(BootKind(block))
    else !ShownAfter(block)
  }

  function TableBefore(block: seq<Item>): seq<B.Entry> { B.Pushed(B.RunRaw(B.EMPTY_RAW, block)) }
  function TableAfter(block: seq<Item>): seq<B.Entry> { B.Pushed(RawOf(CliEntry(C.EMPTY_ENTRY, block))) }

  /** What the tool reads in it. */
  lemma {:induction false} ToolTable(e: C.Entry, block: seq<Item>)
    ensures var r := CliEntry(e, block);
      && r.linux == Later(LastValue(block, "linux"), e.linux) && r.efi == Later(LastValue(block, "efi"), e.efi)
      && r.kind == Later(LastValue(block, "kind"), e.kind) && r.title == Later(LastValue(block, "title"), e.title)
      && r.id == B.OrElse(LastValue(block, "id"), e.id)
    decreases |block|
  {
    hide Unquote;
    if block != [] {
      var i := block[0];
      ToolTable(if i.Pair? then C.SetEntry(e, i.key, Unquote(i.value)) else e, block[1..]);
      hide C.SetEntry, LastValue, CliEntry;
      if i.Pair? { ToolKeys(e, i.key, Unquote(i.value)); }
      ToolCons(e, i, block[1..]);
      LastOf(i, block[1..], "linux");
      LastOf(i, block[1..], "efi");
      LastOf(i, block[1..], "kind");
      LastOf(i, block[1..], "title");
      LastOf(i, block[1..], "id");
      assert block == [i] + block[1..];
    } else {
      NoValue(e);
    }
  }

  lemma NoValue(e: C.Entry)
    ensures CliEntry(e, []) == e && forall key :: LastValue([], key) == None
  {}

  lemma ToolCons(e: C.Entry, i: Item, rest: seq<Item>)
    ensures CliEntry(e, [i] + rest) == CliEntry(if i.Pair? then C.SetEntry(e, i.key, Unquote(i.value)) else e, rest)
  {
    assert ([i] + rest)[1..] == rest;
  }

  lemma ToolKeys(e: C.Entry, key: string, v: string)
    ensures var r := C.SetEntry(e, key, v);
      && r.linux == (if key == "linux" then Some(v) else e.linux) && r.efi == (if key == "efi" then Some(v) else e.efi)
      && r.kind == (if key == "kind" then Some(v) else e.kind) && r.title == (if key == "title" then Some(v) else e.title)
      && r.id == (if key == "id" then v else e.id)
  {}

  /** The other fields are read alike. */
  lemma {:induction false} SameRest(raw: B.RawEntry, e: C.Entry, block: seq<Item>)
    requires raw.initrds == e.initrd && raw.options == e.options && raw.image == e.image
    ensures var r, t := B.RunRaw(raw, block), CliEntry(e, block);
      r.initrds == t.initrd && r.options == t.options && r.image == t.image
    decreases |block|
  {
    hide Unquote;
    if block != [] {
      var i := block[0];
      SameRest(if i.Pair? then B.SetKey(raw, i.key, Unquote(i.value)) else raw,
               if i.Pair? then C.SetEntry(e, i.key, Unquote(i.value)) else e, block[1..]);
    }
  }

  lemma {:induction false} HasKeyIffValue(block: seq<Item>, key: string)
    ensures HasKey(block, key) <==> LastValue(block, key).Some?
  {
    if block != [] {
      HasKeyIffValue(block[1..], key);
      assert block == [block[0]] + block[1..];
    }
  }

  /** Any table at all: the bootloader shows the same entry, or none, after the
      tool rewrote it exactly when the two readers agree on whether it is shown,
      and if so on the file, the kind and the name. */
  lemma TableSurvivesIff(block: seq<Item>)
    ensures |TableBefore(block)| == (if ShownBefore(block) then 1 else 0)
    ensures |TableAfter(block)| == (if ShownAfter(block) then 1 else 0)
    ensures TableAfter(block) == TableBefore(block) <==> Survives(block)
  {
    BootTable(B.EMPTY_RAW, block);
    ToolTable(C.EMPTY_ENTRY, block);
    SameRest(B.EMPTY_RAW, C.EMPTY_ENTRY, block);
    HasKeyIffValue(block, "id");
    hide B.RunRaw, CliEntry, B.ImageOf, B.KindOf, HasKey, LastValue, BootFile, BootKind;
  }

  // ----- whole files

  /** Every table the tool shows was shown before: nothing comes up that was
      hidden. */
  predicate NothingGained(blocks: seq<seq<Item>>) { forall b <- blocks :: ShownAfter(b) ==> ShownBefore(b) }

  /** Every table shown before is shown after. */
  predicate NothingLost(blocks: seq<seq<Item>>) { forall b <- blocks :: ShownBefore(b) ==> ShownAfter(b) }

  lemma {:induction false} TablesSurviveIff(blocks: seq<seq<Item>>)
    ensures NothingGained(blocks) ==> |EntriesOf(CliEntries(blocks))| <= |B.BlockEntries(blocks)|
    ensures NothingLost(blocks) ==> |EntriesOf(CliEntries(blocks))| >= |B.BlockEntries(blocks)|
    ensures (forall b <- blocks :: Survives(b)) ==> EntriesOf(CliEntries(blocks)) == B.BlockEntries(blocks)
    ensures NothingGained(blocks) || NothingLost(blocks) ==>
      (EntriesOf(CliEntries(blocks)) == B.BlockEntries(blocks) ==> forall b <- blocks :: Survives(b))
  {
    hide B.Pushed, B.RunRaw, RawOf, CliEntry, ShownBefore, ShownAfter, Survives;
    if blocks != [] {
      var before, after := TableBefore(blocks[0]), TableAfter(blocks[0]);
      var x, y := B.BlockEntries(blocks[1..]), EntriesOf(CliEntries(blocks[1..]));
      TableSurvivesIff(blocks[0]);
      TablesSurviveIff(blocks[1..]);
      assert CliEntries(blocks)[1..] == CliEntries(blocks[1..]);
      assert B.BlockEntries(blocks) == before + x && EntriesOf(CliEntries(blocks)) == after + y;
      assert forall t :: t in blocks <==> t == blocks[0] || t in blocks[1..];
      if |before| == |after| { SamePieces(after, y, before, x); }
    }
  }

  lemma SamePieces<T>(a: seq<T>, b: seq<T>, c: seq<T>, d: seq<T>)
    requires |a| == |c|
    ensures a + b == c + d <==> a == c && b == d
  {
    assert (a + b)[..|a|] == a && (c + d)[..|a|] == c;
    assert (a + b)[|a|..] == b && (c + d)[|a|..] == d;
  }

  /** The text after an edit that changes nothing itself. */
  function Rewritten(text: string): string { C.Rendered(C.ReadConfig(text)) }

  /** The menu of a rewritten file, whatever the file: the settings, and the
      tables as the tool wrote them. */
  lemma MenuParts(text: string)
    ensures var header, blocks := HeaderItems(Items(Lines(text))), BlocksOf(Items(Lines(text)));
      B.ReadMenu(Rewritten(text)) == B.ReadMenu(text) <==>
        TimeoutFits(header) && SpinnerSettled(header) && LogoSettled(header) &&
        EntriesOf(CliEntries(blocks)) == B.BlockEntries(blocks)
  {
    hide Lines, Items, HeaderItems, BlocksOf, C.Rendered, B.RunHeader, CliHeader, EntriesOf, B.BlockEntries, CliEntries,
         TimeoutFits, SpinnerSettled, LogoSettled, HeaderOf;
    var items := Items(Lines(text));
    var header, blocks := HeaderItems(items), BlocksOf(items);
    B.ReadByTables(B.INITIAL_MENU, items);
    CliByTables(C.EMPTY_CONFIG, items);
    R.ReadIsClean(text);
    RenderedMenu(C.ReadConfig(text));
    SettingsSurviveIff(header);
    var c := CliHeader(C.EMPTY_CONFIG, header);
    HeaderIgnoresEntries(c, CliEntries(blocks));
    assert [] + CliEntries(blocks) == CliEntries(blocks);
    assert [] + B.BlockEntries(blocks) == B.BlockEntries(blocks);
    NoEntriesYet(header);
  }

  /** For every file in which the tool does not both lose tables and bring up
      hidden ones: the bootloader shows the same menu after the tool rewrote it
      exactly when the timeout fits 32 bits, the last spinner and logo lines are
      settled, and every table survives. */
  lemma MenuSurvivesIff(text: string)
    requires NothingGained(BlocksOf(Items(Lines(text)))) || NothingLost(BlocksOf(Items(Lines(text))))
    ensures var header := HeaderItems(Items(Lines(text)));
      B.ReadMenu(Rewritten(text)) == B.ReadMenu(text) <==>
        TimeoutFits(header) && SpinnerSettled(header) && LogoSettled(header) &&
        forall b <- BlocksOf(Items(Lines(text))) :: Survives(b)
  {
    MenuParts(text);
    hide Lines, Items, HeaderItems, BlocksOf, B.ReadMenu, EntriesOf, B.BlockEntries, CliEntries, TimeoutFits,
         SpinnerSettled, LogoSettled, Survives, NothingGained, NothingLost;
    TablesSurviveIff(BlocksOf(Items(Lines(text))));
  }

  /** In any file, tables that survive and settings that do keep the menu. */
  lemma MenuSurvives(text: string)
    requires var header := HeaderItems(Items(Lines(text)));
      TimeoutFits(header) && SpinnerSettled(header) && LogoSettled(header)
    requires forall b <- BlocksOf(Items(Lines(text))) :: Survives(b)
    ensures B.ReadMenu(Rewritten(text)) == B.ReadMenu(text)
  {
    MenuParts(text);
    hide Lines, Items, HeaderItems, BlocksOf, B.ReadMenu, EntriesOf, B.BlockEntries, CliEntries, TimeoutFits,
         SpinnerSettled, LogoSettled, Survives, NothingGained, NothingLost;
    TablesSurviveIff(BlocksOf(Items(Lines(text))));
  }

  lemma HeaderIgnoresEntries(c: C.Config, entries: seq<C.Entry>)
    ensures HeaderOf(c.(entries := entries)) == HeaderOf(c) && HeaderOf(c).entries == []
  {}

  lemma NoEntriesYet(header: seq<Item>)
    ensures B.RunHeader(B.INITIAL_MENU, header).entries == []
  {
    BootHeader(B.INITIAL_MENU, header);
  }

  // ----- tables that do not survive

  /** A table keyed by `kernel` alone is gone after the tool has written the
      file, so it survives only if the menu ignored it already. */
  lemma KernelTableIsLost(block: seq<Item>)
    requires HasKey(block, "kernel") && !HasKey(block, "linux") && !HasKey(block, "efi")
    ensures TableAfter(block) == []
    ensures Survives(block) <==> B.KindOf(BootKind(block)).None?
  {
    HasKeyIffValue(block, "linux");
    HasKeyIffValue(block, "efi");
    KernelRead(block);
    TableSurvivesIff(block);
    hide LastValue, HasKey, BootFile, BootKind, B.KindOf;
  }

  lemma {:induction false} KernelRead(block: seq<Item>)
    requires HasKey(block, "kernel")
    ensures BootFile(block).Some?
  {
    assert block == [block[0]] + block[1..];
    if HasKey(block[1..], "kernel") { KernelRead(block[1..]); }
  }

  lemma LimineWords()
    ensures KeyLike("title") && KeyLike("kind") && KeyLike("kernel") && OneLine("title") && OneLine("kind") && OneLine("kernel")
    ensures OneLine("My Limine kernel") && OneLine("limine") && OneLine("/boot/kernel.elf")
    ensures '#' !in "My Limine kernel" && '#' !in "limine" && '#' !in "/boot/kernel.elf"
  {}

  /** The Limine entry of the project's own documentation, as a file: shown
      before the tool rewrote it, gone after. */
  lemma DocumentedLimineEntryIsLost()
    ensures var text := TableText([("title", "My Limine kernel")] + ([("kind", "limine")] + ([("kernel", "/boot/kernel.elf")] + [])));
      && B.ReadMenu(text).entries ==
           [B.Entry("My Limine kernel", "My Limine kernel", B.Limine, "/boot/kernel.elf", [], None, None)]
      && B.ReadMenu(Rewritten(text)).entries == []
  {
    var last := [("kernel", "/boot/kernel.elf")] + [];
    var more := [("kind", "limine")] + last;
    var pairs := [("title", "My Limine kernel")] + more;
    LimineWords();
    hide KeyLike, OneLine;
    RunPair(B.EMPTY_RAW, "title", "My Limine kernel", more);
    RunPair(B.EMPTY_RAW.(title := Some("My Limine kernel")), "kind", "limine", last);
    RunPair(B.EMPTY_RAW.(title := Some("My Limine kernel"), kind := Some("limine")), "kernel", "/boot/kernel.elf", []);
    assert RunPairs(B.EMPTY_RAW, pairs) ==
      B.EMPTY_RAW.(title := Some("My Limine kernel"), kind := Some("limine"), kernel := Some("/boot/kernel.elf"));
    assert Writable(pairs);
    var block := QuotedItems(pairs);
    assert !HasKey(block, "linux") && !HasKey(block, "efi");
    assert HasKey(block, "kernel") by { assert block[2].key == "kernel" && block[2] in block; }
    hide TableText, B.ReadMenu, QuotedItems, HasKey, RunPairs, Writable, Quote;
    TableMenu(pairs);
    KernelTableIsLost(block);
    RewrittenTables(TableText(pairs));
    TableReads(pairs);
    OneTableAfter(block);
  }

  lemma OneTableAfter(block: seq<Item>)
    ensures EntriesOf(CliEntries([block])) == TableAfter(block)
  {
    hide CliEntry, RawOf, B.Pushed;
    assert [block][1..] == [];
    assert CliEntries([block]) == [CliEntry(C.EMPTY_ENTRY, block)];
    assert [CliEntry(C.EMPTY_ENTRY, block)][1..] == [];
    assert TableAfter(block) + [] == TableAfter(block);
  }

  /** The entries shown from a rewritten file. */
  lemma RewrittenTables(text: string)
    ensures B.ReadMenu(Rewritten(text)).entries == EntriesOf(CliEntries(BlocksOf(Items(Lines(text)))))
  {
    hide Lines, Items, HeaderItems, BlocksOf, C.Rendered, CliHeader, EntriesOf, CliEntries, HeaderOf;
    CliByTables(C.EMPTY_CONFIG, Items(Lines(text)));
    ToolHeader(C.EMPTY_CONFIG, HeaderItems(Items(Lines(text))));
    R.ReadIsClean(text);
    RenderedMenu(C.ReadConfig(text));
    assert [] + CliEntries(BlocksOf(Items(Lines(text)))) == CliEntries(BlocksOf(Items(Lines(text))));
  }

  /** `efi` before `linux`: the bootloader starts the second, the tool keeps the
      first for it. */
  lemma MixedTableChanges(efi: string, linux: string)
    requires Unquote(efi) != Unquote(linux)
    ensures !Survives([Pair("efi", efi)] + ([Pair("linux", linux)] + []))
  {
    var i, j := Pair("efi", efi), Pair("linux", linux);
    hide Unquote, LastValue, BootFile, BootKind;
    BootOf(j, []);
    BootOf(i, [j] + []);
    LastOf(j, [], "linux");
    LastOf(i, [j] + [], "linux");
    LastOf(j, [], "efi");
    LastOf(i, [j] + [], "efi");
  }
}
