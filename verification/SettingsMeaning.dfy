/** What saving the settings does to the menu the file describes. */
module SettingsMeaning {
  import opened Wrappers
  import opened Text
  import opened ConfigLines
  import opened BootConfig
  import opened Settings

  // ----- the file as header and tables

  function HeaderPart(lines: seq<string>): seq<string> {
    if lines == [] || IsHeader(lines[0]) then [] else [lines[0]] + HeaderPart(lines[1..])
  }

  /** Each `[[entries]]` line with the lines up to the next one. */
  function TableParts(lines: seq<string>): seq<seq<string>> {
    if lines == [] then []
    else if IsHeader(lines[0]) then [[lines[0]] + HeaderPart(lines[1..])] + TableParts(lines[1..])
    else TableParts(lines[1..])
  }

  function Kept(lines: seq<string>): seq<string> {
    if lines == [] then []
    else if Replaced(lines[0]) then Kept(lines[1..]) else [lines[0]] + Kept(lines[1..])
  }

  function RewriteTables(tables: seq<seq<string>>, s: Saved): seq<string> {
    if tables == [] then [] else RewriteTable(tables[0], s) + RewriteTables(tables[1..], s)
  }

  lemma {:induction false} PersistByTables(lines: seq<string>, started: bool, table: seq<string>, s: Saved)
    requires !started ==> table == []
    ensures PersistFrom(lines, started, table, s) ==
      if started then RewriteTable(table + HeaderPart(lines), s) + RewriteTables(TableParts(lines), s)
      else Kept(HeaderPart(lines)) + RewriteTables(TableParts(lines), s)
    decreases |lines|
  {
    hide RewriteTable, IsHeader, Replaced, RewriteTables;
    NoTable(s);
    if lines == [] {
      assert table + [] == table;
    } else if IsHeader(lines[0]) {
      TablesCons([lines[0]] + HeaderPart(lines[1..]), TableParts(lines[1..]), s);
      PersistByTables(lines[1..], true, [lines[0]], s);
      assert table + [] == table;
    } else if started {
      PersistByTables(lines[1..], true, table + [lines[0]], s);
      assert table + [lines[0]] + HeaderPart(lines[1..]) == table + HeaderPart(lines);
    } else {
      PersistByTables(lines[1..], false, [], s);
      assert HeaderPart(lines)[1..] == HeaderPart(lines[1..]);
    }
  }

  lemma TablesCons(t: seq<string>, rest: seq<seq<string>>, s: Saved)
    ensures RewriteTables([t] + rest, s) == RewriteTable(t, s) + RewriteTables(rest, s)
  {
    assert ([t] + rest)[1..] == rest;
  }

  lemma NoTable(s: Saved)
    ensures RewriteTable([], s) == [] && Kept([]) == [] && RewriteTables([], s) == []
  {}

  // ----- the same split seen through items

  lemma {:induction false} HeaderPartItems(lines: seq<string>)
    ensures Items(HeaderPart(lines)) == HeaderItems(Items(lines))
  {
    hide Classify;
    if lines != [] {
      assert Items(lines)[1..] == Items(lines[1..]);
      if !IsHeader(lines[0]) {
        HeaderPartItems(lines[1..]);
        assert Items([lines[0]] + HeaderPart(lines[1..])) == [Classify(lines[0])] + Items(HeaderPart(lines[1..]));
      }
    }
  }

  /** A table: one header line, then lines that are not. */
  predicate IsTable(t: seq<string>) {
    t != [] && IsHeader(t[0]) && forall l <- t[1..] :: !IsHeader(l)
  }

  lemma {:induction false} PartsAreTables(lines: seq<string>)
    ensures forall l <- HeaderPart(lines) :: !IsHeader(l)
    ensures forall t <- TableParts(lines) :: IsTable(t)
  {
    hide Classify;
    if lines != [] {
      PartsAreTables(lines[1..]);
      if IsHeader(lines[0]) {
        var t := [lines[0]] + HeaderPart(lines[1..]);
        assert t[1..] == HeaderPart(lines[1..]);
      }
    }
  }

  function Body(t: seq<string>): seq<string> { if t == [] then [] else t[1..] }

  function BodyItems(tables: seq<seq<string>>): seq<seq<Item>> {
    seq(|tables|, i requires 0 <= i < |tables| => Items(Body(tables[i])))
  }

  lemma {:induction false} TablePartItems(lines: seq<string>)
    ensures BodyItems(TableParts(lines)) == BlocksOf(Items(lines))
  {
    hide Classify;
    PartsAreTables(lines);
    if lines != [] {
      assert Items(lines)[1..] == Items(lines[1..]);
      TablePartItems(lines[1..]);
      if IsHeader(lines[0]) {
        HeaderPartItems(lines[1..]);
        var t := [lines[0]] + HeaderPart(lines[1..]);
        assert t[1..] == HeaderPart(lines[1..]);
        assert BodyItems([t] + TableParts(lines[1..])) == [Items(Body(t))] + BodyItems(TableParts(lines[1..]));
      }
    }
  }

  // ----- written lines read back

  lemma ImageLineReads(i: Image)
    ensures Classify(PairLine("image", Quote(ImageName(i)))) == Pair("image", Quote(ImageName(i)))
    ensures Unquote(Quote(ImageName(i))) == ImageName(i) && ParseImage(ImageName(i)) == Some(i)
    ensures OneLine(PairLine("image", Quote(ImageName(i)))) && !EndsInCr(PairLine("image", Quote(ImageName(i))))
  {
    ConfigKeys();
    hide Classify, KeyLike, Unquote;
    QuotedReads("image", ImageName(i));
  }

  function HeadItems(s: Saved): seq<Item> {
    [Pair("timeout", Print(s.timeout)), Pair("spinner", Quote(ModeName(s.mode))), Pair("logo", PrintBool(s.logo))]
  }

  lemma PairLineEnds(key: string, value: string)
    requires OneLine(key) && OneLine(value) && value != [] && !EndsInCr(value)
    ensures OneLine(PairLine(key, value)) && !EndsInCr(PairLine(key, value))
  {
    var line := PairLine(key, value);
    assert line[|line| - 1] == value[|value| - 1];
  }

  lemma HeadEnds(s: Saved)
    ensures forall l <- HeadLines(s) :: OneLine(l) && !EndsInCr(l)
  {
    NumberIsValueLike(s.timeout);
    BoolIsValueLike(s.logo);
    hide Print, PairLine, PrintBool, IsWhitespace;
    PairLineEnds("timeout", Print(s.timeout));
    PairLineEnds("spinner", Quote(ModeName(s.mode)));
    PairLineEnds("logo", PrintBool(s.logo));
  }

  lemma ModeReads(m: Mode)
    ensures Classify(PairLine("spinner", Quote(ModeName(m)))) == Pair("spinner", Quote(ModeName(m)))
    ensures Unquote(Quote(ModeName(m))) == ModeName(m) && ParseMode(ModeName(m)) == Some(m)
  {
    ConfigKeys();
    hide KeyLike, PairLine, Classify, Quote, Unquote;
    QuotedReads("spinner", ModeName(m));
  }

  lemma HeadReads(s: Saved)
    ensures Items(HeadLines(s)) == HeadItems(s)
  {
    hide Print, PairLine, Classify, PrintBool, ModeName, Quote;
    TimeoutReads(s.timeout);
    ModeReads(s.mode);
    LogoReads(s.logo);
  }

  // ----- one table's meaning

  predicate ItemNames(i: Item, id: string) { i.Pair? && i.key == "id" && Unquote(i.value) == id }

  /** Some id line of the table names the entry. */
  predicate BlockSelected(block: seq<Item>, id: string) { exists i <- block :: ItemNames(i, id) }

  lemma SelectedTable(t: seq<string>, id: string)
    requires IsTable(t)
    ensures IsSelected(t, id) <==> BlockSelected(Items(Body(t)), id)
    ensures HasImage(t) <==> exists l <- Body(t) :: HasKey(l, "image")
  {
    hide Classify;
    var body, items := Body(t), Items(Body(t));
    assert t == [t[0]] + body;
    assert forall l :: l in t <==> l == t[0] || l in body;
    if BlockSelected(items, id) {
      var i :| i in items && ItemNames(i, id);
      var n :| 0 <= n < |items| && items[n] == i;
      assert body[n] in body && NamesEntry(body[n], id);
    }
    if l :| l in body && NamesEntry(l, id) {
      var n :| 0 <= n < |body| && body[n] == l;
      assert items[n] in items && ItemNames(items[n], id);
    }
  }

  lemma {:induction false} RunRawConcat(raw: RawEntry, a: seq<Item>, b: seq<Item>)
    ensures RunRaw(raw, a + b) == RunRaw(RunRaw(raw, a), b)
    decreases |a|
  {
    if a == [] {
      assert a + b == b;
    } else {
      assert (a + b)[1..] == a[1..] + b;
      RunRawConcat(if a[0].Pair? then SetKey(raw, a[0].key, Unquote(a[0].value)) else raw, a[1..], b);
    }
  }

  function NameOf(image: Option<Image>): Option<string> {
    match image case None => None case Some(i) => Some(ImageName(i))
  }

  /** Does the rewrite of these lines write an image line? */
  predicate WritesImage(lines: seq<string>, hasImage: bool, image: Option<Image>) {
    image.Some? && exists l <- lines :: HasKey(l, "image") || (!hasImage && HasKey(l, "id"))
  }

  /** Rewriting the lines of a selected table changes its raw entry in the
      image alone. */
  lemma {:induction false} RewrittenRaw(raw: RawEntry, image: Option<string>, lines: seq<string>, s: Saved, hasImage: bool)
    ensures RunRaw(raw.(image := image), Items(RewriteLines(lines, s, true, hasImage))) ==
      RunRaw(raw, Items(lines)).(image := if WritesImage(lines, hasImage, s.image) then NameOf(s.image) else image)
    decreases |lines|
  {
    hide Classify, Quote, Unquote, PairLine, ParseImage, SetKey;
    if lines == [] {
      RunNothing(raw.(image := image));
      RunNothing(raw);
    } else {
      var line, rest := lines[0], lines[1..];
      var out := RewriteLine(line, s, true, hasImage);
      var next := if WritesImage([line], hasImage, s.image) then NameOf(s.image) else image;
      RewrittenLine(raw, image, line, s, hasImage);
      RewrittenRaw(LineRaw(raw, line), next, rest, s, hasImage);
      ItemsConcat(out, RewriteLines(rest, s, true, hasImage));
      RunRawConcat(raw.(image := image), Items(out), Items(RewriteLines(rest, s, true, hasImage)));
      assert lines == [line] + rest;
      RunLine(raw, line, rest);
      assert forall l :: l in lines <==> l == line || l in rest;
    }
  }

  lemma RewrittenLine(raw: RawEntry, image: Option<string>, line: string, s: Saved, hasImage: bool)
    ensures RunRaw(raw.(image := image), Items(RewriteLine(line, s, true, hasImage))) ==
      LineRaw(raw, line).(image := if WritesImage([line], hasImage, s.image) then NameOf(s.image) else image)
  {
    hide Classify, Quote, Unquote, PairLine, ParseImage;
    var r := raw.(image := image);
    RunNothing(r);
    RunNothing(LineRaw(r, line));
    assert line in [line];
    RunLine(r, line, ImageLines(None));
    assert [line] + [] == [line];
    if s.image.Some? {
      ImageLineReads(s.image.value);
      var l := PairLine("image", Quote(ImageName(s.image.value)));
      assert ImageLines(s.image) == [l] + [];
      RunLine(r, l, []);
      RunNothing(LineRaw(r, l));
      RunLine(LineRaw(r, line), l, []);
      RunNothing(LineRaw(LineRaw(r, line), l));
      RunLine(r, line, ImageLines(s.image));
    }
  }

  /** What a rewritten table holds below its header line. */
  function RewriteBody(t: seq<string>, s: Saved): seq<string> {
    RewriteLines(Body(t), s, IsSelected(t, s.id), HasImage(t))
  }

  lemma {:induction false} NoNewHeaders(lines: seq<string>, s: Saved, selected: bool, hasImage: bool)
    requires forall l <- lines :: !IsHeader(l)
    ensures forall l <- RewriteLines(lines, s, selected, hasImage) :: !IsHeader(l)
  {
    hide Classify, PairLine, Quote;
    if lines != [] {
      if s.image.Some? { ImageLineReads(s.image.value); }
      NoNewHeaders(lines[1..], s, selected, hasImage);
      assert forall l <- RewriteLine(lines[0], s, selected, hasImage) :: !IsHeader(l);
    }
  }

  /** A rewritten table is a table with the same header line. */
  lemma RewrittenTable(t: seq<string>, s: Saved)
    requires IsTable(t)
    ensures RewriteTable(t, s) == [t[0]] + RewriteBody(t, s)
    ensures forall l <- RewriteBody(t, s) :: !IsHeader(l)
  {
    hide Classify;
    NoNewHeaders(Body(t), s, IsSelected(t, s.id), HasImage(t));
    assert RewriteLine(t[0], s, IsSelected(t, s.id), HasImage(t)) == [t[0]];
  }

  lemma {:induction false} UnselectedLines(lines: seq<string>, s: Saved, hasImage: bool)
    ensures RewriteLines(lines, s, false, hasImage) == lines
  {
    hide Classify;
    if lines != [] { UnselectedLines(lines[1..], s, hasImage); }
  }

  /** A table's raw entry after the save: the image replaced when some id line
      names the entry, and nothing else, ever. */
  function SavedRaw(block: seq<Item>, s: Saved): RawEntry {
    var raw := RunRaw(EMPTY_RAW, block);
    if BlockSelected(block, s.id) then raw.(image := NameOf(s.image)) else raw
  }

  lemma TableMeaning(t: seq<string>, s: Saved)
    requires IsTable(t)
    ensures RunRaw(EMPTY_RAW, Items(RewriteBody(t, s))) == SavedRaw(Items(Body(t)), s)
  {
    hide Classify, RunRaw;
    SelectedTable(t, s.id);
    UnselectedLines(Body(t), s, HasImage(t));
    if IsSelected(t, s.id) {
      RewrittenRaw(EMPTY_RAW, None, Body(t), s, HasImage(t));
      assert EMPTY_RAW.(image := None) == EMPTY_RAW;
      var l :| l in t && NamesEntry(l, s.id);
      assert t == [t[0]] + Body(t);
      assert HasKey(l, "id") && l in Body(t);
      assert s.image.Some? ==> WritesImage(Body(t), HasImage(t), s.image);
    }
  }

  // ----- the whole file's meaning

  lemma {:induction false} KeptHeader(m: MenuData, s: Saved, lines: seq<string>)
    ensures RunHeader(WithSettings(m, s), Items(Kept(lines))) == WithSettings(RunHeader(m, Items(lines)), s)
    decreases |lines|
  {
    hide Classify, ParseMode, ParseBool, ParseUnsigned, Unquote;
    if lines != [] {
      var line, rest := lines[0], lines[1..];
      assert Items(lines) == [Classify(line)] + Items(rest);
      assert Items(lines)[1..] == Items(rest);
      KeptHeader(LineHeader(m, line), s, rest);
      if !Replaced(line) {
        assert Kept(lines) == [line] + Kept(rest);
        assert Items([line] + Kept(rest)) == [Classify(line)] + Items(Kept(rest));
        assert Items(Kept(lines))[1..] == Items(Kept(rest));
      }
    }
  }

  function LineHeader(m: MenuData, line: string): MenuData {
    var i := Classify(line);
    if i.Pair? then SetHeader(m, i.key, Unquote(i.value)) else m
  }

  function WithSettings(m: MenuData, s: Saved): MenuData {
    m.(timeout := Some(s.timeout), spinner := s.mode, logo := s.logo)
  }

  lemma {:induction false} RunHeaderConcat(m: MenuData, a: seq<Item>, b: seq<Item>)
    ensures RunHeader(m, a + b) == RunHeader(RunHeader(m, a), b)
    decreases |a|
  {
    if a == [] {
      assert a + b == b;
    } else {
      assert (a + b)[1..] == a[1..] + b;
      RunHeaderConcat(if a[0].Pair? then SetHeader(m, a[0].key, Unquote(a[0].value)) else m, a[1..], b);
    }
  }

  lemma HeadMeaning(m: MenuData, s: Saved)
    requires s.timeout < U64_LIMIT
    ensures RunHeader(m, HeadItems(s)) == WithSettings(m, s)
  {
    ModeReads(s.mode);
    NumberIsValueLike(s.timeout);
    BoolIsValueLike(s.logo);
    ParsePrint(s.timeout, U64_LIMIT);
    hide ParseUnsigned, ParseMode, ParseBool, Print, ModeName, PrintBool, Quote, Unquote, RunHeader;
    var a, b, c := HeadItems(s)[0], HeadItems(s)[1], HeadItems(s)[2];
    assert HeadItems(s) == [a] + ([b] + ([c] + []));
    RunItem(m, a, [b] + ([c] + []));
    RunItem(SetHeader(m, a.key, Unquote(a.value)), b, [c] + []);
    RunItem(SetHeader(SetHeader(m, a.key, Unquote(a.value)), b.key, Unquote(b.value)), c, []);
  }

  lemma RunItem(m: MenuData, i: Item, rest: seq<Item>)
    requires i.Pair?
    ensures RunHeader(m, [i] + rest) == RunHeader(SetHeader(m, i.key, Unquote(i.value)), rest)
    ensures RunHeader(m, []) == m
    ensures RunHeader(SetHeader(m, i.key, Unquote(i.value)), []) == SetHeader(m, i.key, Unquote(i.value))
  {
    assert ([i] + rest)[1..] == rest;
  }

  lemma ItemsPlain(lines: seq<string>)
    requires forall l <- lines :: !IsHeader(l)
    ensures forall i <- Items(lines) :: !i.Header?
  {
    hide Classify;
    assert forall n | 0 <= n < |lines| :: lines[n] in lines && !IsHeader(lines[n]);
  }

  function RewriteBodies(tables: seq<seq<string>>, s: Saved): seq<seq<Item>> {
    if tables == [] then [] else [Items(RewriteBody(tables[0], s))] + RewriteBodies(tables[1..], s)
  }

  lemma {:induction false} RewrittenBlocks(tables: seq<seq<string>>, s: Saved)
    requires forall t <- tables :: IsTable(t)
    ensures HeaderItems(Items(RewriteTables(tables, s))) == []
    ensures BlocksOf(Items(RewriteTables(tables, s))) == RewriteBodies(tables, s)
  {
    hide Classify, RewriteTable, RewriteBody;
    if tables != [] {
      var t, rest := tables[0], RewriteTables(tables[1..], s);
      RewrittenTable(t, s);
      RewrittenBlocks(tables[1..], s);
      var body := RewriteBody(t, s);
      assert RewriteTables(tables, s) == [t[0]] + (body + rest);
      var items := Items([t[0]] + (body + rest));
      assert items == [Classify(t[0])] + Items(body + rest);
      assert items[1..] == Items(body + rest);
      ItemsConcat(body, rest);
      ItemsPlain(body);
      HeaderOfConcat(Items(body), Items(rest));
      assert Items(body) + [] == Items(body);
    }
  }

  /** The entries after the save. */
  function SavedEntries(blocks: seq<seq<Item>>, s: Saved): seq<Entry> {
    if blocks == [] then [] else Pushed(SavedRaw(blocks[0], s)) + SavedEntries(blocks[1..], s)
  }

  lemma {:induction false} SavedBlocks(tables: seq<seq<string>>, s: Saved)
    requires forall t <- tables :: IsTable(t)
    ensures BlockEntries(RewriteBodies(tables, s)) == SavedEntries(BodyItems(tables), s)
  {
    hide Classify, RewriteBody, SavedRaw, RunRaw, Pushed;
    if tables != [] {
      TableMeaning(tables[0], s);
      SavedBlocks(tables[1..], s);
      assert BodyItems(tables) == [Items(Body(tables[0]))] + BodyItems(tables[1..]);
      assert BodyItems(tables)[1..] == BodyItems(tables[1..]);
      assert RewriteBodies(tables, s)[1..] == RewriteBodies(tables[1..], s);
    }
  }

  lemma {:induction false} KeptFacts(lines: seq<string>)
    ensures forall l <- Kept(lines) :: l in lines
  {
    hide Classify;
    if lines != [] { KeptFacts(lines[1..]); }
  }

  /** The items of the file a save writes. */
  lemma PersistedItems(text: string, s: Saved)
    ensures var lines := Lines(text);
      var items := Items(Lines(Persisted(text, s)));
      && HeaderItems(items) == HeadItems(s) + Items(Kept(HeaderPart(lines)))
      && BlocksOf(items) == RewriteBodies(TableParts(lines), s)
  {
    hide Classify, RewriteTable, Lines, HeadItems, HeadLines;
    var lines := Lines(text);
    var kept, tables := Kept(HeaderPart(lines)), RewriteTables(TableParts(lines), s);
    var written := HeadLines(s) + PersistFrom(lines, false, [], s);
    PersistByTables(lines, false, [], s);
    PartsAreTables(lines);
    WrittenOneLine(text, s);
    ReadBack(written);
    HeadReads(s);
    HeadPlain(s);
    KeptFacts(HeaderPart(lines));
    ItemsConcat(HeadLines(s), kept + tables);
    ItemsConcat(kept, tables);
    HeaderOfConcat(HeadItems(s), Items(kept) + Items(tables));
    ItemsPlain(kept);
    HeaderOfConcat(Items(kept), Items(tables));
    RewrittenBlocks(TableParts(lines), s);
    assert Items(kept) + [] == Items(kept);
  }

  lemma HeadPlain(s: Saved)
    ensures forall i <- HeadItems(s) :: !i.Header?
  {}

  lemma WrittenOneLine(text: string, s: Saved)
    ensures forall l <- HeadLines(s) + PersistFrom(Lines(text), false, [], s) :: OneLine(l)
  {
    hide Classify, Lines, HeadLines, IsHeader, Replaced;
    LinesAreLines(text);
    HeadEnds(s);
    PersistOneLine(Lines(text), false, [], s);
  }

  lemma {:induction false} PersistOneLine(lines: seq<string>, started: bool, table: seq<string>, s: Saved)
    requires forall l <- lines + table :: OneLine(l)
    ensures forall l <- PersistFrom(lines, started, table, s) :: OneLine(l)
    decreases |lines|
  {
    hide Classify, IsHeader, Replaced;
    RewriteOneLine(table, s, IsSelected(table, s.id), HasImage(table));
    if lines != [] {
      assert lines[0] in lines;
      if IsHeader(lines[0]) { PersistOneLine(lines[1..], true, [lines[0]], s); }
      else if started { PersistOneLine(lines[1..], true, table + [lines[0]], s); }
      else { PersistOneLine(lines[1..], false, table, s); }
    }
  }

  lemma {:induction false} RewriteOneLine(lines: seq<string>, s: Saved, selected: bool, hasImage: bool)
    requires forall l <- lines :: OneLine(l)
    ensures forall l <- RewriteLines(lines, s, selected, hasImage) :: OneLine(l)
  {
    hide Classify, PairLine, Quote, HasKey;
    if lines != [] {
      if s.image.Some? { ImageLineReads(s.image.value); }
      RewriteOneLine(lines[1..], s, selected, hasImage);
      assert forall l <- RewriteLine(lines[0], s, selected, hasImage) :: OneLine(l);
    }
  }

  /** Reading the saved file gives the old menu with the three settings as
      saved, the same default, and the same entries in the same order, where a
      table's image is the saved one exactly when an id line names the entry. */
  lemma SaveMeansWhatItSays(text: string, s: Saved)
    requires s.timeout < U64_LIMIT
    ensures ReadMenu(Persisted(text, s)) ==
      WithSettings(ReadMenu(text), s).(entries := SavedEntries(BlocksOf(Items(Lines(text))), s))
  {
    hide Classify, RunHeader, Lines, Persisted, HeadItems, Kept, HeaderItems, BlocksOf;
    var lines := Lines(text);
    PersistedItems(text, s);
    PartsAreTables(lines);
    SavedBlocks(TableParts(lines), s);
    TablePartItems(lines);
    HeaderPartItems(lines);
    ReadByTables(INITIAL_MENU, Items(lines));
    ReadByTables(INITIAL_MENU, Items(Lines(Persisted(text, s))));
    RunHeaderConcat(INITIAL_MENU, HeadItems(s), Items(Kept(HeaderPart(lines))));
    HeadMeaning(INITIAL_MENU, s);
    KeptHeader(INITIAL_MENU, s, HeaderPart(lines));
    assert [] + SavedEntries(BlocksOf(Items(lines)), s) == SavedEntries(BlocksOf(Items(lines)), s);
  }

  /** The early readers agree with the full parse of a saved file. */
  lemma EarlyReadersAgree(text: string, s: Saved)
    ensures FirstMode(Items(Lines(Persisted(text, s)))) == s.mode
    ensures FirstLogo(Items(Lines(Persisted(text, s)))) == s.logo
  {
    hide Lines, Persisted, Classify;
    var items := Items(Lines(Persisted(text, s)));
    PersistedItems(text, s);
    HeadFirst(items, HeadItems(s), Items(Kept(HeaderPart(Lines(text)))));
    ModeReads(s.mode);
    BoolIsValueLike(s.logo);
    assert FirstLogo(items) == FirstLogo(items[1..]);
    assert FirstLogo(items[1..]) == FirstLogo(items[1..][1..]);
    assert FirstMode(items) == FirstMode(items[1..]);
  }

  /** Three items that open the header open the file. */
  lemma HeadFirst(items: seq<Item>, head: seq<Item>, kept: seq<Item>)
    requires HeaderItems(items) == head + kept && |head| == 3
    ensures |items| >= 3 && items[0] == head[0] && items[1..][0] == head[1] && items[1..][1..][0] == head[2]
    ensures !items[0].Header? && !items[1].Header? && !items[2].Header?
  {
    HeaderPrefix(items);
    HeaderHasNoHeader(items);
    var h := HeaderItems(items);
    assert h[0] == head[0] && h[1] == head[1] && h[2] == head[2];
    assert h[0] in h && h[1] in h && h[2] in h;
  }

  lemma {:induction false} HeaderPrefix(items: seq<Item>)
    ensures HeaderItems(items) <= items
  {
    if items != [] && !items[0].Header? { HeaderPrefix(items[1..]); }
  }
}
