/** Which entry a save reaches, and what saving again does. */
module SettingsRepeat {
  import opened Wrappers
  import opened Text
  import opened ConfigLines
  import opened BootConfig
  import opened Settings
  import opened SettingsMeaning
  import opened TableTexts

  // ----- which entry is reached

  function WithImage(entries: seq<Entry>, image: Option<Image>): seq<Entry> {
    seq(|entries|, i requires 0 <= i < |entries| => entries[i].(image := image))
  }

  /** In terms of menu entries: a selected table keeps its entry, with the
      saved image; every other table keeps its entry as it was. */
  lemma SavedTableEntries(block: seq<Item>, s: Saved)
    ensures var before := Pushed(RunRaw(EMPTY_RAW, block));
      Pushed(SavedRaw(block, s)) == if BlockSelected(block, s.id) then WithImage(before, s.image) else before
  {
    hide RunRaw, ParseImage;
    if s.image.Some? { ImageLineReads(s.image.value); }
  }

  predicate IdItem(i: Item) { i.Pair? && i.key == "id" }

  /** The value of the last id line. */
  function LastId(block: seq<Item>): Option<string> {
    if block == [] then None
    else match LastId(block[1..])
      case Some(id) => Some(id)
      case None => if IdItem(block[0]) then Some(Unquote(block[0].value)) else None
  }

  lemma {:induction false} RawId(raw: RawEntry, block: seq<Item>)
    ensures RunRaw(raw, block).id == if LastId(block).Some? then LastId(block) else raw.id
    decreases |block|
  {
    if block != [] {
      RawId(if block[0].Pair? then SetKey(raw, block[0].key, Unquote(block[0].value)) else raw, block[1..]);
    }
  }

  lemma {:induction false} SelectedByLastId(block: seq<Item>, id: string)
    ensures LastId(block) == Some(id) ==> BlockSelected(block, id)
    ensures BlockSelected(block, id) ==> LastId(block).Some?
    ensures LastId(block).Some? <==> exists i <- block :: IdItem(i)
  {
    hide Unquote;
    if block != [] {
      SelectedByLastId(block[1..], id);
      assert forall i :: i in block <==> i == block[0] || i in block[1..];
    }
  }

  /** A save under the id the menu shows for a table reaches it exactly when an
      id line gave it that id; an id the menu made up from the title or the
      kernel path is not found again, and the image is not saved. */
  lemma SaveReachesIff(block: seq<Item>, s: Saved)
    requires Pushed(RunRaw(EMPTY_RAW, block)) != [] && Pushed(RunRaw(EMPTY_RAW, block))[0].id == s.id
    ensures var before := Pushed(RunRaw(EMPTY_RAW, block))[0];
      var after := Pushed(SavedRaw(block, s));
      && |after| == 1 && after[0] == before.(image := after[0].image)
      && (after[0].image == s.image <==> (exists i <- block :: IdItem(i)) || before.image == s.image)
  {
    SavedTableEntries(block, s);
    SelectedByLastId(block, s.id);
    RawId(EMPTY_RAW, block);
    hide RunRaw;
  }

  /** A save under another id changes the table as well exactly when one of its
      id lines, which is then not the last, holds that other id. */
  lemma SaveReachesOtherIff(block: seq<Item>, s: Saved)
    requires Pushed(RunRaw(EMPTY_RAW, block)) != [] && Pushed(RunRaw(EMPTY_RAW, block))[0].id != s.id
    ensures var before := Pushed(RunRaw(EMPTY_RAW, block))[0];
      var after := Pushed(SavedRaw(block, s));
      && |after| == 1 && after[0] == before.(image := after[0].image)
      && (after[0].image == s.image <==>
            BlockSelected(block, s.id) || before.image == s.image)
  {
    SavedTableEntries(block, s);
    hide RunRaw;
  }

  // ----- files

  /** The menu of a saved file of one table. */
  lemma SavedTable(pairs: Pairs, s: Saved)
    requires Writable(pairs) && s.timeout < U64_LIMIT
    ensures ReadMenu(Persisted(TableText(pairs), s)).entries == Pushed(SavedRaw(QuotedItems(pairs), s))
  {
    hide Lines, Items, TableText, Persisted, BlocksOf, HeaderItems, Writable, Pushed, SavedRaw, QuotedItems;
    TableReads(pairs);
    SaveMeansWhatItSays(TableText(pairs), s);
    assert [QuotedItems(pairs)][1..] == [];
    assert SavedEntries([QuotedItems(pairs)], s) == Pushed(SavedRaw(QuotedItems(pairs), s)) + [];
  }

  lemma Readable()
    ensures KeyLike("id") && KeyLike("title") && KeyLike("linux") && OneLine("id") && OneLine("title") && OneLine("linux")
    ensures OneLine("A") && OneLine("B") && OneLine("/k") && '#' !in "A" && '#' !in "B" && '#' !in "/k"
  {}

  /** A file with a titled entry and no id line: the menu shows it as "A", and
      a save under that name leaves its image alone. */
  lemma UnnamedEntryIsMissed()
    ensures var text := TableText([("title", "A")] + ([("linux", "/k")] + []));
      var s := Saved(5, Graphical, true, "A", Some(Nixos));
      && ReadMenu(text).entries == [Entry("A", "A", LinuxKernel, "/k", [], None, None)]
      && ReadMenu(Persisted(text, s)).entries == ReadMenu(text).entries
  {
    var more := [("linux", "/k")] + [];
    var pairs := [("title", "A")] + more;
    var s := Saved(5, Graphical, true, "A", Some(Nixos));
    Readable();
    hide KeyLike, OneLine;
    RunPair(EMPTY_RAW, "title", "A", more);
    RunPair(EMPTY_RAW.(title := Some("A")), "linux", "/k", []);
    assert RunPairs(EMPTY_RAW, pairs) == EMPTY_RAW.(title := Some("A"), kernel := Some("/k"));
    assert Writable(pairs);
    assert !BlockSelected(QuotedItems(pairs), "A");
    hide TableText, Persisted, ReadMenu, QuotedItems, BlockSelected, RunPairs, Writable;
    TableMenu(pairs);
    SavedTable(pairs, s);
    RunQuoted(EMPTY_RAW, pairs);
    SavedTableEntries(QuotedItems(pairs), s);
  }

  /** A file whose entry has two id lines: it is called "B", and a save under
      "A" gives it an image. */
  lemma FormerIdIsReached()
    ensures var text := TableText([("id", "A")] + ([("id", "B")] + ([("linux", "/k")] + [])));
      var s := Saved(5, Graphical, true, "A", Some(Nixos));
      && ReadMenu(text).entries == [Entry("B", "/k", LinuxKernel, "/k", [], None, None)]
      && ReadMenu(Persisted(text, s)).entries == [Entry("B", "/k", LinuxKernel, "/k", [], None, Some(Nixos))]
  {
    var last := [("linux", "/k")] + [];
    var more := [("id", "B")] + last;
    var pairs := [("id", "A")] + more;
    var s := Saved(5, Graphical, true, "A", Some(Nixos));
    Readable();
    hide KeyLike, OneLine;
    RunPair(EMPTY_RAW, "id", "A", more);
    RunPair(EMPTY_RAW.(id := Some("A")), "id", "B", last);
    RunPair(EMPTY_RAW.(id := Some("B")), "linux", "/k", []);
    assert RunPairs(EMPTY_RAW, pairs) == EMPTY_RAW.(id := Some("B"), kernel := Some("/k"));
    assert Writable(pairs);
    UnquoteQuote("A");
    assert QuotedItems(pairs)[0] == Pair("id", Quote("A")) && QuotedItems(pairs)[0] in QuotedItems(pairs);
    assert BlockSelected(QuotedItems(pairs), "A") by { hide Quote, Unquote; assert ItemNames(QuotedItems(pairs)[0], "A"); }
    hide TableText, Persisted, ReadMenu, QuotedItems, BlockSelected, RunPairs, Writable;
    TableMenu(pairs);
    SavedTable(pairs, s);
    RunQuoted(EMPTY_RAW, pairs);
    SavedTableEntries(QuotedItems(pairs), s);
  }

  // ----- saving twice: one table

  lemma SameKeys(line: string, key: string)
    ensures HasKey(StripCr(line), key) <==> HasKey(line, key)
    ensures IsHeader(StripCr(line)) <==> IsHeader(line)
    ensures Replaced(StripCr(line)) <==> Replaced(line)
    ensures forall id :: NamesEntry(StripCr(line), id) <==> NamesEntry(line, id)
  {
    ClassifyIgnoresCr(line);
    hide Classify, Unquote;
  }

  /** Lines on which the rewrite of a selected table has nothing left to do. */
  predicate Settled(lines: seq<string>, s: Saved) {
    forall l <- lines :: HasKey(l, "image") ==> ImageLines(s.image) == [l]
  }

  lemma {:induction false} SettledFixed(lines: seq<string>, s: Saved, hasImage: bool)
    requires Settled(lines, s) && (hasImage || s.image.None?)
    ensures RewriteLines(lines, s, true, hasImage) == lines
  {
    hide HasKey, PairLine;
    if lines != [] {
      assert lines[0] in lines;
      assert ImageLines(None) == [];
      SettledFixed(lines[1..], s, hasImage);
      assert RewriteLine(lines[0], s, true, hasImage) == [lines[0]];
    }
  }

  lemma {:induction false} RewriteSettles(lines: seq<string>, s: Saved, hasImage: bool)
    ensures Settled(StripCrs(RewriteLines(lines, s, true, hasImage)), s)
    ensures IsSelected(StripCrs(RewriteLines(lines, s, true, hasImage)), s.id) <==> IsSelected(lines, s.id)
    ensures WritesImage(lines, hasImage, s.image) ==> HasImage(StripCrs(RewriteLines(lines, s, true, hasImage)))
  {
    hide HasKey, NamesEntry, PairLine, Quote;
    if lines != [] {
      var out, rest := RewriteLine(lines[0], s, true, hasImage), RewriteLines(lines[1..], s, true, hasImage);
      RewriteSettles(lines[1..], s, hasImage);
      StripCrsConcat(out, rest);
      OutSettled(lines[0], s, hasImage);
      assert forall l :: l in lines <==> l == lines[0] || l in lines[1..];
      var a, b := StripCrs(out), StripCrs(rest);
      assert forall l :: l in a + b <==> l in a || l in b;
      assert IsSelected(a + b, s.id) <==> IsSelected(a, s.id) || IsSelected(b, s.id);
      assert HasImage(a + b) <==> HasImage(a) || HasImage(b);
    }
  }

  lemma StripCrsConcat(a: seq<string>, b: seq<string>)
    ensures StripCrs(a + b) == StripCrs(a) + StripCrs(b)
  {}

  lemma OutSettled(line: string, s: Saved, hasImage: bool)
    ensures var out := StripCrs(RewriteLine(line, s, true, hasImage));
      && Settled(out, s) && (IsSelected(out, s.id) <==> NamesEntry(line, s.id))
      && (WritesImage([line], hasImage, s.image) ==> HasImage(out))
  {
    SameKeys(line, "image");
    NotBothKeys(line, s);
    hide NamesEntry, PairLine, Quote, HasKey;
    var out := RewriteLine(line, s, true, hasImage);
    if s.image.Some? {
      var l := PairLine("image", Quote(ImageName(s.image.value)));
      ImageLineKeys(s.image.value, s.id);
      assert StripCr(l) == l;
      assert ImageLines(s.image) == [l];
      if HasKey(line, "image") {
        assert StripCrs(out) == [l];
        assert l in StripCrs(out);
      } else if !hasImage && HasKey(line, "id") {
        assert StripCrs(out) == [StripCr(line), l];
        assert l in StripCrs(out) && StripCr(line) in StripCrs(out);
      } else {
        assert StripCrs(out) == [StripCr(line)];
        assert StripCr(line) in StripCrs(out);
        assert !WritesImage([line], hasImage, s.image);
      }
    } else if HasKey(line, "image") {
      assert StripCrs(out) == [];
    } else {
      assert out == [line] + [] == [line];
      assert StripCrs(out) == [StripCr(line)];
      assert StripCr(line) in StripCrs(out);
    }
  }

  lemma NotBothKeys(line: string, s: Saved)
    ensures NamesEntry(line, s.id) ==> HasKey(line, "id") && !HasKey(line, "image")
  {
    hide Classify;
  }

  lemma ImageLineKeys(i: Image, id: string)
    ensures var l := PairLine("image", Quote(ImageName(i)));
      HasKey(l, "image") && !NamesEntry(l, id) && !IsHeader(l) && StripCr(l) == l
  {
    ImageLineReads(i);
    hide Classify, PairLine, Quote;
  }

  lemma TableTwice(t: seq<string>, s: Saved)
    requires IsTable(t)
    ensures RewriteTable(StripCrs(RewriteTable(t, s)), s) == StripCrs(RewriteTable(t, s))
  {
    hide HasKey, NamesEntry, IsHeader;
    var out := StripCrs(RewriteTable(t, s));
    if IsSelected(t, s.id) {
      RewriteSettles(t, s, HasImage(t));
      var l :| l in t && NamesEntry(l, s.id);
      NotBothKeys(l, s);
      if HasImage(t) { var k :| k in t && HasKey(k, "image"); }
      assert s.image.Some? ==> WritesImage(t, HasImage(t), s.image);
      SettledFixed(out, s, HasImage(out));
    } else {
      UnselectedLines(t, s, HasImage(t));
      forall l <- StripCrs(t) ensures !NamesEntry(l, s.id) {
        var n :| 0 <= n < |t| && StripCr(t[n]) == l;
        SameKeys(t[n], "id");
        assert t[n] in t;
      }
      UnselectedLines(out, s, HasImage(out));
    }
  }

  // ----- saving twice: the file

  lemma {:induction false} PartsOfConcat(a: seq<string>, b: seq<string>)
    requires forall l <- a :: !IsHeader(l)
    ensures HeaderPart(a + b) == a + HeaderPart(b) && TableParts(a + b) == TableParts(b)
  {
    hide IsHeader;
    if a == [] {
      assert a + b == b;
    } else {
      assert a[0] in a;
      assert (a + b)[1..] == a[1..] + b;
      PartsOfConcat(a[1..], b);
      assert a == [a[0]] + a[1..];
    }
  }

  /** The tables a save leaves in the file, without stray carriage returns. */
  function SavedTables(tables: seq<seq<string>>, s: Saved): seq<seq<string>> {
    if tables == [] then [] else [StripCrs(RewriteTable(tables[0], s))] + SavedTables(tables[1..], s)
  }

  /** A saved table, carriage returns stripped, is still one table. */
  lemma SavedIsTable(t: seq<string>, s: Saved)
    requires IsTable(t)
    ensures IsTable(StripCrs(RewriteTable(t, s)))
  {
    hide IsHeader, RewriteTable, RewriteBody;
    RewrittenTable(t, s);
    var body := RewriteBody(t, s);
    var out := StripCrs(RewriteTable(t, s));
    SameKeys(t[0], "");
    assert out[0] == StripCr(t[0]);
    forall l <- out[1..] ensures !IsHeader(l) {
      var n :| 0 <= n < |body| && out[1..][n] == l;
      assert body[n] in body && l == StripCr(body[n]);
      SameKeys(body[n], "");
    }
  }

  lemma TableFirst(t: seq<string>, rest: seq<string>)
    requires IsTable(t) && HeaderPart(rest) == []
    ensures HeaderPart(t + rest) == [] && TableParts(t + rest) == [t] + TableParts(rest)
  {
    hide IsHeader;
    PartsOfConcat(t[1..], rest);
    assert (t + rest)[1..] == t[1..] + rest;
    assert [t[0]] + (t[1..] + []) == t;
  }

  lemma {:induction false} PartsOfTables(tables: seq<seq<string>>, s: Saved)
    requires forall t <- tables :: IsTable(t)
    ensures HeaderPart(StripCrs(RewriteTables(tables, s))) == []
    ensures TableParts(StripCrs(RewriteTables(tables, s))) == SavedTables(tables, s)
  {
    hide IsHeader, RewriteTable, IsTable;
    if tables != [] {
      PartsOfTables(tables[1..], s);
      SavedIsTable(tables[0], s);
      StripCrsConcat(RewriteTable(tables[0], s), RewriteTables(tables[1..], s));
      TableFirst(StripCrs(RewriteTable(tables[0], s)), StripCrs(RewriteTables(tables[1..], s)));
    }
  }

  lemma {:induction false} TablesTwice(tables: seq<seq<string>>, s: Saved)
    requires forall t <- tables :: IsTable(t)
    ensures RewriteTables(SavedTables(tables, s), s) == StripCrs(RewriteTables(tables, s))
  {
    hide IsHeader, RewriteTable;
    if tables != [] {
      TableTwice(tables[0], s);
      TablesTwice(tables[1..], s);
      StripCrsConcat(RewriteTable(tables[0], s), RewriteTables(tables[1..], s));
      assert SavedTables(tables, s)[1..] == SavedTables(tables[1..], s);
    }
  }

  lemma {:induction false} KeptOfConcat(a: seq<string>, b: seq<string>)
    ensures Kept(a + b) == Kept(a) + Kept(b)
  {
    hide Replaced;
    if a == [] {
      assert a + b == b;
    } else {
      assert (a + b)[1..] == a[1..] + b;
      KeptOfConcat(a[1..], b);
    }
  }

  lemma {:induction false} KeptTwice(lines: seq<string>)
    requires forall l <- lines :: !IsHeader(l)
    ensures Kept(StripCrs(Kept(lines))) == StripCrs(Kept(lines))
    ensures forall l <- StripCrs(Kept(lines)) :: !IsHeader(l)
  {
    hide Replaced, IsHeader;
    if lines != [] {
      KeptTwice(lines[1..]);
      if !Replaced(lines[0]) {
        assert lines[0] in lines;
        SameKeys(lines[0], "");
        var rest := Kept(lines[1..]);
        assert StripCrs([lines[0]] + rest) == [StripCr(lines[0])] + StripCrs(rest);
        assert ([StripCr(lines[0])] + StripCrs(rest))[1..] == StripCrs(rest);
      }
    }
  }

  lemma HeadLinesFacts(s: Saved)
    ensures Kept(HeadLines(s)) == [] && StripCrs(HeadLines(s)) == HeadLines(s)
    ensures forall l <- HeadLines(s) :: !IsHeader(l)
  {
    HeadEnds(s);
    TimeoutReads(s.timeout);
    ModeReads(s.mode);
    LogoReads(s.logo);
    hide Classify, PairLine, Quote, Print, PrintBool, ModeName;
    var h := HeadLines(s);
    assert h[0] in h && h[1] in h && h[2] in h;
    assert h[1..] == [h[1], h[2]] && h[1..][1..] == [h[2]] && h[1..][1..][1..] == [];
    assert Replaced(h[0]) && Replaced(h[1]) && Replaced(h[2]);
    assert Kept(h) == Kept(h[1..]) == Kept(h[1..][1..]) == Kept([]);
  }

  /** The lines a save writes after its three settings. */
  function Tail(text: string, s: Saved): seq<string> { PersistFrom(Lines(text), false, [], s) }

  lemma PersistTwice(text: string, s: Saved)
    ensures PersistFrom(HeadLines(s) + StripCrs(Tail(text, s)), false, [], s) == StripCrs(Tail(text, s))
  {
    hide IsHeader, Replaced, Lines, RewriteTable, HeadLines, PersistFrom, HeaderPart, TableParts, Kept, RewriteTables;
    var lines := Lines(text);
    var kept, tables := StripCrs(Kept(HeaderPart(lines))), StripCrs(RewriteTables(TableParts(lines), s));
    PartsAreTables(lines);
    PersistByTables(lines, false, [], s);
    StripCrsConcat(Kept(HeaderPart(lines)), RewriteTables(TableParts(lines), s));
    assert StripCrs(Tail(text, s)) == kept + tables;
    HeadLinesFacts(s);
    KeptTwice(HeaderPart(lines));
    PartsOfTables(TableParts(lines), s);
    TablesTwice(TableParts(lines), s);
    PartsOfConcat(kept, tables);
    PartsOfConcat(HeadLines(s), kept + tables);
    assert kept + [] == kept;
    KeptOfConcat(HeadLines(s), kept);
    assert [] + kept == kept;
    PersistByTables(HeadLines(s) + (kept + tables), false, [], s);
  }

  /** No line of the file that a save keeps ends in a carriage return of its
      own: header lines other than the three settings, and all lines of tables
      but the image lines of those that are saved. */
  predicate KeptLinesEndClean(text: string, s: Saved) {
    && (forall l <- HeaderPart(Lines(text)) :: Replaced(l) || !EndsInCr(l))
    && (forall t <- TableParts(Lines(text)) :: TableEndsClean(t, IsSelected(t, s.id)))
  }

  predicate TableEndsClean(t: seq<string>, selected: bool) {
    forall l <- t :: (selected && HasKey(l, "image")) || !EndsInCr(l)
  }

  predicate AllEndClean(lines: seq<string>) { forall l <- lines :: !EndsInCr(l) }

  lemma EndCleanConcat(a: seq<string>, b: seq<string>)
    ensures AllEndClean(a + b) <==> AllEndClean(a) && AllEndClean(b)
  {
    assert forall l :: l in a + b <==> l in a || l in b;
  }

  lemma {:induction false} KeptEndsClean(lines: seq<string>)
    ensures AllEndClean(Kept(lines)) <==> forall l <- lines :: Replaced(l) || !EndsInCr(l)
  {
    hide Replaced;
    if lines != [] {
      KeptEndsClean(lines[1..]);
      EndCleanConcat([lines[0]], Kept(lines[1..]));
      assert forall l :: l in lines <==> l == lines[0] || l in lines[1..];
      assert AllEndClean([lines[0]]) <==> !EndsInCr(lines[0]) by { assert lines[0] in [lines[0]]; }
    }
  }

  lemma {:induction false} RewriteEndsClean(lines: seq<string>, s: Saved, selected: bool, hasImage: bool)
    ensures AllEndClean(RewriteLines(lines, s, selected, hasImage)) <==> TableEndsClean(lines, selected)
  {
    hide HasKey, PairLine, Quote, EndsInCr;
    if lines != [] {
      RewriteEndsClean(lines[1..], s, selected, hasImage);
      var out := RewriteLine(lines[0], s, selected, hasImage);
      EndCleanConcat(out, RewriteLines(lines[1..], s, selected, hasImage));
      if s.image.Some? { ImageLineReads(s.image.value); }
      assert AllEndClean(ImageLines(s.image));
      EndCleanConcat([lines[0]], if selected && !hasImage && HasKey(lines[0], "id") then ImageLines(s.image) else []);
      assert AllEndClean([lines[0]]) <==> !EndsInCr(lines[0]) by { assert lines[0] in [lines[0]]; }
      assert forall l :: l in lines <==> l == lines[0] || l in lines[1..];
    }
  }

  lemma {:induction false} TablesEndClean(tables: seq<seq<string>>, s: Saved)
    ensures AllEndClean(RewriteTables(tables, s)) <==> forall t <- tables :: TableEndsClean(t, IsSelected(t, s.id))
  {
    hide TableEndsClean, IsSelected, HasImage, AllEndClean;
    if tables == [] {
      NothingEnds();
    } else {
      TablesEndClean(tables[1..], s);
      EndCleanConcat(RewriteTable(tables[0], s), RewriteTables(tables[1..], s));
      RewriteEndsClean(tables[0], s, IsSelected(tables[0], s.id), HasImage(tables[0]));
      assert forall t :: t in tables <==> t == tables[0] || t in tables[1..];
    }
  }

  lemma NothingEnds()
    ensures AllEndClean([])
  {}

  /** Repeating a save leaves the file as it is exactly when no line the save
      keeps ends in a carriage return of its own. */
  lemma SaveTwiceIff(text: string, s: Saved)
    ensures Persisted(Persisted(text, s), s) == Persisted(text, s) <==> KeptLinesEndClean(text, s)
  {
    hide IsHeader, Replaced, Lines, RewriteTable, HeadLines, PersistFrom, TableEndsClean, IsSelected;
    var lines, written := Lines(text), HeadLines(s) + Tail(text, s);
    WrittenOneLine(text, s);
    LinesOfUnlines(written);
    HeadLinesFacts(s);
    HeadEnds(s);
    StripCrsConcat(HeadLines(s), Tail(text, s));
    PersistTwice(text, s);
    CrsMatter(written);
    EndCleanConcat(HeadLines(s), Tail(text, s));
    PersistByTables(lines, false, [], s);
    EndCleanConcat(Kept(HeaderPart(lines)), RewriteTables(TableParts(lines), s));
    KeptEndsClean(HeaderPart(lines));
    TablesEndClean(TableParts(lines), s);
  }

  /** In particular for every text without carriage returns. */
  lemma SaveTwiceWithoutCr(text: string, s: Saved)
    requires '\r' !in text
    ensures Persisted(Persisted(text, s), s) == Persisted(text, s)
  {
    hide IsHeader, Replaced, Lines, RewriteTable, HeadLines, PersistFrom, IsSelected, HasKey;
    var lines := Lines(text);
    LinesAreLines(text);
    PartsOfLines(lines);
    assert forall l <- lines :: !EndsInCr(l);
    SaveTwiceIff(text, s);
  }

  lemma {:induction false} PartsOfLines(lines: seq<string>)
    ensures forall l <- HeaderPart(lines) :: l in lines
    ensures forall t <- TableParts(lines), l <- t :: l in lines
  {
    hide IsHeader;
    if lines != [] { PartsOfLines(lines[1..]); }
  }

  /** A line that ends CR CR LF loses one of them at every save. */
  lemma StrayCrIsLost(s: Saved)
    ensures Persisted(Persisted("a\r\r\n", s), s) != Persisted("a\r\r\n", s)
  {
    StrayCrLine();
    hide Classify, Lines, Persisted, EndsInCr, TableParts;
    SaveTwiceIff("a\r\r\n", s);
    assert ["a\r"][1..] == [] && HeaderPart([]) == [];
    assert HeaderPart(["a\r"]) == ["a\r"];
    assert !Replaced("a\r") && "a\r" in HeaderPart(Lines("a\r\r\n"));
  }
}
