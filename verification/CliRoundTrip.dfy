/** What the tool writes is what it reads. */
module CliRoundTrip {
  import opened Wrappers
  import opened Text
  import opened ConfigLines
  import opened CliConfig

  // ----- the rendered lines as items

  function OptionItem(key: string, value: Option<string>): seq<Item> {
    match value case None => [] case Some(v) => [Pair(key, Quote(v))]
  }

  function RepeatItems(key: string, values: seq<string>): seq<Item> {
    if values == [] then [] else [Pair(key, Quote(values[0]))] + RepeatItems(key, values[1..])
  }

  function TimeoutItem(timeout: Option<nat>): seq<Item> {
    match timeout case None => [] case Some(n) => [Pair("timeout", Print(n))]
  }

  function LogoItem(logo: Option<bool>): seq<Item> {
    match logo case None => [] case Some(b) => [Pair("logo", PrintBool(b))]
  }

  function HeadItems(c: Config): seq<Item> {
    [Other] + OptionItem("default", c.default) + TimeoutItem(c.timeout) + OptionItem("spinner", c.spinner)
    + LogoItem(c.logo) + OptionItem("fastboot", c.fastboot)
  }

  function EntryItems(e: Entry): seq<Item> {
    EntryHead(e) + RepeatItems("initrd", e.initrd) + OptionItem("options", e.options)
  }

  function EntryHead(e: Entry): seq<Item> {
    [Other, Header, Pair("id", Quote(e.id))] + OptionItem("title", e.title) + OptionItem("kind", e.kind)
    + OptionItem("linux", e.linux) + OptionItem("efi", e.efi) + OptionItem("image", e.image)
  }

  function AllEntryItems(entries: seq<Entry>): seq<Item> {
    if entries == [] then [] else EntryItems(entries[0]) + AllEntryItems(entries[1..])
  }

  // ----- values that survive

  /** Free of comment signs and line feeds. Quotes, '=' and carriage returns
      may appear anywhere. */
  predicate Clean(s: string) { '#' !in s && '\n' !in s }

  predicate CleanOption(o: Option<string>) { o.Some? ==> Clean(o.value) }

  predicate CleanEntry(e: Entry) {
    && Clean(e.id) && CleanOption(e.title) && CleanOption(e.kind) && CleanOption(e.linux) && CleanOption(e.efi)
    && CleanOption(e.image) && (forall v <- e.initrd :: Clean(v)) && CleanOption(e.options)
  }

  predicate CleanConfig(c: Config) {
    && CleanOption(c.default) && (c.timeout.Some? ==> c.timeout.value < U32_LIMIT) && CleanOption(c.spinner)
    && CleanOption(c.fastboot) && forall e <- c.entries :: CleanEntry(e)
  }

  lemma KeyIsOneLine(key: string)
    requires KeyLike(key)
    ensures OneLine(key)
  {
    assert IsWhitespace('\n');
  }

  lemma QuotedLine(key: string, v: string)
    requires KeyLike(key) && Clean(v)
    ensures Classify(PairLine(key, Quote(v))) == Pair(key, Quote(v)) && OneLine(PairLine(key, Quote(v)))
  {
    hide IsWhitespace, Classify;
    QuotedReads(key, v);
    KeyIsOneLine(key);
  }

  lemma OptionReads(key: string, value: Option<string>)
    requires KeyLike(key) && CleanOption(value)
    ensures Items(OptionLine(key, value)) == OptionItem(key, value) && forall l <- OptionLine(key, value) :: OneLine(l)
  {
    if value.Some? { QuotedLine(key, value.value); }
    hide Classify, PairLine, Quote;
  }

  lemma {:induction false} RepeatReads(key: string, values: seq<string>)
    requires KeyLike(key) && forall v <- values :: Clean(v)
    ensures Items(RepeatLines(key, values)) == RepeatItems(key, values)
    ensures forall l <- RepeatLines(key, values) :: OneLine(l)
  {
    hide Classify, PairLine, Quote, KeyLike, Clean;
    if values != [] {
      QuotedLine(key, values[0]);
      RepeatReads(key, values[1..]);
      ItemsConcat([PairLine(key, Quote(values[0]))], RepeatLines(key, values[1..]));
    }
  }

  lemma CommentReads()
    ensures Classify(COMMENT) == Other && OneLine(COMMENT)
  {
    assert COMMENT[0] == '#';
    assert StripComment(COMMENT) == "";
    TrimFixed("");
    SplitOnceFacts("", '=');
    assert forall i | 0 <= i < |COMMENT| :: COMMENT[i] != '\n';
  }

  /** These lines, written out, are read as these items. */
  predicate ReadAs(lines: seq<string>, items: seq<Item>) {
    Items(lines) == items && forall l <- lines :: OneLine(l)
  }

  lemma ReadAsConcat(a: seq<string>, i: seq<Item>, b: seq<string>, j: seq<Item>)
    requires ReadAs(a, i) && ReadAs(b, j)
    ensures ReadAs(a + b, i + j)
  {
    hide Classify;
    ItemsConcat(a, b);
  }

  lemma OptionReadAs(a: seq<string>, i: seq<Item>, key: string, value: Option<string>)
    requires ReadAs(a, i) && KeyLike(key) && CleanOption(value)
    ensures ReadAs(a + OptionLine(key, value), i + OptionItem(key, value))
  {
    OptionReads(key, value);
    ReadAsConcat(a, i, OptionLine(key, value), OptionItem(key, value));
  }

  lemma TimeoutReadAs(a: seq<string>, i: seq<Item>, timeout: Option<nat>)
    requires ReadAs(a, i)
    ensures ReadAs(a + TimeoutLine(timeout), i + TimeoutItem(timeout))
  {
    if timeout.Some? { TimeoutReads(timeout.value); }
    hide Classify, PairLine, Print;
    assert Items(TimeoutLine(timeout)) == TimeoutItem(timeout);
    ReadAsConcat(a, i, TimeoutLine(timeout), TimeoutItem(timeout));
  }

  lemma LogoReadAs(a: seq<string>, i: seq<Item>, logo: Option<bool>)
    requires ReadAs(a, i)
    ensures ReadAs(a + LogoLine(logo), i + LogoItem(logo))
  {
    if logo.Some? { LogoReads(logo.value); }
    hide Classify, PairLine, PrintBool;
    assert Items(LogoLine(logo)) == LogoItem(logo);
    ReadAsConcat(a, i, LogoLine(logo), LogoItem(logo));
  }

  lemma HeadReads(c: Config)
    requires CleanConfig(c)
    ensures ReadAs(HeadLines(c), HeadItems(c))
  {
    ConfigKeys();
    CommentReads();
    assert ReadAs([COMMENT], [Other]);
    hide ReadAs, KeyLike, OptionLine, OptionItem, Clean, TimeoutLine, LogoLine, TimeoutItem, LogoItem;
    var a, i := [COMMENT], [Other];
    OptionReadAs(a, i, "default", c.default);
    a, i := a + OptionLine("default", c.default), i + OptionItem("default", c.default);
    TimeoutReadAs(a, i, c.timeout);
    a, i := a + TimeoutLine(c.timeout), i + TimeoutItem(c.timeout);
    OptionReadAs(a, i, "spinner", c.spinner);
    a, i := a + OptionLine("spinner", c.spinner), i + OptionItem("spinner", c.spinner);
    LogoReadAs(a, i, c.logo);
    a, i := a + LogoLine(c.logo), i + LogoItem(c.logo);
    OptionReadAs(a, i, "fastboot", c.fastboot);
  }

  lemma EntryReads(e: Entry)
    requires CleanEntry(e)
    ensures ReadAs(EntryLines(e), EntryItems(e))
  {
    ConfigKeys();
    var a, i := ["", ENTRIES, PairLine("id", Quote(e.id))], [Other, Header, Pair("id", Quote(e.id))];
    FirstThree(e);
    RepeatReads("initrd", e.initrd);
    assert ReadAs(RepeatLines("initrd", e.initrd), RepeatItems("initrd", e.initrd));
    hide ReadAs, KeyLike, OptionLine, OptionItem, Clean, RepeatLines, RepeatItems, PairLine, Quote;
    OptionReadAs(a, i, "title", e.title);
    a, i := a + OptionLine("title", e.title), i + OptionItem("title", e.title);
    OptionReadAs(a, i, "kind", e.kind);
    a, i := a + OptionLine("kind", e.kind), i + OptionItem("kind", e.kind);
    OptionReadAs(a, i, "linux", e.linux);
    a, i := a + OptionLine("linux", e.linux), i + OptionItem("linux", e.linux);
    OptionReadAs(a, i, "efi", e.efi);
    a, i := a + OptionLine("efi", e.efi), i + OptionItem("efi", e.efi);
    OptionReadAs(a, i, "image", e.image);
    a, i := a + OptionLine("image", e.image), i + OptionItem("image", e.image);
    ReadAsConcat(a, i, RepeatLines("initrd", e.initrd), RepeatItems("initrd", e.initrd));
    a, i := a + RepeatLines("initrd", e.initrd), i + RepeatItems("initrd", e.initrd);
    OptionReadAs(a, i, "options", e.options);
  }

  lemma OneRead(l: string, i: Item)
    requires Classify(l) == i && OneLine(l)
    ensures ReadAs([l], [i])
  {
    hide Classify;
  }

  lemma FirstThree(e: Entry)
    requires Clean(e.id)
    ensures ReadAs(["", ENTRIES, PairLine("id", Quote(e.id))], [Other, Header, Pair("id", Quote(e.id))])
  {
    hide Classify, PairLine, Quote, Clean, KeyLike, ReadAs;
    ConfigKeys();
    EntriesLine();
    QuotedLine("id", e.id);
    var line, item := PairLine("id", Quote(e.id)), Pair("id", Quote(e.id));
    OneRead("", Other);
    OneRead(ENTRIES, Header);
    OneRead(line, item);
    ReadAsConcat([""], [Other], [ENTRIES], [Header]);
    ReadAsConcat([""] + [ENTRIES], [Other] + [Header], [line], [item]);
    assert [""] + [ENTRIES] + [line] == ["", ENTRIES, line];
    assert [Other] + [Header] + [item] == [Other, Header, item];
  }

  lemma {:induction false} EntriesRead(entries: seq<Entry>)
    requires forall e <- entries :: CleanEntry(e)
    ensures ReadAs(AllEntryLines(entries), AllEntryItems(entries))
  {
    hide Classify, EntryLines, EntryItems, CleanEntry;
    if entries != [] {
      EntryReads(entries[0]);
      EntriesRead(entries[1..]);
      ReadAsConcat(EntryLines(entries[0]), EntryItems(entries[0]), AllEntryLines(entries[1..]), AllEntryItems(entries[1..]));
    }
  }

  /** A rendered configuration, read line by line. */
  lemma RenderedItems(c: Config)
    requires CleanConfig(c)
    ensures Items(Lines(Rendered(c))) == HeadItems(c) + AllEntryItems(c.entries)
  {
    hide Classify, HeadLines, HeadItems, CleanEntry;
    HeadReads(c);
    EntriesRead(c.entries);
    ReadAsConcat(HeadLines(c), HeadItems(c), AllEntryLines(c.entries), AllEntryItems(c.entries));
    ReadBack(HeadLines(c) + AllEntryLines(c.entries));
  }

  // ----- reading the items back

  lemma {:induction false} RunConcat(s: State, a: seq<Item>, b: seq<Item>)
    ensures Run(s, a + b) == Run(Run(s, a), b)
    decreases |a|
  {
    if a == [] {
      assert a + b == b;
    } else {
      assert (a + b)[1..] == a[1..] + b;
      RunConcat(Step(s, a[0]), a[1..], b);
    }
  }

  lemma RunOne(s: State, i: Item)
    ensures Run(s, [i]) == Step(s, i) && Run(s, []) == s
  {
    assert [i][1..] == [];
  }

  lemma RunOption(s: State, key: string, value: Option<string>)
    ensures Run(s, OptionItem(key, value)) ==
      match value case None => s case Some(v) =>
        (match s.entry
         case None => State(SetConfig(s.config, key, v), None)
         case Some(e) => State(s.config, Some(SetEntry(e, key, v))))
  {
    RunOne(s, Other);
    if value.Some? {
      RunOne(s, Pair(key, Quote(value.value)));
      UnquoteQuote(value.value);
    }
    hide SetConfig, SetEntry, Quote, Unquote;
  }

  lemma {:induction false} RunInitrds(c: Config, e: Entry, values: seq<string>)
    ensures Run(State(c, Some(e)), RepeatItems("initrd", values)) == State(c, Some(e.(initrd := e.initrd + values)))
    decreases |values|
  {
    hide Quote, Unquote;
    if values == [] {
      assert e.initrd + [] == e.initrd;
    } else {
      UnquoteQuote(values[0]);
      var first := [Pair("initrd", Quote(values[0]))];
      RunConcat(State(c, Some(e)), first, RepeatItems("initrd", values[1..]));
      RunOne(State(c, Some(e)), first[0]);
      RunInitrds(c, e.(initrd := e.initrd + [values[0]]), values[1..]);
      assert e.initrd + [values[0]] + values[1..] == e.initrd + values;
    }
  }

  lemma RunTimeout(s: State, timeout: Option<nat>)
    requires s.entry.None? && s.config.timeout.None? && (timeout.Some? ==> timeout.value < U32_LIMIT)
    ensures Run(s, TimeoutItem(timeout)) == State(s.config.(timeout := timeout), None)
  {
    RunOne(s, Other);
    if timeout.Some? {
      TimeoutReads(timeout.value);
      ParsePrint(timeout.value, U32_LIMIT);
      RunOne(s, Pair("timeout", Print(timeout.value)));
    }
    hide Run, Print, Unquote, ParseUnsigned, Classify, PairLine;
  }

  lemma RunLogo(s: State, logo: Option<bool>)
    requires s.entry.None? && s.config.logo.None?
    ensures Run(s, LogoItem(logo)) == State(s.config.(logo := logo), None)
  {
    RunOne(s, Other);
    if logo.Some? {
      LogoReads(logo.value);
      RunOne(s, Pair("logo", PrintBool(logo.value)));
    }
    hide Run, PrintBool, Unquote, ParseBool, Classify, PairLine;
  }

  lemma RunHeadOption(s: State, key: string, value: Option<string>)
    requires s.entry.None?
    ensures key == "default" && s.config.default.None? ==>
      Run(s, OptionItem(key, value)) == State(s.config.(default := value), None)
    ensures key == "spinner" && s.config.spinner.None? ==>
      Run(s, OptionItem(key, value)) == State(s.config.(spinner := value), None)
    ensures key == "fastboot" && s.config.fastboot.None? ==>
      Run(s, OptionItem(key, value)) == State(s.config.(fastboot := value), None)
  {
    RunOption(s, key, value);
    hide Run, OptionItem, ParseUnsigned, ParseBool;
  }

  lemma RunHead(c: Config)
    requires CleanConfig(c)
    ensures Run(State(EMPTY_CONFIG, None), HeadItems(c)) == State(c.(entries := []), None)
  {
    hide OptionItem, Run, TimeoutItem, LogoItem, CleanEntry;
    var s0 := State(EMPTY_CONFIG, None);
    var i := [Other];
    RunOne(s0, Other);
    RunConcat(s0, i, OptionItem("default", c.default));
    RunHeadOption(s0, "default", c.default);
    i := i + OptionItem("default", c.default);
    var s1 := State(EMPTY_CONFIG.(default := c.default), None);
    RunConcat(s0, i, TimeoutItem(c.timeout));
    RunTimeout(s1, c.timeout);
    i := i + TimeoutItem(c.timeout);
    var s2 := State(s1.config.(timeout := c.timeout), None);
    RunConcat(s0, i, OptionItem("spinner", c.spinner));
    RunHeadOption(s2, "spinner", c.spinner);
    i := i + OptionItem("spinner", c.spinner);
    var s3 := State(s2.config.(spinner := c.spinner), None);
    RunConcat(s0, i, LogoItem(c.logo));
    RunLogo(s3, c.logo);
    i := i + LogoItem(c.logo);
    var s4 := State(s3.config.(logo := c.logo), None);
    RunConcat(s0, i, OptionItem("fastboot", c.fastboot));
    RunHeadOption(s4, "fastboot", c.fastboot);
  }

  /** A rendered table up to its initrds. */
  lemma RunEntryHead(s: State, e: Entry)
    ensures Run(s, EntryHead(e)) == State(Close(s), Some(e.(initrd := [], options := None)))
  {
    var c := Close(s);
    RunFirstThree(s, e.id);
    hide Quote, Unquote, OptionItem, RepeatItems, Run, Close;
    var i := [Other, Header, Pair("id", Quote(e.id))];
    var t := EMPTY_ENTRY.(id := e.id);
    RunConcat(s, i, OptionItem("title", e.title));
    RunOption(State(c, Some(t)), "title", e.title);
    i, t := i + OptionItem("title", e.title), t.(title := e.title);
    RunConcat(s, i, OptionItem("kind", e.kind));
    RunOption(State(c, Some(t)), "kind", e.kind);
    i, t := i + OptionItem("kind", e.kind), t.(kind := e.kind);
    RunConcat(s, i, OptionItem("linux", e.linux));
    RunOption(State(c, Some(t)), "linux", e.linux);
    i, t := i + OptionItem("linux", e.linux), t.(linux := e.linux);
    RunConcat(s, i, OptionItem("efi", e.efi));
    RunOption(State(c, Some(t)), "efi", e.efi);
    i, t := i + OptionItem("efi", e.efi), t.(efi := e.efi);
    RunConcat(s, i, OptionItem("image", e.image));
    RunOption(State(c, Some(t)), "image", e.image);
  }

  /** One rendered table: whatever was open is closed, and the entry itself is
      open afterwards. */
  lemma RunEntry(s: State, e: Entry)
    ensures Run(s, EntryItems(e)) == State(Close(s), Some(e))
  {
    hide Quote, OptionItem, RepeatItems, EntryHead, Run, Close;
    RunEntryHead(s, e);
    var c, i := Close(s), EntryHead(e);
    var t := e.(initrd := [], options := None);
    RunConcat(s, i, RepeatItems("initrd", e.initrd));
    RunInitrds(c, t, e.initrd);
    assert [] + e.initrd == e.initrd;
    i, t := i + RepeatItems("initrd", e.initrd), t.(initrd := e.initrd);
    RunConcat(s, i, OptionItem("options", e.options));
    RunOption(State(c, Some(t)), "options", e.options);
  }

  lemma RunFirstThree(s: State, id: string)
    ensures Run(s, [Other, Header, Pair("id", Quote(id))]) == State(Close(s), Some(EMPTY_ENTRY.(id := id)))
  {
    UnquoteQuote(id);
    hide Quote, Unquote, Close;
    var i := Pair("id", Quote(id));
    assert [Other, Header, i] == [Other] + ([Header] + [i]);
    RunConcat(s, [Other], [Header] + [i]);
    RunConcat(s, [Header], [i]);
    RunOne(s, Other);
    RunOne(s, Header);
    RunOne(State(Close(s), Some(EMPTY_ENTRY)), i);
  }

  lemma {:induction false} RunEntries(s: State, entries: seq<Entry>)
    ensures Close(Run(s, AllEntryItems(entries))) == Close(s).(entries := Close(s).entries + entries)
    decreases |entries|
  {
    if entries == [] {
      assert Close(s).entries + [] == Close(s).entries;
    } else {
      hide EntryItems;
      RunConcat(s, EntryItems(entries[0]), AllEntryItems(entries[1..]));
      RunEntry(s, entries[0]);
      RunEntries(State(Close(s), Some(entries[0])), entries[1..]);
      assert Close(s).entries + [entries[0]] + entries[1..] == Close(s).entries + entries;
    }
  }

  /** Reading back what was written gives the same configuration, for every
      configuration whose strings hold no comment sign and no line feed. */
  lemma ParseOfRender(c: Config)
    requires CleanConfig(c)
    ensures ReadConfig(Rendered(c)) == c
  {
    hide HeadItems, Run, CleanEntry, Rendered;
    RenderedItems(c);
    RunHead(c);
    RunConcat(State(EMPTY_CONFIG, None), HeadItems(c), AllEntryItems(c.entries));
    RunEntries(State(c.(entries := []), None), c.entries);
    assert [] + c.entries == c.entries;
  }

  // ----- everything that is read is clean

  predicate CleanState(s: State) {
    CleanConfig(s.config) && (s.entry.Some? ==> CleanEntry(s.entry.value))
  }

  lemma CleanUnquote(v: string)
    requires Clean(v)
    ensures Clean(Unquote(v))
  {}

  lemma CleanSetEntry(e: Entry, key: string, v: string)
    requires CleanEntry(e) && Clean(v)
    ensures CleanEntry(SetEntry(e, key, v))
  {
    hide Clean;
    CleanAppend(e.initrd, v);
    var after := SetEntry(e, key, v);
    assert after == e || after == e.(id := v) || after == e.(title := Some(v)) || after == e.(kind := Some(v)) ||
           after == e.(linux := Some(v)) || after == e.(efi := Some(v)) || after == e.(image := Some(v)) ||
           after == e.(initrd := e.initrd + [v]) || after == e.(options := Some(v));
    hide SetEntry;
  }

  lemma CleanAppend(values: seq<string>, v: string)
    requires Clean(v) && forall x <- values :: Clean(x)
    ensures forall x <- values + [v] :: Clean(x)
  {
    hide Clean;
  }

  lemma CleanSetConfig(c: Config, key: string, v: string)
    requires CleanConfig(c) && Clean(v)
    ensures CleanConfig(SetConfig(c, key, v))
  {
    hide Clean, CleanEntry, IsDigit, DigitsValue;
  }

  lemma CleanStep(s: State, i: Item)
    requires CleanState(s) && (i.Pair? ==> Clean(i.value))
    ensures CleanState(Step(s, i))
  {
    EmptyIsClean();
    hide Clean, CleanEntry, Unquote, SetEntry, SetConfig;
    if i.Pair? {
      CleanUnquote(i.value);
      if s.entry.Some? {
        CleanSetEntry(s.entry.value, i.key, Unquote(i.value));
      } else {
        CleanSetConfig(s.config, i.key, Unquote(i.value));
      }
    } else if i.Header? && s.entry.Some? {
      assert forall e <- s.config.entries + [s.entry.value] :: CleanEntry(e);
    }
  }

  lemma {:induction false} CleanRun(s: State, items: seq<Item>)
    requires CleanState(s) && forall i <- items :: i.Pair? ==> Clean(i.value)
    ensures CleanState(Run(s, items))
    decreases |items|
  {
    hide CleanState, Step, Clean;
    if items != [] {
      assert items[0] in items;
      CleanStep(s, items[0]);
      CleanRun(Step(s, items[0]), items[1..]);
    }
  }

  lemma ReadIsClean(text: string)
    ensures CleanConfig(ReadConfig(text))
  {
    hide Classify, CleanEntry;
    var lines := Lines(text);
    LinesAreLines(text);
    forall i <- Items(lines) | i.Pair? ensures Clean(i.value) {
      var n :| 0 <= n < |lines| && Items(lines)[n] == i;
      assert lines[n] in lines;
      ReadValuesAreClean(lines[n]);
    }
    assert CleanEntry(EMPTY_ENTRY) by { EmptyIsClean(); }
    CleanRun(State(EMPTY_CONFIG, None), Items(lines));
    CleanStep(Run(State(EMPTY_CONFIG, None), Items(lines)), Header);
  }

  lemma EmptyIsClean()
    ensures CleanEntry(EMPTY_ENTRY)
  {}

  /** For every text at all, rewriting the file through the tool and reading it
      again gives what the first reading gave. */
  lemma RewriteIsStable(text: string)
    ensures ReadConfig(Rendered(ReadConfig(text))) == ReadConfig(text)
  {
    ReadIsClean(text);
    ParseOfRender(ReadConfig(text));
  }
}
