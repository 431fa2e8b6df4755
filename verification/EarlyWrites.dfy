/** What saving the settings and the command-line tool do to the readings made
    before the menu is loaded. */
module EarlyWrites {
  import opened Wrappers
  import opened Text
  import opened ConfigLines
  import opened BootConfig
  import opened Settings
  import opened SettingsMeaning
  import opened EarlyReaders
  import opened BootTables
  import C = CliConfig
  import R = CliRoundTrip
  import P = CliPreserves

  /** The valid fastboot settings of the header, in order. */
  function FastbootsOf(header: seq<Item>): seq<Fastboot> {
    if header == [] then []
    else if header[0].Pair? && header[0].key == "fastboot" && ParseFastboot(Unquote(header[0].value)).Some?
    then [ParseFastboot(Unquote(header[0].value)).value] + FastbootsOf(header[1..])
    else FastbootsOf(header[1..])
  }

  function FirstOrOff(modes: seq<Fastboot>): Fastboot { if modes == [] then FastbootOff else modes[0] }

  lemma {:induction false} FastbootTakesFirst(items: seq<Item>)
    ensures FirstFastboot(items) == FirstOrOff(FastbootsOf(HeaderItems(items)))
  {
    if items != [] && !items[0].Header? {
      FastbootTakesFirst(items[1..]);
      assert HeaderItems(items) == [items[0]] + HeaderItems(items[1..]);
    }
  }

  lemma {:induction false} SettingsConcat(a: seq<Item>, b: seq<Item>)
    ensures FastbootsOf(a + b) == FastbootsOf(a) + FastbootsOf(b)
    ensures ModesOf(a + b) == ModesOf(a) + ModesOf(b)
    ensures LogoValues(a + b) == LogoValues(a) + LogoValues(b)
  {
    hide Unquote, ParseFastboot, ParseMode;
    if a == [] {
      assert a + b == b;
    } else {
      assert (a + b)[1..] == a[1..] + b;
      SettingsConcat(a[1..], b);
    }
  }

  /** What one line contributes. */
  lemma SettingOf(key: string, v: string)
    ensures FastbootsOf([Pair(key, v)]) ==
      if key == "fastboot" && ParseFastboot(Unquote(v)).Some? then [ParseFastboot(Unquote(v)).value] else []
    ensures ModesOf([Pair(key, v)]) ==
      if key == "spinner" && ParseMode(Unquote(v)).Some? then [ParseMode(Unquote(v)).value] else []
    ensures LogoValues([Pair(key, v)]) == if key == "logo" then [v] else []
    ensures FastbootsOf([]) == [] && ModesOf([]) == [] && LogoValues([]) == []
    ensures FastbootsOf([Other]) == [] && ModesOf([Other]) == [] && LogoValues([Other]) == []
  {
    hide Unquote, ParseFastboot, ParseMode;
    assert [Pair(key, v)][1..] == [] && [Other][1..] == [];
  }

  // ----- a save

  lemma {:induction false} KeptFastboots(lines: seq<string>)
    ensures FastbootsOf(Items(Kept(lines))) == FastbootsOf(Items(lines))
  {
    hide Classify, Unquote, ParseFastboot;
    if lines != [] {
      KeptFastboots(lines[1..]);
      assert Items(lines) == [Classify(lines[0])] + Items(lines[1..]);
      assert Items(lines)[1..] == Items(lines[1..]);
      assert Items([lines[0]] + Kept(lines[1..]))[1..] == Items(Kept(lines[1..]));
    }
  }

  lemma NoFastboot(s: Saved)
    ensures FastbootsOf(HeadItems(s)) == []
  {
    hide Unquote, ParseFastboot, Print, PrintBool, Quote, FastbootsOf;
    var t, m, l := Print(s.timeout), Quote(ModeName(s.mode)), PrintBool(s.logo);
    SettingOf("timeout", t);
    SettingOf("spinner", m);
    SettingOf("logo", l);
    SettingsConcat([Pair("timeout", t)], [Pair("spinner", m)]);
    SettingsConcat([Pair("timeout", t)] + [Pair("spinner", m)], [Pair("logo", l)]);
    assert HeadItems(s) == [Pair("timeout", t)] + [Pair("spinner", m)] + [Pair("logo", l)];
  }

  /** Saving the settings leaves the early fastboot reading as it was. */
  lemma SaveKeepsFastboot(text: string, s: Saved)
    ensures FirstFastboot(Items(Lines(Persisted(text, s)))) == FirstFastboot(Items(Lines(text)))
  {
    hide Classify, Lines, Persisted, HeadItems, Kept, FastbootsOf, HeaderItems, HeaderPart, BlocksOf, FirstFastboot;
    var lines := Lines(text);
    PersistedItems(text, s);
    FastbootTakesFirst(Items(Lines(Persisted(text, s))));
    FastbootTakesFirst(Items(lines));
    SettingsConcat(HeadItems(s), Items(Kept(HeaderPart(lines))));
    NoFastboot(s);
    KeptFastboots(HeaderPart(lines));
    HeaderPartItems(lines);
  }

  // ----- the tool

  lemma {:induction false} ToolFastboot(c: C.Config, items: seq<Item>)
    ensures P.CliHeader(c, items).fastboot == Later(LastValue(items, "fastboot"), c.fastboot)
    decreases |items|
  {
    hide Unquote;
    if items != [] {
      ToolFastboot(if items[0].Pair? then C.SetConfig(c, items[0].key, Unquote(items[0].value)) else c, items[1..]);
    }
  }

  /** The header of a file the tool wrote. */
  lemma RenderedHeader(c: C.Config)
    requires R.CleanConfig(c)
    ensures HeaderItems(Items(Lines(C.Rendered(c)))) == R.HeadItems(c) + (if c.entries == [] then [] else [Other])
  {
    hide R.CleanConfig, C.Rendered, Lines, R.HeadItems;
    R.RenderedItems(c);
    HeadHasNoHeader(c);
    HeaderOfConcat(R.HeadItems(c), R.AllEntryItems(c.entries));
    if c.entries != [] {
      var rest := R.AllEntryItems(c.entries);
      assert rest[0] == Other && rest[1] == Header && rest[1..][0] == Header;
      assert HeaderItems(rest) == [Other] + HeaderItems(rest[1..]);
    }
  }

  lemma HeadHasNoHeader(c: C.Config)
    ensures forall i <- R.HeadItems(c) :: !i.Header?
  {
    hide Quote, Print, PrintBool;
  }

  lemma OptionSettings(key: string, value: Option<string>)
    ensures var i := R.OptionItem(key, value);
      && FastbootsOf(i) == (if key == "fastboot" && value.Some? then ValidOf(ParseFastboot(value.value)) else [])
      && ModesOf(i) == (if key == "spinner" && value.Some? then ValidOf(ParseMode(value.value)) else [])
      && (key != "logo" ==> LogoValues(i) == [])
  {
    if value.Some? {
      SettingOf(key, Quote(value.value));
      UnquoteQuote(value.value);
    }
    hide Quote, Unquote, ParseFastboot, ParseMode;
  }

  lemma PlainSettings(c: C.Config)
    ensures FastbootsOf(R.TimeoutItem(c.timeout)) == [] && ModesOf(R.TimeoutItem(c.timeout)) == []
    ensures LogoValues(R.TimeoutItem(c.timeout)) == []
    ensures FastbootsOf(R.LogoItem(c.logo)) == [] && ModesOf(R.LogoItem(c.logo)) == []
    ensures LogoValues(R.LogoItem(c.logo)) == if c.logo.Some? then [PrintBool(c.logo.value)] else []
  {
    hide Print, PrintBool, Unquote, ParseFastboot, ParseMode;
    if c.timeout.Some? { SettingOf("timeout", Print(c.timeout.value)); }
    if c.logo.Some? { SettingOf("logo", PrintBool(c.logo.value)); }
  }

  /** What the three early readers find in it. */
  lemma RenderedSettings(c: C.Config)
    ensures var h := R.HeadItems(c) + (if c.entries == [] then [] else [Other]);
      && FastbootsOf(h) == (if c.fastboot.Some? then ValidOf(ParseFastboot(c.fastboot.value)) else [])
      && ModesOf(h) == (if c.spinner.Some? then ValidOf(ParseMode(c.spinner.value)) else [])
      && LogoValues(h) == if c.logo.Some? then [PrintBool(c.logo.value)] else []
  {
    var tail := if c.entries == [] then [] else [Other];
    var i1, i2, i3 := R.OptionItem("default", c.default), R.TimeoutItem(c.timeout), R.OptionItem("spinner", c.spinner);
    var i4, i5 := R.LogoItem(c.logo), R.OptionItem("fastboot", c.fastboot);
    SettingOf("", "");
    hide PrintBool, ParseFastboot, ParseMode, FastbootsOf, ModesOf, LogoValues, R.OptionItem, R.TimeoutItem, R.LogoItem,
         ValidOf;
    OptionSettings("default", c.default);
    OptionSettings("spinner", c.spinner);
    OptionSettings("fastboot", c.fastboot);
    PlainSettings(c);
    SettingsConcat([Other], i1);
    SettingsConcat([Other] + i1, i2);
    SettingsConcat([Other] + i1 + i2, i3);
    SettingsConcat([Other] + i1 + i2 + i3, i4);
    SettingsConcat([Other] + i1 + i2 + i3 + i4, i5);
    SettingsConcat([Other] + i1 + i2 + i3 + i4 + i5, tail);
  }

  function ValidOf<T>(o: Option<T>): seq<T> { if o.Some? then [o.value] else [] }

  /** The early fastboot reading survives the tool exactly when the first valid
      setting is what the last fastboot line says, off if that is not valid. */
  lemma FastbootSurvivesIff(text: string)
    ensures var header := HeaderItems(Items(Lines(text)));
      var last := LastValue(header, "fastboot");
      FirstFastboot(Items(Lines(P.Rewritten(text)))) == FirstFastboot(Items(Lines(text))) <==>
        FirstOrOff(FastbootsOf(header)) == OrElse(if last.Some? then ParseFastboot(last.value) else None, FastbootOff)
  {
    hide Lines, Items, HeaderItems, BlocksOf, C.Rendered, P.CliHeader, P.CliEntries, LastValue, FastbootsOf, ModesOf,
         LogoValues, R.HeadItems, FirstFastboot, ParseFastboot, ParseMode;
    var items := Items(Lines(text));
    var c := C.ReadConfig(text);
    R.ReadIsClean(text);
    P.CliByTables(C.EMPTY_CONFIG, items);
    ToolFastboot(C.EMPTY_CONFIG, HeaderItems(items));
    RenderedHeader(c);
    RenderedSettings(c);
    FastbootTakesFirst(items);
    FastbootTakesFirst(Items(Lines(C.Rendered(c))));
  }

  /** On every file the tool wrote the early spinner and logo readers agree with
      the full parse. */
  lemma ToolFilesReadAlike(c: C.Config)
    requires R.CleanConfig(c)
    ensures var text := C.Rendered(c);
      FirstMode(Items(Lines(text))) == ReadMenu(text).spinner && FirstLogo(Items(Lines(text))) == ReadMenu(text).logo
  {
    RenderedHeader(c);
    RenderedSettings(c);
    if c.logo.Some? {
      BoolIsValueLike(c.logo.value);
      assert LastTruth([PrintBool(c.logo.value)]) == Some(c.logo.value);
    }
    hide Lines, Items, HeaderItems, C.Rendered, FastbootsOf, ModesOf, LogoValues, R.HeadItems, FirstMode, FirstLogo, ReadMenu,
         R.CleanConfig, LastTruth, ParseBool, PrintBool;
    SpinnerAgreesIff(C.Rendered(c));
    LogoAgreesIff(C.Rendered(c));
  }

  lemma OnOffWords()
    ensures Writable(["on", "off"]) && KeyLike("fastboot") && OneLine("fastboot")
    ensures Unquote("on") == "on" && Unquote("off") == "off"
  {}

  lemma TwoPairs(key: string, a: string, b: string)
    ensures Pairs(key, [a, b]) == [Pair(key, a)] + ([Pair(key, b)] + [])
  {
    assert [a, b][1..] == [b] && [b][1..] == [];
    assert Pairs(key, [b]) == [Pair(key, b)] + [];
  }

  lemma OnOffItems()
    ensures var items := Items(Lines(Written("fastboot", ["on", "off"])));
      HeaderItems(items) == items == [Pair("fastboot", "on")] + ([Pair("fastboot", "off")] + [])
  {
    OnOffWords();
    TwoPairs("fastboot", "on", "off");
    hide Writable, KeyLike, OneLine, Lines, Unlines, Items, HeaderItems, PairLines, Pairs, Unquote;
    PairLinesRead("fastboot", ["on", "off"]);
    ReadBack(PairLines("fastboot", ["on", "off"]));
    PairsAreHeader("fastboot", ["on", "off"]);
  }

  lemma OnOff()
    ensures var items := Items(Lines(Written("fastboot", ["on", "off"])));
      && HeaderItems(items) == items && FastbootsOf(items) == [FastbootOn, FastbootOff]
      && LastValue(items, "fastboot") == Some("off")
  {
    OnOffWords();
    OnOffItems();
    var i, j := Pair("fastboot", "on"), Pair("fastboot", "off");
    SettingOf("fastboot", "on");
    SettingOf("fastboot", "off");
    hide Writable, KeyLike, OneLine, Written, Unquote, Lines, Items, HeaderItems, FastbootsOf, LastValue;
    SettingsConcat([i], [j] + []);
    assert [j] + [] == [j];
    LastOf(j, [], "fastboot");
    LastOf(i, [j] + [], "fastboot");
  }

  /** `fastboot = on`, then `fastboot = off`: fast before the tool rewrote the
      file, not after. */
  lemma FastbootTwice()
    ensures var text := Written("fastboot", ["on", "off"]);
      && FirstFastboot(Items(Lines(text))) == FastbootOn
      && FirstFastboot(Items(Lines(P.Rewritten(text)))) != FastbootOn
  {
    OnOff();
    var text := Written("fastboot", ["on", "off"]);
    hide Lines, Written, Items, HeaderItems, FastbootsOf, FirstFastboot, P.Rewritten, LastValue;
    FastbootTakesFirst(Items(Lines(text)));
    FastbootSurvivesIff(text);
  }
}
