/** What an edit through the command-line tool does to the menu the bootloader
    shows: the bootloader's reading of the rewritten file against its reading
    of the original. */
module CliBoot {
  import opened Wrappers
  import opened Text
  import opened ConfigLines
  import B = BootConfig
  import C = CliConfig
  import R = CliRoundTrip

  // ----- the bootloader's reading of a rendered configuration

  /** The raw entry the bootloader sees in a rendered table. */
  function RawOf(e: C.Entry): B.RawEntry {
    B.RawEntry(Some(e.id), e.title, if e.efi.Some? then Some("efi") else e.kind,
               if e.efi.Some? then e.efi else e.linux, e.initrd, e.options, e.image)
  }

  function EntriesOf(entries: seq<C.Entry>): seq<B.Entry> {
    if entries == [] then [] else B.Pushed(RawOf(entries[0])) + EntriesOf(entries[1..])
  }

  function HeaderOf(c: C.Config): B.MenuData {
    B.MenuData([], c.default, c.timeout,
               B.OrElse(if c.spinner.Some? then B.ParseMode(c.spinner.value) else None, B.Graphical),
               B.OrElse(c.logo, true))
  }

  lemma RunOne(s: B.State, i: Item)
    ensures B.Run(s, [i]) == B.Step(s, i) && B.Run(s, []) == s
  {
    assert [i][1..] == [];
  }

  lemma RunOption(m: B.MenuData, raw: B.RawEntry, key: string, value: Option<string>)
    ensures B.Run(B.State(m, Some(raw)), R.OptionItem(key, value)) ==
      B.State(m, Some(With(raw, key, value)))
  {
    var s := B.State(m, Some(raw));
    RunOne(s, Other);
    if value.Some? {
      RunOne(s, Pair(key, Quote(value.value)));
      UnquoteQuote(value.value);
    }
    hide B.SetKey, Quote, Unquote;
  }

  lemma RunHeaderOption(m: B.MenuData, key: string, value: Option<string>)
    ensures B.Run(B.State(m, None), R.OptionItem(key, value)) ==
      B.State(if value.Some? then B.SetHeader(m, key, value.value) else m, None)
  {
    var s := B.State(m, None);
    RunOne(s, Other);
    if value.Some? {
      RunOne(s, Pair(key, Quote(value.value)));
      UnquoteQuote(value.value);
    }
    hide B.SetHeader, Quote, Unquote;
  }

  lemma {:induction false} RunInitrds(m: B.MenuData, raw: B.RawEntry, values: seq<string>)
    ensures B.Run(B.State(m, Some(raw)), R.RepeatItems("initrd", values)) ==
      B.State(m, Some(raw.(initrds := raw.initrds + values)))
    decreases |values|
  {
    hide Quote, Unquote;
    if values == [] {
      assert raw.initrds + [] == raw.initrds;
    } else {
      UnquoteQuote(values[0]);
      var first := [Pair("initrd", Quote(values[0]))];
      B.RunConcat(B.State(m, Some(raw)), first, R.RepeatItems("initrd", values[1..]));
      RunOne(B.State(m, Some(raw)), first[0]);
      RunInitrds(m, raw.(initrds := raw.initrds + [values[0]]), values[1..]);
      assert raw.initrds + [values[0]] + values[1..] == raw.initrds + values;
    }
  }

  lemma RunFirstThree(s: B.State, id: string)
    ensures B.Run(s, [Other, Header, Pair("id", Quote(id))]) ==
      B.State(B.PushOpen(s), Some(B.EMPTY_RAW.(id := Some(id))))
  {
    UnquoteQuote(id);
    hide Quote, Unquote, B.PushOpen;
    var i := Pair("id", Quote(id));
    assert [Other, Header, i] == [Other] + ([Header] + [i]);
    B.RunConcat(s, [Other], [Header] + [i]);
    B.RunConcat(s, [Header], [i]);
    RunOne(s, Other);
    RunOne(s, Header);
    RunOne(B.State(B.PushOpen(s), Some(B.EMPTY_RAW)), i);
  }

  /** One option of a table, by name. */
  function With(raw: B.RawEntry, key: string, value: Option<string>): B.RawEntry {
    if value.Some? then B.SetKey(raw, key, value.value) else raw
  }

  /** The five options before the initrds. */
  lemma RunOptions(s: B.State, e: C.Entry)
    ensures B.Run(s, R.EntryHead(e)) ==
      B.State(B.PushOpen(s), Some(With(With(With(With(With(B.EMPTY_RAW.(id := Some(e.id)), "title", e.title),
        "kind", e.kind), "linux", e.linux), "efi", e.efi), "image", e.image)))
  {
    var m := B.PushOpen(s);
    RunFirstThree(s, e.id);
    hide Quote, Unquote, R.OptionItem, B.Run, B.PushOpen, B.SetKey, With;
    var i := [Other, Header, Pair("id", Quote(e.id))];
    var t := B.EMPTY_RAW.(id := Some(e.id));
    B.RunConcat(s, i, R.OptionItem("title", e.title));
    RunOption(m, t, "title", e.title);
    i, t := i + R.OptionItem("title", e.title), With(t, "title", e.title);
    B.RunConcat(s, i, R.OptionItem("kind", e.kind));
    RunOption(m, t, "kind", e.kind);
    i, t := i + R.OptionItem("kind", e.kind), With(t, "kind", e.kind);
    B.RunConcat(s, i, R.OptionItem("linux", e.linux));
    RunOption(m, t, "linux", e.linux);
    i, t := i + R.OptionItem("linux", e.linux), With(t, "linux", e.linux);
    B.RunConcat(s, i, R.OptionItem("efi", e.efi));
    RunOption(m, t, "efi", e.efi);
    i, t := i + R.OptionItem("efi", e.efi), With(t, "efi", e.efi);
    B.RunConcat(s, i, R.OptionItem("image", e.image));
    RunOption(m, t, "image", e.image);
  }

  lemma RunEntry(s: B.State, e: C.Entry)
    ensures B.Run(s, R.EntryItems(e)) == B.State(B.PushOpen(s), Some(RawOf(e)))
  {
    var m := B.PushOpen(s);
    RunOptions(s, e);
    RawByKeys(e);
    hide Quote, Unquote, R.OptionItem, R.RepeatItems, R.EntryHead, B.Run, B.PushOpen, RawOf, B.SetKey, With;
    var i := R.EntryHead(e);
    var t := B.Run(s, i).entry.value;
    B.RunConcat(s, i, R.RepeatItems("initrd", e.initrd));
    RunInitrds(m, t, e.initrd);
    i, t := i + R.RepeatItems("initrd", e.initrd), t.(initrds := t.initrds + e.initrd);
    B.RunConcat(s, i, R.OptionItem("options", e.options));
    RunOption(m, t, "options", e.options);
  }

  lemma RawByKeys(e: C.Entry)
    ensures
      var t := With(With(With(With(With(B.EMPTY_RAW.(id := Some(e.id)), "title", e.title), "kind", e.kind),
                              "linux", e.linux), "efi", e.efi), "image", e.image);
      With(t.(initrds := t.initrds + e.initrd), "options", e.options) == RawOf(e)
  {
    KnownKeys(B.EMPTY_RAW, "");
    var t := B.EMPTY_RAW.(id := Some(e.id));
    KeyEffects(t, e.title);
    var t1 := With(t, "title", e.title);
    KeyEffects(t1, e.kind);
    var t2 := With(t1, "kind", e.kind);
    KeyEffects(t2, e.linux);
    var t3 := With(t2, "linux", e.linux);
    KeyEffects(t3, e.efi);
    var t4 := With(t3, "efi", e.efi);
    KeyEffects(t4, e.image);
    var t5 := With(t4, "image", e.image);
    assert [] + e.initrd == e.initrd;
    KeyEffects(t5.(initrds := t5.initrds + e.initrd), e.options);
    hide With, B.SetKey;
  }

  lemma KnownKeys(raw: B.RawEntry, v: string)
    ensures B.SetKey(raw, "title", v) == raw.(title := Some(v)) && B.SetKey(raw, "kind", v) == raw.(kind := Some(v))
    ensures B.SetKey(raw, "linux", v) == raw.(kernel := Some(v)) && B.SetKey(raw, "image", v) == raw.(image := Some(v))
    ensures B.SetKey(raw, "efi", v) == raw.(kind := Some("efi"), kernel := Some(v))
    ensures B.SetKey(raw, "options", v) == raw.(options := Some(v))
  {}

  lemma KeyEffects(raw: B.RawEntry, v: Option<string>)
    ensures v.None? ==> forall k :: With(raw, k, v) == raw
    ensures v.Some? ==> With(raw, "title", v) == raw.(title := v) && With(raw, "kind", v) == raw.(kind := v)
    ensures v.Some? ==> With(raw, "linux", v) == raw.(kernel := v) && With(raw, "image", v) == raw.(image := v)
    ensures v.Some? ==> With(raw, "efi", v) == raw.(kind := Some("efi"), kernel := v)
    ensures v.Some? ==> With(raw, "options", v) == raw.(options := v)
  {
    if v.Some? { KnownKeys(raw, v.value); }
    hide B.SetKey;
  }

  lemma {:induction false} RunEntries(s: B.State, entries: seq<C.Entry>)
    ensures B.PushOpen(B.Run(s, R.AllEntryItems(entries))) ==
      B.PushOpen(s).(entries := B.PushOpen(s).entries + EntriesOf(entries))
    decreases |entries|
  {
    hide R.EntryItems, B.Pushed, RawOf;
    if entries == [] {
      assert B.PushOpen(s).entries + [] == B.PushOpen(s).entries;
    } else {
      B.RunConcat(s, R.EntryItems(entries[0]), R.AllEntryItems(entries[1..]));
      RunEntry(s, entries[0]);
      RunEntries(B.State(B.PushOpen(s), Some(RawOf(entries[0]))), entries[1..]);
      var before, p, rest := B.PushOpen(s).entries, B.Pushed(RawOf(entries[0])), EntriesOf(entries[1..]);
      assert before + p + rest == before + (p + rest);
    }
  }

  lemma HeaderEffects(m: B.MenuData, v: string)
    ensures B.SetHeader(m, "default", v) == m.(default := Some(v)) && B.SetHeader(m, "fastboot", v) == m
    ensures B.SetHeader(m, "spinner", v) == m.(spinner := B.OrElse(B.ParseMode(v), m.spinner))
    ensures B.SetHeader(m, "timeout", v) == m.(timeout := ParseUnsigned(v, B.U64_LIMIT))
    ensures B.SetHeader(m, "logo", v) == m.(logo := B.OrElse(ParseBool(v), m.logo))
  {
    hide ParseUnsigned, ParseBool, B.ParseMode;
  }

  lemma RunTimeout(m: B.MenuData, timeout: Option<nat>)
    requires m.timeout.None? && (timeout.Some? ==> timeout.value < C.U32_LIMIT)
    ensures B.Run(B.State(m, None), R.TimeoutItem(timeout)) == B.State(m.(timeout := timeout), None)
  {
    RunOne(B.State(m, None), Other);
    if timeout.Some? {
      TimeoutReads(timeout.value);
      ParsePrint(timeout.value, B.U64_LIMIT);
      HeaderEffects(m, Print(timeout.value));
      RunOne(B.State(m, None), Pair("timeout", Print(timeout.value)));
    }
    hide B.Run, Print, Unquote, ParseUnsigned, Classify, PairLine, B.SetHeader;
  }

  lemma RunLogo(m: B.MenuData, logo: Option<bool>)
    ensures B.Run(B.State(m, None), R.LogoItem(logo)) == B.State(m.(logo := B.OrElse(logo, m.logo)), None)
  {
    RunOne(B.State(m, None), Other);
    if logo.Some? {
      LogoReads(logo.value);
      HeaderEffects(m, PrintBool(logo.value));
      RunOne(B.State(m, None), Pair("logo", PrintBool(logo.value)));
    }
    hide B.Run, PrintBool, Unquote, ParseBool, Classify, PairLine, B.SetHeader;
  }

  lemma RunHead(c: C.Config)
    requires R.CleanConfig(c)
    ensures B.Run(B.State(B.INITIAL_MENU, None), R.HeadItems(c)) == B.State(HeaderOf(c), None)
  {
    hide R.OptionItem, B.Run, R.TimeoutItem, R.LogoItem, R.CleanEntry, B.SetHeader, B.ParseMode;
    var s0 := B.State(B.INITIAL_MENU, None);
    var i := [Other];
    var m := B.INITIAL_MENU;
    RunOne(s0, Other);
    B.RunConcat(s0, i, R.OptionItem("default", c.default));
    RunHeaderOption(m, "default", c.default);
    if c.default.Some? { HeaderEffects(m, c.default.value); }
    i, m := i + R.OptionItem("default", c.default), m.(default := c.default);
    B.RunConcat(s0, i, R.TimeoutItem(c.timeout));
    RunTimeout(m, c.timeout);
    i, m := i + R.TimeoutItem(c.timeout), m.(timeout := c.timeout);
    B.RunConcat(s0, i, R.OptionItem("spinner", c.spinner));
    RunHeaderOption(m, "spinner", c.spinner);
    if c.spinner.Some? { HeaderEffects(m, c.spinner.value); }
    i, m := i + R.OptionItem("spinner", c.spinner), m.(spinner := HeaderOf(c).spinner);
    B.RunConcat(s0, i, R.LogoItem(c.logo));
    RunLogo(m, c.logo);
    i, m := i + R.LogoItem(c.logo), m.(logo := B.OrElse(c.logo, true));
    B.RunConcat(s0, i, R.OptionItem("fastboot", c.fastboot));
    RunHeaderOption(m, "fastboot", c.fastboot);
    if c.fastboot.Some? { HeaderEffects(m, c.fastboot.value); }
  }

  /** The menu the bootloader shows for a configuration the tool wrote. */
  lemma RenderedMenu(c: C.Config)
    requires R.CleanConfig(c)
    ensures B.ReadMenu(C.Rendered(c)) == HeaderOf(c).(entries := EntriesOf(c.entries))
  {
    hide R.HeadItems, B.Run, R.CleanEntry, C.Rendered, Lines, Items, EntriesOf, HeaderOf;
    R.RenderedItems(c);
    RunHead(c);
    var s0 := B.State(B.INITIAL_MENU, None);
    B.RunConcat(s0, R.HeadItems(c), R.AllEntryItems(c.entries));
    RunEntries(B.State(HeaderOf(c), None), c.entries);
    HeaderHasNoEntries(c);
    assert [] + EntriesOf(c.entries) == EntriesOf(c.entries);
  }

  lemma HeaderHasNoEntries(c: C.Config)
    ensures HeaderOf(c).entries == []
  {}
}
