/** `disable_next_boot_fastboot` of crates/r-boot/src/menu.rs: turning a
    one-shot fast boot off again without disturbing the rest of the file. */
module FastbootRewrite {
  import opened Wrappers
  import opened Text
  import opened ConfigLines
  import opened BootConfig

  const OFF_LINE := "fastboot = \"off\""

  /** A line the rewrite replaces. */
  predicate SetsFastboot(line: string) {
    Classify(line).Pair? && Classify(line).key == "fastboot"
  }

  /** The rewritten lines; `inEntries` once the first table has started. */
  function DisableLines(lines: seq<string>, inEntries: bool): seq<string>
    decreases |lines|
  {
    if lines == [] then []
    else if inEntries || Classify(lines[0]).Header? then [lines[0]] + DisableLines(lines[1..], true)
    else [if SetsFastboot(lines[0]) then OFF_LINE else lines[0]] + DisableLines(lines[1..], false)
  }

  function Disabled(text: string): string { Unlines(DisableLines(Lines(text), false)) }

  /** The text written back, given the text read. */
  method DisableNextBootFastboot(contents: string) returns (updated: string)
    ensures updated == Disabled(contents)
  {
    hide Classify, Lines;
    var lines := Lines(contents);
    var inEntries := false;
    updated := "";
    assert updated + Disabled(contents) == Disabled(contents);
    for i := 0 to |lines|
      invariant updated + Unlines(DisableLines(lines[i..], inEntries)) == Disabled(contents)
    {
      var line := lines[i];
      ghost var before := updated;
      ghost var open := inEntries;
      assert lines[i..][0] == line && lines[i..][1..] == lines[i + 1..];
      if !inEntries && Classify(line).Header? { inEntries := true; }
      var written := if !inEntries && SetsFastboot(line) then OFF_LINE else line;
      updated := updated + written + "\n";
      ghost var rest := DisableLines(lines[i + 1..], inEntries);
      assert DisableLines(lines[i..], open) == [written] + rest;
      assert updated + Unlines(rest) == before + (written + "\n" + Unlines(rest));
    }
    assert updated + "" == updated;
  }

  lemma OffLineReads()
    ensures Classify(OFF_LINE) == Pair("fastboot", "\"off\"") && OneLine(OFF_LINE) && !EndsInCr(OFF_LINE)
    ensures ParseFastboot(Unquote("\"off\"")) == Some(FastbootOff)
  {
    hide Classify, Trim, StripComment, IsWhitespace;
    ConfigKeys();
    assert Quote("off") == "\"off\"";
    QuotedIsValueLike("off");
    WrittenPair("fastboot", "\"off\"");
    assert OFF_LINE == PairLine("fastboot", "\"off\"");
    UnquoteQuote("off");
  }

  // ----- what is kept

  /** How many lines precede the first table. */
  function HeaderLength(lines: seq<string>): nat {
    if lines == [] || Classify(lines[0]).Header? then 0 else 1 + HeaderLength(lines[1..])
  }

  /** Line by line, in order: header fastboot lines are replaced and every
      other line is kept as it was. */
  lemma {:induction false} OtherLinesKept(lines: seq<string>)
    ensures |DisableLines(lines, false)| == |lines|
    ensures forall i | 0 <= i < |lines| ::
      DisableLines(lines, false)[i] == if i < HeaderLength(lines) && SetsFastboot(lines[i]) then OFF_LINE else lines[i]
  {
    if lines != [] {
      if Classify(lines[0]).Header? {
        TablesKept(lines[1..]);
      } else {
        OtherLinesKept(lines[1..]);
        forall i | 0 < i < |lines|
          ensures DisableLines(lines, false)[i] ==
            if i < HeaderLength(lines) && SetsFastboot(lines[i]) then OFF_LINE else lines[i]
        {
          assert lines[i] == lines[1..][i - 1];
        }
      }
    }
  }

  lemma {:induction false} TablesKept(lines: seq<string>)
    ensures DisableLines(lines, true) == lines
  {
    if lines != [] { TablesKept(lines[1..]); }
  }

  // ----- what readers see

  function DisableItems(items: seq<Item>): seq<Item> {
    if items == [] || items[0].Header? then items
    else [if items[0].Pair? && items[0].key == "fastboot" then Pair("fastboot", "\"off\"") else items[0]]
         + DisableItems(items[1..])
  }

  lemma {:induction false} DisabledItems(lines: seq<string>)
    ensures Items(DisableLines(lines, false)) == DisableItems(Items(lines))
  {
    if lines != [] {
      var items := Items(lines);
      assert items[1..] == Items(lines[1..]);
      if Classify(lines[0]).Header? {
        TablesKept(lines[1..]);
        assert [lines[0]] + lines[1..] == lines;
      } else {
        OffLineReads();
        DisabledItems(lines[1..]);
        var first := if SetsFastboot(lines[0]) then OFF_LINE else lines[0];
        ItemsConcat([first], DisableLines(lines[1..], false));
        assert Items([first]) == [Classify(first)];
      }
    }
  }

  lemma DisabledReads(text: string)
    ensures Items(Lines(Disabled(text))) == DisableItems(Items(Lines(text)))
  {
    var lines := Lines(text);
    LinesAreLines(text);
    DisabledOneLine(lines, false);
    ReadBack(DisableLines(lines, false));
    DisabledItems(lines);
  }

  lemma {:induction false} DisabledOneLine(lines: seq<string>, inEntries: bool)
    requires forall l <- lines :: OneLine(l)
    ensures forall l <- DisableLines(lines, inEntries) :: OneLine(l)
    decreases |lines|
  {
    if lines != [] {
      OffLineReads();
      DisabledOneLine(lines[1..], inEntries || Classify(lines[0]).Header?);
    }
  }

  lemma {:induction false} FirstFastbootOff(items: seq<Item>)
    ensures FirstFastboot(DisableItems(items)) == FastbootOff
  {
    if items != [] && !items[0].Header? {
      OffLineReads();
      FirstFastbootOff(items[1..]);
      assert DisableItems(items)[1..] == DisableItems(items[1..]);
    }
  }

  /** The one shot is spent: whatever the file held, the next early reading is off. */
  lemma NextBootIsNormal(text: string)
    ensures FirstFastboot(Items(Lines(Disabled(text)))) == FastbootOff
  {
    DisabledReads(text);
    FirstFastbootOff(Items(Lines(text)));
  }

  lemma {:induction false} RunIgnoresFastboot(s: State, items: seq<Item>)
    requires s.entry.None?
    ensures Run(s, DisableItems(items)) == Run(s, items)
    decreases |items|
  {
    if items != [] && !items[0].Header? {
      var first := DisableItems(items)[0];
      assert Step(s, first) == Step(s, items[0]);
      RunIgnoresFastboot(Step(s, items[0]), items[1..]);
      assert DisableItems(items)[1..] == DisableItems(items[1..]);
    }
  }

  /** The full parse of the rewritten file is the menu of the old file. */
  lemma MenuUnchanged(m: MenuData, text: string)
    ensures ReadItems(m, Items(Lines(Disabled(text)))) == ReadItems(m, Items(Lines(text)))
  {
    DisabledReads(text);
    RunIgnoresFastboot(State(m, None), Items(Lines(text)));
  }

  // ----- doing it again

  /** No line that is kept ends in a carriage return of its own. */
  predicate KeptLinesEndClean(text: string) {
    var lines := Lines(text);
    forall i | 0 <= i < |lines| :: (i < HeaderLength(lines) && SetsFastboot(lines[i])) || !EndsInCr(lines[i])
  }

  /** The first line of a rewrite. */
  function FirstOut(line: string, inEntries: bool): string {
    if !(inEntries || Classify(line).Header?) && SetsFastboot(line) then OFF_LINE else line
  }

  lemma DisableCons(line: string, rest: seq<string>, inEntries: bool)
    ensures DisableLines([line] + rest, inEntries) ==
      [FirstOut(line, inEntries)] + DisableLines(rest, inEntries || Classify(line).Header?)
  {
    hide Classify;
    assert ([line] + rest)[1..] == rest;
  }

  lemma FirstOutTwice(line: string, inEntries: bool)
    ensures var f := FirstOut(line, inEntries);
      && (inEntries || Classify(StripCr(f)).Header?) == (inEntries || Classify(line).Header?)
      && FirstOut(StripCr(f), inEntries) == StripCr(f)
  {
    hide Classify;
    OffLineReads();
    ClassifyIgnoresCr(FirstOut(line, inEntries));
  }

  lemma {:induction false} DisableTwice(lines: seq<string>, inEntries: bool)
    ensures DisableLines(StripCrs(DisableLines(lines, inEntries)), inEntries) == StripCrs(DisableLines(lines, inEntries))
    decreases |lines|
  {
    hide Classify, FirstOut, DisableLines;
    if lines == [] {
      DisableNothing(inEntries);
    } else {
      var open := inEntries || Classify(lines[0]).Header?;
      var f := FirstOut(lines[0], inEntries);
      assert lines == [lines[0]] + lines[1..];
      DisableCons(lines[0], lines[1..], inEntries);
      DisableTwice(lines[1..], open);
      var rest := DisableLines(lines[1..], open);
      assert StripCrs([f] + rest) == [StripCr(f)] + StripCrs(rest);
      FirstOutTwice(lines[0], inEntries);
      DisableCons(StripCr(f), StripCrs(rest), inEntries);
    }
  }

  lemma DisableNothing(inEntries: bool)
    ensures DisableLines([], inEntries) == [] && StripCrs([]) == []
  {}

  /** Rewriting twice is rewriting once exactly when no kept line ends in a
      stray carriage return. */
  lemma IdempotentIff(text: string)
    ensures Disabled(Disabled(text)) == Disabled(text) <==> KeptLinesEndClean(text)
  {
    var lines := Lines(text);
    var once := DisableLines(lines, false);
    LinesAreLines(text);
    DisabledOneLine(lines, false);
    LinesOfUnlines(once);
    DisableTwice(lines, false);
    CrsMatter(once);
    OtherLinesKept(lines);
    OffLineReads();
    assert KeptLinesEndClean(text) <==> forall i | 0 <= i < |once| :: !EndsInCr(once[i]);
  }

  /** A line that ends CR CR LF loses one of them at every rewrite. */
  lemma StrayCrIsLost()
    ensures Disabled(Disabled("a\r\r\n")) != Disabled("a\r\r\n")
  {
    StrayCrLine();
    hide Lines, Disabled, EndsInCr, Classify;
    IdempotentIff("a\r\r\n");
    assert !SetsFastboot("a\r") && Lines("a\r\r\n")[0] == "a\r";
  }
}
