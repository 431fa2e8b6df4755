/** The early single-key readers against the full parse of the same file
    (`configured_spinner_mode`, `configured_logo_visible` and `parse_toml` of
    crates/r-boot/src/menu.rs). */
module EarlyReaders {
  import opened Wrappers
  import opened Text
  import opened ConfigLines
  import opened BootConfig

  /** The valid spinner settings of the header, in order. */
  function ModesOf(header: seq<Item>): seq<Mode> {
    if header == [] then []
    else if header[0].Pair? && header[0].key == "spinner" && ParseMode(Unquote(header[0].value)).Some?
    then [ParseMode(Unquote(header[0].value)).value] + ModesOf(header[1..])
    else ModesOf(header[1..])
  }

  /** The values of the header's logo lines, in order. */
  function LogoValues(header: seq<Item>): seq<string> {
    if header == [] then []
    else if header[0].Pair? && header[0].key == "logo" then [header[0].value] + LogoValues(header[1..])
    else LogoValues(header[1..])
  }

  lemma {:induction false} EarlyTakesFirst(items: seq<Item>)
    ensures var modes := ModesOf(HeaderItems(items)); FirstMode(items) == if modes == [] then Graphical else modes[0]
    ensures var logos := LogoValues(HeaderItems(items));
      FirstLogo(items) == if logos == [] then true else OrElse(ParseBool(logos[0]), true)
  {
    if items != [] && !items[0].Header? {
      EarlyTakesFirst(items[1..]);
      assert HeaderItems(items) == [items[0]] + HeaderItems(items[1..]);
    }
  }

  /** The last value that is a truth value once unquoted. */
  function LastTruth(logos: seq<string>): Option<bool> {
    if logos == [] then None else
    var n := |logos| - 1;
    if ParseBool(Unquote(logos[n])).Some? then ParseBool(Unquote(logos[n])) else LastTruth(logos[..n])
  }

  lemma {:induction false} LastTruthCons(first: string, logos: seq<string>)
    ensures LastTruth([first] + logos) ==
      if LastTruth(logos).Some? then LastTruth(logos) else ParseBool(Unquote(first))
  {
    hide Unquote, ParseBool;
    if logos == [] {
      assert [first] + logos == [first] && [first][..0] == [];
      assert LastTruth([]) == None;
    } else {
      var n := |logos| - 1;
      assert ([first] + logos)[..n + 1] == [first] + logos[..n] && ([first] + logos)[n + 1] == logos[n];
      LastTruthCons(first, logos[..n]);
    }
  }

  lemma {:induction false} ParseTakesLast(m: MenuData, header: seq<Item>)
    ensures var modes := ModesOf(header);
      RunHeader(m, header).spinner == if modes == [] then m.spinner else modes[|modes| - 1]
    ensures RunHeader(m, header).logo == OrElse(LastTruth(LogoValues(header)), m.logo)
    decreases |header|
  {
    hide ParseMode, ParseBool, Unquote, ParseUnsigned, LastTruth;
    if header == [] {
      assert LastTruth([]) == None by { NoLogo(); }
    } else {
      var next := if header[0].Pair? then SetHeader(m, header[0].key, Unquote(header[0].value)) else m;
      ParseTakesLast(next, header[1..]);
      if header[0].Pair? && header[0].key == "logo" {
        LastTruthCons(header[0].value, LogoValues(header[1..]));
      }
    }
  }

  lemma NoLogo()
    ensures LastTruth([]) == None
  {}

  /** The two readings of the spinner agree exactly when the first and the last
      valid setting are the same. */
  lemma SpinnerAgreesIff(text: string)
    ensures var items := Items(Lines(text));
      var modes := ModesOf(HeaderItems(items));
      FirstMode(items) == ReadMenu(text).spinner <==> modes == [] || modes[0] == modes[|modes| - 1]
  {
    var items := Items(Lines(text));
    EarlyTakesFirst(items);
    ParseTakesLast(INITIAL_MENU, HeaderItems(items));
    ReadByTables(INITIAL_MENU, items);
  }

  /** The two readings of the logo agree exactly when there is no logo line, or
      the first line as it stands and the last line that is a truth value once
      unquoted say the same, either of them standing for true if it does not
      parse or exist. */
  lemma LogoAgreesIff(text: string)
    ensures var items := Items(Lines(text));
      var logos := LogoValues(HeaderItems(items));
      FirstLogo(items) == ReadMenu(text).logo <==>
        logos == [] || OrElse(ParseBool(logos[0]), true) == OrElse(LastTruth(logos), true)
  {
    hide ParseBool, Unquote;
    var items := Items(Lines(text));
    EarlyTakesFirst(items);
    ParseTakesLast(INITIAL_MENU, HeaderItems(items));
    ReadByTables(INITIAL_MENU, items);
  }

  // ----- files on which they differ

  function PairLines(key: string, values: seq<string>): seq<string> {
    if values == [] then [] else [PairLine(key, values[0])] + PairLines(key, values[1..])
  }

  function Pairs(key: string, values: seq<string>): seq<Item> {
    if values == [] then [] else [Pair(key, values[0])] + Pairs(key, values[1..])
  }

  /** The file of settings under one key. */
  function Written(key: string, values: seq<string>): string { Unlines(PairLines(key, values)) }

  predicate Writable(values: seq<string>) { forall v <- values :: ValueLike(v) && OneLine(v) }

  lemma {:induction false} PairLinesRead(key: string, values: seq<string>)
    requires KeyLike(key) && OneLine(key) && Writable(values)
    ensures Items(PairLines(key, values)) == Pairs(key, values) && forall l <- PairLines(key, values) :: OneLine(l)
  {
    hide Classify, KeyLike, ValueLike;
    if values != [] {
      assert values == [values[0]] + values[1..];
      WrittenPair(key, values[0]);
      PairLinesRead(key, values[1..]);
      ItemsConcat([PairLine(key, values[0])], PairLines(key, values[1..]));
    }
  }

  lemma {:induction false} PairsAreHeader(key: string, values: seq<string>)
    ensures HeaderItems(Pairs(key, values)) == Pairs(key, values)
    ensures key == "logo" ==> LogoValues(Pairs(key, values)) == values
  {
    if values != [] { PairsAreHeader(key, values[1..]); }
  }

  /** Both readings of such a file. */
  lemma WrittenReads(key: string, values: seq<string>)
    requires KeyLike(key) && OneLine(key) && Writable(values)
    ensures var text := Written(key, values);
      var modes := ModesOf(Pairs(key, values));
      && (FirstMode(Items(Lines(text))) == if modes == [] then Graphical else modes[0])
      && (ReadMenu(text).spinner == if modes == [] then Graphical else modes[|modes| - 1])
      && (key == "logo" && values != [] ==>
            FirstLogo(Items(Lines(text))) == OrElse(ParseBool(values[0]), true)
            && ReadMenu(text).logo == OrElse(LastTruth(values), true))
  {
    hide Classify, KeyLike, OneLine, Writable, ModesOf, LogoValues, ParseBool, LastTruth, Lines, Unlines, Items, HeaderItems;
    var items := Pairs(key, values);
    PairLinesRead(key, values);
    ReadBack(PairLines(key, values));
    PairsAreHeader(key, values);
    EarlyTakesFirst(items);
    ParseTakesLast(INITIAL_MENU, items);
    ReadByTables(INITIAL_MENU, items);
  }

  lemma PlainWords()
    ensures KeyLike("spinner") && KeyLike("logo") && OneLine("spinner") && OneLine("logo")
    ensures ValueLike("off") && ValueLike("text") && OneLine("off") && OneLine("text")
    ensures ValueLike("true") && ValueLike("false") && OneLine("true") && OneLine("false")
    ensures ValueLike("\"false\"") && OneLine("\"false\"") && Unquote("\"false\"") == "false"
    ensures Unquote("off") == "off" && Unquote("text") == "text" && Unquote("true") == "true" && Unquote("false") == "false"
  {}

  /** `spinner = off`, then `spinner = text`: no spinner early, text later. */
  lemma SpinnerTwice()
    ensures var text := Written("spinner", ["off", "text"]);
      FirstMode(Items(Lines(text))) == Off && ReadMenu(text).spinner == Mode.Text
  {
    PlainWords();
    WrittenReads("spinner", ["off", "text"]);
    hide Lines, Written, Items, FirstMode, ReadMenu;
    hide ModesOf, Unquote;
    ModesOfPair(Off, "off", ["text"]);
    ModesOfPair(Mode.Text, "text", []);
    assert ["off"] + ["text"] == ["off", "text"] && ["text"] + [] == ["text"];
  }

  lemma ModesOfPair(m: Mode, value: string, rest: seq<string>)
    requires ParseMode(Unquote(value)) == Some(m)
    ensures ModesOf(Pairs("spinner", [value] + rest)) == [m] + ModesOf(Pairs("spinner", rest))
    ensures ModesOf(Pairs("spinner", [])) == []
  {
    hide Unquote;
    assert ([value] + rest)[1..] == rest;
    var items := [Pair("spinner", value)] + Pairs("spinner", rest);
    assert items[1..] == Pairs("spinner", rest);
  }

  /** `logo = "false"`, quoted: shown early, hidden later. */
  lemma LogoQuoted()
    ensures var text := Written("logo", ["\"false\""]);
      FirstLogo(Items(Lines(text))) && !ReadMenu(text).logo
  {
    PlainWords();
    WrittenReads("logo", ["\"false\""]);
    hide Lines, Written, Items, FirstLogo, ReadMenu;
  }

  /** `logo = true`, then `logo = false`: shown early, hidden later. */
  lemma LogoTwice()
    ensures var text := Written("logo", ["true", "false"]);
      FirstLogo(Items(Lines(text))) && !ReadMenu(text).logo
  {
    PlainWords();
    WrittenReads("logo", ["true", "false"]);
    hide Lines, Written, Items, FirstLogo, ReadMenu;
  }
}
