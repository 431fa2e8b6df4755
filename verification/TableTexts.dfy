/** Files of one `[[entries]]` table, to show what happens to real texts. */
module TableTexts {
  import opened Wrappers
  import opened Text
  import opened ConfigLines
  import opened BootConfig

  type Pairs = seq<(string, string)>

  function QuotedLines(pairs: Pairs): seq<string> {
    if pairs == [] then [] else [PairLine(pairs[0].0, Quote(pairs[0].1))] + QuotedLines(pairs[1..])
  }

  function QuotedItems(pairs: Pairs): seq<Item> {
    if pairs == [] then [] else [Pair(pairs[0].0, Quote(pairs[0].1))] + QuotedItems(pairs[1..])
  }

  /** A file of one table with these keys and values. */
  function TableText(pairs: Pairs): string { Unlines([ENTRIES] + QuotedLines(pairs)) }

  predicate Writable(pairs: Pairs) {
    forall p <- pairs :: KeyLike(p.0) && OneLine(p.0) && '#' !in p.1 && OneLine(p.1)
  }

  lemma {:induction false} QuotedLinesRead(pairs: Pairs)
    requires Writable(pairs)
    ensures Items(QuotedLines(pairs)) == QuotedItems(pairs) && forall l <- QuotedLines(pairs) :: OneLine(l)
    ensures forall i <- QuotedItems(pairs) :: !i.Header?
  {
    hide Classify, KeyLike;
    if pairs != [] {
      assert pairs == [pairs[0]] + pairs[1..];
      QuotedReads(pairs[0].0, pairs[0].1);
      QuotedLinesRead(pairs[1..]);
      ItemsConcat([PairLine(pairs[0].0, Quote(pairs[0].1))], QuotedLines(pairs[1..]));
    }
  }

  /** The table read back. */
  lemma TableReads(pairs: Pairs)
    requires Writable(pairs)
    ensures BlocksOf(Items(Lines(TableText(pairs)))) == [QuotedItems(pairs)]
    ensures HeaderItems(Items(Lines(TableText(pairs)))) == []
  {
    hide Classify, Writable, Lines, Unlines;
    var lines := [ENTRIES] + QuotedLines(pairs);
    QuotedLinesRead(pairs);
    EntriesLine();
    assert OneLine(ENTRIES);
    ReadBack(lines);
    ItemsConcat([ENTRIES], QuotedLines(pairs));
    var items := [Header] + QuotedItems(pairs);
    assert Items([ENTRIES]) == [Header];
    assert items[1..] == QuotedItems(pairs) + [];
    hide Items;
    HeaderOfConcat(QuotedItems(pairs), []);
    assert items[1..] == QuotedItems(pairs);
  }

  /** The fields it fills. */
  function RunPairs(raw: RawEntry, pairs: Pairs): RawEntry
    decreases |pairs|
  {
    if pairs == [] then raw else RunPairs(SetKey(raw, pairs[0].0, pairs[0].1), pairs[1..])
  }

  lemma {:induction false} RunQuoted(raw: RawEntry, pairs: Pairs)
    ensures RunRaw(raw, QuotedItems(pairs)) == RunPairs(raw, pairs)
    decreases |pairs|
  {
    hide SetKey, Quote, Unquote;
    if pairs != [] {
      UnquoteQuote(pairs[0].1);
      RunQuoted(SetKey(raw, pairs[0].0, pairs[0].1), pairs[1..]);
      assert QuotedItems(pairs)[1..] == QuotedItems(pairs[1..]);
    }
  }

  /** The menu of such a file. */
  lemma TableMenu(pairs: Pairs)
    requires Writable(pairs)
    ensures ReadMenu(TableText(pairs)) == INITIAL_MENU.(entries := Pushed(RunPairs(EMPTY_RAW, pairs)))
  {
    hide Lines, TableText, Items, HeaderItems, BlocksOf, Pushed, RunPairs, QuotedItems, Writable;
    var items := Items(Lines(TableText(pairs)));
    TableReads(pairs);
    RunQuoted(EMPTY_RAW, pairs);
    ReadByTables(INITIAL_MENU, items);
    assert [QuotedItems(pairs)][1..] == [];
    assert BlockEntries([QuotedItems(pairs)]) == Pushed(RunRaw(EMPTY_RAW, QuotedItems(pairs))) + [];
  }

  lemma RunPair(raw: RawEntry, key: string, value: string, rest: Pairs)
    ensures RunPairs(raw, [(key, value)] + rest) == RunPairs(SetKey(raw, key, value), rest)
    ensures RunPairs(raw, []) == raw
    ensures QuotedItems([(key, value)] + rest) == [Pair(key, Quote(value))] + QuotedItems(rest)
    ensures QuotedItems([]) == []
  {
    hide SetKey, Quote;
    assert ([(key, value)] + rest)[1..] == rest;
  }
}
