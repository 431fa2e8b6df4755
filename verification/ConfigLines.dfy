/** How every reader and writer of `r-boot.toml` sees a line. The bootloader's
    parser, its rewriters, its early readers and the command-line tool all start
    with the same steps: cut the comment, trim, compare with `[[entries]]`,
    split at the first '=' and trim both halves. */
module ConfigLines {
  import opened Wrappers
  import opened Text

  const ENTRIES := "[[entries]]"

  /** `Pair` keeps the trimmed value still in its quotes. */
  datatype Item = Header | Pair(key: string, value: string) | Other

  function Classify(line: string): Item {
    var l := Trim(StripComment(line));
    if l == ENTRIES then Header else
    match SplitOnce(l, '=')
    case None => Other
    case Some(p) => Pair(Trim(p.0), Trim(p.1))
  }

  function Items(lines: seq<string>): seq<Item> {
    seq(|lines|, i requires 0 <= i < |lines| => Classify(lines[i]))
  }

  /** The items before the first `[[entries]]`. */
  function HeaderItems(items: seq<Item>): seq<Item> {
    if items == [] || items[0].Header? then [] else [items[0]] + HeaderItems(items[1..])
  }

  /** The items of each `[[entries]]` table. */
  function BlocksOf(items: seq<Item>): seq<seq<Item>> {
    if items == [] then []
    else if items[0].Header? then [HeaderItems(items[1..])] + BlocksOf(items[1..])
    else BlocksOf(items[1..])
  }

  // ----- facts about single lines

  /** A carriage return before the line feed never matters. */
  lemma ClassifyIgnoresCr(line: string)
    ensures Classify(StripCr(line)) == Classify(line)
  {
    if line != [] && line[|line| - 1] == '\r' {
      var l := line[..|line| - 1];
      assert line == l + ['\r'];
      StripCommentAppend(l, '\r');
      TrimAppend(StripComment(l), '\r');
    }
  }

  lemma ItemsIgnoreCrs(lines: seq<string>)
    ensures Items(StripCrs(lines)) == Items(lines)
  {
    forall i | 0 <= i < |lines| ensures Classify(StripCr(lines[i])) == Classify(lines[i]) {
      ClassifyIgnoresCr(lines[i]);
    }
    assert |Items(StripCrs(lines))| == |Items(lines)|;
  }

  /** Written out and read back, lines keep their meaning. */
  lemma ReadBack(lines: seq<string>)
    requires forall l <- lines :: OneLine(l)
    ensures Items(Lines(Unlines(lines))) == Items(lines)
  {
    LinesOfUnlines(lines);
    ItemsIgnoreCrs(lines);
  }

  predicate KeyLike(key: string) {
    key != [] && forall c <- key :: !IsWhitespace(c) && c != '#' && c != '='
  }

  /** A value that survives the trip through a line. */
  predicate ValueLike(value: string) {
    value != [] && '#' !in value && !IsWhitespace(value[0]) && !IsWhitespace(value[|value| - 1])
  }

  function PairLine(key: string, value: string): string { key + " = " + value }

  /** A line written as `key = value` reads as that pair. */
  lemma WrittenPair(key: string, value: string)
    requires KeyLike(key) && ValueLike(value)
    ensures Classify(PairLine(key, value)) == Pair(key, value)
  {
    hide IsWhitespace, Trim, StripComment, SplitOnce;
    var line := PairLine(key, value);
    var before, after := key + " ", " " + value;
    assert line == before + ['='] + after;
    assert '#' !in line;
    NoComment(line);
    assert !IsWhitespace(line[0]) by { assert key[0] in key && line[0] == key[0]; }
    assert line[|line| - 1] == value[|value| - 1];
    TrimFixed(line);
    assert '=' !in before;
    SplitOnceAt(before, '=', after);
    Blank();
    TrimKey(key);
    TrimValue(value);
    assert '=' in line by { assert line[|before|] == '='; }
    assert '=' !in ENTRIES;
  }

  lemma Blank()
    ensures IsWhitespace(' ') && !IsWhitespace('"')
  {}

  lemma TrimKey(key: string)
    requires KeyLike(key)
    ensures Trim(key + " ") == key
  {
    TrimAppend(key, ' ');
    assert key[0] in key && key[|key| - 1] in key;
    TrimFixed(key);
  }

  lemma TrimValue(value: string)
    requires ValueLike(value)
    ensures Trim(" " + value) == value
  {
    TrimStartIdle(value, ' ');
    TrimFixed(value);
  }

  /** Nothing a reader extracts contains a comment sign or a line feed. */
  lemma ReadValuesAreClean(line: string)
    requires OneLine(line)
    ensures match Classify(line)
      case Pair(k, v) => '#' !in v && OneLine(v) && (v == [] || (!IsWhitespace(v[0]) && !IsWhitespace(v[|v| - 1])))
      case _ => true
  {
    hide IsWhitespace, Trim, StripComment, SplitOnce;
    StripCommentFacts(line);
    TrimFacts(StripComment(line));
    var l := Trim(StripComment(line));
    SplitOnceFacts(l, '=');
    if SplitOnce(l, '=').Some? {
      var (a, b) := SplitOnce(l, '=').value;
      TrimFacts(b);
      assert forall c <- b :: c in l by { assert l == a + ['='] + b; }
      assert forall c <- Trim(b) :: c in line && c != '#';
    }
  }

  lemma QuotedIsValueLike(s: string)
    requires '#' !in s
    ensures ValueLike(Quote(s))
  {
    Blank();
    assert Quote(s)[0] == '"' && Quote(s)[|Quote(s)| - 1] == '"';
  }

  /** The keys of the format. */
  lemma ConfigKeys()
    ensures KeyLike("default") && KeyLike("timeout") && KeyLike("spinner") && KeyLike("logo") && KeyLike("fastboot")
    ensures KeyLike("id") && KeyLike("title") && KeyLike("kind") && KeyLike("linux") && KeyLike("efi")
    ensures KeyLike("image") && KeyLike("initrd") && KeyLike("options")
  {
    SettingKeys();
    EntryKeys();
    hide KeyLike;
  }

  lemma SettingKeys()
    ensures KeyLike("default") && KeyLike("timeout") && KeyLike("spinner") && KeyLike("logo") && KeyLike("fastboot")
  {}

  lemma EntryKeys()
    ensures KeyLike("id") && KeyLike("title") && KeyLike("kind") && KeyLike("linux") && KeyLike("efi")
    ensures KeyLike("image") && KeyLike("initrd") && KeyLike("options")
  {}

  /** A quoted value is read back with its quotes, which come off. */
  lemma QuotedReads(key: string, v: string)
    requires KeyLike(key) && '#' !in v
    ensures Classify(PairLine(key, Quote(v))) == Pair(key, Quote(v)) && Unquote(Quote(v)) == v
  {
    hide IsWhitespace, Classify;
    QuotedIsValueLike(v);
    WrittenPair(key, Quote(v));
    UnquoteQuote(v);
  }

  lemma NumberIsValueLike(n: nat)
    ensures ValueLike(Print(n)) && Unquote(Print(n)) == Print(n) && OneLine(Print(n)) && !EndsInCr(Print(n))
  {
    PrintFacts(n);
    var p := Print(n);
    assert p[0] in p && p[|p| - 1] in p;
    DigitsPlain();
  }

  lemma TimeoutReads(n: nat)
    ensures Classify(PairLine("timeout", Print(n))) == Pair("timeout", Print(n)) && OneLine(PairLine("timeout", Print(n)))
    ensures Unquote(Print(n)) == Print(n)
  {
    ConfigKeys();
    NumberIsValueLike(n);
    hide Print, KeyLike, ValueLike, Classify, IsWhitespace;
    WrittenPair("timeout", Print(n));
  }

  lemma BoolIsValueLike(b: bool)
    ensures ValueLike(PrintBool(b)) && Unquote(PrintBool(b)) == PrintBool(b) && ParseBool(PrintBool(b)) == Some(b)
    ensures OneLine(PrintBool(b)) && !EndsInCr(PrintBool(b))
  {
    assert !IsWhitespace('t') && !IsWhitespace('f') && !IsWhitespace('e');
  }

  lemma LogoReads(b: bool)
    ensures Classify(PairLine("logo", PrintBool(b))) == Pair("logo", PrintBool(b)) && OneLine(PairLine("logo", PrintBool(b)))
    ensures Unquote(PrintBool(b)) == PrintBool(b) && ParseBool(PrintBool(b)) == Some(b)
  {
    ConfigKeys();
    BoolIsValueLike(b);
    hide PrintBool, ParseBool, KeyLike, ValueLike, Classify, IsWhitespace;
    WrittenPair("logo", PrintBool(b));
  }

  /** A line that ends CR CR LF keeps one of the two. */
  lemma StrayCrLine()
    ensures Lines("a\r\r\n") == ["a\r"] && EndsInCr("a\r") && Classify("a\r") == Other
  {
    assert Unlines(["a\r\r"]) == "a\r\r\n" by { assert Unlines([]) == "" && "a\r\r" + "\n" == "a\r\r\n"; }
    LinesOfUnlines(["a\r\r"]);
    assert "a\r\r"[..2] == "a\r" && "a\r"[..1] == "a";
    ClassifyIgnoresCr("a\r");
    NoComment("a");
    TrimFixed("a");
    SplitOnceFacts("a", '=');
  }

  lemma EntriesLine()
    ensures Classify(ENTRIES) == Header && Classify("") == Other
  {
    Brackets();
    hide IsWhitespace;
    assert '#' !in ENTRIES && ENTRIES[0] == '[' && ENTRIES[|ENTRIES| - 1] == ']';
    NoComment(ENTRIES);
    TrimFixed(ENTRIES);
    assert StripComment("") == "";
    TrimFixed("");
    SplitOnceFacts("", '=');
  }

  lemma Brackets()
    ensures !IsWhitespace('[') && !IsWhitespace(']')
  {}

  // ----- the split into header and tables

  lemma {:induction false} HeaderOfConcat(a: seq<Item>, b: seq<Item>)
    requires forall i <- a :: !i.Header?
    ensures HeaderItems(a + b) == a + HeaderItems(b)
    ensures BlocksOf(a + b) == BlocksOf(b)
  {
    if a == [] {
      assert a + b == b;
    } else {
      assert (a + b)[1..] == a[1..] + b;
      HeaderOfConcat(a[1..], b);
      assert a == [a[0]] + a[1..];
    }
  }

  lemma {:induction false} HeaderHasNoHeader(items: seq<Item>)
    ensures forall i <- HeaderItems(items) :: !i.Header?
  {
    if items != [] && !items[0].Header? { HeaderHasNoHeader(items[1..]); }
  }

  lemma ItemsConcat(a: seq<string>, b: seq<string>)
    ensures Items(a + b) == Items(a) + Items(b)
  {}
}
