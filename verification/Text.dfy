/** The string operations r-boot's configuration readers and writers share,
    with Rust's meaning (`str::lines`, `trim`, `split_once`, `parse`). */
module Text {
  import opened Wrappers

  /** `char::is_whitespace`: the Unicode White_Space property. */
  predicate IsWhitespace(c: char) {
    var n := c as int;
    0x09 <= n <= 0x0d || n == 0x20 || n == 0x85 || n == 0xa0 || n == 0x1680 || 0x2000 <= n <= 0x200a ||
    n == 0x2028 || n == 0x2029 || n == 0x202f || n == 0x205f || n == 0x3000
  }

  function TrimStart(s: string): string {
    if s != [] && IsWhitespace(s[0]) then TrimStart(s[1..]) else s
  }

  function TrimEnd(s: string): string {
    if s != [] && IsWhitespace(s[|s| - 1]) then TrimEnd(s[..|s| - 1]) else s
  }

  function Trim(s: string): string { TrimEnd(TrimStart(s)) }

  /** The part of a line before the first '#'. */
  function StripComment(s: string): string {
    if s == [] || s[0] == '#' then [] else [s[0]] + StripComment(s[1..])
  }

  /** `split_once`. */
  function SplitOnce(s: string, c: char): Option<(string, string)> {
    if s == [] then None
    else if s[0] == c then Some(([], s[1..]))
    else match SplitOnce(s[1..], c)
      case None => None
      case Some(p) => Some(([s[0]] + p.0, p.1))
  }

  /** `unquote`: one pair of double quotes, when both are there. */
  function Unquote(s: string): string {
    if |s| >= 2 && s[0] == '"' && s[|s| - 1] == '"' then s[1..|s| - 1] else s
  }

  function Quote(s: string): string { "\"" + s + "\"" }

  /** The carriage return of a line that ended in CR LF. */
  function StripCr(s: string): string {
    if s != [] && s[|s| - 1] == '\r' then s[..|s| - 1] else s
  }

  function FirstLine(s: string): nat
    ensures FirstLine(s) <= |s|
    ensures forall i | 0 <= i < FirstLine(s) :: s[i] != '\n'
    ensures FirstLine(s) < |s| ==> s[FirstLine(s)] == '\n'
  {
    if s == [] || s[0] == '\n' then 0 else 1 + FirstLine(s[1..])
  }

  /** `str::lines`: a final line without a line feed counts, and keeps its CR. */
  function Lines(s: string): seq<string> {
    if s == [] then [] else
    var n := FirstLine(s);
    if n == |s| then [s] else [StripCr(s[..n])] + Lines(s[n + 1..])
  }

  /** Each line followed by a line feed. */
  function Unlines(ls: seq<string>): string {
    if ls == [] then "" else ls[0] + "\n" + Unlines(ls[1..])
  }

  function StripCrs(ls: seq<string>): seq<string> { seq(|ls|, i requires 0 <= i < |ls| => StripCr(ls[i])) }

  predicate OneLine(s: string) { '\n' !in s }

  // ----- lines

  lemma FirstLineOf(l: string, rest: string)
    requires OneLine(l)
    ensures FirstLine(l + "\n" + rest) == |l|
  {
    var s := l + "\n" + rest;
    assert s[|l|] == '\n';
    var n := FirstLine(s);
    assert forall i | 0 <= i < |l| :: s[i] == l[i] && l[i] != '\n';
  }

  lemma {:induction false} LinesOfUnlines(ls: seq<string>)
    requires forall l <- ls :: OneLine(l)
    ensures Lines(Unlines(ls)) == StripCrs(ls)
  {
    if ls != [] {
      var s := Unlines(ls);
      FirstLineOf(ls[0], Unlines(ls[1..]));
      assert s[..|ls[0]|] == ls[0] && s[|ls[0]| + 1..] == Unlines(ls[1..]);
      LinesOfUnlines(ls[1..]);
      assert StripCrs(ls) == [StripCr(ls[0])] + StripCrs(ls[1..]);
    }
  }

  lemma {:induction false} LinesAreLines(s: string)
    ensures forall l <- Lines(s) :: OneLine(l)
    ensures forall l <- Lines(s), c <- l :: c in s
  {
    if s != [] {
      var n := FirstLine(s);
      if n < |s| { LinesAreLines(s[n + 1..]); }
    }
  }

  lemma {:induction false} UnlinesConcat(a: seq<string>, b: seq<string>)
    ensures Unlines(a + b) == Unlines(a) + Unlines(b)
  {
    if a == [] {
      assert a + b == b;
    } else {
      assert (a + b)[1..] == a[1..] + b;
      UnlinesConcat(a[1..], b);
    }
  }

  predicate EndsInCr(s: string) { s != [] && s[|s| - 1] == '\r' }

  /** Reading and writing back changes a text exactly when some line kept a
      carriage return. */
  lemma {:induction false} CrsMatter(ls: seq<string>)
    ensures |Unlines(StripCrs(ls))| <= |Unlines(ls)|
    ensures Unlines(StripCrs(ls)) == Unlines(ls) <==> forall l <- ls :: !EndsInCr(l)
  {
    if ls != [] {
      CrsMatter(ls[1..]);
      assert StripCrs(ls) == [StripCr(ls[0])] + StripCrs(ls[1..]);
      var a, b := Unlines(StripCrs(ls[1..])), Unlines(ls[1..]);
      assert forall l :: l in ls <==> l == ls[0] || l in ls[1..];
      if !EndsInCr(ls[0]) {
        assert Unlines(StripCrs(ls)) == ls[0] + "\n" + a && Unlines(ls) == ls[0] + "\n" + b;
        if Unlines(StripCrs(ls)) == Unlines(ls) {
          assert a == (ls[0] + "\n" + a)[|ls[0]| + 1..];
          assert b == (ls[0] + "\n" + b)[|ls[0]| + 1..];
        }
      }
    }
  }

  // ----- trimming

  lemma {:induction false} TrimFixed(s: string)
    requires s == [] || (!IsWhitespace(s[0]) && !IsWhitespace(s[|s| - 1]))
    ensures Trim(s) == s
  {}

  lemma {:induction false} TrimStartIdle(s: string, c: char)
    requires IsWhitespace(c)
    ensures TrimStart([c] + s) == TrimStart(s)
  {
    assert ([c] + s)[1..] == s;
  }

  lemma {:induction false} TrimStartFacts(s: string)
    ensures |TrimStart(s)| <= |s| && TrimStart(s) == s[|s| - |TrimStart(s)|..]
    ensures TrimStart(s) != [] ==> !IsWhitespace(TrimStart(s)[0])
  {
    if s != [] && IsWhitespace(s[0]) { TrimStartFacts(s[1..]); }
  }

  lemma {:induction false} TrimEndFacts(s: string)
    ensures |TrimEnd(s)| <= |s| && TrimEnd(s) == s[..|TrimEnd(s)|]
    ensures TrimEnd(s) != [] ==> !IsWhitespace(TrimEnd(s)[|TrimEnd(s)| - 1])
  {
    if s != [] && IsWhitespace(s[|s| - 1]) { TrimEndFacts(s[..|s| - 1]); }
  }

  /** A trimmed string has no whitespace at either end and keeps only
      characters of the original. */
  lemma TrimFacts(s: string)
    ensures Trim(s) != [] ==> !IsWhitespace(Trim(s)[0]) && !IsWhitespace(Trim(s)[|Trim(s)| - 1])
    ensures forall c <- Trim(s) :: c in s
  {
    TrimStartFacts(s);
    TrimEndFacts(TrimStart(s));
  }

  lemma {:induction false} TrimStartAppend(s: string, c: char)
    requires IsWhitespace(c)
    ensures TrimStart(s + [c]) == if TrimStart(s) == [] then [] else TrimStart(s) + [c]
  {
    if s == [] {
      assert s + [c] == [c];
      assert TrimStart([c]) == TrimStart([]);
    } else {
      assert (s + [c])[1..] == s[1..] + [c];
      TrimStartAppend(s[1..], c);
    }
  }

  /** Whitespace after the end is trimmed away. */
  lemma TrimAppend(s: string, c: char)
    requires IsWhitespace(c)
    ensures Trim(s + [c]) == Trim(s)
  {
    TrimStartAppend(s, c);
    var t := TrimStart(s);
    if t != [] { assert (t + [c])[..|t + [c]| - 1] == t; }
  }

  // ----- comments

  lemma {:induction false} StripCommentFacts(s: string)
    ensures forall c <- StripComment(s) :: c in s && c != '#'
  {
    if s != [] && s[0] != '#' { StripCommentFacts(s[1..]); }
  }

  lemma {:induction false} NoComment(s: string)
    requires '#' !in s
    ensures StripComment(s) == s
  {
    if s != [] { NoComment(s[1..]); }
  }

  lemma {:induction false} StripCommentAppend(s: string, c: char)
    requires c != '#'
    ensures StripComment(s + [c]) == if '#' in s then StripComment(s) else StripComment(s) + [c]
  {
    if s == [] {
      assert s + [c] == [c];
      assert StripComment([c]) == [c] + StripComment([]);
    } else if s[0] != '#' {
      assert (s + [c])[1..] == s[1..] + [c];
      StripCommentAppend(s[1..], c);
    }
  }

  // ----- splitting

  lemma {:induction false} SplitOnceFacts(s: string, c: char)
    ensures SplitOnce(s, c).None? <==> c !in s
    ensures SplitOnce(s, c).Some? ==> var (a, b) := SplitOnce(s, c).value; s == a + [c] + b && c !in a
  {
    if s != [] && s[0] != c { SplitOnceFacts(s[1..], c); }
  }

  lemma {:induction false} SplitOnceAt(a: string, c: char, b: string)
    requires c !in a
    ensures SplitOnce(a + [c] + b, c) == Some((a, b))
  {
    var s := a + [c] + b;
    if a == [] {
      assert s == [c] + b;
    } else {
      assert s[1..] == a[1..] + [c] + b;
      SplitOnceAt(a[1..], c, b);
      assert [a[0]] + a[1..] == a;
    }
  }

  lemma UnquoteQuote(s: string)
    ensures Unquote(Quote(s)) == s
  {}

  /** Whatever is not a quoted text stands for itself. */
  lemma UnquoteElse(s: string)
    requires forall inner: string :: s != "\"" + inner + "\""
    ensures Unquote(s) == s
  {
    if |s| >= 2 && s[0] == '"' && s[|s| - 1] == '"' { assert s == "\"" + s[1..|s| - 1] + "\""; }
  }

  // ----- decimal numbers

  predicate IsDigit(c: char) { '0' <= c <= '9' }

  function DigitValue(c: char): nat
    requires IsDigit(c)
  {
    c as nat - '0' as nat
  }

  function DigitChar(d: nat): char
    requires d < 10
  {
    ('0' as int + d) as char
  }

  function DigitsValue(s: string): nat
    requires forall c <- s :: IsDigit(c)
  {
    if s == [] then 0 else 10 * DigitsValue(s[..|s| - 1]) + DigitValue(s[|s| - 1])
  }

  /** `str::parse` to an unsigned integer below `limit`: an optional '+', at
      least one digit, no overflow. */
  function ParseUnsigned(s: string, limit: nat): Option<nat> {
    var digits := if s != [] && s[0] == '+' then s[1..] else s;
    if digits == [] || exists c <- digits :: !IsDigit(c) then None
    else if DigitsValue(digits) < limit then Some(DigitsValue(digits)) else None
  }

  /** Which texts are numbers, and of what value: one digit has its own, each
      further one counts the ones before it ten times; nothing else may stand
      there but a '+' before all of them. */
  lemma NumbersRead(s: string, c: char, limit: nat)
    ensures ParseUnsigned("", limit) == None == ParseUnsigned("+", limit)
    ensures s != "" && s[0] != '+' ==> ParseUnsigned("+" + s, limit) == ParseUnsigned(s, limit)
    ensures ParseUnsigned([c], limit) == if '0' <= c <= '9' && c as int - '0' as int < limit then Some(c as int - '0' as int) else None
    ensures s != "" && s[0] != '+' ==>
      ParseUnsigned(s + [c], limit) ==
        if ParseUnsigned(s, limit).Some? && '0' <= c <= '9' && 10 * ParseUnsigned(s, limit).value + (c as int - '0' as int) < limit
        then Some(10 * ParseUnsigned(s, limit).value + (c as int - '0' as int)) else None
  {
    OneDigit(c, limit);
    assert "+"[1..] == "";
    if s != "" && s[0] != '+' {
      MoreDigits(s, c);
      assert ("+" + s)[1..] == s && (s + [c])[0] == s[0];
    }
    hide DigitsValue;
  }

  lemma OneDigit(c: char, limit: nat)
    ensures ParseUnsigned([c], limit) == if IsDigit(c) && DigitValue(c) < limit then Some(DigitValue(c)) else None
  {
    assert c in [c] && [c][1..] == "";
    if IsDigit(c) {
      assert [c][..0] == "" && DigitsValue("") == 0;
      assert DigitsValue([c]) == DigitValue(c);
    }
  }

  lemma MoreDigits(s: string, c: char)
    ensures (forall x <- s + [c] :: IsDigit(x)) <==> (forall x <- s :: IsDigit(x)) && IsDigit(c)
    ensures (forall x <- s + [c] :: IsDigit(x)) ==>
      ((forall x <- s :: IsDigit(x)) && DigitsValue(s + [c]) == 10 * DigitsValue(s) + DigitValue(c))
  {
    assert forall x :: x in s + [c] <==> x in s || x == c;
    assert (s + [c])[..|s|] == s;
  }

  /** A digit means nothing to the line reader. */
  lemma DigitsPlain()
    ensures forall c | IsDigit(c) :: !IsWhitespace(c) && c != '#' && c != '"' && c != '\n' && c != '\r'
  {}

  /** `to_string`. */
  function Print(n: nat): string {
    if n < 10 then [DigitChar(n)] else Print(n / 10) + [DigitChar(n % 10)]
  }

  lemma {:induction false} PrintFacts(n: nat)
    ensures Print(n) != [] && (forall c <- Print(n) :: IsDigit(c)) && DigitsValue(Print(n)) == n
  {
    if n >= 10 {
      PrintFacts(n / 10);
      var s := Print(n);
      assert s[..|s| - 1] == Print(n / 10);
    }
  }

  lemma ParsePrint(n: nat, limit: nat)
    requires n < limit
    ensures ParseUnsigned(Print(n), limit) == Some(n)
  {
    PrintFacts(n);
    assert Print(n)[0] in Print(n);
  }

  /** `str::parse` to a Boolean. */
  function ParseBool(s: string): Option<bool> {
    if s == "true" then Some(true) else if s == "false" then Some(false) else None
  }

  function PrintBool(b: bool): string { if b then "true" else "false" }
}
