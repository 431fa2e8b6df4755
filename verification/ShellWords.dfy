/** Splitting GRUB command lines: `shell_words` of crates/r-boot/src/menu.rs. */
module ShellWords {
  import opened Text
  import opened Wrappers

  datatype State = State(words: seq<string>, word: string, quote: Option<char>, escaped: bool)

  const START := State([], "", None, false)

  function Push(s: State): State {
    if s.word == "" then s else s.(words := s.words + [s.word], word := "")
  }

  function Step(s: State, c: char): State {
    if s.escaped then s.(word := s.word + [c], escaped := false)
    else if c == '\\' then s.(escaped := true)
    else if s.quote == Some(c) then s.(quote := None)
    else if s.quote.None? && (c == '\'' || c == '"') then s.(quote := Some(c))
    else if s.quote.None? && IsWhitespace(c) then Push(s)
    else if c != '{' && c != ';' then s.(word := s.word + [c])
    else s
  }

  function Run(s: State, line: string): State
    decreases |line|
  {
    if line == [] then s else Run(Step(s, line[0]), line[1..])
  }

  function Words(line: string): seq<string> { Push(Run(START, line)).words }

  /** `shell_words`. */
  method SplitWords(line: string) returns (words: seq<string>)
    ensures words == Words(line)
  {
    words := [];
    var word, quote: Option<char>, escaped := "", None, false;
    for i := 0 to |line|
      invariant Run(State(words, word, quote, escaped), line[i..]) == Run(START, line)
    {
      assert line[i..][0] == line[i] && line[i..][1..] == line[i + 1..];
      var character := line[i];
      if escaped {
        word := word + [character];
        escaped := false;
      } else if character == '\\' {
        escaped := true;
      } else if Some(character) == quote {
        quote := None;
      } else if quote.None? && (character == '\'' || character == '"') {
        quote := Some(character);
      } else if quote.None? && IsWhitespace(character) {
        if word != "" { words, word := words + [word], ""; }
      } else if character != '{' && character != ';' {
        word := word + [character];
      }
    }
    if word != "" { words := words + [word]; }
  }

  // ----- quoting

  /** Every character behind a backslash. */
  function Escaped(w: string): string { if w == [] then [] else ['\\', w[0]] + Escaped(w[1..]) }

  function Quoted(w: string, q: char): string { [q] + w + [q] }

  /** Words with one whitespace character between them. */
  function Joined(words: seq<string>, blank: char): string {
    if words == [] then "" else if |words| == 1 then words[0] else words[0] + [blank] + Joined(words[1..], blank)
  }

  function EscapedAll(words: seq<string>): seq<string> {
    seq(|words|, i requires 0 <= i < |words| => Escaped(words[i]))
  }

  function QuotedAll(words: seq<string>, q: char): seq<string> {
    seq(|words|, i requires 0 <= i < |words| => Quoted(words[i], q))
  }

  lemma {:induction false} RunConcat(s: State, a: string, b: string)
    ensures Run(s, a + b) == Run(Run(s, a), b)
    decreases |a|
  {
    if a == [] {
      assert a + b == b;
    } else {
      assert (a + b)[1..] == a[1..] + b;
      RunConcat(Step(s, a[0]), a[1..], b);
    }
  }

  lemma RunOne(s: State, c: char)
    ensures Run(s, [c]) == Step(s, c)
  {
    assert [c][1..] == [];
  }

  /** Outside an escape, an escaped text is appended as it is, in quotes or not. */
  lemma {:induction false} RunEscaped(s: State, w: string)
    requires !s.escaped
    ensures Run(s, Escaped(w)) == s.(word := s.word + w)
    decreases |w|
  {
    if w == [] {
      assert s.word + [] == s.word;
    } else {
      RunConcat(s, ['\\', w[0]], Escaped(w[1..]));
      var s' := s.(word := s.word + [w[0]]);
      assert ['\\', w[0]][1..] == [w[0]];
      RunOne(s.(escaped := true), w[0]);
      RunEscaped(s', w[1..]);
      assert s.word + [w[0]] + w[1..] == s.word + w;
    }
  }

  /** Text that can stand between quotes `q`, the other quote included. */
  predicate Plain(w: string, q: char) { forall c <- w :: c != '\\' && c != q && c != '{' && c != ';' }

  lemma {:induction false} RunPlain(s: State, w: string)
    requires !s.escaped && s.quote.Some? && Plain(w, s.quote.value)
    ensures Run(s, w) == s.(word := s.word + w)
    decreases |w|
  {
    hide IsWhitespace;
    if w == [] {
      assert s.word + [] == s.word;
    } else {
      assert w == [w[0]] + w[1..];
      assert w[0] in w && forall c <- w[1..] :: c in w;
      RunPlain(s.(word := s.word + [w[0]]), w[1..]);
      assert s.word + [w[0]] + w[1..] == s.word + w;
    }
  }

  lemma RunQuoted(s: State, w: string, q: char)
    requires !s.escaped && s.quote.None? && (q == '\'' || q == '"') && Plain(w, q)
    ensures Run(s, Quoted(w, q)) == s.(word := s.word + w)
  {
    RunConcat(s, [q] + w, [q]);
    RunConcat(s, [q], w);
    RunOne(s, q);
    RunPlain(s.(quote := Some(q)), w);
    RunOne(s.(quote := Some(q), word := s.word + w), q);
  }

  predicate IsBlank(c: char) { IsWhitespace(c) }

  lemma BlankIsNoSyntax(c: char)
    requires IsBlank(c)
    ensures c != '\\' && c != '\'' && c != '"'
  {}

  lemma RunBlank(s: State, blank: char)
    requires !s.escaped && s.quote.None? && IsBlank(blank) && s.word != ""
    ensures Run(s, [blank]) == s.(words := s.words + [s.word], word := "")
  {
    BlankIsNoSyntax(blank);
    RunOne(s, blank);
  }

  lemma {:induction false} RunEscapedAll(s: State, words: seq<string>, blank: char)
    requires !s.escaped && s.quote.None? && s.word == "" && IsBlank(blank) && forall w <- words :: w != ""
    ensures Push(Run(s, Joined(EscapedAll(words), blank))) == s.(words := s.words + words)
    decreases |words|
  {
    hide IsBlank;
    if words == [] {
      assert s.words + [] == s.words;
    } else {
      RunEscaped(s, words[0]);
      assert "" + words[0] == words[0] && words[0] in words;
      if |words| > 1 {
        var e, rest := Escaped(words[0]), Joined(EscapedAll(words[1..]), blank);
        assert EscapedAll(words)[1..] == EscapedAll(words[1..]);
        RunConcat(s, e + [blank], rest);
        RunConcat(s, e, [blank]);
        RunBlank(s.(word := words[0]), blank);
        assert forall w <- words[1..] :: w in words;
        RunEscapedAll(s.(words := s.words + [words[0]]), words[1..], blank);
        assert s.words + [words[0]] + words[1..] == s.words + words;
      } else {
        assert EscapedAll(words)[0] == Escaped(words[0]);
        assert words == [words[0]];
      }
    }
  }

  lemma {:induction false} RunQuotedAll(s: State, words: seq<string>, q: char, blank: char)
    requires !s.escaped && s.quote.None? && s.word == "" && IsBlank(blank) && (q == '\'' || q == '"')
    requires forall w <- words :: w != "" && Plain(w, q)
    ensures Push(Run(s, Joined(QuotedAll(words, q), blank))) == s.(words := s.words + words)
    decreases |words|
  {
    hide IsBlank, Plain;
    if words == [] {
      assert s.words + [] == s.words;
    } else {
      assert words[0] in words;
      RunQuoted(s, words[0], q);
      assert "" + words[0] == words[0];
      if |words| > 1 {
        var e, rest := Quoted(words[0], q), Joined(QuotedAll(words[1..], q), blank);
        assert QuotedAll(words, q)[1..] == QuotedAll(words[1..], q);
        RunConcat(s, e + [blank], rest);
        RunConcat(s, e, [blank]);
        RunBlank(s.(word := words[0]), blank);
        assert forall w <- words[1..] :: w in words;
        RunQuotedAll(s.(words := s.words + [words[0]]), words[1..], q, blank);
        assert s.words + [words[0]] + words[1..] == s.words + words;
      } else {
        assert QuotedAll(words, q)[0] == Quoted(words[0], q);
        assert words == [words[0]];
      }
    }
  }

  /** Escaping every character and joining with whitespace is undone exactly
      for the lists without an empty word. */
  lemma EscapingIsUndoneIff(words: seq<string>, blank: char)
    requires IsWhitespace(blank)
    ensures Words(Joined(EscapedAll(words), blank)) == words <==> forall w <- words :: w != ""
  {
    hide IsWhitespace;
    NoEmptyWords(START, Joined(EscapedAll(words), blank));
    if forall w <- words :: w != "" {
      RunEscapedAll(START, words, blank);
      assert [] + words == words;
    }
  }

  /** The splitter never produces an empty word. */
  lemma {:induction false} NoEmptyWords(s: State, line: string)
    requires "" !in s.words
    ensures "" !in Push(Run(s, line)).words
    decreases |line|
  {
    hide IsWhitespace;
    if line != [] { NoEmptyWords(Step(s, line[0]), line[1..]); }
  }

  // ----- when quoting is not undone

  function Count(c: char, t: string): nat { if t == [] then 0 else (if t[0] == c then 1 else 0) + Count(c, t[1..]) }

  function CountAll(c: char, words: seq<string>): nat {
    if words == [] then 0 else Count(c, words[0]) + CountAll(c, words[1..])
  }

  lemma {:induction false} CountConcat(c: char, a: string, b: string)
    ensures Count(c, a + b) == Count(c, a) + Count(c, b)
  {
    if a == [] {
      assert a + b == b;
    } else {
      assert (a + b)[1..] == a[1..] + b;
      CountConcat(c, a[1..], b);
    }
  }

  lemma {:induction false} CountAllConcat(c: char, a: seq<string>, b: seq<string>)
    ensures CountAll(c, a + b) == CountAll(c, a) + CountAll(c, b)
  {
    if a == [] {
      assert a + b == b;
    } else {
      assert (a + b)[1..] == a[1..] + b;
      CountAllConcat(c, a[1..], b);
    }
  }

  lemma CountOne(c: char, x: char)
    ensures Count(c, [x]) == if x == c then 1 else 0
  {
    assert [x][1..] == [];
  }

  lemma {:induction false} CountZero(c: char, t: string)
    ensures Count(c, t) == 0 <==> c !in t
  {
    if t != [] {
      CountZero(c, t[1..]);
      assert t == [t[0]] + t[1..];
    }
  }

  lemma {:induction false} CountAllZero(c: char, words: seq<string>)
    ensures CountAll(c, words) == 0 <==> forall w <- words :: c !in w
  {
    if words != [] {
      CountZero(c, words[0]);
      CountAllZero(c, words[1..]);
      assert forall w :: w in words <==> w == words[0] || w in words[1..];
    }
  }

  /** How often a character stands in the words so far. */
  function Held(s: State, c: char): nat { CountAll(c, s.words) + Count(c, s.word) }

  lemma HeldPush(s: State, c: char)
    ensures Held(Push(s), c) == Held(s, c) == CountAll(c, Push(s).words) && Push(s).word == ""
  {
    CountAllConcat(c, s.words, [s.word]);
    assert [s.word][1..] == [];
  }

  lemma HeldStep(s: State, x: char, c: char)
    ensures Held(Step(s, x), c) ==
      if x == c && Step(s, x).word == s.word + [x] && (s.escaped || (x != '\\' && s.quote != Some(x))) then Held(s, c) + 1
      else Held(s, c)
  {
    hide IsWhitespace, Push;
    HeldPush(s, c);
    CountConcat(c, s.word, [x]);
    CountOne(c, x);
    PushShrinks(s, x);
  }

  lemma PushShrinks(s: State, x: char)
    ensures Push(s).word != s.word + [x] && s.word != s.word + [x]
  {
    assert |s.word + [x]| == |s.word| + 1;
  }

  /** No character is held that was not read. */
  lemma {:induction false} RunHolds(s: State, line: string, c: char)
    ensures Held(Run(s, line), c) <= Held(s, c) + Count(c, line)
    decreases |line|
  {
    hide Step, Held;
    if line != [] {
      HeldStep(s, line[0], c);
      RunHolds(Step(s, line[0]), line[1..], c);
    }
  }

  function Pending(s: State): nat { if s.escaped then 1 else 0 }

  /** A backslash is held only at the cost of another. */
  lemma {:induction false} BackslashesHalve(s: State, line: string)
    ensures 2 * Held(Run(s, line), '\\') + Pending(Run(s, line)) <= 2 * Held(s, '\\') + Pending(s) + Count('\\', line)
    decreases |line|
  {
    hide IsWhitespace, Held, Push;
    if line != [] {
      HeldStep(s, line[0], '\\');
      PushKeepsRest(s);
      BackslashesHalve(Step(s, line[0]), line[1..]);
    }
  }

  lemma PushKeepsRest(s: State)
    ensures Push(s).escaped == s.escaped && Push(s).quote == s.quote
  {}

  /** Without backslashes braces and semicolons are dropped. */
  lemma {:induction false} DroppedSigns(s: State, line: string, c: char)
    requires !s.escaped && '\\' !in line && (c == '{' || c == ';')
    ensures !Run(s, line).escaped && Held(Run(s, line), c) == Held(s, c)
    decreases |line|
  {
    hide IsWhitespace, Held, Push;
    if line != [] {
      assert line == [line[0]] + line[1..];
      HeldStep(s, line[0], c);
      PushKeepsRest(s);
      PushShrinks(s, line[0]);
      DroppedSigns(Step(s, line[0]), line[1..], c);
    }
  }

  /** If every `o` is held then no `o` was a quote, and so no `q` is held. */
  lemma {:induction false} QuotesAreQuotes(s: State, line: string, q: char, o: char)
    requires !s.escaped && '\\' !in line && (s.quote.None? || s.quote == Some(q))
    requires (q == '\'' && o == '"') || (q == '"' && o == '\'')
    requires Held(Run(s, line), o) == Held(s, o) + Count(o, line)
    ensures Held(Run(s, line), q) == Held(s, q)
    decreases |line|
  {
    hide IsWhitespace, Held, Push;
    if line != [] {
      assert line == [line[0]] + line[1..];
      var next := Step(s, line[0]);
      HeldStep(s, line[0], o);
      HeldStep(s, line[0], q);
      PushKeepsRest(s);
      PushShrinks(s, line[0]);
      RunHolds(next, line[1..], o);
      QuotesAreQuotes(next, line[1..], q, o);
    }
  }

  lemma {:induction false} JoinedCount(words: seq<string>, q: char, blank: char, c: char)
    requires c != q && c != blank
    ensures Count(c, Joined(QuotedAll(words, q), blank)) == CountAll(c, words)
  {
    if words != [] {
      CountOne(c, q);
      CountOne(c, blank);
      CountConcat(c, [q] + words[0], [q]);
      CountConcat(c, [q], words[0]);
      var all := QuotedAll(words, q);
      assert all[0] == Quoted(words[0], q);
      if |words| > 1 {
        JoinedCount(words[1..], q, blank, c);
        assert all[1..] == QuotedAll(words[1..], q);
        CountConcat(c, all[0] + [blank], Joined(all[1..], blank));
        CountConcat(c, all[0], [blank]);
      } else {
        assert words[1..] == [];
      }
    }
  }

  /** What comes back unchanged had nothing to be lost. */
  lemma UndoneIsPlain(words: seq<string>, q: char, blank: char)
    requires IsWhitespace(blank) && (q == '\'' || q == '"') && Words(Joined(QuotedAll(words, q), blank)) == words
    ensures forall w <- words :: w != "" && Plain(w, q)
  {
    var line := Joined(QuotedAll(words, q), blank);
    var o := if q == '"' then '\'' else '"';
    var end := Run(START, line);
    assert blank != '\\' && blank != '{' && blank != ';' && blank != '\'' && blank != '"';
    hide Joined, QuotedAll, Run, IsWhitespace, Held;
    NoEmptyWords(START, line);
    forall c: char ensures Held(end, c) == CountAll(c, words) && Held(START, c) == 0 {
      HeldPush(end, c);
      NothingHeld(c);
    }
    JoinedCount(words, q, blank, '\\');
    BackslashesHalve(START, line);
    assert CountAll('\\', words) == 0;
    CountZero('\\', line);
    DroppedSigns(START, line, '{');
    DroppedSigns(START, line, ';');
    JoinedCount(words, q, blank, o);
    QuotesAreQuotes(START, line, q, o);
    CountAllZero('\\', words);
    CountAllZero('{', words);
    CountAllZero(';', words);
    CountAllZero(q, words);
    forall w <- words ensures Plain(w, q) {
      assert '\\' !in w && '{' !in w && ';' !in w && q !in w;
    }
  }

  lemma NothingHeld(c: char)
    ensures Held(START, c) == 0
  {}

  /** Wrapping words in either quote character is undone exactly for lists of
      plain words without an empty one. */
  lemma QuotingIsUndoneIff(words: seq<string>, q: char, blank: char)
    requires IsWhitespace(blank) && (q == '\'' || q == '"')
    ensures Words(Joined(QuotedAll(words, q), blank)) == words <==> forall w <- words :: w != "" && Plain(w, q)
  {
    hide IsWhitespace, Plain;
    if forall w <- words :: w != "" && Plain(w, q) {
      RunQuotedAll(START, words, q, blank);
      assert [] + words == words;
    }
    if Words(Joined(QuotedAll(words, q), blank)) == words { UndoneIsPlain(words, q, blank); }
  }

  /** A word emptied by its quotes is lost: `''` gives no word at all. */
  lemma EmptyWordsAreLost()
    ensures Words("''") == []
  {
    assert "''"[1..] == "'" && "'"[1..] == "";
    assert !IsWhitespace('\'');
  }

  // ----- words without any quoting

  /** Text that means itself outside quotes. */
  predicate Bare(w: string) {
    forall c <- w :: !IsWhitespace(c) && c != '\\' && c != '\'' && c != '"' && c != '{' && c != ';'
  }

  lemma {:induction false} RunBare(s: State, w: string)
    requires !s.escaped && s.quote.None? && Bare(w)
    ensures Run(s, w) == s.(word := s.word + w)
    decreases |w|
  {
    hide IsWhitespace;
    if w == [] {
      assert s.word + [] == s.word;
    } else {
      assert w == [w[0]] + w[1..];
      assert w[0] in w && forall c <- w[1..] :: c in w;
      RunBare(s.(word := s.word + [w[0]]), w[1..]);
      assert s.word + [w[0]] + w[1..] == s.word + w;
    }
  }

  lemma {:induction false} RunBareAll(s: State, words: seq<string>, blank: char)
    requires !s.escaped && s.quote.None? && s.word == "" && IsBlank(blank)
    requires forall w <- words :: w != "" && Bare(w)
    ensures Push(Run(s, Joined(words, blank))) == s.(words := s.words + words)
    decreases |words|
  {
    hide IsBlank, Bare;
    if words == [] {
      assert s.words + [] == s.words;
    } else {
      assert words[0] in words;
      RunBare(s, words[0]);
      assert "" + words[0] == words[0];
      if |words| > 1 {
        var rest := Joined(words[1..], blank);
        RunConcat(s, words[0] + [blank], rest);
        RunConcat(s, words[0], [blank]);
        RunBlank(s.(word := words[0]), blank);
        assert forall w <- words[1..] :: w in words;
        RunBareAll(s.(words := s.words + [words[0]]), words[1..], blank);
        assert s.words + [words[0]] + words[1..] == s.words + words;
      } else {
        assert words == [words[0]];
      }
    }
  }

  /** Words that need no quoting and stand between blanks are the words of the
      line, as in most lines of a GRUB menu. */
  lemma BareWordsComeBack(words: seq<string>, blank: char)
    requires IsWhitespace(blank) && forall w <- words :: w != "" && Bare(w)
    ensures Words(Joined(words, blank)) == words
  {
    hide IsWhitespace, Bare;
    RunBareAll(START, words, blank);
    assert [] + words == words;
  }
}
