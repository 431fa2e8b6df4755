/** Tab completion in the boot console: `apply_completion` and
    `longest_common_prefix` of crates/r-boot/src/console.rs. */
module Completion {
  import opened Wrappers

  datatype Candidate = Candidate(name: string, trailing: Option<char>)

  predicate Begins(p: string, s: string) { p <= s }

  predicate CommonPrefix(p: string, names: seq<string>) { forall n <- names :: Begins(p, n) }

  /** Number of leading characters on which two texts agree. */
  function Agreement(a: string, b: string): (k: nat)
    ensures k <= |a| && k <= |b|
  {
    if a == [] || b == [] || a[0] != b[0] then 0 else 1 + Agreement(a[1..], b[1..])
  }

  lemma {:induction false} AgreementIsLongest(a: string, b: string, p: string)
    ensures Begins(p, a) && Begins(p, b) <==> Begins(p, a[..Agreement(a, b)])
  {
    if p != [] && a != [] && b != [] && a[0] == b[0] {
      AgreementIsLongest(a[1..], b[1..], p[1..]);
      var k := Agreement(a[1..], b[1..]);
      assert a == [a[0]] + a[1..] && b == [b[0]] + b[1..] && p == [p[0]] + p[1..];
      assert a[..1 + k] == [a[0]] + a[1..][..k];
    }
  }

  /** `longest_common_prefix`: the texts every name starts with are exactly the
      beginnings of the result. */
  method LongestCommonPrefix(names: seq<string>) returns (common: string)
    ensures names == [] ==> common == ""
    ensures names != [] ==> forall p: string :: CommonPrefix(p, names) <==> Begins(p, common)
  {
    if names == [] { return ""; }
    common := names[0];
    assert names[..1] == [names[0]];
    for i := 1 to |names|
      invariant forall p: string :: CommonPrefix(p, names[..i]) <==> Begins(p, common)
    {
      ghost var before := common;
      common := common[..Agreement(common, names[i])];
      forall p: string
        ensures CommonPrefix(p, names[..i + 1]) <==> Begins(p, common)
      {
        assert names[..i + 1] == names[..i] + [names[i]];
        AgreementIsLongest(before, names[i], p);
      }
    }
    assert names[..|names|] == names;
  }

  function Matching(typed: string, candidates: seq<Candidate>): (r: seq<Candidate>)
    ensures forall c :: c in r <==> c in candidates && typed <= c.name
    ensures forall i, j | 0 <= i < j < |r| :: r[i] != r[j]
  {
    if candidates == [] then [] else
    assert candidates == [candidates[0]] + candidates[1..];
    var rest := Matching(typed, candidates[1..]);
    if typed <= candidates[0].name && candidates[0] !in rest then [candidates[0]] + rest else rest
  }

  function NamesOf(candidates: seq<Candidate>): (r: seq<string>)
    ensures |r| == |candidates| && forall i | 0 <= i < |r| :: r[i] == candidates[i].name
  {
    seq(|candidates|, i requires 0 <= i < |candidates| => candidates[i].name)
  }

  datatype Outcome = Nothing | Completed | Extended | Listed

  /** `apply_completion` on the line whose last word starts at `wordStart`. */
  method ApplyCompletion(line: string, wordStart: nat, candidates: seq<Candidate>)
    returns (r: string, outcome: Outcome)
    requires wordStart <= |line|
    ensures outcome == Nothing <==> Matching(line[wordStart..], candidates) == []
    ensures outcome == Completed <==> |Matching(line[wordStart..], candidates)| == 1
    ensures outcome == Nothing || outcome == Listed ==> r == line
    ensures outcome == Completed ==>
      var only := Matching(line[wordStart..], candidates)[0];
      r == line[..wordStart] + only.name + (match only.trailing case None => [] case Some(c) => [c])
    ensures outcome == Extended || outcome == Listed ==>
      && line <= r && CommonPrefix(r[wordStart..], NamesOf(Matching(line[wordStart..], candidates)))
      && forall p: string :: CommonPrefix(p, NamesOf(Matching(line[wordStart..], candidates))) ==> Begins(p, r[wordStart..])
    ensures outcome == Extended <==> r != line && |Matching(line[wordStart..], candidates)| > 1
  {
    var typed := line[wordStart..];
    var matching := Matching(typed, candidates);
    assert line == line[..wordStart] + typed;
    if |matching| == 0 { return line, Nothing; }
    if |matching| == 1 {
      var only := matching[0];
      assert only in matching;
      r := line + only.name[|typed|..];
      assert typed + only.name[|typed|..] == only.name;
      assert r == line[..wordStart] + only.name;
      match only.trailing {
        case None =>
        case Some(c) => r := r + [c];
      }
      return r, Completed;
    }
    var common := LongestCommonPrefix(NamesOf(matching));
    assert CommonPrefix(typed, NamesOf(matching)) by {
      forall n <- NamesOf(matching) ensures Begins(typed, n) {
        var i :| 0 <= i < |matching| && NamesOf(matching)[i] == n;
        assert matching[i] in matching;
      }
    }
    assert Begins(common, common) && Begins(typed, common);
    if |common| > |typed| {
      r, outcome := line + common[|typed|..], Extended;
      assert typed + common[|typed|..] == common;
      assert r[wordStart..] == common;
    } else {
      r, outcome := line, Listed;
      assert typed == common;
    }
  }

  /** Extending the word to what all matches share loses no match and gains
      none, so the same key pressed again can only list them. */
  lemma ExtensionKeepsMatches(typed: string, extended: string, candidates: seq<Candidate>)
    requires typed <= extended && CommonPrefix(extended, NamesOf(Matching(typed, candidates)))
    ensures Matching(extended, candidates) == Matching(typed, candidates)
  {
    forall c | c in candidates ensures extended <= c.name <==> typed <= c.name {
      if typed <= c.name {
        var i :| 0 <= i < |Matching(typed, candidates)| && Matching(typed, candidates)[i] == c;
        assert NamesOf(Matching(typed, candidates))[i] == c.name;
        assert Begins(extended, c.name);
      }
    }
    SameMatching(typed, extended, candidates);
  }

  lemma {:induction false} SameMatching(a: string, b: string, candidates: seq<Candidate>)
    requires forall c | c in candidates :: a <= c.name <==> b <= c.name
    ensures Matching(a, candidates) == Matching(b, candidates)
  {
    if candidates != [] {
      assert candidates == [candidates[0]] + candidates[1..];
      SameMatching(a, b, candidates[1..]);
    }
  }

  /** The key pressed twice with several matches: the second press changes
      nothing and lists. */
  method CompleteTwice(line: string, wordStart: nat, candidates: seq<Candidate>) returns (r: string, outcome: Outcome)
    requires wordStart <= |line| && |Matching(line[wordStart..], candidates)| > 1
    ensures outcome == Listed && line <= r
    ensures Matching(r[wordStart..], candidates) == Matching(line[wordStart..], candidates)
  {
    var once, first := ApplyCompletion(line, wordStart, candidates);
    assert line[wordStart..] <= once[wordStart..];
    ExtensionKeepsMatches(line[wordStart..], once[wordStart..], candidates);
    r, outcome := ApplyCompletion(once, wordStart, candidates);
    assert once == once[..wordStart] + once[wordStart..];
    assert r == r[..wordStart] + r[wordStart..];
    assert Begins(r[wordStart..], once[wordStart..]);
  }
}
