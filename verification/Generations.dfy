/** Choosing which older system generations stay in the boot menu:
    `list_generations` of crates/r-boot-conf-builder/src/main.rs. */
module Generations {
  import opened Wrappers
  import opened Text

  const PREFIX := "system-"
  const SUFFIX := "-link"
  const U64_LIMIT: nat := 0x1_0000_0000_0000_0000

  datatype Profile = Profile(number: nat, name: string)

  /** The generation number in a profile link's name. */
  function NumberOf(name: string): Option<nat> {
    if PREFIX <= name then
      var rest := name[|PREFIX|..];
      if |SUFFIX| <= |rest| && rest[|rest| - |SUFFIX|..] == SUFFIX
      then ParseUnsigned(rest[..|rest| - |SUFFIX|], U64_LIMIT)
      else None
    else None
  }

  /** The links Nix makes are recognised, with their number. */
  lemma LinkOfGeneration(n: nat)
    requires n < U64_LIMIT
    ensures NumberOf(PREFIX + Print(n) + SUFFIX) == Some(n)
  {
    var name := PREFIX + Print(n) + SUFFIX;
    assert name[|PREFIX|..] == Print(n) + SUFFIX;
    assert (Print(n) + SUFFIX)[..|Print(n)|] == Print(n);
    ParsePrint(n, U64_LIMIT);
  }

  /** No other name is taken for a generation. */
  lemma OnlyLinksCount(name: string)
    ensures NumberOf(name).Some? <==>
      exists digits :: name == "system-" + digits + "-link" && ParseUnsigned(digits, U64_LIMIT).Some?
    ensures forall digits :: name == "system-" + digits + "-link" ==> NumberOf(name) == ParseUnsigned(digits, U64_LIMIT)
  {
    hide ParseUnsigned;
    forall digits | name == "system-" + digits + "-link" ensures NumberOf(name) == ParseUnsigned(digits, U64_LIMIT) {
      assert name[|PREFIX|..] == digits + SUFFIX;
      assert (digits + SUFFIX)[..|digits|] == digits;
    }
    if NumberOf(name).Some? {
      var rest := name[|PREFIX|..];
      var digits := rest[..|rest| - |SUFFIX|];
      assert rest == digits + SUFFIX && name == PREFIX + rest;
      assert name == "system-" + digits + "-link";
    }
  }

  /** One directory entry: an error, or a name that may not be text. */
  type Listing = seq<Result<Option<string>>>

  /** The generations among the first entries, or the first error. */
  function Found(listing: Listing): Result<seq<Profile>> {
    if listing == [] then Ok([]) else
    var last := listing[|listing| - 1];
    match Found(listing[..|listing| - 1])
    case Err(m) => Err(m)
    case Ok(before) =>
      if last.Err? then Err(last.message)
      else if last.value.Some? && NumberOf(last.value.value).Some?
      then Ok(before + [Profile(NumberOf(last.value.value).value, last.value.value)])
      else Ok(before)
  }

  predicate Descending(ps: seq<Profile>) {
    forall i, j | 0 <= i < j < |ps| :: ps[i].number >= ps[j].number
  }

  /** The entries of one number, in their order. */
  function OfNumber(ps: seq<Profile>, n: nat): seq<Profile> {
    if ps == [] then [] else IfNumber(ps[0], n) + OfNumber(ps[1..], n)
  }

  function IfNumber(p: Profile, n: nat): seq<Profile> { if p.number == n then [p] else [] }

  /** `b` is `a` sorted by falling number, equal numbers in their old order. */
  ghost predicate StablySorted(a: seq<Profile>, b: seq<Profile>) {
    Descending(b) && multiset(b) == multiset(a) && forall n :: OfNumber(b, n) == OfNumber(a, n)
  }

  /** Put `p` behind everything of at least its number. */
  function Insert(ps: seq<Profile>, p: Profile): seq<Profile> {
    if ps == [] || ps[0].number < p.number then [p] + ps else [ps[0]] + Insert(ps[1..], p)
  }

  lemma {:induction false} InsertKeepsAll(ps: seq<Profile>, p: Profile)
    ensures multiset(Insert(ps, p)) == multiset(ps) + multiset{p}
  {
    if ps != [] && ps[0].number >= p.number {
      InsertKeepsAll(ps[1..], p);
      assert ps == [ps[0]] + ps[1..];
    }
  }

  lemma {:induction false} InsertHolds(ps: seq<Profile>, p: Profile)
    ensures forall q :: q in Insert(ps, p) <==> q == p || q in ps
  {
    if ps != [] && ps[0].number >= p.number {
      InsertHolds(ps[1..], p);
      assert ps == [ps[0]] + ps[1..];
    }
  }

  lemma DescendingCons(first: Profile, rest: seq<Profile>)
    requires Descending(rest) && forall q <- rest :: q.number <= first.number
    ensures Descending([first] + rest)
  {}

  lemma {:induction false} InsertDescends(ps: seq<Profile>, p: Profile)
    requires Descending(ps)
    ensures Descending(Insert(ps, p))
  {
    if ps != [] {
      assert forall q <- ps :: q.number <= ps[0].number;
      if ps[0].number >= p.number {
        InsertDescends(ps[1..], p);
        InsertHolds(ps[1..], p);
        assert forall q <- ps[1..] :: q in ps;
        DescendingCons(ps[0], Insert(ps[1..], p));
      } else {
        DescendingCons(p, ps);
      }
    }
  }

  lemma {:induction false} InsertKeepsOrder(ps: seq<Profile>, p: Profile, n: nat)
    requires Descending(ps)
    ensures OfNumber(Insert(ps, p), n) == OfNumber(ps, n) + IfNumber(p, n)
  {
    hide OfNumber, IfNumber;
    OfNumberCons(p, ps, n);
    if ps == [] || ps[0].number < p.number {
      LowerLast(ps, p, n);
    } else {
      var rest := Insert(ps[1..], p);
      InsertKeepsOrder(ps[1..], p, n);
      Regrouped(IfNumber(ps[0], n), OfNumber(ps[1..], n), IfNumber(p, n));
      OfNumberCons(ps[0], rest, n);
      OfNumberCons(ps[0], ps[1..], n);
      assert ps == [ps[0]] + ps[1..];
    }
  }

  lemma LowerLast(ps: seq<Profile>, p: Profile, n: nat)
    requires Descending(ps) && (ps == [] || ps[0].number < p.number)
    ensures IfNumber(p, n) + OfNumber(ps, n) == OfNumber(ps, n) + IfNumber(p, n)
  {
    if n == p.number {
      assert forall q <- ps :: q.number <= ps[0].number;
      LowerNumbers(ps, n);
    }
  }

  lemma {:induction false} LowerNumbers(ps: seq<Profile>, n: nat)
    requires forall q <- ps :: q.number < n
    ensures OfNumber(ps, n) == []
  {
    if ps != [] {
      assert ps == [ps[0]] + ps[1..];
      LowerNumbers(ps[1..], n);
    }
  }

  lemma {:induction false} OfNumberConcat(a: seq<Profile>, b: seq<Profile>, n: nat)
    ensures OfNumber(a + b, n) == OfNumber(a, n) + OfNumber(b, n)
  {
    hide OfNumber, IfNumber;
    if a == [] {
      assert a + b == b;
      NoneOfNumber(n);
    } else {
      var rest := a[1..] + b;
      OfNumberConcat(a[1..], b, n);
      OfNumberCons(a[0], rest, n);
      OfNumberCons(a[0], a[1..], n);
      assert a == [a[0]] + a[1..] && a + b == [a[0]] + rest;
      Regrouped(IfNumber(a[0], n), OfNumber(a[1..], n), OfNumber(b, n));
    }
  }

  lemma NoneOfNumber(n: nat)
    ensures OfNumber([], n) == []
  {}

  lemma Regrouped(a: seq<Profile>, b: seq<Profile>, c: seq<Profile>)
    ensures a + (b + c) == (a + b) + c
  {}

  lemma OfNumberCons(p: Profile, rest: seq<Profile>, n: nat)
    ensures OfNumber([p] + rest, n) == IfNumber(p, n) + OfNumber(rest, n) && OfNumber([], n) == []
  {
    assert ([p] + rest)[1..] == rest;
  }

  /** `sort_by_key(Reverse(number))`: any stable sort gives this. */
  method SortDescending(ps: seq<Profile>) returns (sorted: seq<Profile>)
    ensures StablySorted(ps, sorted)
  {
    sorted := [];
    for i := 0 to |ps|
      invariant StablySorted(ps[..i], sorted)
    {
      InsertDescends(sorted, ps[i]);
      InsertKeepsAll(sorted, ps[i]);
      assert ps[..i + 1] == ps[..i] + [ps[i]];
      forall n
        ensures OfNumber(Insert(sorted, ps[i]), n) == OfNumber(ps[..i + 1], n)
      {
        InsertKeepsOrder(sorted, ps[i], n);
        OfNumberCons(ps[i], [], n);
        assert [ps[i]] + [] == [ps[i]];
        OfNumberConcat(ps[..i], [ps[i]], n);
      }
      sorted := Insert(sorted, ps[i]);
    }
    assert ps[..|ps|] == ps;
  }

  /** `list_generations`: at most `limit`, newest first, and whatever is left
      out is no newer than anything kept. */
  method ListGenerations(listing: Listing, limit: nat) returns (r: Result<seq<Profile>>)
    ensures r.Err? <==> Found(listing).Err?
    ensures r.Err? ==> r.message == Found(listing).message
    ensures r.Ok? ==>
      && Descending(r.value)
      && |r.value| == (if limit < |Found(listing).value| then limit else |Found(listing).value|)
      && exists rest :: StablySorted(Found(listing).value, r.value + rest)
  {
    var generations := [];
    for i := 0 to |listing|
      invariant Found(listing[..i]) == Ok(generations)
    {
      var whole := listing[..i + 1];
      assert whole[..|whole| - 1] == listing[..i] && whole[|whole| - 1] == listing[i];
      if listing[i].Err? {
        ErrorStays(listing, i);
        return Err(listing[i].message);
      }
      if listing[i].value.Some? {
        var name := listing[i].value.value;
        var number := NumberOf(name);
        if number.Some? { generations := generations + [Profile(number.value, name)]; }
      }
    }
    assert listing[..|listing|] == listing;
    var sorted := SortDescending(generations);
    SortedSize(generations, sorted);
    hide StablySorted, Found;
    var count := if limit < |sorted| then limit else |sorted|;
    assert sorted[..count] + sorted[count..] == sorted;
    r := Ok(sorted[..count]);
  }

  lemma SortedSize(a: seq<Profile>, b: seq<Profile>)
    requires StablySorted(a, b)
    ensures |a| == |b| && forall n: nat | n <= |b| :: Descending(b[..n])
  {
    assert |b| == |multiset(b)| == |multiset(a)| == |a|;
  }

  lemma {:induction false} ErrorStays(listing: Listing, i: nat)
    requires i < |listing| && listing[i].Err? && Found(listing[..i]).Ok?
    ensures Found(listing) == Err(listing[i].message)
  {
    assert listing[..|listing|] == listing;
    ErrorFrom(listing, i, |listing|);
  }

  lemma {:induction false} ErrorFrom(listing: Listing, i: nat, n: nat)
    requires i < n <= |listing| && listing[i].Err? && Found(listing[..i]).Ok?
    ensures Found(listing[..n]) == Err(listing[i].message)
  {
    assert listing[..n][..n - 1] == listing[..n - 1];
    if n > i + 1 {
      ErrorFrom(listing, i, n - 1);
    }
  }

  /** No generation left out is newer than one kept. */
  lemma LeftOutIsOlder(kept: seq<Profile>, rest: seq<Profile>, p: Profile, q: Profile)
    requires Descending(kept + rest) && p in kept && q in rest
    ensures q.number <= p.number
  {
    var i :| 0 <= i < |kept| && kept[i] == p;
    var j :| 0 <= j < |rest| && rest[j] == q;
    assert (kept + rest)[i] == p && (kept + rest)[|kept| + j] == q;
  }
}
