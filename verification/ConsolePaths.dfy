/** Path resolution in the boot console: `resolve` of
    crates/r-boot/src/console.rs. */
module ConsolePaths {
  import opened Wrappers

  const SEPARATOR := "\\"

  predicate IsSeparator(c: char) { c == '\\' || c == '/' }

  /** `split(['\\', '/'])`. */
  function Split(s: string): (r: seq<string>)
    ensures r != []
  {
    if s == [] then [""]
    else Prepend(s[0], Split(s[1..]))
  }

  function Prepend(c: char, parts: seq<string>): (r: seq<string>)
    requires parts != []
    ensures r != []
  {
    if IsSeparator(c) then [""] + parts else [[c] + parts[0]] + parts[1..]
  }

  function NonEmpty(cs: seq<string>): seq<string> {
    if cs == [] then [] else (if cs[0] == "" then [] else [cs[0]]) + NonEmpty(cs[1..])
  }

  /** One component of the argument against the stack of the path so far. */
  function Enter(stack: seq<string>, c: string): seq<string> {
    if c == "" || c == "." then stack
    else if c == ".." then (if stack == [] then [] else stack[..|stack| - 1])
    else stack + [c]
  }

  function Walk(stack: seq<string>, cs: seq<string>): seq<string>
    decreases |cs|
  {
    if cs == [] then stack else Walk(Enter(stack, cs[0]), cs[1..])
  }

  function Join(cs: seq<string>): string {
    if cs == [] then "" else if |cs| == 1 then cs[0] else cs[0] + SEPARATOR + Join(cs[1..])
  }

  predicate IsAbsolute(argument: string) { argument != "" && IsSeparator(argument[0]) }

  function StartOf(cwd: string, argument: string): seq<string> {
    if IsAbsolute(argument) then [] else NonEmpty(Split(cwd))
  }

  /** The components of the resolved path. */
  function Components(cwd: string, argument: string): seq<string> { Walk(StartOf(cwd, argument), Split(argument)) }

  /** `CString16::try_from` accepts it: UCS-2 characters, no NUL. */
  predicate Ucs2(s: string) { forall c <- s :: 0 < c as int < 0x1_0000 }

  function Resolved(cwd: string, argument: string): Option<string> {
    var path := SEPARATOR + Join(Components(cwd, argument));
    if Ucs2(path) then Some(path) else None
  }

  /** `resolve`. */
  method Resolve(cwd: string, argument: string) returns (r: Option<string>)
    ensures r == Resolved(cwd, argument)
  {
    var components := if argument != "" && IsSeparator(argument[0]) then [] else NonEmpty(Split(cwd));
    var parts := Split(argument);
    for i := 0 to |parts|
      invariant Walk(components, parts[i..]) == Components(cwd, argument)
    {
      assert parts[i..][0] == parts[i] && parts[i..][1..] == parts[i + 1..];
      if parts[i] == "" || parts[i] == "." {
      } else if parts[i] == ".." {
        if components != [] { components := components[..|components| - 1]; }
      } else {
        components := components + [parts[i]];
      }
    }
    var path := SEPARATOR + Join(components);
    r := if Ucs2(path) then Some(path) else None;
  }

  // ----- splitting and joining

  lemma PrependSeparator(c: char, x: seq<string>)
    requires IsSeparator(c) && x != []
    ensures Prepend(c, x) == [""] + x
  {}

  lemma PrependConcat(c: char, x: seq<string>, y: seq<string>)
    requires x != []
    ensures Prepend(c, x + y) == Prepend(c, x) + y
  {
    assert (x + y)[0] == x[0] && (x + y)[1..] == x[1..] + y;
  }

  lemma {:induction false} SplitConcat(a: string, c: char, b: string)
    requires IsSeparator(c)
    ensures Split(a + [c] + b) == Split(a) + Split(b)
  {
    hide Prepend;
    var s := a + [c] + b;
    if a == [] {
      PrependSeparator(c, Split(b));
      assert s == [c] + b && s[1..] == b;
    } else {
      assert s[0] == a[0] && s[1..] == a[1..] + [c] + b;
      SplitConcat(a[1..], c, b);
      PrependConcat(a[0], Split(a[1..]), Split(b));
    }
  }

  predicate NoSeparator(s: string) { forall c <- s :: !IsSeparator(c) }

  lemma {:induction false} SplitHasNoSeparator(s: string)
    ensures forall c <- Split(s) :: NoSeparator(c)
  {
    if s != [] {
      SplitHasNoSeparator(s[1..]);
      var rest := Split(s[1..]);
      assert rest == [rest[0]] + rest[1..];
      assert NoSeparator(rest[0]);
      forall c <- Prepend(s[0], rest)
        ensures NoSeparator(c)
      {
        assert c in rest || c == "" || (!IsSeparator(s[0]) && c == [s[0]] + rest[0]);
      }
    }
  }

  lemma {:induction false} SplitWord(s: string)
    requires NoSeparator(s)
    ensures Split(s) == [s]
  {
    if s != [] {
      SplitWord(s[1..]);
      assert [s[0]] + s[1..] == s;
    }
  }

  lemma {:induction false} NonEmptyConcat(a: seq<string>, b: seq<string>)
    ensures NonEmpty(a + b) == NonEmpty(a) + NonEmpty(b)
  {
    if a == [] {
      assert a + b == b;
    } else {
      assert (a + b)[1..] == a[1..] + b;
      NonEmptyConcat(a[1..], b);
    }
  }

  /** A name of a file or directory, as a resolved path holds them. */
  predicate IsName(c: string) { c != "" && c != "." && c != ".." && NoSeparator(c) }

  predicate AllNames(cs: seq<string>) { forall c <- cs :: IsName(c) }

  lemma {:induction false} SplitOfJoin(cs: seq<string>)
    requires forall c <- cs :: c != "" && NoSeparator(c)
    ensures NonEmpty(Split(Join(cs))) == cs
  {
    if cs == [] {
    } else if |cs| == 1 {
      SplitWord(cs[0]);
      assert NonEmpty([cs[0]]) == [cs[0]] + NonEmpty([]);
    } else {
      SplitConcat(cs[0], '\\', Join(cs[1..]));
      assert Join(cs) == cs[0] + ['\\'] + Join(cs[1..]);
      SplitWord(cs[0]);
      assert forall c <- cs[1..] :: c in cs;
      SplitOfJoin(cs[1..]);
      NonEmptyConcat([cs[0]], Split(Join(cs[1..])));
      assert NonEmpty([cs[0]]) == [cs[0]] + NonEmpty([]);
    }
  }

  /** Splitting a resolved path gives its components back. */
  lemma SplitOfPath(cs: seq<string>)
    requires forall c <- cs :: c != "" && NoSeparator(c)
    ensures NonEmpty(Split(SEPARATOR + Join(cs))) == cs
  {
    SplitConcat("", '\\', Join(cs));
    assert "" + ['\\'] + Join(cs) == SEPARATOR + Join(cs);
    SplitOfJoin(cs);
    NonEmptyConcat([""], Split(Join(cs)));
    assert NonEmpty([""]) == [];
  }

  // ----- walking

  lemma {:induction false} WalkConcat(stack: seq<string>, a: seq<string>, b: seq<string>)
    ensures Walk(stack, a + b) == Walk(Walk(stack, a), b)
    decreases |a|
  {
    if a == [] {
      assert a + b == b;
    } else {
      assert (a + b)[1..] == a[1..] + b;
      WalkConcat(Enter(stack, a[0]), a[1..], b);
    }
  }

  lemma {:induction false} WalkKeepsShape(stack: seq<string>, cs: seq<string>)
    requires forall c <- stack :: c != "" && NoSeparator(c)
    requires forall c <- cs :: NoSeparator(c)
    ensures forall c <- Walk(stack, cs) :: c != "" && NoSeparator(c)
    ensures AllNames(stack) ==> AllNames(Walk(stack, cs))
    decreases |cs|
  {
    hide NoSeparator;
    if cs != [] {
      assert NoSeparator(cs[0]);
      WalkKeepsShape(Enter(stack, cs[0]), cs[1..]);
    }
  }

  lemma {:induction false} NonEmptyFacts(cs: seq<string>)
    ensures forall c <- NonEmpty(cs) :: c != "" && c in cs
  {
    if cs != [] { NonEmptyFacts(cs[1..]); }
  }

  lemma StartShape(cwd: string, argument: string)
    ensures forall c <- StartOf(cwd, argument) :: c != "" && NoSeparator(c)
  {
    SplitHasNoSeparator(cwd);
    NonEmptyFacts(Split(cwd));
  }

  lemma ComponentsShape(cwd: string, argument: string)
    ensures forall c <- Components(cwd, argument) :: c != "" && NoSeparator(c)
    ensures AllNames(StartOf(cwd, argument)) ==> AllNames(Components(cwd, argument))
  {
    StartShape(cwd, argument);
    SplitHasNoSeparator(argument);
    WalkKeepsShape(StartOf(cwd, argument), Split(argument));
  }

  // ----- the laws

  /** Resolving in two steps is resolving in one: for non-empty `a` and relative
      `b`, `b` against the resolution of `a` is `a`, a separator and `b`. */
  lemma ResolveComposes(cwd: string, a: string, separator: char, b: string)
    requires a != "" && !IsAbsolute(b) && IsSeparator(separator) && Resolved(cwd, a).Some?
    ensures Resolved(Resolved(cwd, a).value, b) == Resolved(cwd, a + [separator] + b)
  {
    var ab := a + [separator] + b;
    ComponentsShape(cwd, a);
    SplitOfPath(Components(cwd, a));
    SplitConcat(a, separator, b);
    assert IsAbsolute(ab) <==> IsAbsolute(a);
    WalkConcat(StartOf(cwd, a), Split(a), Split(b));
  }

  /** An absolute argument leaves no trace of the current directory. */
  lemma AbsoluteIgnoresCwd(cwd: string, other: string, argument: string)
    requires IsAbsolute(argument)
    ensures Resolved(cwd, argument) == Resolved(other, argument)
  {}

  /** A normal path: absolute, and every component a name. */
  predicate Normal(path: string) {
    IsAbsolute(path) && path == SEPARATOR + Join(NonEmpty(Split(path))) && AllNames(NonEmpty(Split(path)))
  }

  /** From a normal directory, and from any directory when the argument is
      absolute, resolution gives a normal path: no empty, "." or ".." component. */
  lemma ResultIsNormal(cwd: string, argument: string)
    requires Normal(cwd) || IsAbsolute(argument)
    ensures Resolved(cwd, argument).Some? ==> Normal(Resolved(cwd, argument).value)
  {
    ComponentsShape(cwd, argument);
    SplitOfPath(Components(cwd, argument));
  }

  /** The console starts at the root, which is normal. */
  lemma RootIsNormal()
    ensures Normal(SEPARATOR)
  {
    SplitOfPath([]);
    assert SEPARATOR + Join([]) == SEPARATOR;
  }

  /** The directory after a sequence of `cd` commands, each with whether its
      target is a directory. */
  function Travel(cwd: string, commands: seq<(string, bool)>): string
    decreases |commands|
  {
    if commands == [] then cwd else
    var (argument, isDirectory) := commands[0];
    var target := Resolved(cwd, argument);
    Travel(if argument != "" && target.Some? && isDirectory then target.value else cwd, commands[1..])
  }

  lemma {:induction false} TravelKeepsNormal(cwd: string, commands: seq<(string, bool)>)
    requires Normal(cwd)
    ensures Normal(Travel(cwd, commands))
    decreases |commands|
  {
    hide Normal, Resolved;
    if commands != [] {
      ResultIsNormal(cwd, commands[0].0);
      var target := Resolved(cwd, commands[0].0);
      TravelKeepsNormal(if commands[0].0 != "" && target.Some? && commands[0].1 then target.value else cwd, commands[1..]);
    }
  }

  /** Wherever the console goes from the root, its directory is normal. */
  lemma TravelIsNormal(commands: seq<(string, bool)>)
    ensures Normal(Travel(SEPARATOR, commands))
  {
    RootIsNormal();
    TravelKeepsNormal(SEPARATOR, commands);
  }

  /** Going up from a directory just entered leads back. */
  lemma UpUndoesDown(cwd: string, name: string)
    requires Normal(cwd) && Ucs2(cwd) && IsName(name) && Ucs2(name)
    ensures Resolved(cwd, name + "/..") == Some(cwd)
  {
    SplitConcat(name, '/', "..");
    assert name + ['/'] + ".." == name + "/..";
    SplitWord(name);
    SplitWord("..");
    assert !IsAbsolute(name + "/..") by { assert name[0] in name; }
    WalkDownUp(NonEmpty(Split(cwd)), name);
    hide Split, Walk, NonEmpty, Join, IsName, Ucs2;
  }

  lemma WalkDownUp(stack: seq<string>, name: string)
    requires IsName(name)
    ensures Walk(stack, [name] + [".."]) == stack
  {
    assert ([name] + [".."])[1..] == [".."] && [".."][1..] == [];
    assert (stack + [name])[..|stack|] == stack;
  }

  /** What entering one directory does, as text: its name goes behind the path
      of the current directory, after a single separator. Two dots cut the last
      name off again, one dot or nothing changes nothing, and at the root two
      dots change nothing. */
  lemma OneStep(cwd: string, name: string)
    requires Normal(cwd) && Ucs2(cwd) && IsName(name) && Ucs2(name)
    ensures Resolved(cwd, name) == Some(Below(cwd, name)) && Normal(Below(cwd, name))
    ensures Resolved(Below(cwd, name), "..") == Some(cwd)
    ensures Resolved("\\", "..") == Some("\\")
    ensures Resolved(cwd, ".") == Some(cwd) == Resolved(cwd, "")
  {
    var stack := NonEmpty(Split(cwd));
    OneComponent(cwd, name);
    OneComponent(cwd, ".");
    OneComponent(cwd, "");
    SplitOfPath(stack + [name]);
    BelowIs(stack, cwd, name);
    OneComponent(Below(cwd, name), "..");
    assert (stack + [name])[..|stack|] == stack;
    RootIsNormal();
    SplitOfPath([]);
    OneComponent("\\", "..");
  }

  /** A name below a directory. */
  function Below(cwd: string, name: string): string { if cwd == "\\" then "\\" + name else cwd + "\\" + name }

  lemma BelowIs(stack: seq<string>, cwd: string, name: string)
    requires cwd == SEPARATOR + Join(stack) && forall c <- stack :: c != ""
    ensures SEPARATOR + Join(stack + [name]) == Below(cwd, name)
  {
    JoinMore(stack, name);
    if stack != [] { assert |cwd| > 1; }
  }

  lemma WalkOne(stack: seq<string>, c: string)
    ensures Walk(stack, [c]) == Enter(stack, c)
  {
    assert [c][1..] == [];
  }

  lemma OneComponent(cwd: string, c: string)
    requires NoSeparator(c)
    ensures Components(cwd, c) == Enter(NonEmpty(Split(cwd)), c)
  {
    SplitWord(c);
    assert !IsAbsolute(c) by { if c != "" { assert c[0] in c; } }
    WalkOne(NonEmpty(Split(cwd)), c);
    hide Split, Walk, Enter, NonEmpty;
  }

  lemma {:induction false} JoinMore(cs: seq<string>, name: string)
    requires forall c <- cs :: c != ""
    ensures Join(cs + [name]) == if cs == [] then name else Join(cs) + "\\" + name
    ensures cs != [] ==> Join(cs) != ""
  {
    if cs == [] {
    } else if |cs| == 1 {
      assert cs[0] in cs && (cs + [name])[1..] == [name];
    } else {
      assert (cs + [name])[1..] == cs[1..] + [name];
      assert forall c <- cs[1..] :: c in cs;
      JoinMore(cs[1..], name);
      assert Join(cs) == cs[0] + "\\" + Join(cs[1..]);
    }
  }
}
