/** The shape the loader keeps its page tables in: a tree whose nodes are named
    by the table indices leading to them, and the translations that tree gives.
    Everything here is about values; the methods of `Paging` step through it. */
module PageTree {
  import opened LongMode
  import opened PageWords
  import opened Wrappers

  /** A table's place: the indices followed from the root to reach it. */
  datatype Node = Root | Pdpt(l4: Index) | Pd(l4: Index, l3: Index) | Pt(l4: Index, l3: Index, l2: Index)

  function Child(n: Node, i: Index): Node
    requires !n.Pt?
  {
    match n
    case Root => Pdpt(i)
    case Pdpt(a) => Pd(a, i)
    case Pd(a, b) => Pt(a, b, i)
  }

  function Parent(n: Node): Node
    requires !n.Root?
  {
    match n
    case Pdpt(a) => Root
    case Pd(a, b) => Pdpt(a)
    case Pt(a, b, c) => Pd(a, b)
  }

  type Tables = map<nat, seq<nat>>
  type Places = map<Node, nat>

  ghost predicate HugeLeaf(word: nat) { Present(word) && Huge(word) }

  ghost predicate SlotOk(tables: Tables, at: Places, n: Node, i: Index)
    requires n in at && !n.Pt? && ReadsTable(tables, at[n])
  {
    var word := tables[at[n]][i];
    if Child(n, i) in at then word == TableWord(at[Child(n, i)])
    else !Present(word) || (n.Pd? && Huge(word) && CleanLeaf(word))
  }

  /** Bits 12 to 20 of a leaf are clear: its frame is 2 MiB aligned as it stands. */
  ghost predicate CleanLeaf(word: nat) { FrameBits(word, PAGE_SIZE) == FrameBits(word, PAGE_2M) }

  /** Each table page stands at exactly one place (`at` is injective and covers
      every table page), the pages link up exactly as their places say, and
      what is not a link is absent or, in a page directory, a 2 MiB leaf. */
  ghost predicate Tree(tables: Tables, at: Places) {
    && Root in at
    && (forall n <- at :: ReadsTable(tables, at[n]) && PageAddress(at[n]) && at[n] != 0)
    && (forall m, n | m in at && n in at && at[m] == at[n] :: m == n)
    && (forall n <- at :: !n.Root? ==> Parent(n) in at)
    && (forall n, i: Index | n in at && !n.Pt? :: SlotOk(tables, at, n, i))
    && tables.Keys == at.Values
  }

  /** The translations of a tree, read off the places alone. */
  ghost function Lookup(tables: Tables, at: Places, p: VPath): Translation
    requires Tree(tables, at)
  {
    var d := Pd(p.l4, p.l3);
    if d !in at then Fault else
    var e2 := tables[at[d]][p.l2];
    if HugeLeaf(e2) then Mapped(FrameBits(e2, PAGE_2M), PAGE_2M, Writable(e2), NoExecute(e2)) else
    var t := Pt(p.l4, p.l3, p.l2);
    if t !in at then Fault else
    var e1 := tables[at[t]][p.l1];
    if !Present(e1) then Fault else
    Mapped(FrameBits(e1, PAGE_SIZE), PAGE_SIZE, Writable(e1), NoExecute(e1))
  }

  /** The processor's walk of a tree is the lookup by place: no walk goes wild,
      and the permissions of a leaf are not narrowed on the way down. */
  lemma WalkIsLookup(tables: Tables, at: Places, p: VPath)
    requires Tree(tables, at)
    ensures Walk(tables, at[Root], p) == Lookup(tables, at, p)
  {
    var c, d, t := Pdpt(p.l4), Pd(p.l4, p.l3), Pt(p.l4, p.l3, p.l2);
    assert Child(Root, p.l4) == c && SlotOk(tables, at, Root, p.l4);
    if c in at {
      TableWordFacts(at[c]);
      assert Child(c, p.l3) == d && SlotOk(tables, at, c, p.l3);
      if d in at {
        TableWordFacts(at[d]);
        assert Child(d, p.l2) == t && SlotOk(tables, at, d, p.l2);
        if t in at {
          TableWordFacts(at[t]);
        }
      }
    } else {
      assert Parent(d) == c;
    }
  }

  function Zeroed(): seq<nat> { seq(512, _ => 0) }

  /** The tables after one word is stored. */
  function Stored(tables: Tables, table: nat, i: Index, word: nat): Tables
    requires ReadsTable(tables, table)
  {
    var row: seq<nat> := tables[table][i := word];
    tables[table := row]
  }

  ghost predicate FreshTable(tables: Tables, table: nat) {
    table !in tables && PageAddress(table) && table != 0
  }

  /** Linking a fresh, zeroed table into an empty slot: still a tree, one place
      more, and not one translation changed. */
  lemma LinkKeepsTree(tables: Tables, at: Places, n: Node, i: Index, table: nat)
    requires Tree(tables, at) && n in at && !n.Pt? && Child(n, i) !in at && FreshTable(tables, table)
    requires !(n.Pd? && HugeLeaf(tables[at[n]][i]))
    ensures var tables' := Stored(tables[table := Zeroed()], at[n], i, TableWord(table));
      var at' := at[Child(n, i) := table];
      && Tree(tables', at')
      && forall p :: Lookup(tables', at', p) == Lookup(tables, at, p)
  {
    var tables' := Stored(tables[table := Zeroed()], at[n], i, TableWord(table));
    var at' := at[Child(n, i) := table];
    LinkedTree(tables, at, n, i, table, tables', at');
    forall p ensures Lookup(tables', at', p) == Lookup(tables, at, p) {
      LinkedLookup(tables, at, n, i, table, tables', at', p);
    }
  }

  ghost predicate Linked(tables: Tables, at: Places, n: Node, i: Index, table: nat, tables': Tables, at': Places) {
    && Tree(tables, at) && n in at && !n.Pt? && Child(n, i) !in at && FreshTable(tables, table)
    && !(n.Pd? && HugeLeaf(tables[at[n]][i]))
    && tables' == Stored(tables[table := Zeroed()], at[n], i, TableWord(table))
    && at' == at[Child(n, i) := table]
  }

  lemma LinkedTree(tables: Tables, at: Places, n: Node, i: Index, table: nat, tables': Tables, at': Places)
    requires Linked(tables, at, n, i, table, tables', at')
    ensures Tree(tables', at')
  {
    var child := Child(n, i);
    NothingBelow(tables, at, child);
    LinkedSlots(tables, at, n, i, table, tables', at');
    assert tables'.Keys == tables.Keys + {table};
    assert at'.Values == at.Values + {table} by {
      assert forall m <- at :: m in at' && at'[m] == at[m];
      assert child in at' && at'[child] == table;
    }
  }

  lemma LinkedSlots(tables: Tables, at: Places, n: Node, i: Index, table: nat, tables': Tables, at': Places)
    requires Linked(tables, at, n, i, table, tables', at')
    ensures forall m <- at' :: ReadsTable(tables', at'[m])
    ensures forall m, j: Index | m in at' && !m.Pt? :: SlotOk(tables', at', m, j)
  {
    TableWordFacts(table);
    var child := Child(n, i);
    NothingBelow(tables, at, child);
    forall m, j: Index | m in at' && !m.Pt? ensures SlotOk(tables', at', m, j) {
      if m == child {
        assert tables'[at'[m]] == Zeroed();
      } else if m != n || j != i {
        assert SlotOk(tables, at, m, j);
        assert Parent(Child(m, j)) == m;
      }
    }
  }

  /** The rows of the tables after the link. */
  lemma LinkedRow(tables: Tables, at: Places, n: Node, i: Index, table: nat, tables': Tables, at': Places, m: Node)
    requires Linked(tables, at, n, i, table, tables', at') && m in at'
    ensures m in at ==>
      && at'[m] == at[m] && ReadsTable(tables, at[m])
      && tables'[at[m]] == if m == n then tables[at[n]][i := TableWord(table)] else tables[at[m]]
    ensures m !in at ==> m == Child(n, i) && tables'[at'[m]] == Zeroed()
  {
    hide TableWord, HugeLeaf;
  }

  lemma LinkedLookup(tables: Tables, at: Places, n: Node, i: Index, table: nat, tables': Tables, at': Places, p: VPath)
    requires Linked(tables, at, n, i, table, tables', at') && Tree(tables', at')
    ensures Lookup(tables', at', p) == Lookup(tables, at, p)
  {
    TableWordFacts(table);
    var d, t := Pd(p.l4, p.l3), Pt(p.l4, p.l3, p.l2);
    assert !Present(0);
    assert Parent(t) == d;
    if d in at' { LinkedRow(tables, at, n, i, table, tables', at', d); }
    if t in at' { LinkedRow(tables, at, n, i, table, tables', at', t); }
    hide Tree, TestBit, FrameBits, TableWord, Stored;
  }

  /** Nothing stands below an unoccupied place. */
  lemma NothingBelow(tables: Tables, at: Places, child: Node)
    requires Tree(tables, at) && child !in at && !child.Root?
    ensures forall j: Index | !child.Pt? :: Child(child, j) !in at
  {
    forall j: Index | !child.Pt? ensures Child(child, j) !in at {
      assert Parent(Child(child, j)) == child;
    }
  }

  /** Writing a word into a last-level table decides one path and no other. */
  lemma LeafKeepsTree(tables: Tables, at: Places, n: Node, i: Index, word: nat)
    requires Tree(tables, at) && n in at && n.Pt? && Present(word)
    ensures var tables' := Stored(tables, at[n], i, word);
      && Tree(tables', at)
      && forall p :: Lookup(tables', at, p) ==
           if p == VPath(n.l4, n.l3, n.l2, i)
           then Mapped(FrameBits(word, PAGE_SIZE), PAGE_SIZE, Writable(word), NoExecute(word))
           else Lookup(tables, at, p)
  {
    var tables' := Stored(tables, at[n], i, word);
    forall m, j: Index | m in at && !m.Pt? ensures SlotOk(tables', at, m, j) {
      assert SlotOk(tables, at, m, j);
      assert m != n;
    }
    assert tables'.Keys == tables.Keys;
    assert Tree(tables', at);
    assert Parent(n) in at;
    assert Child(Parent(n), n.l2) == n;
    assert SlotOk(tables, at, Parent(n), n.l2);
    TableWordFacts(at[n]);
  }

  /** Filling a page directory that has no page tables below it with 2 MiB leaves. */
  lemma FillKeepsTree(tables: Tables, at: Places, n: Node, words: seq<nat>)
    requires Tree(tables, at) && n in at && n.Pd? && |words| == 512
    requires forall i: Index :: Child(n, i) !in at && HugeLeaf(words[i]) && CleanLeaf(words[i])
    ensures var tables' := tables[at[n] := words];
      && Tree(tables', at)
      && forall p :: Lookup(tables', at, p) ==
           if p.l4 == n.l4 && p.l3 == n.l3
           then Mapped(FrameBits(words[p.l2], PAGE_2M), PAGE_2M, Writable(words[p.l2]), NoExecute(words[p.l2]))
           else Lookup(tables, at, p)
  {
    var tables' := tables[at[n] := words];
    forall m, j: Index | m in at && !m.Pt? ensures SlotOk(tables', at, m, j) {
      assert SlotOk(tables, at, m, j);
    }
    assert tables'.Keys == tables.Keys;
    assert Tree(tables', at);
  }

  /** The last index on the way to a table. */
  function LastIndex(n: Node): Index
    requires !n.Root?
  {
    match n
    case Pdpt(a) => a
    case Pd(a, b) => b
    case Pt(a, b, c) => c
  }

  /** The page reached from the root by following a node's indices through
      present words that are not leaves, if any: reachability in the tables
      themselves, with no mention of places. */
  ghost function Follow(tables: Tables, root: nat, n: Node): Option<nat>
    decreases n.Pt?, n.Pd?, n.Pdpt?
  {
    if n.Root? then Some(root) else
    match Follow(tables, root, Parent(n))
    case None => None
    case Some(t) =>
      if !ReadsTable(tables, t) then None else
      var word := tables[t][LastIndex(n)];
      if Present(word) && !(Parent(n).Pd? && Huge(word)) then Some(FrameBits(word, PAGE_SIZE)) else None
  }

  lemma {:induction false} FollowIsPlace(tables: Tables, at: Places, n: Node)
    requires Tree(tables, at)
    ensures Follow(tables, at[Root], n) == if n in at then Some(at[n]) else None
    decreases n.Pt?, n.Pd?, n.Pdpt?
  {
    if !n.Root? {
      var m := Parent(n);
      FollowIsPlace(tables, at, m);
      if m in at {
        assert Child(m, LastIndex(n)) == n;
        assert SlotOk(tables, at, m, LastIndex(n));
        if n in at {
          TableWordFacts(at[n]);
        }
      }
    }
  }

  /** Every table page of a tree is reached by exactly one index path. */
  lemma OnePathToEachTable(tables: Tables, at: Places, t: nat)
    requires Tree(tables, at) && t in tables
    ensures exists n :: Follow(tables, at[Root], n) == Some(t) &&
                        forall m :: Follow(tables, at[Root], m) == Some(t) ==> m == n
  {
    assert t in at.Values;
    var n :| n in at && at[n] == t;
    FollowIsPlace(tables, at, n);
    forall m | Follow(tables, at[Root], m) == Some(t) ensures m == n {
      FollowIsPlace(tables, at, m);
    }
  }
}
