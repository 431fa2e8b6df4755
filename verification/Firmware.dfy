/** Physical memory and the firmware's page allocator, as far as the loader
    touches them. */
module Firmware {
  import opened Wrappers
  import opened LongMode
  import opened PageWords
  import opened PageTree
  import ElfLayout

  /** The page holding the byte at `address`. */
  function PageBase(address: nat): nat { address - address % PAGE_SIZE }

  /** The `count` pages starting at `base`. */
  function PageRun(base: nat, count: nat): set<nat> {
    set k | 0 <= k < count :: base + k * PAGE_SIZE
  }

  /** `MaxAddress(0xffff_f000)`: the highest address a kernel page may use. */
  const KERNEL_MAX_ADDRESS: nat := 0xffff_f000

  /** Boot services as a script of answers. `script` is what the allocator will
      say, one address a call; an answer that breaks the UEFI contract (a page
      in use, unaligned, null, or outside the permitted range) stands for a
      failed call, so scripts cover every behaviour of the real service. */
  class Machine {
    var script: seq<nat>
    /** Base addresses of every page that is not free. */
    var used: set<nat>
    /** The pages holding page tables, as 512 words each. */
    var tables: Tables
    /** The bytes of the pages handed out for anything else. */
    var bytes: map<nat, bv8>
    /** How many allocations have been refused so far. */
    ghost var refusals: nat

    ghost predicate Valid()
      reads this
    {
      && (forall t <- tables :: t in used && FreshTable(map[], t) && |tables[t]| == 512)
      && (forall b <- bytes :: PageBase(b) in used && PageBase(b) !in tables)
    }

    constructor (script: seq<nat>, used: set<nat>)
      ensures Valid()
      ensures this.script == script && this.used == used && tables == map[] && bytes == map[] && refusals == 0
    {
      this.script, this.used, this.tables, this.bytes, this.refusals := script, used, map[], map[], 0;
    }

    /** The page at `frame` is no table, and no answer to come can make it one. */
    ghost predicate NeverTable(frame: nat)
      reads this`script, this`used, this`tables
    {
      frame !in tables && (frame == 0 || frame in used || frame !in script)
    }

    /** The next answer hands out `count` free pages below `limit`. */
    predicate Grants(count: nat, limit: nat)
      reads this`script, this`used
    {
      && script != [] && PageAddress(script[0]) && script[0] != 0 && script[0] + count * PAGE_SIZE <= limit
      && PageRun(script[0], count) * used == {}
    }

    /** `allocate_table`: one page of loader data, cleared. */
    method AllocateTable() returns (r: Result<nat>)
      requires Valid()
      modifies this`script, this`used, this`tables, this`refusals
      ensures Valid()
      ensures r.Ok? <==> old(Grants(1, PHYSICAL_LIMIT))
      ensures script == if old(script) == [] then [] else old(script[1..])
      ensures forall f | old(NeverTable(f)) :: NeverTable(f)
      ensures r.Err? ==> tables == old(tables) && used == old(used) && refusals == old(refusals) + 1
      ensures r.Ok? ==>
        && r.value == old(script)[0] && r.value !in old(used) && FreshTable(old(tables), r.value)
        && used == old(used) + {r.value} && tables == old(tables)[r.value := Zeroed()] && refusals == old(refusals)
    {
      hide PageBase, PageAddress;
      hide PageRun;
      if !Grants(1, PHYSICAL_LIMIT) {
        if script != [] { script := script[1..]; }
        refusals := refusals + 1;
        return Err("cannot allocate page table");
      }
      var page := script[0];
      Unused(page, used);
      script := script[1..];
      used := used + {page};
      tables := tables[page := Zeroed()];
      r := Ok(page);
    }

    /** `allocate_pages(MaxAddress(0xffff_f000), LOADER_DATA, count)`. */
    method AllocateLow(count: nat) returns (r: Result<nat>)
      requires Valid()
      modifies this`script, this`used, this`refusals
      ensures Valid()
      ensures r.Ok? <==> old(Grants(count, KERNEL_MAX_ADDRESS + PAGE_SIZE))
      ensures script == if old(script) == [] then [] else old(script[1..])
      ensures forall f | old(NeverTable(f)) :: NeverTable(f)
      ensures r.Err? ==>
        used == old(used) && r.message == "cannot allocate kernel segment" && refusals == old(refusals) + 1
      ensures r.Ok? ==>
        && r.value == old(script)[0] && PageAddress(r.value) && r.value != 0
        && r.value + count * PAGE_SIZE <= KERNEL_MAX_ADDRESS + PAGE_SIZE && PageRun(r.value, count) * old(used) == {}
        && used == old(used) + PageRun(r.value, count) && refusals == old(refusals)
    {
      if !Grants(count, KERNEL_MAX_ADDRESS + PAGE_SIZE) {
        if script != [] { script := script[1..]; }
        refusals := refusals + 1;
        return Err("cannot allocate kernel segment");
      }
      var base := script[0];
      script := script[1..];
      used := used + PageRun(base, count);
      r := Ok(base);
    }

    /** A 64-bit store to slot `i` of the page at `frame`, whatever that page
        is. Only memory the loader was given is kept track of. */
    method StoreWord(frame: nat, i: Index, word: nat)
      requires Valid()
      modifies this`tables, this`bytes
      ensures Valid()
      ensures frame in old(tables) ==> tables == Stored(old(tables), frame, i, word) && bytes == old(bytes)
      ensures frame !in old(tables) ==> tables == old(tables) && bytes == Overwritten(old(bytes), frame + 8 * i, word)
    {
      if frame in tables {
        tables := Stored(tables, frame, i, word);
      } else {
        bytes := Overwritten(bytes, frame + 8 * i, word);
      }
    }
  }

  /** Memory after the eight bytes of a word are stored at `cell`. */
  function Overwritten(bytes: map<nat, bv8>, cell: nat, word: nat): map<nat, bv8> {
    map b | b in bytes :: if cell <= b < cell + 8 then ElfLayout.Le(word, 8)[b - cell] else bytes[b]
  }

  lemma Unused(page: nat, used: set<nat>)
    requires PageRun(page, 1) * used == {}
    ensures page !in used && PageRun(page, 1) == {page}
  {
    OnePage(page);
    assert forall p :: p in {page} && p in used <==> p in {page} * used;
    assert page in {page};
  }

  lemma OnePage(page: nat)
    ensures PageRun(page, 1) == {page}
  {
    assert page + 0 * PAGE_SIZE == page;
  }
}
