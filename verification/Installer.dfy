/** The NixOS installer as a sequence of filesystem steps, any of which can fail
    (crates/r-boot-conf-builder/src/main.rs, menu.rs). */
module Installer {
  import opened Wrappers
  import opened InstallText

  const TOML := "boot/r-boot.toml"
  const KERNEL_DIR := "boot/nixos/"
  const BINARY := "EFI/BOOT/BOOTX64.EFI"

  type Files = map<string, string>

  /** The path on the partition of a path in the configuration. */
  function EspPath(path: string): string {
    if path != "" && path[0] == '/' then path[1..] else path
  }

  /** Where a store file is installed. */
  function Destination(path: string): string { KERNEL_DIR + CleanName(path) }

  function TmpOf(path: string, pid: string): string { path + ".tmp." + pid }

  predicate IsTmp(path: string, pid: string) {
    var suffix := ".tmp." + pid;
    |path| >= |suffix| && path[|path| - |suffix|..] == suffix
  }

  predicate InKernelDir(path: string) { KERNEL_DIR <= path }

  /** Every file named by the installed configuration is there. */
  predicate Bootable(files: Files) {
    TOML in files ==> forall r <- References(files[TOML]) :: EspPath(r) in files
  }

  /** How a filesystem call goes wrong: cleanly, or leaving a damaged file. */
  datatype Fault = Fine | Fails | FailsLeaving(garbage: string)

  function Bad(faults: seq<Fault>): nat {
    if faults == [] then 0 else (if faults[0].Fine? then 0 else 1) + Bad(faults[1..])
  }

  /** The partition. `faults` says how the next calls go; every state a call
      leaves behind is recorded, and every failure counted. */
  class Disk {
    var files: Files
    var faults: seq<Fault>
    ghost var history: seq<Files>
    ghost var failures: nat

    constructor (files: Files, faults: seq<Fault>)
      ensures this.files == files && this.faults == faults && history == [] && failures == 0
    {
      this.files, this.faults, this.history, this.failures := files, faults, [], 0;
    }

    /** Failures seen and to come. */
    ghost function Toll(): nat
      reads this`faults, this`failures
    {
      failures + Bad(faults)
    }

    method NextFault() returns (f: Fault)
      modifies this`faults, this`failures
      ensures f == if old(faults) == [] then Fine else old(faults)[0]
      ensures failures == old(failures) + (if f.Fine? then 0 else 1) && Toll() == old(Toll())
    {
      if faults == [] { return Fine; }
      f := faults[0];
      if !f.Fine? { failures := failures + 1; }
      faults := faults[1..];
    }

    /** A call that reads, makes a directory or sets permissions. */
    method Touch() returns (ok: bool)
      modifies this`faults, this`history, this`failures
      ensures Outcome(ok, old(failures), failures) && Toll() == old(Toll())
      ensures history == old(history) + [files]
    {
      var f := NextFault();
      ok := f.Fine?;
      history := history + [files];
    }

    /** `fs::write` or `fs::copy`: not atomic. */
    method Write(path: string, content: string) returns (ok: bool)
      modifies this
      ensures Outcome(ok, old(failures), failures) && Toll() == old(Toll())
      ensures history == old(history) + [files]
      ensures ok ==> files == old(files)[path := content]
      ensures files == old(files) || (path in files && files == old(files)[path := files[path]])
    {
      var f := NextFault();
      match f {
        case Fine => files := files[path := content];
        case Fails =>
        case FailsLeaving(garbage) => files := files[path := garbage];
      }
      ok := f.Fine?;
      history := history + [files];
    }

    /** `fs::rename`: atomic. */
    method Rename(from: string, to: string) returns (ok: bool)
      requires from in files
      modifies this
      ensures Outcome(ok, old(failures), failures) && Toll() == old(Toll())
      ensures history == old(history) + [files]
      ensures files == if ok then (old(files) - {from})[to := old(files)[from]] else old(files)
    {
      var f := NextFault();
      if f.Fine? { files := (files - {from})[to := files[from]]; }
      ok := f.Fine?;
      history := history + [files];
    }

    /** `fs::remove_file`. */
    method Remove(path: string) returns (ok: bool)
      modifies this
      ensures Outcome(ok, old(failures), failures) && Toll() == old(Toll())
      ensures history == old(history) + [files]
      ensures files == if ok then old(files) - {path} else old(files)
    {
      var f := NextFault();
      if f.Fine? { files := files - {path}; }
      ok := f.Fine?;
      history := history + [files];
    }
  }

  /** A step succeeds exactly when none of its calls fails. */
  predicate Outcome(ok: bool, before: nat, after: nat) { if ok then after == before else after > before }

  /** What a run starts from: the partition, the Nix store and the process id. */
  datatype Context = Context(base: Files, store: string -> string, pid: string)

  /** A file holds what it held at the start, or a whole copy of a store file
      that goes by its name. */
  ghost predicate Untorn(p: string, content: string, c: Context) {
    (p in c.base && content == c.base[p]) || exists path :: p == Destination(path) && content == c.store(path)
  }

  /** No kernel or initrd is half written. */
  ghost predicate Whole(files: Files, c: Context) {
    forall p <- files :: InKernelDir(p) && !IsTmp(p, c.pid) ==> Untorn(p, files[p], c)
  }

  predicate RefsKept(files: Files, pid: string) {
    TOML in files ==> forall r <- References(files[TOML]) :: !IsTmp(EspPath(r), pid)
  }

  /** The run found a configuration that boots. */
  predicate StartsWell(c: Context) { Bootable(c.base) && RefsKept(c.base, c.pid) }

  /** What boots keeps booting, and no copy is half made. */
  ghost predicate Safe(files: Files, c: Context) { (StartsWell(c) ==> Bootable(files)) && Whole(files, c) }

  /** All states recorded since `from` were safe. */
  ghost predicate SafeSince(history: seq<Files>, from: seq<Files>, c: Context) {
    from <= history && forall i | |from| <= i < |history| :: Safe(history[i], c)
  }

  lemma SinceStep(history: seq<Files>, from: seq<Files>, files: Files, c: Context)
    requires SafeSince(history, from, c) && Safe(files, c)
    ensures SafeSince(history + [files], from, c)
  {}

  /** Writing anywhere but at a final name in the kernel directory tears
      nothing, even when the write is cut short. */
  lemma WholeElsewhere(was: Files, files: Files, p: string, c: Context)
    requires Whole(was, c) && (IsTmp(p, c.pid) || !InKernelDir(p))
    requires files == was || (p in files && files == was[p := files[p]])
    ensures Whole(files, c)
  {
    hide IsTmp, InKernelDir, Untorn;
  }

  lemma WholeRenamed(files: Files, tmp: string, path: string, c: Context)
    requires Whole(files, c) && tmp in files && files[tmp] == c.store(path)
    ensures Whole((files - {tmp})[Destination(path) := files[tmp]], c)
  {
    hide IsTmp, InKernelDir, Destination;
  }

  lemma WholeSwitched(files: Files, tmp: string, c: Context)
    requires Whole(files, c) && tmp in files
    ensures Whole((files - {tmp})[TOML := files[tmp]], c)
  {
    PathFacts("", c.pid);
    hide IsTmp, InKernelDir, Untorn;
  }

  lemma WholeFewer(files: Files, p: string, c: Context)
    requires Whole(files, c)
    ensures Whole(files - {p}, c)
  {
    hide IsTmp, InKernelDir, Untorn;
  }

  // ----- what the copies hold

  /** The partition after the store files in `paths` are installed in order:
      a name already taken is left alone. */
  function Installed(c: Context, paths: seq<string>): Files {
    if paths == [] then c.base else
    var n := |paths| - 1;
    var before := Installed(c, paths[..n]);
    if Destination(paths[n]) in before then before else before[Destination(paths[n]) := c.store(paths[n])]
  }

  /** In the kernel directory, temporaries apart. */
  ghost predicate AsInstalled(files: Files, c: Context, paths: seq<string>) {
    forall d: string | InKernelDir(d) && !IsTmp(d, c.pid) ::
      (d in files <==> d in Installed(c, paths)) && (d in files ==> files[d] == Installed(c, paths)[d])
  }

  lemma InstalledElsewhere(was: Files, files: Files, p: string, c: Context, paths: seq<string>)
    requires AsInstalled(was, c, paths) && (IsTmp(p, c.pid) || !InKernelDir(p))
    requires files == was || (p in files && files == was[p := files[p]])
    ensures AsInstalled(files, c, paths)
  {
    hide IsTmp, InKernelDir, Installed;
  }

  lemma InstalledRenamed(files: Files, tmp: string, path: string, c: Context, paths: seq<string>)
    requires AsInstalled(files, c, paths) && tmp in files && files[tmp] == c.store(path) && IsTmp(tmp, c.pid)
    requires Destination(path) !in files && InKernelDir(Destination(path)) && !IsTmp(Destination(path), c.pid)
    ensures AsInstalled((files - {tmp})[Destination(path) := files[tmp]], c, paths + [path])
  {
    assert (paths + [path])[..|paths|] == paths;
    hide IsTmp, InKernelDir, Destination;
  }

  lemma InstalledAlready(files: Files, path: string, c: Context, paths: seq<string>)
    requires AsInstalled(files, c, paths)
    requires Destination(path) in files && InKernelDir(Destination(path)) && !IsTmp(Destination(path), c.pid)
    ensures AsInstalled(files, c, paths + [path])
  {
    assert (paths + [path])[..|paths|] == paths;
    hide IsTmp, InKernelDir, Destination;
  }

  lemma {:induction false} InstalledAt(c: Context, paths: seq<string>, d: string)
    ensures d in Installed(c, paths) <==> d in c.base || exists p <- paths :: Destination(p) == d
    ensures d in c.base ==> Installed(c, paths)[d] == c.base[d]
    ensures d !in c.base && d in Installed(c, paths) ==>
      exists p <- paths :: Destination(p) == d && Installed(c, paths)[d] == c.store(p)
  {
    hide Destination;
    if paths != [] {
      var n := |paths| - 1;
      assert paths == paths[..n] + [paths[n]];
      InstalledAt(c, paths[..n], d);
    }
  }

  /** Every installed file holds its store file's content exactly when no file
      already there differs and no two files of one name do. */
  lemma InstalledRightIff(c: Context, paths: seq<string>)
    ensures (forall p <- paths :: Destination(p) in Installed(c, paths) && Installed(c, paths)[Destination(p)] == c.store(p))
      <==> (forall p <- paths :: Destination(p) in c.base ==> c.base[Destination(p)] == c.store(p)) &&
           (forall p <- paths, q <- paths :: Destination(p) == Destination(q) ==> c.store(p) == c.store(q))
  {
    hide Destination, Installed;
    forall p <- paths
      ensures Destination(p) in Installed(c, paths)
    {
      InstalledAt(c, paths, Destination(p));
    }
    if forall p <- paths :: Destination(p) in Installed(c, paths) && Installed(c, paths)[Destination(p)] == c.store(p) {
      forall p <- paths | Destination(p) in c.base ensures c.base[Destination(p)] == c.store(p) {
        InstalledAt(c, paths, Destination(p));
      }
    } else {
      var p :| p in paths && Installed(c, paths)[Destination(p)] != c.store(p);
      InstalledAt(c, paths, Destination(p));
    }
  }

  /** Store paths can share a name: slashes become dashes. */
  lemma NamesCollide()
    ensures STORE + "a/b" != STORE + "a-b" && Destination(STORE + "a/b") == Destination(STORE + "a-b")
  {
    var x, y := STORE + "a/b", STORE + "a-b";
    assert x[|STORE|..] == "a/b" && y[|STORE|..] == "a-b";
    assert x != y by { assert x[|STORE|..] != y[|STORE|..]; }
    assert "a/b"[1..] == "/b" && "/b"[1..] == "b" && "a-b"[1..] == "-b" && "-b"[1..] == "b";
    assert ReplaceSlashes("/b") == ['-'] + ReplaceSlashes("b") == ReplaceSlashes("-b");
    hide ReplaceSlashes;
  }

  // ----- while files are copied

  /** The configuration is untouched and nothing but temporaries has gone. */
  predicate Extends(base: Files, files: Files, pid: string) {
    && (TOML in files <==> TOML in base) && (TOML in base ==> files[TOML] == base[TOML])
    && forall p <- base :: !IsTmp(p, pid) ==> p in files
  }

  lemma ExtendsBootable(c: Context, files: Files)
    requires Extends(c.base, files, c.pid)
    ensures StartsWell(c) ==> Bootable(files)
  {}

  predicate Copied(files: Files, copied: set<string>, pid: string) {
    forall c <- copied :: c in files && InKernelDir(c) && !IsTmp(c, pid)
  }

  lemma PathFacts(path: string, pid: string)
    ensures InKernelDir(Destination(path)) && IsTmp(TmpOf(Destination(path), pid), pid)
    ensures IsTmp(TmpOf(TOML, pid), pid) && !IsTmp(TOML, pid)
    ensures TmpOf(Destination(path), pid) != TOML && Destination(path) != TOML
    ensures !InKernelDir(TmpOf(TOML, pid)) && !InKernelDir(TOML) && !InKernelDir(BINARY) && BINARY != TOML
    ensures EspPath(ConfigPath(path)) == Destination(path)
  {
    var d := Destination(path);
    assert d[5] == 'n' && TOML[5] == 'r' && TmpOf(d, pid)[5] == 'n' && KERNEL_DIR[5] == 'n';
    var suffix := ".tmp." + pid;
    assert TmpOf(TOML, pid)[5] == 'r';
    assert suffix[0] == '.' && suffix[4] == '.';
    assert ConfigPath(path) == "/" + d;
    assert BINARY[0] == 'E' && TOML[0] == 'b' && KERNEL_DIR[0] == 'b';
  }

  // ----- the steps

  /** Copying files: the old configuration still stands, whatever happens. */
  ghost predicate Copying(disk: Disk, c: Context, from: seq<Files>, copied: set<string>)
    reads disk
  {
    && Extends(c.base, disk.files, c.pid) && Copied(disk.files, copied, c.pid)
    && Whole(disk.files, c) && SafeSince(disk.history, from, c)
  }

  /** `copy_to_kernels_dir`. */
  method CopyToKernelsDir(disk: Disk, store: string -> string, path: string, pid: string, copied: set<string>,
                          ghost c: Context, ghost from: seq<Files>, ghost paths: seq<string>)
      returns (ok: bool, copied': set<string>)
    requires c == Context(c.base, store, pid) && !IsTmp(Destination(path), pid)
    requires Copying(disk, c, from, copied) && AsInstalled(disk.files, c, paths)
    modifies disk
    ensures Copying(disk, c, from, copied')
    ensures Outcome(ok, old(disk.failures), disk.failures) && disk.Toll() == old(disk.Toll())
    ensures ok ==> AsInstalled(disk.files, c, paths + [path])
    ensures copied' == if ok then copied + {Destination(path)} else copied
  {
    hide Bootable, StartsWell, Whole, AsInstalled, IsTmp, InKernelDir, TmpOf, Destination, References, SafeSince;
    copied' := copied;
    PathFacts(path, pid);
    ExtendsBootable(c, disk.files);
    SinceStep(disk.history, from, disk.files, c);
    ok := disk.Touch();
    if !ok { return; }
    var destination := Destination(path);
    if destination !in disk.files {
      var tmp := TmpOf(destination, pid);
      ghost var before, was := disk.history, disk.files;
      ok := disk.Write(tmp, store(path));
      WholeElsewhere(was, disk.files, tmp, c);
      InstalledElsewhere(was, disk.files, tmp, c, paths);
      ExtendsBootable(c, disk.files);
      SinceStep(before, from, disk.files, c);
      if !ok { return; }
      before, was := disk.history, disk.files;
      ok := disk.Rename(tmp, destination);
      if ok {
        WholeRenamed(was, tmp, path, c);
        InstalledRenamed(was, tmp, path, c, paths);
      }
      ExtendsBootable(c, disk.files);
      SinceStep(before, from, disk.files, c);
      if !ok { return; }
    } else {
      InstalledAlready(disk.files, path, c, paths);
    }
    copied' := copied + {destination};
  }

  function Destinations(g: Generation): set<string> { {Destination(g.kernel), Destination(g.initrd)} }

  /** Where all files of the bootable generations go. */
  function AllDestinations(gs: seq<Generation>): set<string> {
    if gs == [] then {} else (if gs[0].bootable then Destinations(gs[0]) else {}) + AllDestinations(gs[1..])
  }

  /** The store files they need. */
  function AllPaths(gs: seq<Generation>): seq<string> {
    if gs == [] then [] else (if gs[0].bootable then [gs[0].kernel, gs[0].initrd] else []) + AllPaths(gs[1..])
  }

  /** What the installer takes for granted about a generation. */
  predicate Installable(g: Generation, pid: string) {
    WellFormed(g) && !IsTmp(Destination(g.kernel), pid) && !IsTmp(Destination(g.initrd), pid)
  }

  /** `add_entry`: the files of one generation, and its table. */
  method AddEntry(disk: Disk, store: string -> string, g: Generation, pid: string, copied: set<string>,
                  ghost c: Context, ghost from: seq<Files>, ghost paths: seq<string>)
      returns (ok: bool, entry: seq<string>, copied': set<string>)
    requires c == Context(c.base, store, pid) && Installable(g, pid)
    requires Copying(disk, c, from, copied) && AsInstalled(disk.files, c, paths)
    modifies disk
    ensures Copying(disk, c, from, copied')
    ensures Outcome(ok, old(disk.failures), disk.failures) && disk.Toll() == old(disk.Toll())
    ensures ok ==> AsInstalled(disk.files, c, paths + AllPaths([g]))
    ensures ok ==> entry == EntriesText([g]) && copied' == copied + AllDestinations([g])
  {
    hide Bootable, StartsWell, Whole, AsInstalled, IsTmp, InKernelDir, References, SafeSince, Destination, EntryText, WellFormed;
    assert [g][1..] == [] && EntriesText([]) == [] && AllDestinations([]) == {} && AllPaths([]) == [];
    assert paths + [] == paths;
    entry, copied' := [], copied;
    ExtendsBootable(c, disk.files);
    SinceStep(disk.history, from, disk.files, c);
    ok := disk.Touch();
    assert !g.bootable ==> AllPaths([g]) == [];
    if !ok || !g.bootable { return; }
    ok, copied' := CopyToKernelsDir(disk, store, g.kernel, pid, copied', c, from, paths);
    if !ok { return; }
    ok, copied' := CopyToKernelsDir(disk, store, g.initrd, pid, copied', c, from, paths + [g.kernel]);
    if !ok { return; }
    assert paths + [g.kernel] + [g.initrd] == paths + ([g.kernel, g.initrd] + []);
    entry := EntryText(g);
    assert EntryText(g) + [] == EntryText(g);
  }

  // ----- after the switch to the new configuration

  /** The new configuration stands and all its files are there. */
  ghost predicate Switched(disk: Disk, text: string, copied: set<string>, c: Context, from: seq<Files>)
    reads disk
  {
    && TOML in disk.files && disk.files[TOML] == text && copied <= disk.files.Keys
    && Whole(disk.files, c) && SafeSince(disk.history, from, c)
  }

  predicate Complete(text: string, copied: set<string>) {
    forall r <- References(text) :: EspPath(r) in copied
  }

  lemma SwitchedBootable(files: Files, text: string, copied: set<string>)
    requires TOML in files && files[TOML] == text && copied <= files.Keys && Complete(text, copied)
    ensures Bootable(files)
  {}

  /** The kernel directory. */
  function KernelPart(files: Files): Files { map p | p in files && InKernelDir(p) :: files[p] }

  function KernelFiles(files: Files): set<string> { set p | p in files && InKernelDir(p) }

  /** `prune_unreferenced_boot_files`. */
  method Prune(disk: Disk, text: string, copied: set<string>, ghost c: Context, ghost from: seq<Files>) returns (ok: bool)
    requires Switched(disk, text, copied, c, from) && Complete(text, copied) && forall c <- copied :: InKernelDir(c)
    requires !InKernelDir(TOML)
    modifies disk
    ensures Switched(disk, text, copied, c, from)
    ensures Outcome(ok, old(disk.failures), disk.failures) && disk.Toll() == old(disk.Toll())
    ensures forall p <- disk.files :: p in old(disk.files) && disk.files[p] == old(disk.files)[p]
    ensures forall p <- old(disk.files) | p in copied || !InKernelDir(p) :: p in disk.files
    ensures ok ==> KernelFiles(disk.files) == copied
  {
    hide Bootable, StartsWell, Whole, InKernelDir, References, SafeSince, Complete;
    SwitchedBootable(disk.files, text, copied);
    SinceStep(disk.history, from, disk.files, c);
    ok := disk.Touch();
    if !ok { return; }
    var todo := KernelFiles(disk.files);
    while todo != {}
      invariant Switched(disk, text, copied, c, from) && ok
      invariant KernelFiles(disk.files) <= copied + todo
      invariant forall p <- todo :: InKernelDir(p)
      invariant disk.failures == old(disk.failures) && disk.Toll() == old(disk.Toll())
      invariant forall p <- disk.files :: p in old(disk.files) && disk.files[p] == old(disk.files)[p]
      invariant forall p <- old(disk.files) | p in copied || !InKernelDir(p) :: p in disk.files
      decreases todo
    {
      var p :| p in todo;
      todo := todo - {p};
      if p !in copied {
        ghost var before := disk.files;
        ok := RemoveFile(disk, text, copied, p, c, from);
        if !ok { return; }
        assert KernelFiles(disk.files) <= KernelFiles(before) - {p};
      }
    }
  }

  /** Make one file writable and remove it. */
  method RemoveFile(disk: Disk, text: string, copied: set<string>, p: string,
                    ghost c: Context, ghost from: seq<Files>) returns (ok: bool)
    requires Switched(disk, text, copied, c, from) && Complete(text, copied) && p !in copied && p != TOML
    modifies disk
    ensures Switched(disk, text, copied, c, from)
    ensures Outcome(ok, old(disk.failures), disk.failures) && disk.Toll() == old(disk.Toll())
    ensures disk.files == if ok then old(disk.files) - {p} else old(disk.files)
  {
    hide Bootable, StartsWell, Whole, InKernelDir, References, SafeSince, Complete;
    SwitchedBootable(disk.files, text, copied);
    SinceStep(disk.history, from, disk.files, c);
    ok := disk.Touch();
    if !ok { return; }
    SinceStep(disk.history, from, disk.files, c);
    ok := disk.Touch();
    if !ok { return; }
    ghost var before, was := disk.history, disk.files;
    ok := disk.Remove(p);
    WholeFewer(was, p, c);
    SwitchedBootable(disk.files, text, copied);
    SinceStep(before, from, disk.files, c);
  }

  /** `install_binary`. */
  method InstallBinary(disk: Disk, content: string, text: string, copied: set<string>,
                       ghost c: Context, ghost from: seq<Files>)
      returns (ok: bool)
    requires Switched(disk, text, copied, c, from) && Complete(text, copied) && BINARY !in copied && BINARY != TOML
    modifies disk
    ensures Switched(disk, text, copied, c, from)
    ensures Outcome(ok, old(disk.failures), disk.failures) && disk.Toll() == old(disk.Toll())
    ensures disk.files == old(disk.files) ||
      (BINARY in disk.files && disk.files == old(disk.files)[BINARY := disk.files[BINARY]])
    ensures ok ==> BINARY in disk.files && disk.files[BINARY] == content
  {
    hide Bootable, StartsWell, Whole, InKernelDir, References, SafeSince, Complete;
    SwitchedBootable(disk.files, text, copied);
    SinceStep(disk.history, from, disk.files, c);
    ok := disk.Touch();
    if !ok { return; }
    ghost var before, was := disk.history, disk.files;
    ok := disk.Write(BINARY, content);
    PathFacts("", c.pid);
    WholeElsewhere(was, disk.files, BINARY, c);
    SwitchedBootable(disk.files, text, copied);
    SinceStep(before, from, disk.files, c);
    if !ok { return; }
    SinceStep(disk.history, from, disk.files, c);
    ok := disk.Touch();
  }

  // ----- the whole run

  lemma {:induction false} DestinationsNeeded(gs: seq<Generation>)
    ensures forall r <- Needed(gs) :: EspPath(r) in AllDestinations(gs)
    ensures forall c <- AllDestinations(gs) :: InKernelDir(c)
  {
    hide InKernelDir;
    if gs != [] {
      PathFacts(gs[0].kernel, "");
      PathFacts(gs[0].initrd, "");
      hide ConfigPath, Destination, EspPath;
      DestinationsNeeded(gs[1..]);
    }
  }

  lemma {:induction false} EntriesConcat(a: seq<Generation>, b: seq<Generation>)
    ensures EntriesText(a + b) == EntriesText(a) + EntriesText(b)
    ensures AllDestinations(a + b) == AllDestinations(a) + AllDestinations(b)
    ensures AllPaths(a + b) == AllPaths(a) + AllPaths(b)
  {
    hide EntriesText, AllDestinations, AllPaths;
    if a == [] {
      NoEntries();
      assert a + b == b;
    } else {
      EntriesConcat(a[1..], b);
      EntriesCons(a[0], a[1..]);
      EntriesCons(a[0], a[1..] + b);
      assert a == [a[0]] + a[1..] && a + b == [a[0]] + (a[1..] + b);
    }
  }

  lemma EntriesCons(g: Generation, gs: seq<Generation>)
    ensures EntriesText([g] + gs) == (if g.bootable then EntryText(g) else []) + EntriesText(gs)
    ensures AllDestinations([g] + gs) == (if g.bootable then Destinations(g) else {}) + AllDestinations(gs)
    ensures AllPaths([g] + gs) == (if g.bootable then [g.kernel, g.initrd] else []) + AllPaths(gs)
  {
    hide EntryText, Destinations;
    assert ([g] + gs)[1..] == gs;
  }

  /** The entries of every generation, the default first. */
  method AddEntries(disk: Disk, store: string -> string, gs: seq<Generation>, pid: string,
                    ghost c: Context, ghost from: seq<Files>)
      returns (ok: bool, entries: seq<string>, copied: set<string>)
    requires c == Context(c.base, store, pid) && forall g <- gs :: Installable(g, pid)
    requires Copying(disk, c, from, {}) && AsInstalled(disk.files, c, [])
    modifies disk
    ensures Copying(disk, c, from, copied)
    ensures Outcome(ok, old(disk.failures), disk.failures) && disk.Toll() == old(disk.Toll())
    ensures ok ==> AsInstalled(disk.files, c, AllPaths(gs))
    ensures ok ==> entries == EntriesText(gs) && copied == AllDestinations(gs)
  {
    hide StartsWell, Copying, Installable, AsInstalled, EntriesText, AllDestinations, AllPaths;
    ok, entries, copied := true, [], {};
    assert gs[..0] == [];
    NoEntries();
    for i := 0 to |gs|
      invariant ok && Copying(disk, c, from, copied)
      invariant AsInstalled(disk.files, c, AllPaths(gs[..i]))
      invariant disk.failures == old(disk.failures) && disk.Toll() == old(disk.Toll())
      invariant entries == EntriesText(gs[..i]) && copied == AllDestinations(gs[..i])
    {
      var entry;
      ok, entry, copied := AddEntry(disk, store, gs[i], pid, copied, c, from, AllPaths(gs[..i]));
      if !ok { return; }
      entries := entries + entry;
      EntriesConcat(gs[..i], [gs[i]]);
      assert gs[..i + 1] == gs[..i] + [gs[i]];
    }
    assert gs[..|gs|] == gs;
  }

  lemma NoEntries()
    ensures EntriesText([]) == [] && AllDestinations([]) == {} && AllPaths([]) == []
  {}

  lemma SamePart(was: Files, files: Files, p: string)
    requires !InKernelDir(p) && files - {p} == was - {p}
    ensures KernelPart(files) == KernelPart(was)
  {
    hide InKernelDir;
    forall q | q != p ensures q in files <==> q in was { assert q in files - {p} <==> q in was - {p}; }
    forall q | q != p && q in files ensures files[q] == was[q] {
      assert (files - {p})[q] == files[q] && (was - {p})[q] == was[q];
    }
  }

  /** Writing the new configuration beside the old one and renaming it over. */
  method Switch(disk: Disk, text: string, copied: set<string>, pid: string, ghost c: Context, ghost from: seq<Files>)
      returns (ok: bool)
    requires c.pid == pid && Copying(disk, c, from, copied) && Complete(text, copied)
    modifies disk
    ensures SafeSince(disk.history, from, c)
    ensures Outcome(ok, old(disk.failures), disk.failures) && disk.Toll() == old(disk.Toll())
    ensures KernelPart(disk.files) == KernelPart(old(disk.files))
    ensures ok ==> Switched(disk, text, copied, c, from)
  {
    hide Bootable, StartsWell, Whole, IsTmp, InKernelDir, References, SafeSince, TmpOf, Complete;
    PathFacts("", pid);
    var tmp := TmpOf(TOML, pid);
    ghost var before, was := disk.history, disk.files;
    ok := disk.Write(tmp, text);
    WholeElsewhere(was, disk.files, tmp, c);
    SamePart(was, disk.files, tmp);
    ExtendsBootable(c, disk.files);
    SinceStep(before, from, disk.files, c);
    if !ok { return; }
    before, was := disk.history, disk.files;
    ok := disk.Rename(tmp, TOML);
    if ok {
      WholeSwitched(was, tmp, c);
      SamePart(was, was - {tmp}, tmp);
      SamePart(was - {tmp}, disk.files, TOML);
      SwitchedBootable(disk.files, text, copied);
    } else {
      ExtendsBootable(c, disk.files);
    }
    SinceStep(before, from, disk.files, c);
  }

  /** `run`. Whatever fails and wherever, in every recorded state the installed
      configuration boots if it did at the start, and no kernel or initrd is half
      written; on success
      the new configuration is installed and the kernel directory holds exactly
      the files its generations need, new ones copied and old ones as they were.
      It succeeds exactly when no call fails and the generations can be listed. */
  method Run(disk: Disk, store: string -> string, binary: string, pid: string, timeout: nat, default: Generation,
             limit: nat, listed: Result<seq<Generation>>)
      returns (r: Result<()>)
    requires Installable(default, pid) && (listed.Ok? ==> forall g <- listed.value :: Installable(g, pid))
    modifies disk
    ensures SafeSince(disk.history, old(disk.history), Context(old(disk.files), store, pid))
    ensures r.Ok? <==> disk.failures == old(disk.failures) && (limit > 0 ==> listed.Ok?)
    ensures (forall f <- old(disk.faults) :: f.Fine?) && (limit > 0 ==> listed.Ok?) ==> r.Ok?
    ensures r.Ok? ==>
      var gs := [default] + (if limit > 0 then listed.value else []);
      && TOML in disk.files && disk.files[TOML] == Generated(timeout, gs)
      && KernelFiles(disk.files) == AllDestinations(gs)
      && (forall d <- AllDestinations(gs) ::
           d in Installed(Context(old(disk.files), store, pid), AllPaths(gs)) &&
           disk.files[d] == Installed(Context(old(disk.files), store, pid), AllPaths(gs))[d])
      && BINARY in disk.files && disk.files[BINARY] == binary
      && Bootable(disk.files) && Whole(disk.files, Context(old(disk.files), store, pid))
  {
    hide StartsWell, Installable, AsInstalled, Installed, AllPaths, IsTmp, InKernelDir, References, SafeSince, HeadText, EntriesText, AllDestinations,
         Needed, Bootable, Whole, Generated, Complete;
    ghost var c, from := Context(disk.files, store, pid), disk.history;
    StartFacts(c, from);
    TollPaid(disk.faults);
    assert disk.Toll() == disk.failures + Bad(disk.faults);
    var ok := disk.Touch();
    SinceStep(from, from, c.base, c);
    if !ok { return Err("create_dir_all"); }
    var entries, copied;
    if limit > 0 && listed.Err? {
      ok, entries, copied := AddEntries(disk, store, [default], pid, c, from);
      return Err(listed.message);
    }
    var gs := [default] + (if limit > 0 then listed.value else []);
    assert forall g <- gs :: Installable(g, pid);
    ok, entries, copied := AddEntries(disk, store, gs, pid, c, from);
    if !ok { return Err("add_entry"); }
    var text := Text.Unlines(HeadText(timeout) + entries);
    assert text == Generated(timeout, gs) by { GeneratedText(timeout, gs); }
    TextComplete(timeout, gs, pid);
    CopiedInstalled(disk.files, c, AllPaths(gs), copied);
    ghost var filled := disk.files;
    ok := Switch(disk, text, copied, pid, c, from);
    if !ok { return Err("cannot install r-boot.toml"); }
    SameKernelPart(filled, disk.files, copied);
    PathFacts("", pid);
    ok := Prune(disk, text, copied, c, from);
    if !ok { return Err("prune"); }
    ghost var pruned := disk.files;
    ok := InstallBinary(disk, binary, text, copied, c, from);
    if !ok { return Err("install_binary"); }
    SwitchedBootable(disk.files, text, copied);
    assert KernelFiles(disk.files) == KernelFiles(pruned) by {
      forall p ensures p in KernelFiles(disk.files) <==> p in KernelFiles(pruned) {
        if p == BINARY { assert !InKernelDir(p); }
      }
    }
    r := Ok(());
  }

  lemma StartFacts(c: Context, from: seq<Files>)
    ensures Safe(c.base, c) && Extends(c.base, c.base, c.pid) && Copied(c.base, {}, c.pid) && SafeSince(from, from, c)
    ensures AsInstalled(c.base, c, [])
  {}

  lemma {:induction false} TollPaid(faults: seq<Fault>)
    ensures (forall f <- faults :: f.Fine?) ==> Bad(faults) == 0
  {
    if faults != [] {
      assert faults == [faults[0]] + faults[1..];
      TollPaid(faults[1..]);
    }
  }

  lemma CopiedInstalled(files: Files, c: Context, paths: seq<string>, copied: set<string>)
    requires AsInstalled(files, c, paths) && Copied(files, copied, c.pid)
    ensures forall d <- copied :: d in files && d in Installed(c, paths) && files[d] == Installed(c, paths)[d]
  {
    hide IsTmp, InKernelDir, Installed;
  }

  lemma SameKernelPart(a: Files, b: Files, copied: set<string>)
    requires KernelPart(a) == KernelPart(b) && forall d <- copied :: d in a && InKernelDir(d)
    ensures forall d <- copied :: d in b && b[d] == a[d]
  {
    hide InKernelDir;
    forall d <- copied ensures d in b && b[d] == a[d] {
      assert d in KernelPart(a) && KernelPart(a)[d] == a[d];
      assert d in KernelPart(b) && KernelPart(b)[d] == b[d];
    }
  }

  lemma GeneratedText(timeout: nat, gs: seq<Generation>)
    ensures Generated(timeout, gs) == Text.Unlines(HeadText(timeout) + EntriesText(gs))
  {}

  lemma TextComplete(timeout: nat, gs: seq<Generation>, pid: string)
    requires forall g <- gs :: Installable(g, pid)
    ensures Complete(Generated(timeout, gs), AllDestinations(gs))
    ensures forall c <- AllDestinations(gs) :: InKernelDir(c)
  {
    hide References, Generated, Needed, AllDestinations, InKernelDir, EspPath, WellFormed, IsTmp;
    assert forall g <- gs :: WellFormed(g);
    GeneratedReferences(timeout, gs);
    DestinationsNeeded(gs);
  }
}
