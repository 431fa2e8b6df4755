/** What the bootloader makes of a table and of the settings, line by line:
    every field of an entry in terms of the table's own lines (`push_entry`,
    `RawEntry::set`, `SplashImage`, `SpinnerMode` and `FastbootMode` of
    crates/r-boot/src/menu.rs). */
module BootTables {
  import opened Wrappers
  import opened Text
  import opened ConfigLines
  import opened BootConfig

  /** The last of two readings. */
  function Later<T>(later: Option<T>, earlier: Option<T>): Option<T> { if later.Some? then later else earlier }

  /** The value of the last line with a key. */
  function LastValue(items: seq<Item>, key: string): Option<string> {
    if items == [] then None else
    var rest := LastValue(items[1..], key);
    if rest.Some? then rest
    else if items[0].Pair? && items[0].key == key then Some(Unquote(items[0].value)) else None
  }

  /** The values of all lines with a key, in order. */
  function AllValues(items: seq<Item>, key: string): seq<string> {
    if items == [] then []
    else (if items[0].Pair? && items[0].key == key then [Unquote(items[0].value)] else []) + AllValues(items[1..], key)
  }

  /** The file the bootloader starts: the last `linux`, `kernel` or `efi` line. */
  function BootFile(block: seq<Item>): Option<string> {
    if block == [] then None else
    var i := block[0];
    Later(BootFile(block[1..]),
          if i.Pair? && (i.key == "linux" || i.key == "kernel" || i.key == "efi") then Some(Unquote(i.value)) else None)
  }

  /** The kind it takes it for: the last `kind` line, an `efi` line counting as
      one. */
  function BootKind(block: seq<Item>): Option<string> {
    if block == [] then None else
    var i := block[0];
    Later(BootKind(block[1..]),
          if i.Pair? && i.key == "kind" then Some(Unquote(i.value))
          else if i.Pair? && i.key == "efi" then Some("efi") else None)
  }

  lemma LastOf(i: Item, block: seq<Item>, key: string)
    ensures LastValue([i] + block, key) ==
      Later(LastValue(block, key), if i.Pair? && i.key == key then Some(Unquote(i.value)) else None)
    ensures LastValue([], key) == None
  {
    hide Unquote;
    assert ([i] + block)[1..] == block;
  }

  lemma BootOf(i: Item, block: seq<Item>)
    ensures BootFile([i] + block) == Later(BootFile(block),
      if i.Pair? && (i.key == "linux" || i.key == "kernel" || i.key == "efi") then Some(Unquote(i.value)) else None)
    ensures BootKind([i] + block) == Later(BootKind(block),
      if i.Pair? && i.key == "kind" then Some(Unquote(i.value))
      else if i.Pair? && i.key == "efi" then Some("efi") else None)
    ensures BootFile([]) == None && BootKind([]) == None
  {
    hide Unquote;
    assert ([i] + block)[1..] == block;
  }

  /** What the bootloader reads in a table. */
  lemma {:induction false} BootTable(raw: RawEntry, block: seq<Item>)
    ensures var r := RunRaw(raw, block);
      && r.kernel == Later(BootFile(block), raw.kernel) && r.kind == Later(BootKind(block), raw.kind)
      && r.id == Later(LastValue(block, "id"), raw.id) && r.title == Later(LastValue(block, "title"), raw.title)
    decreases |block|
  {
    hide Unquote;
    if block != [] {
      BootTable(if block[0].Pair? then SetKey(raw, block[0].key, Unquote(block[0].value)) else raw, block[1..]);
    }
  }

  lemma RestKeys(raw: RawEntry, key: string, v: string)
    ensures var r := SetKey(raw, key, v);
      && r.initrds == (if key == "initrd" then raw.initrds + [v] else raw.initrds)
      && r.options == (if key == "options" then Some(v) else raw.options)
      && r.image == (if key == "image" then Some(v) else raw.image)
  {}

  lemma {:induction false} BootRest(raw: RawEntry, block: seq<Item>)
    ensures var r := RunRaw(raw, block);
      && r.initrds == raw.initrds + AllValues(block, "initrd")
      && r.options == Later(LastValue(block, "options"), raw.options)
      && r.image == Later(LastValue(block, "image"), raw.image)
    decreases |block|
  {
    hide Unquote;
    if block == [] {
      assert raw.initrds + [] == raw.initrds;
    } else {
      var i := block[0];
      var next := if i.Pair? then SetKey(raw, i.key, Unquote(i.value)) else raw;
      BootRest(next, block[1..]);
      if i.Pair? {
        RestKeys(raw, i.key, Unquote(i.value));
        assert raw.initrds + ([Unquote(i.value)] + AllValues(block[1..], "initrd")) ==
               raw.initrds + [Unquote(i.value)] + AllValues(block[1..], "initrd");
      }
      assert [] + AllValues(block[1..], "initrd") == AllValues(block[1..], "initrd");
      hide SetKey;
    }
  }

  /** A table shows an entry exactly when it names a file and its last `kind` or
      `efi` line, if any, says "limine", "linux" or "efi"; the entry is then what
      the lines say, field by field. */
  lemma EntryOfTable(block: seq<Item>)
    ensures var shown := Pushed(RunRaw(EMPTY_RAW, block));
      && |shown| <= 1
      && (|shown| == 1 <==>
            BootFile(block).Some? && (BootKind(block).None? || BootKind(block).value in {"limine", "linux", "efi"}))
      && (|shown| == 1 ==>
            var e := shown[0];
            && (e.kind == Efi <==> BootKind(block) == Some("efi"))
            && (e.kind == Limine <==> BootKind(block) == Some("limine"))
            && (e.kind == LinuxKernel <==> BootKind(block).None? || BootKind(block) == Some("linux"))
            && e.kernel == BootFile(block).value && e.initrds == AllValues(block, "initrd")
            && e.options == LastValue(block, "options")
            && e.title == OrElse(LastValue(block, "title"), e.kernel)
            && e.id == OrElse(Later(LastValue(block, "id"), LastValue(block, "title")), e.kernel)
            && (e.image == Some(Nixos) <==> LastValue(block, "image") == Some("nixos"))
            && (e.image == Some(Linux) <==> LastValue(block, "image") == Some("linux")))
  {
    BootTable(EMPTY_RAW, block);
    BootRest(EMPTY_RAW, block);
    assert [] + AllValues(block, "initrd") == AllValues(block, "initrd");
    hide RunRaw, BootFile, BootKind, LastValue, AllValues;
  }

  // ----- the words of the format

  /** The words of a spinner setting, read and written. */
  lemma SpinnerWords(v: string)
    ensures ParseMode(v) == Some(Off) <==> v == "off"
    ensures ParseMode(v) == Some(Mode.Text) <==> v == "text"
    ensures ParseMode(v) == Some(Graphical) <==> v == "graphical"
    ensures ModeName(Off) == "off" && ModeName(Mode.Text) == "text" && ModeName(Graphical) == "graphical"
  {}

  /** One-shot fastboot has three words; only "on" is for good. */
  lemma FastbootWords(v: string)
    ensures ParseFastboot(v) == Some(FastbootOn) <==> v == "on"
    ensures ParseFastboot(v) == Some(NextBootOnly) <==> v in {"next-boot", "next", "only-next-boot"}
    ensures ParseFastboot(v) == Some(FastbootOff) <==> v == "off"
  {}

  lemma OtherWords(v: string)
    ensures ParseBool(v) == Some(true) <==> v == "true"
    ensures ParseBool(v) == Some(false) <==> v == "false"
    ensures ParseImage(v) == Some(Nixos) <==> v == "nixos"
    ensures ParseImage(v) == Some(Linux) <==> v == "linux"
    ensures ImageName(Nixos) == "nixos" && ImageName(Linux) == "linux"
  {}

  /** An empty file: no entry, no default, graphical spinner, logo shown. */
  lemma EmptyFile()
    ensures var m := ReadMenu("");
      m.entries == [] && m.default == None && m.timeout == None && m.spinner == Graphical && m.logo
    ensures FirstMode(Items(Lines(""))) == Graphical && FirstLogo(Items(Lines(""))) && FirstFastboot(Items(Lines(""))) == FastbootOff
  {}
}
