/** Saving the boot menu's settings: `persist_settings` and `append_entry` of
    crates/r-boot/src/menu.rs. */
module Settings {
  import opened Wrappers
  import opened Text
  import opened ConfigLines
  import opened BootConfig

  /** What the user saved; `image` belongs to the entry called `id`. */
  datatype Saved = Saved(timeout: nat, mode: Mode, logo: bool, id: string, image: Option<Image>)

  predicate HasKey(line: string, key: string) { Classify(line).Pair? && Classify(line).key == key }

  predicate NamesEntry(line: string, id: string) { HasKey(line, "id") && Unquote(Classify(line).value) == id }

  predicate IsHeader(line: string) { Classify(line).Header? }

  /** A header line that the new settings replace. */
  predicate Replaced(line: string) { HasKey(line, "timeout") || HasKey(line, "spinner") || HasKey(line, "logo") }

  predicate IsSelected(lines: seq<string>, id: string) { exists l <- lines :: NamesEntry(l, id) }

  predicate HasImage(lines: seq<string>) { exists l <- lines :: HasKey(l, "image") }

  function ImageLines(image: Option<Image>): seq<string> {
    match image case None => [] case Some(i) => [PairLine("image", Quote(ImageName(i)))]
  }

  function HeadLines(s: Saved): seq<string> {
    [PairLine("timeout", Print(s.timeout)), PairLine("spinner", Quote(ModeName(s.mode))), PairLine("logo", PrintBool(s.logo))]
  }

  // ----- one table

  function RewriteLine(line: string, s: Saved, selected: bool, hasImage: bool): seq<string> {
    if selected && HasKey(line, "image") then ImageLines(s.image)
    else [line] + (if selected && !hasImage && HasKey(line, "id") then ImageLines(s.image) else [])
  }

  function RewriteLines(lines: seq<string>, s: Saved, selected: bool, hasImage: bool): seq<string> {
    if lines == [] then []
    else RewriteLine(lines[0], s, selected, hasImage) + RewriteLines(lines[1..], s, selected, hasImage)
  }

  function RewriteTable(lines: seq<string>, s: Saved): seq<string> {
    RewriteLines(lines, s, IsSelected(lines, s.id), HasImage(lines))
  }

  // ----- the whole file, in the order the code goes

  function PersistFrom(lines: seq<string>, started: bool, table: seq<string>, s: Saved): seq<string>
    decreases |lines|
  {
    if lines == [] then RewriteTable(table, s)
    else if IsHeader(lines[0]) then RewriteTable(table, s) + PersistFrom(lines[1..], true, [lines[0]], s)
    else if started then PersistFrom(lines[1..], true, table + [lines[0]], s)
    else if Replaced(lines[0]) then PersistFrom(lines[1..], false, table, s)
    else [lines[0]] + PersistFrom(lines[1..], false, table, s)
  }

  function Persisted(text: string, s: Saved): string {
    Unlines(HeadLines(s) + PersistFrom(Lines(text), false, [], s))
  }

  /** `append_entry`. */
  method AppendEntry(updated: string, lines: seq<string>, s: Saved) returns (result: string)
    ensures result == updated + Unlines(RewriteTable(lines, s))
  {
    hide HasKey, NamesEntry, Print, RewriteLine, ImageLines;
    var selected := exists l <- lines :: NamesEntry(l, s.id);
    var hasImage := exists l <- lines :: HasKey(l, "image");
    result := updated;
    for i := 0 to |lines|
      invariant result + Unlines(RewriteLines(lines[i..], s, selected, hasImage)) ==
                updated + Unlines(RewriteTable(lines, s))
    {
      ghost var rest := RewriteLines(lines[i + 1..], s, selected, hasImage);
      assert lines[i..][0] == lines[i] && lines[i..][1..] == lines[i + 1..];
      UnlinesConcat(RewriteLine(lines[i], s, selected, hasImage), rest);
      ghost var before := result;
      result := AppendLine(result, lines[i], s, selected, hasImage);
      Regroup(before, Unlines(RewriteLine(lines[i], s, selected, hasImage)), Unlines(rest));
    }
    assert lines[|lines|..] == [];
    assert result + "" == result;
  }

  lemma Regroup(a: string, b: string, c: string)
    ensures a + (b + c) == (a + b) + c
  {}

  method AppendLine(updated: string, line: string, s: Saved, selected: bool, hasImage: bool) returns (result: string)
    ensures result == updated + Unlines(RewriteLine(line, s, selected, hasImage))
  {
    hide HasKey, Print;
    result := updated;
    if selected && HasKey(line, "image") {
      if s.image.Some? { result := result + PairLine("image", Quote(ImageName(s.image.value))) + "\n"; }
    } else {
      result := result + line + "\n";
      if selected && !hasImage && HasKey(line, "id") {
        if s.image.Some? { result := result + PairLine("image", Quote(ImageName(s.image.value))) + "\n"; }
      }
    }
  }

  /** `persist_settings`: the text written, given the text read (the empty text
      when there was no file). */
  method PersistSettings(contents: string, s: Saved) returns (updated: string)
    ensures updated == Persisted(contents, s)
  {
    hide HasKey, Print, Classify, Lines, RewriteTable, HeadLines;
    updated := Unlines(HeadLines(s));
    var lines := Lines(contents);
    var started := false;
    var table: seq<string> := [];
    UnlinesConcat(HeadLines(s), PersistFrom(lines, false, [], s));
    for i := 0 to |lines|
      invariant updated + Unlines(PersistFrom(lines[i..], started, table, s)) == Persisted(contents, s)
    {
      var line := lines[i];
      ghost var before, rest := updated, lines[i + 1..];
      assert lines[i..][0] == line && lines[i..][1..] == rest;
      if IsHeader(line) {
        updated := AppendEntry(updated, table, s);
        UnlinesConcat(RewriteTable(table, s), PersistFrom(rest, true, [line], s));
        Regroup(before, Unlines(RewriteTable(table, s)), Unlines(PersistFrom(rest, true, [line], s)));
        table := [line];
        started := true;
      } else if started {
        table := table + [line];
      } else if !Replaced(line) {
        UnlinesConcat([line], PersistFrom(rest, false, table, s));
        assert Unlines([line]) == line + "\n";
        Regroup(before, line + "\n", Unlines(PersistFrom(rest, false, table, s)));
        updated := updated + (line + "\n");
      }
    }
    updated := AppendEntry(updated, table, s);
  }
}
