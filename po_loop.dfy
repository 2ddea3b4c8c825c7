/**
  The scanner as the source runs it: one pass over the exploded lines that
  updates `$entries`, `$entry`, `$key` and `$plural_index` in place, then
  commits the last entry.  The loop keeps its four locals equal to the
  state `PoParse.Run` reaches on the lines read so far, so it computes
  exactly `PoParse.Parse`, about which the round-trip lemmas are proved.
*/
module PoLoop {
  import opened Wrappers
  import opened ByteString
  import opened PhpString
  import opened PoScan
  import opened PoParse

  /** The `foreach ($lines as $line)` of `parse_po` / `homebio_compile_po_to_mo`, and the final commit. */
  method ParseLines(c: Copy, contents: Bytes) returns (entries: Catalog)
    ensures entries == Parse(c, contents)
  {
    var lines := Explode(contents);
    entries := map[];
    var entry := NoEntry;
    var key: Option<Field> := None;
    var pluralIndex: Option<nat> := None;
    for i := 0 to |lines|
      invariant State(entries, entry, key, pluralIndex) == Run(c, Init, Scan(c, lines[..i]))
    {
      ScanSnoc(c, lines, i);
      RunSnoc(c, Init, Scan(c, lines[..i]), Classify(c, lines[i]));
      entries, entry, key, pluralIndex := Advance(c, entries, entry, key, pluralIndex, Classify(c, lines[i]));
    }
    assert lines[..|lines|] == lines;
    if entry.msgid.Some? {
      entries := SaveEntry(entries, entry);
    }
  }

  /** The body of the `foreach` for one classified line, on the four locals. */
  method Advance(c: Copy, entries0: Catalog, entry0: Entry, key0: Option<Field>, pluralIndex0: Option<nat>, line: Line)
    returns (entries: Catalog, entry: Entry, key: Option<Field>, pluralIndex: Option<nat>)
    ensures State(entries, entry, key, pluralIndex) == Step(c, State(entries0, entry0, key0, pluralIndex0), line)
  {
    entries, entry, key, pluralIndex := entries0, entry0, key0, pluralIndex0;
    match line
    case Comment =>
    case Unrecognized =>
    case Blank =>
      if entry.msgid.Some? {
        entries := SaveEntry(entries, entry);
      }
      entry, key, pluralIndex := NoEntry, None, None;
    case MsgidLine(text) =>
      if entry.msgid.Some? {
        entries := SaveEntry(entries, entry);
      }
      entry, key, pluralIndex := NoEntry.(msgid := Some(text)), Some(MsgidField), None;
    case MsgidPluralLine(text) =>
      entry, key := entry.(msgidPlural := Some(text)), Some(MsgidPluralField);
    case IndexedMsgstrLine(index, text) =>
      entry := entry.(plural := entry.plural[index := text]);
      key, pluralIndex := Some(IndexedKey(c)), Some(index);
    case MsgstrLine(text) =>
      entry, key, pluralIndex := entry.(msgstr := Some(text)), Some(MsgstrField), None;
    case ContinuationLine(text) =>
      if entry != NoEntry {
        if pluralIndex.Some? && SlotGuard(c, entry, pluralIndex.value) {
          entry := AppendToSlot(entry, pluralIndex.value, text);
        } else if key.Some? && FieldValue(entry, key.value).Some? {
          entry := AppendToField(entry, key.value, text);
        }
      }
  }
}
