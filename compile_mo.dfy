/**
  `PO_To_MO_Compiler` (languages/compile-mo.php): `parse_po` reads the file
  and runs the shared scanner with the class's own `msgstr[N]` handling,
  `write_mo` packs the image, and `compile` chooses the target path and
  chains the two.  The class holds no state, so its methods are methods of
  this module.  The file system is a parameter: the PO file's contents, or
  `None` when `file_get_contents` fails.
*/
module CompileMo {
  import opened Wrappers
  import opened ByteString
  import opened PhpString
  import opened PoScan
  import opened PoParse
  import opened PoLoop
  import opened PoText
  import opened MoFormat
  import opened MoWrite

  const PoSuffix: Bytes := ['.' as byte, 'p' as byte, 'o' as byte]
  const MoSuffix: Bytes := ['.' as byte, 'm' as byte, 'o' as byte]

  predicate EndsWith(s: Bytes, suffix: Bytes)
  {
    |suffix| <= |s| && s[|s| - |suffix|..] == suffix
  }

  /**
    `preg_replace('/\.po$/', '.mo', $po_file)`.  Without the `D` modifier
    PCRE's `$` also matches just before a final newline, so a path ending in
    ".po\n" becomes one ending in ".mo\n".
  */
  function DefaultMoPath(po: Bytes): (mo: Bytes)
    ensures |mo| == |po|
  {
    if EndsWith(po, PoSuffix) then po[..|po| - 3] + MoSuffix
    else if EndsWith(po, PoSuffix + [LF]) then po[..|po| - 4] + MoSuffix + [LF]
    else po
  }

  /** The stem is kept and only the extension changes, before a final newline too. */
  lemma DefaultMoPathOfPo(stem: Bytes)
    ensures DefaultMoPath(stem + PoSuffix) == stem + MoSuffix
    ensures DefaultMoPath(stem + PoSuffix + [LF]) == stem + MoSuffix + [LF]
  {
    var po := stem + PoSuffix;
    assert po[|po| - 3..] == PoSuffix;
    assert po[..|po| - 3] == stem;
    var poLf := stem + PoSuffix + [LF];
    assert poLf[|poLf| - 3..] != PoSuffix by {
      assert poLf[|poLf| - 1] == LF;
    }
    assert poLf[|poLf| - 4..] == PoSuffix + [LF];
    assert poLf[..|poLf| - 4] == stem;
  }

  /** A path is changed iff it names a ".po" file, and changing it once is enough. */
  lemma DefaultMoPathChanges(po: Bytes)
    ensures DefaultMoPath(po) != po <==> EndsWith(po, PoSuffix) || EndsWith(po, PoSuffix + [LF])
    ensures DefaultMoPath(DefaultMoPath(po)) == DefaultMoPath(po)
  {
    var mo := DefaultMoPath(po);
    if EndsWith(po, PoSuffix) {
      assert mo[|mo| - 2] == 'm' as byte != po[|po| - 2];
      assert mo[|mo| - 3..] == MoSuffix;
      assert mo[|mo| - 3..] != PoSuffix by { assert MoSuffix[1] != PoSuffix[1]; }
      assert !EndsWith(mo, PoSuffix + [LF]) by { assert mo[|mo| - 1] != LF; }
    } else if EndsWith(po, PoSuffix + [LF]) {
      assert mo[|mo| - 3] == 'm' as byte != po[|po| - 3];
      assert mo[|mo| - 3..] != PoSuffix by { assert mo[|mo| - 1] == LF; }
      assert !EndsWith(mo, PoSuffix + [LF]) by { assert mo[|mo| - 3] == 'm' as byte; }
    }
  }

  /** `parse_po($file)`: `false` when the file cannot be read, else the catalog the scanner builds. */
  method ParsePo(contents: Option<Bytes>) returns (entries: Option<Catalog>)
    ensures contents.None? ==> entries.None?
    ensures contents.Some? ==> entries == Some(Parse(ThemeCompiler, contents.value))
  {
    if contents.None? {
      return None;
    }
    var parsed := ParseLines(ThemeCompiler, contents.value);
    entries := Some(parsed);
  }

  /**
    `compile($po_file, $mo_file = null)`: the path written and the bytes
    written to it, or `None` when the PO file cannot be read.
  */
  method Compile(poFile: Bytes, moFile: Option<Bytes>, contents: Option<Bytes>) returns (r: Option<(Bytes, Bytes)>)
    ensures contents.None? ==> r.None?
    ensures contents.Some? ==> (r.Some?
      && r.value.0 == (if moFile.Some? then moFile.value else DefaultMoPath(poFile))
      && var entries := Parse(ThemeCompiler, contents.value);
         r.value.1 == Image(MoEntries(entries).0, MoEntries(entries).1))
  {
    var target := if moFile.Some? then moFile.value else DefaultMoPath(poFile);
    var entries := ParsePo(contents);
    if entries.None? {
      return None;
    }
    var mo := WriteMo(entries.value);
    r := Some((target, mo));
  }

  /**
    End to end, for either copy: a PO file of singular entries compiles to
    an MO image that reads back as exactly those entries (the last one for
    a repeated original), an empty header left out, in ascending order.
  */
  lemma CompiledReadsBack(c: Copy, pairs: seq<(Bytes, Bytes)>)
    requires |Image(MoEntries(MapOf(pairs)).0, MoEntries(MapOf(pairs)).1)| < Two32
    ensures Parse(c, PoFile(pairs)) == MapOf(pairs)
    ensures ReadsBackAs(Image(MoEntries(MapOf(pairs)).0, MoEntries(MapOf(pairs)).1), MapOf(pairs))
  {
    ParseRoundTrip(c, pairs);
    WrittenReadsBack(MapOf(pairs));
  }
}
