/**
  The admin-side compiler in inc/polylang-integration.php:
  `homebio_compile_po_to_mo` (the shared scanner with the multi-digit
  `msgstr[N]` reading, then the shared writer) and the once-a-day check of
  `homebio_auto_compile_mo_files`.  The clock, the options table, `glob`,
  `file_exists` and `filemtime` are parameters.
*/
module PolylangCompile {
  import opened Wrappers
  import opened ByteString
  import opened PoScan
  import opened PoParse
  import opened PoLoop
  import opened MoFormat
  import opened MoWrite
  import opened CompileMo

  /** The MO bytes for a PO file's contents, or `None` when it cannot be read. */
  function CompiledImage(contents: Option<Bytes>): Option<Bytes>
  {
    if contents.None? then None
    else
      var entries := Parse(PolylangCompiler, contents.value);
      Some(Image(MoEntries(entries).0, MoEntries(entries).1))
  }

  /** `homebio_compile_po_to_mo($po_file, $mo_file)`: the bytes it writes to `$mo_file`, or `None` (`false`). */
  method CompilePoToMo(contents: Option<Bytes>) returns (mo: Option<Bytes>)
    ensures mo == CompiledImage(contents)
  {
    if contents.None? {
      return None;
    }
    var entries := ParseLines(PolylangCompiler, contents.value);
    var image := WriteMo(entries);
    mo := Some(image);
  }

  /** A readable PO file compiles to an image that reads back as the catalog the scanner built. */
  lemma CompiledImageReadsBack(contents: Bytes)
    requires var entries := Parse(PolylangCompiler, contents);
      |Image(MoEntries(entries).0, MoEntries(entries).1)| < Two32
    ensures CompiledImage(Some(contents)).Some?
    ensures ReadsBackAs(CompiledImage(Some(contents)).value, Parse(PolylangCompiler, contents))
  {
    WrittenReadsBack(Parse(PolylangCompiler, contents));
  }

  // ---------------------------------------------------------------------------
  // homebio_auto_compile_mo_files

  const DayInSeconds: int := 86400

  /** `HOMEBIO_VERSION` when the constant is defined, else "1.0.0". */
  function CurrentVersion(defined: Option<Bytes>): (v: Bytes)
    ensures defined.Some? ==> v == defined.value
    ensures defined.None? ==> v == ['1' as byte, '.' as byte, '0' as byte, '.' as byte, '0' as byte]
  {
    if defined.Some? then defined.value else ['1' as byte, '.' as byte, '0' as byte, '.' as byte, '0' as byte]
  }

  /** `$needs_check`: more than a day since the last check, or a different theme version. */
  predicate NeedsCheck(now: int, lastCheck: int, compiledVersion: Bytes, currentVersion: Bytes)
  {
    now - lastCheck > DayInSeconds || compiledVersion != currentVersion
  }

  /** A PO file as `glob` and `filemtime` see it, with what `file_get_contents` returns. */
  datatype PoSource = PoSource(path: Bytes, mtime: int, contents: Option<Bytes>)

  /** The per-file rule: the MO file is missing, older than the PO file, or the version changed. */
  predicate ShouldRecompile(po: PoSource, moTimes: map<Bytes, int>, versionChanged: bool)
  {
    var mo := DefaultMoPath(po.path);
    mo !in moTimes || po.mtime > moTimes[mo] || versionChanged
  }

  /**
    The compiles the `foreach` attempts, in `glob` order: the target path and
    the compiled bytes, `None` when the PO file cannot be read, in which case
    nothing is written.
  */
  function Recompiled(files: seq<PoSource>, moTimes: map<Bytes, int>, versionChanged: bool): (writes: seq<(Bytes, Option<Bytes>)>)
    ensures |writes| <= |files|
  {
    if files == [] then []
    else
      var po := files[|files| - 1];
      Recompiled(files[..|files| - 1], moTimes, versionChanged)
      + (if ShouldRecompile(po, moTimes, versionChanged) then [(DefaultMoPath(po.path), CompiledImage(po.contents))] else [])
  }

  /** The options the hook keeps: `homebio_mo_compile_check` and `homebio_mo_compile_version`. */
  datatype CompileOptions = CompileOptions(lastCheck: int, compiledVersion: Bytes)

  /**
    `homebio_auto_compile_mo_files()`: outside the admin, or when no check
    is due, nothing happens; otherwise the options are stamped and every PO
    file the rule selects is compiled to the MO path beside it.
  */
  method AutoCompile(isAdmin: bool, now: int, options: CompileOptions, versionConstant: Option<Bytes>,
                     files: seq<PoSource>, moTimes: map<Bytes, int>)
    returns (newOptions: CompileOptions, writes: seq<(Bytes, Option<Bytes>)>)
    ensures var version := CurrentVersion(versionConstant);
      if isAdmin && NeedsCheck(now, options.lastCheck, options.compiledVersion, version) then
        newOptions == CompileOptions(now, version)
        && writes == Recompiled(files, moTimes, options.compiledVersion != version)
      else newOptions == options && writes == []
  {
    newOptions, writes := options, [];
    if !isAdmin {
      return;
    }
    var current := CurrentVersion(versionConstant);
    if !NeedsCheck(now, options.lastCheck, options.compiledVersion, current) {
      return;
    }
    newOptions := CompileOptions(now, current);
    var changed := options.compiledVersion != current;
    for i := 0 to |files|
      invariant writes == Recompiled(files[..i], moTimes, changed)
    {
      assert files[..i + 1][..i] == files[..i];
      var moFile := DefaultMoPath(files[i].path);
      if moFile !in moTimes || files[i].mtime > moTimes[moFile] || changed {
        var mo := CompilePoToMo(files[i].contents);
        writes := writes + [(moFile, mo)];
      }
    }
    assert files[..|files|] == files;
  }

  /** What the writes are made of: exactly the selected files' targets and bytes. */
  lemma {:induction false} RecompiledMembers(files: seq<PoSource>, moTimes: map<Bytes, int>, versionChanged: bool, w: (Bytes, Option<Bytes>))
    ensures w in Recompiled(files, moTimes, versionChanged)
            <==> exists q | q in files && ShouldRecompile(q, moTimes, versionChanged) :: w == (DefaultMoPath(q.path), CompiledImage(q.contents))
    decreases |files|
  {
    if files != [] {
      var front := files[..|files| - 1];
      var po := files[|files| - 1];
      RecompiledMembers(front, moTimes, versionChanged, w);
      assert files == front + [po];
      forall q | q in files ensures q in front || q == po { }
    }
  }

  /** A version change recompiles every PO file, whatever the modification times. */
  lemma {:induction false} VersionChangeRecompilesAll(files: seq<PoSource>, moTimes: map<Bytes, int>)
    ensures |Recompiled(files, moTimes, true)| == |files|
    ensures forall i | 0 <= i < |files| :: Recompiled(files, moTimes, true)[i] == (DefaultMoPath(files[i].path), CompiledImage(files[i].contents))
    decreases |files|
  {
    if files != [] {
      VersionChangeRecompilesAll(files[..|files| - 1], moTimes);
    }
  }

  /** With the same version, up-to-date MO files are left alone. */
  lemma {:induction false} UpToDateSkipped(files: seq<PoSource>, moTimes: map<Bytes, int>)
    requires forall i | 0 <= i < |files| :: DefaultMoPath(files[i].path) in moTimes && files[i].mtime <= moTimes[DefaultMoPath(files[i].path)]
    ensures Recompiled(files, moTimes, false) == []
    decreases |files|
  {
    if files != [] {
      UpToDateSkipped(files[..|files| - 1], moTimes);
    }
  }
}
