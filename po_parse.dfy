/**
  The PO scanner loop, as a function of the file's contents.  Both copies
  share the loop of languages/compile-mo.php `parse_po` and
  inc/polylang-integration.php `homebio_compile_po_to_mo`; `Copy` selects
  the three places where they differ: which `msgstr[N]` lines match, which
  slot such a line fills, and the guard that sends a continuation line to
  that slot.
*/
module PoParse {
  import opened Wrappers
  import opened ByteString
  import opened PhpString
  import opened PoScan

  /** `PO_To_MO_Compiler::parse_po` (the command-line class) or `homebio_compile_po_to_mo` (the admin hook). */
  datatype Copy = ThemeCompiler | PolylangCompiler

  /** PCRE's `\s` without the `u` flag. */
  const PcreSpace: set<byte> := {TAB, LF, VT, FF, CR, SPACE}

  /** The byte after `]`: a literal space in the class, any `\s` in the hook. */
  predicate Separator(c: Copy, b: byte)
  {
    match c
    case ThemeCompiler => b == SPACE
    case PolylangCompiler => b in PcreSpace
  }

  /** `preg_match('/^msgstr\[(\d+)\]<separator>/', $line)`: the digits and the length of the whole match. */
  function IndexedMatch(c: Copy, line: Bytes): (m: Option<(Bytes, nat)>)
    ensures m.Some? ==>
      var digits := m.value.0;
      |digits| >= 1 && m.value.1 == |MsgstrBracket| + |digits| + 2 && m.value.1 <= |line|
      && StartsWith(line, MsgstrBracket) && line[7..7 + |digits|] == digits
      && (forall k | 0 <= k < |digits| :: IsDigit(digits[k]))
      && line[7 + |digits|] == CloseBracket && Separator(c, line[7 + |digits| + 1])
  {
    if !StartsWith(line, MsgstrBracket) then None
    else
      var d := DigitRun(line, 7);
      if d >= 1 && 7 + d + 1 < |line| && line[7 + d] == CloseBracket && Separator(c, line[7 + d + 1])
      then Some((line[7..7 + d], 7 + d + 2))
      else None
  }

  /** Every line of the shape `msgstr[<digits>]<separator>...` matches, with exactly those digits. */
  lemma IndexedMatchFound(c: Copy, digits: Bytes, sep: byte, rest: Bytes)
    requires |digits| >= 1 && forall k | 0 <= k < |digits| :: IsDigit(digits[k])
    requires Separator(c, sep)
    ensures IndexedMatch(c, MsgstrBracket + digits + [CloseBracket, sep] + rest) == Some((digits, 7 + |digits| + 2))
  {
    var line := MsgstrBracket + digits + [CloseBracket, sep] + rest;
    assert line[..7] == MsgstrBracket;
    assert line[7..7 + |digits|] == digits;
    assert line[7 + |digits|] == CloseBracket;
    assert line[7 + |digits| + 1] == sep;
    assert forall k | 7 <= k < 7 + |digits| :: IsDigit(line[k]) by {
      forall k | 7 <= k < 7 + |digits| ensures IsDigit(line[k]) { assert line[k] == digits[k - 7]; }
    }
  }

  /** The slot a `msgstr[N]` line fills: `(int)$matches[0][7]` (the first digit) or `(int)$matches[1]`. */
  function SlotIndex(c: Copy, digits: Bytes): nat
    requires |digits| >= 1 && forall k | 0 <= k < |digits| :: IsDigit(digits[k])
  {
    match c
    case ThemeCompiler => DigitValue(digits[0])
    case PolylangCompiler => IntOfDigits(digits)
  }

  /** The prefix `extract_string` drops: the whole match, or `'msgstr[' . $plural_index . '] '`. */
  function PrefixLength(c: Copy, index: nat, matchLength: nat): nat
  {
    match c
    case ThemeCompiler => matchLength
    case PolylangCompiler => |MsgstrBracket| + |Decimal(index)| + 2
  }

  /** The field `$key` names after a `msgstr[N]` line. */
  function IndexedKey(c: Copy): Field
  {
    match c
    case ThemeCompiler => MsgstrField
    case PolylangCompiler => MsgstrPluralField
  }

  /** What the loop body makes of one raw line, checked in the order the source checks. */
  function Classify(c: Copy, raw: Bytes): Line
  {
    var line := Trim(raw);
    if !EmptyString(line) && line[0] == HASH then Comment
    else if EmptyString(line) then Blank
    else ClassifyText(c, line)
  }

  /** A trimmed line that is neither blank nor a comment: the `msgid` keywords first. */
  function ClassifyText(c: Copy, line: Bytes): Line
    requires line != []
  {
    if StartsWith(line, MsgidKw) then MsgidLine(ExtractString(line, |MsgidKw|))
    else if StartsWith(line, MsgidPluralKw) then MsgidPluralLine(ExtractString(line, |MsgidPluralKw|))
    else ClassifyMsgstr(c, line)
  }

  /** Then `msgstr[N]`, `msgstr`, and a continuation line. */
  function ClassifyMsgstr(c: Copy, line: Bytes): Line
    requires line != []
  {
    match IndexedMatch(c, line)
    case Some((digits, matchLength)) => IndexedLine(c, line, digits, matchLength)
    case None =>
      if StartsWith(line, MsgstrKw) then MsgstrLine(ExtractString(line, |MsgstrKw|))
      else if line[0] == QUOTE then ContinuationLine(ExtractString(line, 0))
      else Unrecognized
  }

  /** A matched `msgstr[N]` line: its slot and its text. */
  function IndexedLine(c: Copy, line: Bytes, digits: Bytes, matchLength: nat): Line
    requires |digits| >= 1 && forall k | 0 <= k < |digits| :: IsDigit(digits[k])
  {
    var index := SlotIndex(c, digits);
    IndexedMsgstrLine(index, ExtractString(line, PrefixLength(c, index, matchLength)))
  }

  /** When a continuation line goes to slot `$plural_index`: `isset($entry['msgstr_plural'])` or `isset($entry['msgstr_plural'][$plural_index])`. */
  predicate SlotGuard(c: Copy, e: Entry, index: nat)
  {
    match c
    case ThemeCompiler => e.plural != map[]
    case PolylangCompiler => index in e.plural
  }

  /** One iteration of the `foreach`. */
  function Step(c: Copy, st: State, line: Line): State
  {
    match line
    case Comment => st
    case Unrecognized => st
    case Blank => OnBlank(st)
    case MsgidLine(t) => OnMsgid(st, t)
    case MsgidPluralLine(t) => OnMsgidPlural(st, t)
    case IndexedMsgstrLine(i, t) => OnIndexedMsgstr(st, i, t, IndexedKey(c))
    case MsgstrLine(t) => OnMsgstr(st, t)
    case ContinuationLine(t) =>
      if st.entry == NoEntry then st
      else if st.pluralIndex.Some? && SlotGuard(c, st.entry, st.pluralIndex.value) then
        st.(entry := AppendToSlot(st.entry, st.pluralIndex.value, t))
      else if st.key.Some? && FieldValue(st.entry, st.key.value).Some? then
        st.(entry := AppendToField(st.entry, st.key.value, t))
      else st
  }

  /** The classification of every raw line, in order. */
  function Scan(c: Copy, raw: seq<Bytes>): (lines: seq<Line>)
    ensures |lines| == |raw|
  {
    MapLines(Classifier(c), raw)
  }

  /** `Classify` for one copy, as a value. */
  function Classifier(c: Copy): Bytes -> Line
  {
    raw => Classify(c, raw)
  }

  /** `classify` applied to each line; the lemmas about it hold whatever `classify` is. */
  function MapLines(classify: Bytes -> Line, raw: seq<Bytes>): (lines: seq<Line>)
    ensures |lines| == |raw|
    decreases |raw|
  {
    if raw == [] then [] else MapLines(classify, raw[..|raw| - 1]) + [classify(raw[|raw| - 1])]
  }

  lemma {:induction false} MapLinesAt(classify: Bytes -> Line, raw: seq<Bytes>, i: nat)
    requires i < |raw|
    ensures MapLines(classify, raw)[i] == classify(raw[i])
    decreases |raw|
  {
    if i < |raw| - 1 {
      MapLinesAt(classify, raw[..|raw| - 1], i);
    }
  }

  lemma {:induction false} MapLinesAppend(classify: Bytes -> Line, a: seq<Bytes>, b: seq<Bytes>)
    ensures MapLines(classify, a + b) == MapLines(classify, a) + MapLines(classify, b)
    decreases |b|
  {
    if b == [] {
      assert a + b == a;
    } else {
      assert (a + b)[..|a + b| - 1] == a + b[..|b| - 1];
      MapLinesAppend(classify, a, b[..|b| - 1]);
    }
  }

  /** Line i scans to the classification of raw line i. */
  lemma ScanAt(c: Copy, raw: seq<Bytes>, i: nat)
    requires i < |raw|
    ensures Scan(c, raw)[i] == Classify(c, raw[i])
  {
    MapLinesAt(Classifier(c), raw, i);
  }

  /** The loop over the classified lines, from state `st`. */
  function Run(c: Copy, st: State, lines: seq<Line>): State
    decreases |lines|
  {
    if lines == [] then st else Run(c, Step(c, st, lines[0]), lines[1..])
  }

  /** The catalog built from readable contents, the last entry committed after the loop. */
  function Parse(c: Copy, contents: Bytes): Catalog
  {
    Commit(Run(c, Init, Scan(c, Explode(contents))))
  }

  /** The loop reads its first line, then the rest. */
  lemma RunCons(c: Copy, st: State, line: Line, rest: seq<Line>)
    ensures Run(c, st, [line] + rest) == Run(c, Step(c, st, line), rest)
  {
    assert ([line] + rest)[0] == line && ([line] + rest)[1..] == rest;
  }

  lemma {:induction false} RunAppend(c: Copy, st: State, a: seq<Line>, b: seq<Line>)
    ensures Run(c, st, a + b) == Run(c, Run(c, st, a), b)
    decreases |a|
  {
    if a != [] {
      assert (a + b)[0] == a[0] && (a + b)[1..] == a[1..] + b;
      RunAppend(c, Step(c, st, a[0]), a[1..], b);
    } else {
      assert a + b == b;
    }
  }

  /** The loop after one more line: what the method's loop invariant advances by. */
  lemma RunSnoc(c: Copy, st: State, a: seq<Line>, line: Line)
    ensures Run(c, st, a + [line]) == Step(c, Run(c, st, a), line)
  {
    RunAppend(c, st, a, [line]);
    assert [line][1..] == [];
  }

  /** Scanning one more raw line adds its classification. */
  lemma ScanSnoc(c: Copy, raw: seq<Bytes>, i: nat)
    requires i < |raw|
    ensures Scan(c, raw[..i + 1]) == Scan(c, raw[..i]) + [Classify(c, raw[i])]
  {
    assert raw[..i + 1] == raw[..i] + [raw[i]];
    MapLinesAppend(Classifier(c), raw[..i], [raw[i]]);
    ScanOne(c, raw[i]);
  }

  lemma ScanOne(c: Copy, line: Bytes)
    ensures Scan(c, [line]) == [Classify(c, line)]
  {
    assert [line][..0] == [];
  }

  lemma ScanAppend(c: Copy, a: seq<Bytes>, b: seq<Bytes>)
    ensures Scan(c, a + b) == Scan(c, a) + Scan(c, b)
  {
    MapLinesAppend(Classifier(c), a, b);
  }

  /** A line whose trimmed text starts with `#` can be taken out of the file without changing what the loop reaches. */
  lemma CommentsIgnored(c: Copy, st: State, before: seq<Bytes>, comment: Bytes, after: seq<Bytes>)
    requires Trim(comment) != [] && Trim(comment)[0] == HASH
    ensures Run(c, st, Scan(c, before + [comment] + after)) == Run(c, st, Scan(c, before + after))
  {
    var a, b := Scan(c, before), Scan(c, after);
    ScanAppend(c, before + [comment], after);
    ScanAppend(c, before, [comment]);
    ScanOne(c, comment);
    ScanAppend(c, before, after);
    RunAppend(c, st, a + [Comment], b);
    RunSnoc(c, st, a, Comment);
    RunAppend(c, st, a, b);
  }

  // ---------------------------------------------------------------------------
  // What the loop keeps true

  /**
    `$plural_index`, when set, names a slot that exists; `$key` is the
    hook's `'msgstr_plural'` only while `$plural_index` is set.
  */
  predicate Consistent(st: State)
  {
    (st.pluralIndex.Some? ==> st.pluralIndex.value in st.entry.plural)
    && (st.key == Some(MsgstrPluralField) ==> st.pluralIndex.Some?)
  }

  lemma StepConsistent(c: Copy, st: State, line: Line)
    requires Consistent(st)
    ensures Consistent(Step(c, st, line))
  {
  }

  lemma {:induction false} RunConsistent(c: Copy, st: State, lines: seq<Line>)
    requires Consistent(st)
    ensures Consistent(Run(c, st, lines))
    decreases |lines|
  {
    if lines != [] {
      StepConsistent(c, st, lines[0]);
      RunConsistent(c, Step(c, st, lines[0]), lines[1..]);
    }
  }

  /**
    On every state the loop reaches, the two continuation guards agree, and
    the hook never appends to its `'msgstr_plural'` key as if it were a string.
  */
  lemma ContinuationGuardsAgree(st: State, t: Bytes)
    requires Consistent(st)
    ensures Step(ThemeCompiler, st, ContinuationLine(t)) == Step(PolylangCompiler, st, ContinuationLine(t))
    ensures st.entry != NoEntry && st.key == Some(MsgstrPluralField) ==>
      Step(PolylangCompiler, st, ContinuationLine(t)).entry == AppendToSlot(st.entry, st.pluralIndex.value, t)
  {
  }

  /**
    A continuation line inside an entry goes to the active plural slot when
    there is one, else to the active field when it is set, and is dropped
    otherwise; the same for both copies.
  */
  lemma ContinuationAppends(c: Copy, st: State, t: Bytes)
    requires Consistent(st) && st.entry != NoEntry
    ensures st.pluralIndex.Some? ==>
      Step(c, st, ContinuationLine(t)) == st.(entry := AppendToSlot(st.entry, st.pluralIndex.value, t))
    ensures st.pluralIndex.None? && st.key.Some? && FieldValue(st.entry, st.key.value).Some? ==>
      Step(c, st, ContinuationLine(t)) == st.(entry := AppendToField(st.entry, st.key.value, t))
    ensures st.pluralIndex.None? && (st.key.None? || FieldValue(st.entry, st.key.value).None?) ==>
      Step(c, st, ContinuationLine(t)) == st
  {
  }

  /**
    The two copies' states after the same lines: the same catalog, entry and
    slot; the keys may differ only while a slot is active, where no later
    line can tell them apart.
  */
  predicate Agree(s1: State, s2: State)
  {
    s1.entries == s2.entries && s1.entry == s2.entry && s1.pluralIndex == s2.pluralIndex
    && (s1.key == s2.key || s1.pluralIndex.Some?)
    && Consistent(s1) && Consistent(s2)
  }

  lemma StepAgree(s1: State, s2: State, line: Line)
    requires Agree(s1, s2)
    ensures Agree(Step(ThemeCompiler, s1, line), Step(PolylangCompiler, s2, line))
  {
  }

  lemma {:induction false} RunAgree(s1: State, s2: State, lines: seq<Line>)
    requires Agree(s1, s2)
    ensures Agree(Run(ThemeCompiler, s1, lines), Run(PolylangCompiler, s2, lines))
    decreases |lines|
  {
    if lines != [] {
      StepAgree(s1, s2, lines[0]);
      RunAgree(Step(ThemeCompiler, s1, lines[0]), Step(PolylangCompiler, s2, lines[0]), lines[1..]);
    }
  }

  /** Where both copies classify every line alike, they build the same catalog. */
  lemma CopiesAgree(contents: Bytes)
    requires Scan(ThemeCompiler, Explode(contents)) == Scan(PolylangCompiler, Explode(contents))
    ensures Parse(ThemeCompiler, contents) == Parse(PolylangCompiler, contents)
  {
    var lines := Scan(ThemeCompiler, Explode(contents));
    assert Parse(ThemeCompiler, contents) == Commit(Run(ThemeCompiler, Init, lines));
    assert Parse(PolylangCompiler, contents) == Commit(Run(PolylangCompiler, Init, lines));
    assert Agree(Init, Init);
    RunAgree(Init, Init, lines);
  }
}
