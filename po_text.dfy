/**
  What the scanner reads back from PO text written the usual way: one
  `msgid` / `msgstr` pair per entry, a blank line after each, strings
  escaped; the same pairs with no blank line and no final newline; and a
  plural entry with `msgid_plural` and `msgstr[0]`, `msgstr[1]`, ... lines.
*/
module PoText {
  import opened Wrappers
  import opened ByteString
  import opened PhpString
  import opened PoScan
  import opened PoParse

  /** `<keyword>"<escaped s>"`. */
  function Quoted(keyword: Bytes, s: Bytes): Bytes
  {
    keyword + [QUOTE] + Escape(s) + [QUOTE]
  }

  /** `msgstr[<i>] "<escaped form>"`. */
  function FormLine(i: nat, form: Bytes): Bytes
  {
    Quoted(MsgstrBracket + Decimal(i) + [CloseBracket, SPACE], form)
  }

  /** One singular entry followed by its blank line. */
  function EntryLines(original: Bytes, translation: Bytes): seq<Bytes>
  {
    [Quoted(MsgidKw, original), Quoted(MsgstrKw, translation), []]
  }

  function RenderLines(pairs: seq<(Bytes, Bytes)>): seq<Bytes>
  {
    if pairs == [] then []
    else RenderLines(pairs[..|pairs| - 1]) + EntryLines(pairs[|pairs| - 1].0, pairs[|pairs| - 1].1)
  }

  /** A PO file holding these pairs in order, ending with a newline. */
  function PoFile(pairs: seq<(Bytes, Bytes)>): Bytes
  {
    Implode(RenderLines(pairs) + [[]])
  }

  /** The catalog the pairs describe when a later pair wins over an earlier one with the same original. */
  function MapOf(pairs: seq<(Bytes, Bytes)>): Catalog
  {
    if pairs == [] then map[]
    else MapOf(pairs[..|pairs| - 1])[pairs[|pairs| - 1].0 := pairs[|pairs| - 1].1]
  }

  /** `msgstr[0]` .. `msgstr[n-1]` lines for the forms. */
  function FormLines(forms: seq<Bytes>): seq<Bytes>
  {
    if forms == [] then []
    else FormLines(forms[..|forms| - 1]) + [FormLine(|forms| - 1, forms[|forms| - 1])]
  }

  /** A plural entry followed by its blank line. */
  function PluralLines(singular: Bytes, plural: Bytes, forms: seq<Bytes>): seq<Bytes>
  {
    [Quoted(MsgidKw, singular), Quoted(MsgidPluralKw, plural)] + FormLines(forms) + [[]]
  }

  /** The slots holding the forms, slot i holding form i. */
  function SlotsOf(forms: seq<Bytes>): (slots: map<nat, Bytes>)
    ensures slots.Keys == Range(|forms|)
  {
    map i | i in Range(|forms|) :: forms[i]
  }

  // ---------------------------------------------------------------------------
  // How each written line is read

  /** A quoted line is left alone by `trim`. */
  lemma QuotedUntrimmed(keyword: Bytes, s: Bytes)
    requires keyword != [] && keyword[0] !in Whitespace
    ensures Trim(Quoted(keyword, s)) == Quoted(keyword, s)
    ensures !EmptyString(Quoted(keyword, s))
  {
    var line := Quoted(keyword, s);
    assert line[0] == keyword[0] && line[|line| - 1] == QUOTE;
    TrimSetUntouched(line, Whitespace);
  }

  /** The keyword a line was written with starts it. */
  lemma QuotedStartsWith(keyword: Bytes, s: Bytes)
    ensures StartsWith(Quoted(keyword, s), keyword)
  {
    assert Quoted(keyword, s)[..|keyword|] == keyword;
  }

  lemma ReadMsgid(c: Copy, s: Bytes)
    ensures Classify(c, Quoted(MsgidKw, s)) == MsgidLine(s)
  {
    QuotedUntrimmed(MsgidKw, s);
    QuotedStartsWith(MsgidKw, s);
    ClassifyAsMsgid(c, Quoted(MsgidKw, s));
    ExtractEscaped(MsgidKw, s);
  }

  lemma ReadMsgidPlural(c: Copy, s: Bytes)
    ensures Classify(c, Quoted(MsgidPluralKw, s)) == MsgidPluralLine(s)
  {
    QuotedUntrimmed(MsgidPluralKw, s);
    QuotedStartsWith(MsgidPluralKw, s);
    ClassifyAsMsgidPlural(c, Quoted(MsgidPluralKw, s));
    ExtractEscaped(MsgidPluralKw, s);
  }

  lemma ReadMsgstr(c: Copy, s: Bytes)
    ensures Classify(c, Quoted(MsgstrKw, s)) == MsgstrLine(s)
  {
    QuotedUntrimmed(MsgstrKw, s);
    QuotedStartsWith(MsgstrKw, s);
    ClassifyAsMsgstr(c, Quoted(MsgstrKw, s));
    ExtractEscaped(MsgstrKw, s);
  }

  /** A trimmed line starting `msgid ` is a `msgid` line. */
  lemma ClassifyAsMsgid(c: Copy, line: Bytes)
    requires Trim(line) == line && StartsWith(line, MsgidKw)
    ensures Classify(c, line) == MsgidLine(ExtractString(line, |MsgidKw|))
  {
    assert line[0] == MsgidKw[0];
  }

  /** A trimmed line starting `msgid_plural ` is a `msgid_plural` line. */
  lemma ClassifyAsMsgidPlural(c: Copy, line: Bytes)
    requires Trim(line) == line && StartsWith(line, MsgidPluralKw)
    ensures Classify(c, line) == MsgidPluralLine(ExtractString(line, |MsgidPluralKw|))
  {
    assert line[0] == MsgidPluralKw[0];
    assert line[5] == MsgidPluralKw[5];
    assert !StartsWith(line, MsgidKw) by { assert MsgidPluralKw[5] != MsgidKw[5]; }
  }

  /** A trimmed line starting `msgstr ` is a `msgstr` line. */
  lemma ClassifyAsMsgstr(c: Copy, line: Bytes)
    requires Trim(line) == line && StartsWith(line, MsgstrKw)
    ensures Classify(c, line) == MsgstrLine(ExtractString(line, |MsgstrKw|))
  {
    assert line[0] == MsgstrKw[0];
    assert line[4] == MsgstrKw[4];
    assert !StartsWith(line, MsgidKw) by { assert MsgstrKw[4] != MsgidKw[4]; }
    assert !StartsWith(line, MsgidPluralKw) by { assert MsgstrKw[4] != MsgidPluralKw[4]; }
    NoIndexedMatch(c, line);
  }

  /** A line whose seventh byte is not `[` does not match the `msgstr[N]` pattern. */
  lemma NoIndexedMatch(c: Copy, line: Bytes)
    requires StartsWith(line, MsgstrKw)
    ensures IndexedMatch(c, line) == None
  {
    assert line[6] == MsgstrKw[6];
    assert !StartsWith(line, MsgstrBracket) by { assert MsgstrKw[6] != MsgstrBracket[6]; }
  }

  /** A trimmed line matching the `msgstr[N]` pattern is that slot's line. */
  lemma ClassifyAsIndexed(c: Copy, line: Bytes, digits: Bytes, matchLength: nat)
    requires Trim(line) == line && IndexedMatch(c, line) == Some((digits, matchLength))
    ensures |digits| >= 1 && forall k | 0 <= k < |digits| :: IsDigit(digits[k])
    ensures Classify(c, line) == IndexedLine(c, line, digits, matchLength)
  {
    assert line[0] == MsgstrBracket[0];
    assert line[4] == MsgstrBracket[4];
    assert !StartsWith(line, MsgidKw) by { assert MsgstrBracket[4] != MsgidKw[4]; }
    assert !StartsWith(line, MsgidPluralKw) by { assert MsgstrBracket[4] != MsgidPluralKw[4]; }
    assert ClassifyText(c, line) == IndexedLine(c, line, digits, matchLength);
  }

  lemma ReadBlank(c: Copy)
    ensures Classify(c, []) == Blank
  {
    assert Trim([]) == [];
  }

  /**
    The slot a written `msgstr[i]` line fills: i itself in the hook (up to
    PHP_INT_MAX), and in the class only while i is a single digit.
  */
  lemma ReadFormLine(c: Copy, i: nat, form: Bytes)
    requires i <= PhpIntMax
    ensures Classify(c, FormLine(i, form))
         == IndexedMsgstrLine(if c == ThemeCompiler then DigitValue(Decimal(i)[0]) else i, form)
  {
    var prefix := MsgstrBracket + Decimal(i) + [CloseBracket, SPACE];
    assert FormLine(i, form) == Quoted(prefix, form);
    ReadIndexedLine(c, Decimal(i), form);
    IndexedFormLine(c, i, form);
  }

  /** The slot and text of a written `msgstr[i]` line once it has matched. */
  lemma IndexedFormLine(c: Copy, i: nat, form: Bytes)
    requires i <= PhpIntMax
    ensures var prefix := MsgstrBracket + Decimal(i) + [CloseBracket, SPACE];
      IndexedLine(c, Quoted(prefix, form), Decimal(i), |prefix|)
      == IndexedMsgstrLine(if c == ThemeCompiler then DigitValue(Decimal(i)[0]) else i, form)
  {
    var digits := Decimal(i);
    var prefix := MsgstrBracket + digits + [CloseBracket, SPACE];
    var index := if c == ThemeCompiler then DigitValue(digits[0]) else i;
    assert SlotIndex(c, digits) == index by { DigitsValueDecimal(i); }
    assert PrefixLength(c, index, |prefix|) == |prefix|;
    ExtractEscaped(prefix, form);
  }

  /** A written `msgstr[<digits>] "..."` line is a matched `msgstr[N]` line in both copies. */
  lemma ReadIndexedLine(c: Copy, digits: Bytes, form: Bytes)
    requires |digits| >= 1 && forall k | 0 <= k < |digits| :: IsDigit(digits[k])
    ensures var prefix := MsgstrBracket + digits + [CloseBracket, SPACE];
      Classify(c, Quoted(prefix, form)) == IndexedLine(c, Quoted(prefix, form), digits, |prefix|)
  {
    var prefix := MsgstrBracket + digits + [CloseBracket, SPACE];
    QuotedUntrimmed(prefix, form);
    MatchFormLine(c, digits, form);
    ClassifyAsIndexed(c, Quoted(prefix, form), digits, |prefix|);
  }

  lemma MatchFormLine(c: Copy, digits: Bytes, form: Bytes)
    requires |digits| >= 1 && forall k | 0 <= k < |digits| :: IsDigit(digits[k])
    ensures var prefix := MsgstrBracket + digits + [CloseBracket, SPACE];
      IndexedMatch(c, Quoted(prefix, form)) == Some((digits, |prefix|))
  {
    var body := [QUOTE] + Escape(form) + [QUOTE];
    assert Quoted(MsgstrBracket + digits + [CloseBracket, SPACE], form)
        == MsgstrBracket + digits + [CloseBracket, SPACE] + body;
    IndexedMatchFound(c, digits, SPACE, body);
  }

  /** A one-digit index reads as itself in both copies. */
  lemma DigitValueDecimal(i: nat)
    requires i < 10
    ensures DigitValue(Decimal(i)[0]) == i
  {
  }

  // ---------------------------------------------------------------------------
  // Singular entries round-trip

  /** The line kinds one written singular entry scans to. */
  function EntryKinds(original: Bytes, translation: Bytes): seq<Line>
  {
    [MsgidLine(original), MsgstrLine(translation), Blank]
  }

  function RenderKinds(pairs: seq<(Bytes, Bytes)>): seq<Line>
  {
    if pairs == [] then []
    else RenderKinds(pairs[..|pairs| - 1]) + EntryKinds(pairs[|pairs| - 1].0, pairs[|pairs| - 1].1)
  }

  lemma ScanEntry(c: Copy, original: Bytes, translation: Bytes)
    ensures Scan(c, EntryLines(original, translation)) == EntryKinds(original, translation)
  {
    ScanMsgid(c, original);
    ScanMsgstr(c, translation);
    ScanBlank(c);
    ScanThree(c, Quoted(MsgidKw, original), Quoted(MsgstrKw, translation), [],
              MsgidLine(original), MsgstrLine(translation), Blank);
  }

  /** Three lines scan to the kinds each one scans to on its own. */
  lemma ScanThree(c: Copy, x: Bytes, y: Bytes, z: Bytes, kx: Line, ky: Line, kz: Line)
    requires Scan(c, [x]) == [kx] && Scan(c, [y]) == [ky] && Scan(c, [z]) == [kz]
    ensures Scan(c, [x, y, z]) == [kx, ky, kz]
  {
    assert [x, y, z] == ([x] + [y]) + [z];
    ScanAppend(c, [x] + [y], [z]);
    ScanAppend(c, [x], [y]);
  }

  lemma ScanMsgid(c: Copy, s: Bytes)
    ensures Scan(c, [Quoted(MsgidKw, s)]) == [MsgidLine(s)]
  {
    ScanOne(c, Quoted(MsgidKw, s));
    ReadMsgid(c, s);
  }

  lemma ScanMsgidPlural(c: Copy, s: Bytes)
    ensures Scan(c, [Quoted(MsgidPluralKw, s)]) == [MsgidPluralLine(s)]
  {
    ScanOne(c, Quoted(MsgidPluralKw, s));
    ReadMsgidPlural(c, s);
  }

  lemma ScanMsgstr(c: Copy, s: Bytes)
    ensures Scan(c, [Quoted(MsgstrKw, s)]) == [MsgstrLine(s)]
  {
    ScanOne(c, Quoted(MsgstrKw, s));
    ReadMsgstr(c, s);
  }

  lemma ScanBlank(c: Copy)
    ensures Scan(c, [[]]) == [Blank]
  {
    ScanOne(c, []);
    ReadBlank(c);
  }

  lemma {:induction false} ScanRender(c: Copy, pairs: seq<(Bytes, Bytes)>)
    ensures Scan(c, RenderLines(pairs)) == RenderKinds(pairs)
    decreases |pairs|
  {
    if pairs != [] {
      var front := pairs[..|pairs| - 1];
      var last := pairs[|pairs| - 1];
      ScanRender(c, front);
      ScanAppend(c, RenderLines(front), EntryLines(last.0, last.1));
      ScanEntry(c, last.0, last.1);
    }
  }

  lemma RunEntry(c: Copy, st: State, original: Bytes, translation: Bytes)
    requires st.entry == NoEntry
    ensures Run(c, st, EntryKinds(original, translation)) == State(st.entries[original := translation], NoEntry, None, None)
  {
    var s1 := Step(c, st, MsgidLine(original));
    var s2 := Step(c, s1, MsgstrLine(translation));
    RunCons(c, st, MsgidLine(original), [MsgstrLine(translation), Blank]);
    RunCons(c, s1, MsgstrLine(translation), [Blank]);
    RunCons(c, s2, Blank, []);
  }

  lemma {:induction false} RunRender(c: Copy, pairs: seq<(Bytes, Bytes)>)
    ensures Run(c, Init, RenderKinds(pairs)) == State(MapOf(pairs), NoEntry, None, None)
    decreases |pairs|
  {
    if pairs != [] {
      var front := pairs[..|pairs| - 1];
      var last := pairs[|pairs| - 1];
      RunRender(c, front);
      RunAppend(c, Init, RenderKinds(front), EntryKinds(last.0, last.1));
      RunEntry(c, State(MapOf(front), NoEntry, None, None), last.0, last.1);
    }
  }

  /** No line holds a newline, so imploding and exploding again gives the lines back. */
  predicate SingleLines(lines: seq<Bytes>)
  {
    forall i | 0 <= i < |lines| :: LF !in lines[i]
  }

  lemma SingleLinesAppend(a: seq<Bytes>, b: seq<Bytes>)
    requires SingleLines(a) && SingleLines(b)
    ensures SingleLines(a + b)
  {
    forall i | 0 <= i < |a + b| ensures LF !in (a + b)[i] {
      if i >= |a| { assert (a + b)[i] == b[i - |a|]; }
    }
  }

  lemma QuotedSingleLine(keyword: Bytes, s: Bytes)
    requires LF !in keyword
    ensures LF !in Quoted(keyword, s)
  {
  }

  lemma {:induction false} RenderLinesNoNewline(pairs: seq<(Bytes, Bytes)>)
    ensures SingleLines(RenderLines(pairs))
    decreases |pairs|
  {
    if pairs != [] {
      var last := pairs[|pairs| - 1];
      RenderLinesNoNewline(pairs[..|pairs| - 1]);
      QuotedSingleLine(MsgidKw, last.0);
      QuotedSingleLine(MsgstrKw, last.1);
      SingleLinesAppend(RenderLines(pairs[..|pairs| - 1]), EntryLines(last.0, last.1));
    }
  }

  /** Written PO text parses back to the catalog it was written from, in both copies. */
  lemma ParseRoundTrip(c: Copy, pairs: seq<(Bytes, Bytes)>)
    ensures Parse(c, PoFile(pairs)) == MapOf(pairs)
  {
    ScanPoFile(c, pairs);
    RunPoFile(c, pairs);
  }

  /** The written file splits into its lines and scans to the entries' line kinds and one more blank. */
  lemma ScanPoFile(c: Copy, pairs: seq<(Bytes, Bytes)>)
    ensures Scan(c, Explode(PoFile(pairs))) == RenderKinds(pairs) + [Blank]
  {
    var raw := RenderLines(pairs) + [[]];
    assert Explode(PoFile(pairs)) == raw by {
      RenderLinesNoNewline(pairs);
      SingleLinesAppend(RenderLines(pairs), [[]]);
      ExplodeImplode(raw);
    }
    ScanAppend(c, RenderLines(pairs), [[]]);
    ScanRender(c, pairs);
    ScanBlank(c);
  }

  /** After the entries and the final blank line, everything is committed and nothing is pending. */
  lemma RunPoFile(c: Copy, pairs: seq<(Bytes, Bytes)>)
    ensures Run(c, Init, RenderKinds(pairs) + [Blank]) == State(MapOf(pairs), NoEntry, None, None)
  {
    RunAppend(c, Init, RenderKinds(pairs), [Blank]);
    RunRender(c, pairs);
    RunCons(c, State(MapOf(pairs), NoEntry, None, None), Blank, []);
  }

  // ---------------------------------------------------------------------------
  // Entries with no blank line between them and no final newline

  /** The pairs' `msgid` / `msgstr` lines, one entry straight after the other. */
  function TightLines(pairs: seq<(Bytes, Bytes)>): seq<Bytes>
  {
    if pairs == [] then []
    else TightLines(pairs[..|pairs| - 1]) + [Quoted(MsgidKw, pairs[|pairs| - 1].0), Quoted(MsgstrKw, pairs[|pairs| - 1].1)]
  }

  /** Those lines joined by newlines, with no newline after the last one. */
  function TightFile(pairs: seq<(Bytes, Bytes)>): Bytes
  {
    if pairs == [] then [] else Implode(TightLines(pairs))
  }

  function TightKinds(pairs: seq<(Bytes, Bytes)>): seq<Line>
  {
    if pairs == [] then []
    else TightKinds(pairs[..|pairs| - 1]) + [MsgidLine(pairs[|pairs| - 1].0), MsgstrLine(pairs[|pairs| - 1].1)]
  }

  /** The loop's state after the last pair's `msgstr`: the earlier pairs committed, the last one pending. */
  function Pending(pairs: seq<(Bytes, Bytes)>): State
    requires pairs != []
  {
    var last := pairs[|pairs| - 1];
    State(MapOf(pairs[..|pairs| - 1]), NoEntry.(msgid := Some(last.0), msgstr := Some(last.1)), Some(MsgstrField), None)
  }

  lemma {:induction false} TightLinesNoNewline(pairs: seq<(Bytes, Bytes)>)
    ensures SingleLines(TightLines(pairs))
    decreases |pairs|
  {
    if pairs != [] {
      var last := pairs[|pairs| - 1];
      TightLinesNoNewline(pairs[..|pairs| - 1]);
      QuotedSingleLine(MsgidKw, last.0);
      QuotedSingleLine(MsgstrKw, last.1);
      SingleLinesAppend(TightLines(pairs[..|pairs| - 1]), [Quoted(MsgidKw, last.0), Quoted(MsgstrKw, last.1)]);
    }
  }

  lemma ScanTightPair(c: Copy, original: Bytes, translation: Bytes)
    ensures Scan(c, [Quoted(MsgidKw, original), Quoted(MsgstrKw, translation)]) == [MsgidLine(original), MsgstrLine(translation)]
  {
    var a, b := Quoted(MsgidKw, original), Quoted(MsgstrKw, translation);
    assert [a, b] == [a] + [b];
    ScanAppend(c, [a], [b]);
    ScanMsgid(c, original);
    ScanMsgstr(c, translation);
  }

  lemma {:induction false} ScanTight(c: Copy, pairs: seq<(Bytes, Bytes)>)
    ensures Scan(c, TightLines(pairs)) == TightKinds(pairs)
    decreases |pairs|
  {
    if pairs != [] {
      var front := pairs[..|pairs| - 1];
      var last := pairs[|pairs| - 1];
      ScanTight(c, front);
      ScanAppend(c, TightLines(front), [Quoted(MsgidKw, last.0), Quoted(MsgstrKw, last.1)]);
      ScanTightPair(c, last.0, last.1);
    }
  }

  /** A `msgid` line commits the pending entry; its `msgstr` makes the new one pending. */
  lemma RunTightPair(c: Copy, st: State, original: Bytes, translation: Bytes)
    ensures Run(c, st, [MsgidLine(original), MsgstrLine(translation)])
         == State(Commit(st), NoEntry.(msgid := Some(original), msgstr := Some(translation)), Some(MsgstrField), None)
  {
    RunCons(c, st, MsgidLine(original), [MsgstrLine(translation)]);
    RunCons(c, OnMsgid(st, original), MsgstrLine(translation), []);
  }

  /** Each `msgid` commits the pair before it, so after the lines only the last pair is pending. */
  lemma {:induction false} RunTight(c: Copy, pairs: seq<(Bytes, Bytes)>)
    requires pairs != []
    ensures Run(c, Init, TightKinds(pairs)) == Pending(pairs)
    decreases |pairs|
  {
    var front := pairs[..|pairs| - 1];
    var last := pairs[|pairs| - 1];
    RunAppend(c, Init, TightKinds(front), [MsgidLine(last.0), MsgstrLine(last.1)]);
    if front == [] {
      assert TightKinds(front) == [];
      RunTightPair(c, Init, last.0, last.1);
    } else {
      RunTight(c, front);
      RunTightPair(c, Pending(front), last.0, last.1);
      assert Commit(Pending(front)) == MapOf(front);
    }
  }

  /**
    PO text with no blank line anywhere, and no newline at the end, still
    parses to its pairs in both copies: a `msgid` commits the entry before
    it, and the commit after the loop keeps the last one.
  */
  lemma TightRoundTrip(c: Copy, pairs: seq<(Bytes, Bytes)>)
    ensures Parse(c, TightFile(pairs)) == MapOf(pairs)
  {
    if pairs == [] {
      ParseEmpty(c);
    } else {
      var lines := Scan(c, Explode(TightFile(pairs)));
      assert lines == TightKinds(pairs) by {
        TightSplit(pairs);
        ScanTight(c, pairs);
      }
      assert Run(c, Init, lines) == Pending(pairs) by { RunTight(c, pairs); }
      CommitPending(pairs);
    }
  }

  /** The commit after the loop adds the pending last pair. */
  lemma CommitPending(pairs: seq<(Bytes, Bytes)>)
    requires pairs != []
    ensures Commit(Pending(pairs)) == MapOf(pairs)
  {
  }

  /** The empty file holds one blank line and parses to nothing. */
  lemma ParseEmpty(c: Copy)
    ensures Parse(c, []) == map[]
  {
    assert Explode([]) == [[]];
    ScanBlank(c);
    RunCons(c, Init, Blank, []);
  }

  lemma TightSplit(pairs: seq<(Bytes, Bytes)>)
    requires pairs != []
    ensures Explode(TightFile(pairs)) == TightLines(pairs)
  {
    assert |TightLines(pairs)| >= 2;
    TightLinesNoNewline(pairs);
    ExplodeImplode(TightLines(pairs));
  }

  // ---------------------------------------------------------------------------
  // Plural entries

  /** The line kinds the forms' lines scan to within the bound. */
  function FormKinds(forms: seq<Bytes>): (lines: seq<Line>)
    ensures |lines| == |forms|
  {
    seq(|forms|, i requires 0 <= i < |forms| => IndexedMsgstrLine(i, forms[i]))
  }

  lemma {:induction false} ScanForms(c: Copy, forms: seq<Bytes>)
    requires |forms| <= (if c == ThemeCompiler then 10 else PhpIntMax + 1)
    ensures Scan(c, FormLines(forms)) == FormKinds(forms)
    decreases |forms|
  {
    if forms != [] {
      var front := forms[..|forms| - 1];
      var n := |forms| - 1;
      ScanForms(c, front);
      ScanAppend(c, FormLines(front), [FormLine(n, forms[n])]);
      ScanFormLine(c, n, forms[n]);
      FormKindsSnoc(forms);
    }
  }

  lemma ScanFormLine(c: Copy, i: nat, form: Bytes)
    requires i < (if c == ThemeCompiler then 10 else PhpIntMax + 1)
    ensures Scan(c, [FormLine(i, form)]) == [IndexedMsgstrLine(i, form)]
  {
    ScanOne(c, FormLine(i, form));
    ReadIndexed(c, i, form);
  }

  lemma FormKindsSnoc(forms: seq<Bytes>)
    requires forms != []
    ensures FormKinds(forms) == FormKinds(forms[..|forms| - 1]) + [IndexedMsgstrLine(|forms| - 1, forms[|forms| - 1])]
  {
  }

  /** The state once the forms' lines are read after `msgid` and `msgid_plural`. */
  lemma {:induction false} RunForms(c: Copy, st: State, forms: seq<Bytes>)
    requires st.entry.plural == map[]
    ensures forms != [] ==>
      Run(c, st, FormKinds(forms))
      == st.(entry := st.entry.(plural := SlotsOf(forms)), key := Some(IndexedKey(c)), pluralIndex := Some(|forms| - 1))
    ensures forms == [] ==> Run(c, st, FormKinds(forms)) == st
    decreases |forms|
  {
    if forms != [] {
      var front := forms[..|forms| - 1];
      var n := |forms| - 1;
      var before := Run(c, st, FormKinds(front));
      assert Run(c, st, FormKinds(forms)) == OnIndexedMsgstr(before, n, forms[n], IndexedKey(c)) by {
        FormKindsSnoc(forms);
        RunSnoc(c, st, FormKinds(front), IndexedMsgstrLine(n, forms[n]));
      }
      assert before.entries == st.entries && before.entry.plural == SlotsOf(front)
          && before.entry.(plural := SlotsOf(forms)) == st.entry.(plural := SlotsOf(forms)) by {
        RunForms(c, st, front);
      }
      SlotsSnoc(forms);
    }
  }

  lemma SlotsSnoc(forms: seq<Bytes>)
    requires forms != []
    ensures SlotsOf(forms[..|forms| - 1])[|forms| - 1 := forms[|forms| - 1]] == SlotsOf(forms)
  {
  }

  /** Within the bound, a written `msgstr[i]` line fills slot i. */
  lemma ReadIndexed(c: Copy, i: nat, form: Bytes)
    requires i < (if c == ThemeCompiler then 10 else PhpIntMax + 1)
    ensures Classify(c, FormLine(i, form)) == IndexedMsgstrLine(i, form)
  {
    ReadFormLine(c, i, form);
    if c == ThemeCompiler { DigitValueDecimal(i); }
  }

  /**
    A plural entry is stored under `msgid NUL msgid_plural` with the forms
    joined by NUL in order: always in the hook, and in the class for up to
    ten forms.
  */
  lemma PluralRoundTrip(c: Copy, singular: Bytes, plural: Bytes, forms: seq<Bytes>)
    requires 1 <= |forms| <= (if c == ThemeCompiler then 10 else PhpIntMax + 1)
    ensures Parse(c, Implode(PluralLines(singular, plural, forms) + [[]]))
         == map[singular + [NUL] + plural := JoinNul(forms)]
  {
    ScanPluralFile(c, singular, plural, forms);
    RunPlural(c, singular, plural, forms);
  }

  /** The written plural file splits and scans to the plural entry's line kinds. */
  lemma ScanPluralFile(c: Copy, singular: Bytes, plural: Bytes, forms: seq<Bytes>)
    requires |forms| <= (if c == ThemeCompiler then 10 else PhpIntMax + 1)
    ensures Scan(c, Explode(Implode(PluralLines(singular, plural, forms) + [[]]))) == PluralKinds(singular, plural, forms)
  {
    PluralLinesSplit(singular, plural, forms);
    ScanPlural(c, singular, plural, forms);
  }

  lemma PluralLinesSplit(singular: Bytes, plural: Bytes, forms: seq<Bytes>)
    ensures Explode(Implode(PluralLines(singular, plural, forms) + [[]])) == PluralLines(singular, plural, forms) + [[]]
  {
    var head := [Quoted(MsgidKw, singular), Quoted(MsgidPluralKw, plural)];
    var blank: Bytes := [];
    assert PluralLines(singular, plural, forms) + [[]] == (head + FormLines(forms)) + [blank, blank];
    assert SingleLines(head) by {
      QuotedSingleLine(MsgidKw, singular);
      QuotedSingleLine(MsgidPluralKw, plural);
    }
    FormLinesNoNewline(forms);
    SingleLinesAppend(head, FormLines(forms));
    SingleLinesAppend(head + FormLines(forms), [blank, blank]);
    ExplodeImplode((head + FormLines(forms)) + [blank, blank]);
  }

  /** The line kinds of a written plural entry and the blank line after the file's last newline. */
  function PluralKinds(singular: Bytes, plural: Bytes, forms: seq<Bytes>): seq<Line>
  {
    [MsgidLine(singular), MsgidPluralLine(plural)] + FormKinds(forms) + [Blank, Blank]
  }

  lemma ScanPlural(c: Copy, singular: Bytes, plural: Bytes, forms: seq<Bytes>)
    requires |forms| <= (if c == ThemeCompiler then 10 else PhpIntMax + 1)
    ensures Scan(c, PluralLines(singular, plural, forms) + [[]]) == PluralKinds(singular, plural, forms)
  {
    var head := [Quoted(MsgidKw, singular), Quoted(MsgidPluralKw, plural)];
    var formLines := FormLines(forms);
    var blanks: seq<Bytes> := [[], []];
    assert Scan(c, head + formLines) == [MsgidLine(singular), MsgidPluralLine(plural)] + FormKinds(forms) by {
      ScanAppend(c, head, formLines);
      ScanHead(c, singular, plural);
      ScanForms(c, forms);
    }
    assert Scan(c, blanks) == [Blank, Blank] by { ScanBlanks(c); }
    assert PluralLines(singular, plural, forms) + [[]] == (head + formLines) + blanks;
    ScanAppend(c, head + formLines, blanks);
  }

  lemma ScanHead(c: Copy, singular: Bytes, plural: Bytes)
    ensures Scan(c, [Quoted(MsgidKw, singular), Quoted(MsgidPluralKw, plural)]) == [MsgidLine(singular), MsgidPluralLine(plural)]
  {
    var a, b := Quoted(MsgidKw, singular), Quoted(MsgidPluralKw, plural);
    assert [a, b] == [a] + [b];
    ScanAppend(c, [a], [b]);
    ScanMsgid(c, singular);
    ScanMsgidPlural(c, plural);
  }

  lemma ScanBlanks(c: Copy)
    ensures Scan(c, [[], []]) == [Blank, Blank]
  {
    var blank: Bytes := [];
    assert [blank, blank] == [blank] + [blank];
    ScanAppend(c, [blank], [blank]);
    ScanBlank(c);
  }

  lemma RunPlural(c: Copy, singular: Bytes, plural: Bytes, forms: seq<Bytes>)
    requires forms != []
    ensures Run(c, Init, PluralKinds(singular, plural, forms))
         == State(map[singular + [NUL] + plural := JoinNul(forms)], NoEntry, None, None)
  {
    var head := [MsgidLine(singular), MsgidPluralLine(plural)];
    var afterHead := State(map[], Entry(Some(singular), Some(plural), None, map[]), Some(MsgidPluralField), None);
    var afterForms := Run(c, afterHead, FormKinds(forms));
    RunAppend(c, Init, head + FormKinds(forms), [Blank, Blank]);
    RunAppend(c, Init, head, FormKinds(forms));
    assert Run(c, Init, head) == afterHead by {
      RunCons(c, Init, head[0], [head[1]]);
      RunCons(c, OnMsgid(Init, singular), head[1], []);
    }
    assert afterForms.entries == map[] && afterForms.entry == Entry(Some(singular), Some(plural), None, SlotsOf(forms)) by {
      RunForms(c, afterHead, forms);
    }
    RunBlanks(c, afterForms);
    SavePluralEntry(singular, plural, forms);
  }

  /** Two blank lines commit the pending entry and leave nothing pending. */
  lemma RunBlanks(c: Copy, st: State)
    ensures Run(c, st, [Blank, Blank]) == State(Commit(st), NoEntry, None, None)
  {
    assert [Blank, Blank] == [Blank] + [Blank];
    RunCons(c, st, Blank, [Blank]);
    RunCons(c, OnBlank(st), Blank, []);
  }

  lemma SavePluralEntry(singular: Bytes, plural: Bytes, forms: seq<Bytes>)
    requires forms != []
    ensures SaveEntry(map[], Entry(Some(singular), Some(plural), None, SlotsOf(forms)))
         == map[singular + [NUL] + plural := JoinNul(forms)]
  {
    var e := Entry(Some(singular), Some(plural), None, SlotsOf(forms));
    assert e.plural != map[] by { assert 0 in SlotsOf(forms); }
    assert PluralTranslation(e.plural) == JoinNul(forms) by { SlotsInOrder(forms); }
    assert SavedPair(e) == Some((singular + [NUL] + plural, JoinNul(forms)));
  }

  /** Slot i holding form i, the slots read back in index order are the forms. */
  lemma SlotsInOrder(forms: seq<Bytes>)
    ensures PluralForms(SlotsOf(forms)) == forms
  {
    var order := SortedIndices(Range(|forms|));
    SortedIndicesRange(|forms|);
    assert forall k | 0 <= k < |forms| :: order[k] == k;
  }

  lemma {:induction false} FormLinesNoNewline(forms: seq<Bytes>)
    ensures SingleLines(FormLines(forms))
    decreases |forms|
  {
    if forms != [] {
      var n := |forms| - 1;
      FormLinesNoNewline(forms[..n]);
      assert LF !in MsgstrBracket + Decimal(n) + [CloseBracket, SPACE] by {
        assert forall k | 0 <= k < |Decimal(n)| :: Decimal(n)[k] != LF;
      }
      QuotedSingleLine(MsgstrBracket + Decimal(n) + [CloseBracket, SPACE], forms[n]);
      SingleLinesAppend(FormLines(forms[..n]), [FormLine(n, forms[n])]);
    }
  }

  // ---------------------------------------------------------------------------
  // The class reads only the first digit of `msgstr[N]`

  /** `msgstr[10]` is read as slot 10 by the hook and as slot 1 by the class. */
  lemma TenthFormMisread(form: Bytes)
    ensures Classify(ThemeCompiler, FormLine(10, form)) == IndexedMsgstrLine(1, form)
    ensures Classify(PolylangCompiler, FormLine(10, form)) == IndexedMsgstrLine(10, form)
  {
    ReadFormLine(ThemeCompiler, 10, form);
    ReadFormLine(PolylangCompiler, 10, form);
    assert Decimal(10) == Decimal(1) + [('0' as int) as byte];
  }

  /** So in the class the eleventh form overwrites the second one. */
  lemma EleventhFormOverwritesSecond(st: State, second: Bytes, eleventh: Bytes)
    ensures Scan(ThemeCompiler, [FormLine(1, second), FormLine(10, eleventh)])
         == [IndexedMsgstrLine(1, second), IndexedMsgstrLine(1, eleventh)]
    ensures Run(ThemeCompiler, st, [IndexedMsgstrLine(1, second), IndexedMsgstrLine(1, eleventh)]).entry.plural
         == st.entry.plural[1 := eleventh]
  {
    ScanSecondEleventh(second, eleventh);
    SameSlotTwice(ThemeCompiler, st, 1, second, eleventh);
  }

  /** Two lines for the same slot: the later text replaces the earlier one. */
  lemma SameSlotTwice(c: Copy, st: State, i: nat, first: Bytes, later: Bytes)
    ensures Run(c, st, [IndexedMsgstrLine(i, first), IndexedMsgstrLine(i, later)]).entry.plural
         == st.entry.plural[i := later]
  {
    var l1, l2 := IndexedMsgstrLine(i, first), IndexedMsgstrLine(i, later);
    var s1 := OnIndexedMsgstr(st, i, first, IndexedKey(c));
    var s2 := OnIndexedMsgstr(s1, i, later, IndexedKey(c));
    assert [l1, l2] == [l1] + [l2];
    RunCons(c, st, l1, [l2]);
    RunCons(c, s1, l2, []);
    assert Run(c, st, [l1, l2]) == s2;
    assert s2.entry.plural == st.entry.plural[i := first][i := later];
  }

  lemma ScanSecondEleventh(second: Bytes, eleventh: Bytes)
    ensures Scan(ThemeCompiler, [FormLine(1, second), FormLine(10, eleventh)])
         == [IndexedMsgstrLine(1, second), IndexedMsgstrLine(1, eleventh)]
  {
    assert [FormLine(1, second), FormLine(10, eleventh)] == [FormLine(1, second)] + [FormLine(10, eleventh)];
    ScanAppend(ThemeCompiler, [FormLine(1, second)], [FormLine(10, eleventh)]);
    ScanFormLine(ThemeCompiler, 1, second);
    ScanOne(ThemeCompiler, FormLine(10, eleventh));
    TenthFormMisread(eleventh);
  }
}
