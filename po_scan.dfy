/**
  What the two copies of the PO scanner share: the catalog (`$entries`),
  the entry being read (`$entry`), the active field (`$key`), the kinds of
  line the scanner tells apart, `extract_string`, and `save_entry` (the
  commit rule).  The two copies (`CompileMo` for the class in
  languages/compile-mo.php, `PolylangCompile` for the functions in
  inc/polylang-integration.php) have identical `save_entry` and
  `extract_string` bodies; they differ only in how a `msgstr[N]` line is
  recognised and in the guard of a continuation line.
*/
module PoScan {
  import opened Wrappers
  import opened ByteString
  import opened PhpString

  /** `$entries`: original -> translation.  Insertion order is dropped: the writer sorts by key. */
  type Catalog = map<Bytes, Bytes>

  /** The value of `$key`: which field a continuation line extends. */
  datatype Field = MsgidField | MsgidPluralField | MsgstrField | MsgstrPluralField

  /**
    `$entry`: each string field is unset (`None`) or set; `plural` holds the
    `msgstr[N]` slots.  The source creates `msgstr_plural` and fills a slot
    in the same step, so an empty `plural` means "not set".
  */
  datatype Entry = Entry(msgid: Option<Bytes>, msgidPlural: Option<Bytes>, msgstr: Option<Bytes>, plural: map<nat, Bytes>)

  /** `[]`, the entry after a blank line. */
  const NoEntry: Entry := Entry(None, None, None, map[])

  /** The scanner's locals between two lines: `$entries`, `$entry`, `$key`, `$plural_index`. */
  datatype State = State(entries: Catalog, entry: Entry, key: Option<Field>, pluralIndex: Option<nat>)

  const Init: State := State(map[], NoEntry, None, None)

  /** What one trimmed line is, once the scanner has looked at it. */
  datatype Line =
    | Comment
    | Blank
    | MsgidLine(text: Bytes)
    | MsgidPluralLine(text: Bytes)
    | IndexedMsgstrLine(index: nat, text: Bytes)
    | MsgstrLine(text: Bytes)
    | ContinuationLine(text: Bytes)
    | Unrecognized

  const MsgidKw: Bytes := ['m' as byte, 's' as byte, 'g' as byte, 'i' as byte, 'd' as byte, SPACE]
  const MsgidPluralKw: Bytes := ['m' as byte, 's' as byte, 'g' as byte, 'i' as byte, 'd' as byte, '_' as byte,
                                 'p' as byte, 'l' as byte, 'u' as byte, 'r' as byte, 'a' as byte, 'l' as byte, SPACE]
  const MsgstrKw: Bytes := ['m' as byte, 's' as byte, 'g' as byte, 's' as byte, 't' as byte, 'r' as byte, SPACE]
  /** The fixed start of the `msgstr[N]` pattern. */
  const MsgstrBracket: Bytes := ['m' as byte, 's' as byte, 'g' as byte, 's' as byte, 't' as byte, 'r' as byte, '[' as byte]
  const CloseBracket: byte := ']' as byte

  // ---------------------------------------------------------------------------
  // extract_string

  /** `extract_string($line, $prefix)`: drop `|prefix|` bytes, every surrounding quote, then C escapes. */
  function ExtractString(line: Bytes, prefixLength: nat): Bytes
  {
    StripCSlashes(TrimQuotes(Substr(line, prefixLength)))
  }

  /** A quoted, escaped string after the keyword comes back as the string it escapes. */
  lemma ExtractEscaped(prefix: Bytes, s: Bytes)
    ensures ExtractString(prefix + [QUOTE] + Escape(s) + [QUOTE], |prefix|) == s
  {
    var e := Escape(s);
    var quoted := [QUOTE] + e + [QUOTE];
    assert (prefix + quoted)[|prefix|..] == quoted;
    assert prefix + [QUOTE] + e + [QUOTE] == prefix + quoted;
    TrimQuotesPair(e);
    StripCSlashesEscape(s);
  }

  /** A body whose escapes never end in a quote loses nothing. */
  lemma ExtractPlain(prefix: Bytes, body: Bytes)
    requires QUOTE !in body && BACKSLASH !in body
    ensures ExtractString(prefix + [QUOTE] + body + [QUOTE], |prefix|) == body
  {
    var quoted := [QUOTE] + body + [QUOTE];
    assert (prefix + quoted)[|prefix|..] == quoted;
    assert prefix + [QUOTE] + body + [QUOTE] == prefix + quoted;
    TrimQuotesPair(body);
    StripCSlashesPlain(body);
  }

  // ---------------------------------------------------------------------------
  // Field updates

  /** `isset($entry[$key]) ? $entry[$key] : null` for the string fields; the slot array is not a string. */
  function FieldValue(e: Entry, f: Field): Option<Bytes>
  {
    match f
    case MsgidField => e.msgid
    case MsgidPluralField => e.msgidPlural
    case MsgstrField => e.msgstr
    case MsgstrPluralField => None
  }

  /** `$entry[$key] .= $str` on a set string field. */
  function AppendToField(e: Entry, f: Field, s: Bytes): (r: Entry)
    requires FieldValue(e, f).Some?
    ensures FieldValue(r, f) == Some(FieldValue(e, f).value + s)
    ensures forall g | g != f :: FieldValue(r, g) == FieldValue(e, g)
    ensures r.plural == e.plural
  {
    match f
    case MsgidField => e.(msgid := Some(e.msgid.value + s))
    case MsgidPluralField => e.(msgidPlural := Some(e.msgidPlural.value + s))
    case MsgstrField => e.(msgstr := Some(e.msgstr.value + s))
  }

  /** `$entry['msgstr_plural'][$i] .= $str`; a missing slot reads as "" (PHP's undefined-index notice). */
  function AppendToSlot(e: Entry, i: nat, s: Bytes): (r: Entry)
    ensures r.plural.Keys == e.plural.Keys + {i}
    ensures r.plural[i] == (if i in e.plural then e.plural[i] else []) + s
    ensures forall j | j in e.plural && j != i :: r.plural[j] == e.plural[j]
    ensures r.msgid == e.msgid && r.msgidPlural == e.msgidPlural && r.msgstr == e.msgstr
  {
    e.(plural := e.plural[i := (if i in e.plural then e.plural[i] else []) + s])
  }

  // ---------------------------------------------------------------------------
  // save_entry

  /** `ksort` + `implode("\0", ...)` over the `msgstr[N]` slots. */
  function PluralTranslation(slots: map<nat, Bytes>): Bytes
  {
    JoinNul(PluralForms(slots))
  }

  /** The slot values, by ascending index. */
  function PluralForms(slots: map<nat, Bytes>): (forms: seq<Bytes>)
    ensures |forms| == |slots|
  {
    var order := SortedIndices(slots.Keys);
    seq(|order|, k requires 0 <= k < |order| => slots[order[k]])
  }

  /**
    The pair an entry commits, if any: a plural entry (both `msgid_plural`
    and a slot) becomes `msgid \0 msgid_plural` -> forms joined by NUL; else
    a singular one with `msgstr` becomes `msgid` -> `msgstr`; anything else
    (no `msgid`, or no translation at all) is dropped.
  */
  function SavedPair(e: Entry): Option<(Bytes, Bytes)>
  {
    if e.msgid.None? then None
    else if e.msgidPlural.Some? && e.plural != map[] then
      Some((e.msgid.value + [NUL] + e.msgidPlural.value, PluralTranslation(e.plural)))
    else if e.msgstr.Some? then Some((e.msgid.value, e.msgstr.value))
    else None
  }

  /** `save_entry(&$entries, $entry)`: store the entry's pair, overwriting an earlier one with the same key. */
  function SaveEntry(entries: Catalog, e: Entry): (r: Catalog)
    ensures SavedPair(e).None? ==> r == entries
    ensures SavedPair(e).Some? ==> var (k, v) := SavedPair(e).value;
      r.Keys == entries.Keys + {k} && r[k] == v
      && forall other | other in entries && other != k :: r[other] == entries[other]
  {
    match SavedPair(e)
    case None => entries
    case Some((k, v)) => entries[k := v]
  }

  /** The plural commit: key `msgid \0 msgid_plural`, translation the slot values in index order. */
  lemma PluralCommit(entries: Catalog, e: Entry)
    requires e.msgid.Some? && e.msgidPlural.Some? && e.plural != map[]
    requires forall i | i in e.plural :: NUL !in e.plural[i]
    requires NUL !in e.msgid.value && NUL !in e.msgidPlural.value
    ensures var k := e.msgid.value + [NUL] + e.msgidPlural.value;
      k in SaveEntry(entries, e)
      && SplitNul(k) == [e.msgid.value, e.msgidPlural.value]
      && SplitNul(SaveEntry(entries, e)[k]) == PluralForms(e.plural)
  {
    var forms := PluralForms(e.plural);
    var order := SortedIndices(e.plural.Keys);
    forall k | 0 <= k < |forms| ensures NUL !in forms[k] {
      assert order[k] in e.plural;
    }
    SplitJoinNul(forms);
    SplitJoinNul([e.msgid.value, e.msgidPlural.value]);
    assert JoinNul([e.msgid.value, e.msgidPlural.value]) == e.msgid.value + [NUL] + e.msgidPlural.value by {
      assert [e.msgid.value, e.msgidPlural.value][1..] == [e.msgidPlural.value];
    }
  }

  /** The forms are the slot values, ordered by strictly ascending slot index, each slot once. */
  lemma PluralFormsOrdered(slots: map<nat, Bytes>)
    ensures var order := SortedIndices(slots.Keys);
      Increasing(order) && (forall i :: i in order <==> i in slots)
      && forall k | 0 <= k < |order| :: PluralForms(slots)[k] == slots[order[k]]
  {
  }

  /** An entry with a `msgid` but neither a `msgstr` nor both `msgid_plural` and a slot commits nothing. */
  lemma UntranslatedDropped(entries: Catalog, e: Entry)
    requires e.msgstr.None? && (e.msgidPlural.None? || e.plural == map[])
    ensures SaveEntry(entries, e) == entries
  {
  }

  /** Committing the same key twice keeps only the later translation. */
  lemma LaterEntryWins(entries: Catalog, e1: Entry, e2: Entry)
    requires SavedPair(e1).Some? && SavedPair(e2).Some?
    requires SavedPair(e1).value.0 == SavedPair(e2).value.0
    ensures SaveEntry(SaveEntry(entries, e1), e2) == SaveEntry(entries, e2)
  {
  }

  // ---------------------------------------------------------------------------
  // Transitions both copies share

  /** `if (!empty($entry) && isset($entry['msgid'])) save_entry(...)`. */
  function Commit(st: State): Catalog
  {
    if st.entry.msgid.Some? then SaveEntry(st.entries, st.entry) else st.entries
  }

  /** A blank line: commit the pending entry and reset the entry, `$key` and `$plural_index`. */
  function OnBlank(st: State): State
  {
    State(Commit(st), NoEntry, None, None)
  }

  /** A `msgid "..."` line: commit the pending entry, start a new one. */
  function OnMsgid(st: State, text: Bytes): State
  {
    State(Commit(st), NoEntry.(msgid := Some(text)), Some(MsgidField), None)
  }

  /** A `msgid_plural "..."` line: set the field, make it active; `$plural_index` is left as it is. */
  function OnMsgidPlural(st: State, text: Bytes): State
  {
    st.(entry := st.entry.(msgidPlural := Some(text)), key := Some(MsgidPluralField))
  }

  /** A `msgstr "..."` line: set the singular translation, make it active, forget the slot. */
  function OnMsgstr(st: State, text: Bytes): State
  {
    st.(entry := st.entry.(msgstr := Some(text)), key := Some(MsgstrField), pluralIndex := None)
  }

  /** A `msgstr[N] "..."` line: set slot N, remember N; `key` is the field each copy names. */
  function OnIndexedMsgstr(st: State, index: nat, text: Bytes, key: Field): State
  {
    st.(entry := st.entry.(plural := st.entry.plural[index := text]), key := Some(key), pluralIndex := Some(index))
  }
}
