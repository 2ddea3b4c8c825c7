/**
  `write_mo` (languages/compile-mo.php) and `homebio_write_mo_file`
  (inc/polylang-integration.php): both take the parsed catalog, move the
  header entry (original "") to the front when its translation is not
  empty, sort the other originals, and pack the MO image with two
  accumulator loops over the strings and two more over the (length,
  offset) pairs.  The two copies compute the same bytes; `MoEntries` is
  the list preparation and `WriteMo` the loops.
*/
module MoWrite {
  import opened ByteString
  import opened PhpString
  import opened PoScan
  import opened MoFormat

  /**
    The originals and translations in the order they are written: the
    header first when its translation is not empty, then every other
    original in ascending byte order.
  */
  function MoEntries(entries: Catalog): (r: (seq<Bytes>, seq<Bytes>))
    ensures |r.0| == |r.1|
  {
    var header := if [] in entries then entries[[]] else [];
    var (keys, values) := SortedEntries(entries);
    if EmptyString(header) then (keys, values) else ([[]] + keys, [header] + values)
  }

  /** The other originals, in ascending byte order, and their translations. */
  function SortedEntries(entries: Catalog): (r: (seq<Bytes>, seq<Bytes>))
    ensures |r.0| == |r.1|
  {
    var rest := entries - {[]};
    var keys := SortedKeys(rest.Keys);
    (keys, seq(|keys|, k requires 0 <= k < |keys| => rest[keys[k]]))
  }

  /**
    What is written is the catalog: the originals are strictly ascending
    (so each appears once), each is written beside its own translation,
    and a key is written iff it is not the header or the header's
    translation is not empty.  A non-empty header is entry 0.
  */
  lemma MoEntriesWritten(entries: Catalog)
    ensures var (originals, translations) := MoEntries(entries);
      StrictlySorted(originals)
      && (forall i | 0 <= i < |originals| :: originals[i] in entries && translations[i] == entries[originals[i]])
      && (forall k | k in entries :: k in originals <==> k != [] || entries[k] != [])
      && ([] in entries && entries[[]] != [] ==> originals[0] == [] && translations[0] == entries[[]])
  {
    var (keys, values) := SortedEntries(entries);
    assert MoEntries(entries).0 == (if [] in entries && entries[[]] != [] then [[]] + keys else keys);
    assert MoEntries(entries).1 == (if [] in entries && entries[[]] != [] then [entries[[]]] + values else values);
    SortedEntriesWritten(entries);
    if [] in entries && entries[[]] != [] {
      HeaderFirst(entries, keys, values);
    }
  }

  /** Without the header: ascending, each beside its translation, every non-empty key present. */
  lemma SortedEntriesWritten(entries: Catalog)
    ensures var (keys, values) := SortedEntries(entries);
      StrictlySorted(keys)
      && (forall i | 0 <= i < |keys| :: keys[i] in entries && keys[i] != [] && values[i] == entries[keys[i]])
      && (forall k | k in entries :: k in keys <==> k != [])
  {
    var rest := entries - {[]};
    var keys := SortedKeys(rest.Keys);
    forall i | 0 <= i < |keys| ensures keys[i] in rest {
      assert keys[i] in keys;
    }
  }

  /** Putting the header in front keeps the list ascending and the pairing intact. */
  lemma HeaderFirst(entries: Catalog, keys: seq<Bytes>, values: seq<Bytes>)
    requires [] in entries && entries[[]] != []
    requires StrictlySorted(keys) && |keys| == |values|
    requires forall i | 0 <= i < |keys| :: keys[i] in entries && keys[i] != [] && values[i] == entries[keys[i]]
    requires forall k | k in entries :: k in keys <==> k != []
    ensures var originals, translations := [[]] + keys, [entries[[]]] + values;
      StrictlySorted(originals)
      && (forall i | 0 <= i < |originals| :: originals[i] in entries && translations[i] == entries[originals[i]])
      && (forall k | k in entries :: k in originals <==> k != [] || entries[k] != [])
  {
    var originals := [[]] + keys;
    forall i, j | 0 <= i < j < |originals| ensures Less(originals[i], originals[j]) {
      assert originals[j] == keys[j - 1];
      if i == 0 {
        EmptyIsLeast(keys[j - 1]);
      } else {
        assert originals[i] == keys[i - 1];
      }
    }
  }

  /** The sum of the string lengths. */
  function TotalLength(strs: seq<Bytes>): nat
  {
    if strs == [] then 0 else TotalLength(strs[..|strs| - 1]) + |strs[|strs| - 1]|
  }

  /** A pool is every string plus one NUL each. */
  lemma {:induction false} PoolLength(strs: seq<Bytes>)
    ensures |Pool(strs)| == TotalLength(strs) + |strs|
    decreases |strs|
  {
    if strs != [] {
      PoolLength(strs[..|strs| - 1]);
    }
  }

  /** The image is 28 + 16N bytes of header and tables, then every string with its NUL. */
  lemma ImageLength(originals: seq<Bytes>, translations: seq<Bytes>)
    requires |originals| == |translations|
    ensures |Image(originals, translations)|
            == HeaderSize + 16 * |originals| + TotalLength(originals) + |originals| + TotalLength(translations) + |translations|
  {
    PoolLength(originals);
    PoolLength(translations);
  }

  // ---------------------------------------------------------------------------
  // One step of each loop

  lemma PoolSnoc(strs: seq<Bytes>, i: nat)
    requires i < |strs|
    ensures Pool(strs[..i + 1]) == Pool(strs[..i]) + strs[i] + [NUL]
  {
    assert strs[..i + 1][..i] == strs[..i];
  }

  lemma DescriptorsSnoc(strs: seq<Bytes>, start: nat, i: nat)
    requires i < |strs|
    ensures Descriptors(strs[..i + 1], start) == Descriptors(strs[..i], start) + [|strs[i]|, start + |Pool(strs[..i])|]
  {
    assert strs[..i + 1][..i] == strs[..i];
  }

  lemma WordsSnoc(ws: seq<nat>, w: nat)
    ensures Words(ws + [w]) == Words(ws) + Le32(w)
  {
    assert (ws + [w])[..|ws|] == ws;
  }

  /** Packing the pair at positions 2j, 2j + 1 after `front`. */
  lemma WordsPair(front: seq<nat>, pairs: seq<nat>, j: nat)
    requires 2 * j + 2 <= |pairs|
    ensures Words(front + pairs[..2 * j + 2]) == Words(front + pairs[..2 * j]) + Le32(pairs[2 * j]) + Le32(pairs[2 * j + 1])
  {
    var before := front + pairs[..2 * j];
    assert front + pairs[..2 * j + 1] == before + [pairs[2 * j]];
    assert front + pairs[..2 * j + 2] == (before + [pairs[2 * j]]) + [pairs[2 * j + 1]];
    WordsSnoc(before, pairs[2 * j]);
    WordsSnoc(before + [pairs[2 * j]], pairs[2 * j + 1]);
  }

  /** Seven words packed one by one are the seven words packed together. */
  lemma SevenPacked(w0: nat, w1: nat, w2: nat, w3: nat, w4: nat, w5: nat, w6: nat)
    ensures Le32(w0) + Le32(w1) + Le32(w2) + Le32(w3) + Le32(w4) + Le32(w5) + Le32(w6)
            == Words([w0, w1, w2, w3, w4, w5, w6])
  {
    var ws := [w0, w1, w2, w3, w4, w5, w6];
    assert ws[..0] == [];
    WordsSnoc(ws[..0], w0);
    WordsSnoc(ws[..1], w1);
    WordsSnoc(ws[..2], w2);
    WordsSnoc(ws[..3], w3);
    WordsSnoc(ws[..4], w4);
    WordsSnoc(ws[..5], w5);
    WordsSnoc(ws[..6], w6);
    assert ws[..0] + [w0] == ws[..1];
    assert ws[..1] + [w1] == ws[..2];
    assert ws[..2] + [w2] == ws[..3];
    assert ws[..3] + [w3] == ws[..4];
    assert ws[..4] + [w4] == ws[..5];
    assert ws[..5] + [w5] == ws[..6];
    assert ws[..6] + [w6] == ws;
  }

  // ---------------------------------------------------------------------------
  // The writer

  /**
    One `foreach` over a string list: each string gets the pair (its
    length, the running offset), its bytes and a NUL go to the table, and
    the offset moves past them.
  */
  method BuildTable(strs: seq<Bytes>, start: nat) returns (table: Bytes, offsets: seq<nat>, next: nat)
    ensures table == Pool(strs) && offsets == Descriptors(strs, start) && next == start + |table|
  {
    table, offsets, next := [], [], start;
    for i := 0 to |strs|
      invariant table == Pool(strs[..i])
      invariant offsets == Descriptors(strs[..i], start)
      invariant next == start + |table|
    {
      PoolSnoc(strs, i);
      DescriptorsSnoc(strs, start, i);
      offsets := offsets + [|strs[i]|, next];
      table := table + strs[i] + [NUL];
      next := next + |strs[i]| + 1;
    }
    assert strs[..|strs|] == strs;
  }

  /** One `foreach` over the `count` pairs: `$mo .= pack('V', length) . pack('V', offset)`. */
  method PackPairs(mo: Bytes, front: seq<nat>, pairs: seq<nat>, count: nat) returns (r: Bytes)
    requires mo == Words(front) && |pairs| == 2 * count
    ensures r == Words(front + pairs)
  {
    r := mo;
    assert front + pairs[..0] == front;
    for j := 0 to count
      invariant r == Words(front + pairs[..2 * j])
    {
      WordsPair(front, pairs, j);
      r := r + Le32(pairs[2 * j]) + Le32(pairs[2 * j + 1]);
    }
    assert pairs[..2 * count] == pairs;
  }

  /** The seven `pack('V', ...)` calls of the header. */
  lemma HeaderPacked(count: nat)
    ensures Le32(Magic) + Le32(0) + Le32(count) + Le32(HeaderSize) + Le32(HeaderSize + count * 8) + Le32(0)
            + Le32(HeaderSize + count * 16) == Words(HeaderWords(count))
  {
    SevenPacked(Magic, 0, count, HeaderSize, HeaderSize + count * 8, 0, HeaderSize + count * 16);
    assert [Magic, 0, count, HeaderSize, HeaderSize + count * 8, 0, HeaderSize + count * 16] == HeaderWords(count);
  }

  /** The header words and the two pair lists the loops built are the tables. */
  lemma TablesBuilt(originals: seq<Bytes>, translations: seq<Bytes>, start: nat, origOffsets: seq<nat>,
                    transStart: nat, transOffsets: seq<nat>)
    requires |originals| == |translations| && start == HeaderSize + |originals| * 8 + |originals| * 8
    requires origOffsets == Descriptors(originals, start)
    requires transStart == start + |Pool(originals)| && transOffsets == Descriptors(translations, transStart)
    ensures HeaderWords(|originals|) + origOffsets + transOffsets == Tables(originals, translations)
  {
    assert start == HeaderSize + 16 * |originals|;
  }

  /**
    The loops of the writer once the lists are ready: the header, both
    pair tables, then both string tables.
  */
  method PackMo(originals: seq<Bytes>, translations: seq<Bytes>) returns (mo: Bytes)
    requires |originals| == |translations|
    ensures mo == Image(originals, translations)
  {
    var count := |originals|;
    var offsetOrig := HeaderSize;
    var offsetTrans := offsetOrig + count * 8;
    var offsetStrings := offsetTrans + count * 8;

    var origTable, origOffsets, current := BuildTable(originals, offsetStrings);
    var transTable, transOffsets, end := BuildTable(translations, current);

    mo := Le32(Magic) + Le32(0) + Le32(count) + Le32(HeaderSize) + Le32(HeaderSize + count * 8) + Le32(0)
          + Le32(HeaderSize + count * 16);
    HeaderPacked(count);
    mo := PackPairs(mo, HeaderWords(count), origOffsets, count);
    mo := PackPairs(mo, HeaderWords(count) + origOffsets, transOffsets, count);
    TablesBuilt(originals, translations, offsetStrings, origOffsets, current, transOffsets);
    mo := mo + origTable;
    mo := mo + transTable;
  }

  /**
    The bytes both writers hand to `file_put_contents`: the image of the
    catalog's entries in the order `MoEntries` gives them.
  */
  method WriteMo(entries: Catalog) returns (mo: Bytes)
    ensures mo == Image(MoEntries(entries).0, MoEntries(entries).1)
  {
    var prepared := MoEntries(entries);
    mo := PackMo(prepared.0, prepared.1);
  }

  /**
    `image` reads back as the catalog: one ascending table of its keys (an
    empty header left out), each beside its own translation.
  */
  predicate ReadsBackAs(image: Bytes, entries: Catalog)
  {
    var read := ReadMo(image);
    read.Some? && |read.value.0| == |read.value.1| && StrictlySorted(read.value.0)
    && (forall i | 0 <= i < |read.value.0| :: read.value.0[i] in entries && read.value.1[i] == entries[read.value.0[i]])
    && (forall k | k in entries :: k in read.value.0 <==> k != [] || entries[k] != [])
  }

  /** Reading the written image back recovers the catalog. */
  lemma WrittenReadsBack(entries: Catalog)
    requires |Image(MoEntries(entries).0, MoEntries(entries).1)| < Two32
    ensures ReadsBackAs(Image(MoEntries(entries).0, MoEntries(entries).1), entries)
  {
    MoEntriesWritten(entries);
    MoRoundTrip(MoEntries(entries).0, MoEntries(entries).1);
  }
}
