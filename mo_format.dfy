/**
  The GNU MO file as `write_mo` lays it out: seven 32-bit little-endian
  header words, the originals' (length, offset) table, the translations'
  table, then every original and every translation followed by a NUL byte.
  No hash table is written (its size word is 0).  A reader that follows
  the tables is defined beside the writer, and the writer's image is
  proved to read back as the strings it was built from.
*/
module MoFormat {
  import opened Wrappers
  import opened ByteString

  /** 2^32: `pack('V', n)` keeps n modulo this. */
  const Two32: nat := 0x1_0000_0000

  /** The MO magic number, written as the first word. */
  const Magic: nat := 0x950412de

  /** The fixed header: seven words. */
  const HeaderSize: nat := 28

  /** The low `width` bytes of n, least significant first. */
  function LeBytes(n: nat, width: nat): (r: Bytes)
    ensures |r| == width
  {
    if width == 0 then [] else [(n % 256) as byte] + LeBytes(n / 256, width - 1)
  }

  /** `pack('V', n)`: the low 32 bits of n, least significant byte first. */
  function Le32(n: nat): (r: Bytes)
    ensures |r| == 4
  {
    LeBytes(n % Two32, 4)
  }

  /** The number little-endian bytes stand for: the first byte is the least significant. */
  function LeValue(b: Bytes): nat
  {
    if b == [] then 0 else b[0] as nat + 256 * LeValue(b[1..])
  }

  /** Bytes of a number below 256^width read back as that number. */
  lemma {:induction false} LeBytesValue(n: nat, width: nat, bound: nat)
    requires bound == Power256(width) && n < bound
    ensures LeValue(LeBytes(n, width)) == n
    decreases width
  {
    if width > 0 {
      var b := LeBytes(n, width);
      assert b[1..] == LeBytes(n / 256, width - 1);
      LeBytesValue(n / 256, width - 1, Power256(width - 1));
    }
  }

  function Power256(width: nat): (r: nat)
    ensures r >= 1
  {
    if width == 0 then 1 else 256 * Power256(width - 1)
  }

  /** The number a reader takes from four little-endian bytes. */
  function Le32Value(b: Bytes): (n: nat)
    requires |b| == 4
    ensures n < Two32
  {
    assert LeValue(b[3..]) < 256 by { assert b[3..][1..] == []; }
    assert LeValue(b[2..]) < 0x1_0000 by { assert b[2..][1..] == b[3..]; }
    assert LeValue(b[1..]) < 0x100_0000 by { assert b[1..][1..] == b[2..]; }
    LeValue(b)
  }

  /** Reading a packed word back gives the number modulo 2^32: exact below 2^32, wrapped above. */
  lemma Le32Read(n: nat)
    ensures Le32Value(Le32(n)) == n % Two32
  {
    assert Power256(4) == Two32 by {
      assert Power256(1) == 256;
      assert Power256(2) == 0x1_0000;
      assert Power256(3) == 0x100_0000;
    }
    LeBytesValue(n % Two32, 4, Two32);
  }

  /** The words, packed one after another. */
  function Words(ns: seq<nat>): (r: Bytes)
    ensures |r| == 4 * |ns|
  {
    if ns == [] then [] else Words(ns[..|ns| - 1]) + Le32(ns[|ns| - 1])
  }

  lemma {:induction false} WordsAt(ns: seq<nat>, k: nat)
    requires k < |ns|
    ensures Words(ns)[4 * k .. 4 * k + 4] == Le32(ns[k])
    decreases |ns|
  {
    var front := ns[..|ns| - 1];
    if k < |ns| - 1 {
      WordsAt(front, k);
      assert Words(ns)[4 * k .. 4 * k + 4] == Words(front)[4 * k .. 4 * k + 4];
    }
  }

  /** `$table .= $s . "\0"` for every string, in order. */
  function Pool(strs: seq<Bytes>): (r: Bytes)
    ensures |r| >= |strs|
  {
    if strs == [] then [] else Pool(strs[..|strs| - 1]) + strs[|strs| - 1] + [NUL]
  }

  /** The pool of a prefix of the strings is a prefix of the pool. */
  lemma {:induction false} PoolPrefix(strs: seq<Bytes>, j: nat)
    requires j <= |strs|
    ensures |Pool(strs[..j])| <= |Pool(strs)| && Pool(strs)[..|Pool(strs[..j])|] == Pool(strs[..j])
    decreases |strs|
  {
    if j < |strs| {
      var front := strs[..|strs| - 1];
      assert front[..j] == strs[..j];
      PoolPrefix(front, j);
    } else {
      assert strs[..j] == strs;
    }
  }

  /** String i sits in the pool right after the earlier strings, with its NUL after it. */
  lemma PoolAt(strs: seq<Bytes>, i: nat)
    requires i < |strs|
    ensures var at := |Pool(strs[..i])|;
      at + |strs[i]| < |Pool(strs)|
      && Pool(strs)[at .. at + |strs[i]|] == strs[i] && Pool(strs)[at + |strs[i]|] == NUL
  {
    var at := |Pool(strs[..i])|;
    PoolPrefix(strs, i + 1);
    var upTo := strs[..i + 1];
    assert upTo[..|upTo| - 1] == strs[..i];
    assert Pool(upTo) == Pool(strs[..i]) + strs[i] + [NUL];
  }

  /** The (length, offset) pairs of a table whose strings start at byte `start`. */
  function Descriptors(strs: seq<Bytes>, start: nat): (r: seq<nat>)
    ensures |r| == 2 * |strs|
  {
    if strs == [] then []
    else
      var front := strs[..|strs| - 1];
      Descriptors(front, start) + [|strs[|strs| - 1]|, start + |Pool(front)|]
  }

  /** Entry i's pair sits at positions j = 2i and j + 1. */
  lemma {:induction false} DescriptorsAt(strs: seq<Bytes>, start: nat, i: nat, j: nat)
    requires i < |strs| && j == 2 * i
    ensures Descriptors(strs, start)[j] == |strs[i]|
    ensures Descriptors(strs, start)[j + 1] == start + |Pool(strs[..i])|
    decreases |strs|
  {
    var front := strs[..|strs| - 1];
    if i < |strs| - 1 {
      DescriptorsAt(front, start, i, j);
      assert front[..i] == strs[..i];
    } else {
      assert front == strs[..i];
    }
  }

  /** Magic, revision 0, the count, the two table offsets, hash table size 0 and its offset. */
  function HeaderWords(n: nat): seq<nat>
  {
    [Magic, 0, n, HeaderSize, HeaderSize + 8 * n, 0, HeaderSize + 16 * n]
  }

  /** Every word before the strings: the header and both tables. */
  function Tables(originals: seq<Bytes>, translations: seq<Bytes>): (r: seq<nat>)
    requires |originals| == |translations|
    ensures |r| == 7 + 4 * |originals|
  {
    var stringsAt := HeaderSize + 16 * |originals|;
    HeaderWords(|originals|) + Descriptors(originals, stringsAt)
      + Descriptors(translations, stringsAt + |Pool(originals)|)
  }

  /** The bytes `write_mo` puts in the file for these originals and translations. */
  function Image(originals: seq<Bytes>, translations: seq<Bytes>): (r: Bytes)
    requires |originals| == |translations|
    ensures |r| == HeaderSize + 16 * |originals| + |Pool(originals)| + |Pool(translations)|
  {
    Words(Tables(originals, translations)) + (Pool(originals) + Pool(translations))
  }

  // ---------------------------------------------------------------------------
  // Reading an image back

  /** The word at byte `at`. */
  function WordAt(image: Bytes, at: nat): nat
    requires at + 4 <= |image|
  {
    Le32Value(image[at .. at + 4])
  }

  /**
    Entry i of the table at byte `table`: the string its descriptor points
    at, provided the descriptor and the string with its NUL lie inside the
    image.
  */
  function StringAt(image: Bytes, table: nat, i: nat): Option<Bytes>
  {
    var d := table + 8 * i;
    if d + 8 > |image| then None
    else
      var len, off := WordAt(image, d), WordAt(image, d + 4);
      if off + len < |image| && image[off + len] == NUL then Some(image[off .. off + len]) else None
  }

  /** The first `n` entries of the table at byte `table`, or `None` if one is unreadable. */
  function ReadTable(image: Bytes, table: nat, n: nat): (r: Option<seq<Bytes>>)
    ensures r.Some? ==> |r.value| == n
  {
    if n == 0 then Some([])
    else
      match (ReadTable(image, table, n - 1), StringAt(image, table, n - 1))
      case (Some(front), Some(s)) => Some(front + [s])
      case _ => None
  }

  /** What a reader of MO files finds: the magic number, the count, then both tables. */
  function ReadMo(image: Bytes): Option<(seq<Bytes>, seq<Bytes>)>
  {
    if |image| < HeaderSize || WordAt(image, 0) != Magic then None
    else
      var n := WordAt(image, 8);
      match (ReadTable(image, WordAt(image, 12), n), ReadTable(image, WordAt(image, 16), n))
      case (Some(o), Some(t)) => Some((o, t))
      case _ => None
  }

  /** A slice inside the front part of a concatenation. */
  lemma SliceOfFront(front: Bytes, back: Bytes, from: nat, to: nat)
    requires from <= to <= |front|
    ensures (front + back)[from .. to] == front[from .. to]
  {
  }

  /** Word k of packed words, whatever follows them. */
  lemma WordOf(ws: seq<nat>, rest: Bytes, k: nat, at: nat)
    requires k < |ws| && at == 4 * k && ws[k] < Two32
    ensures at + 4 <= |Words(ws) + rest| && WordAt(Words(ws) + rest, at) == ws[k]
  {
    SliceOfFront(Words(ws), rest, at, at + 4);
    WordsAt(ws, k);
    Le32Read(ws[k]);
  }

  /** Word k of the image is word k of the tables, while it stays below 2^32. */
  lemma ImageWord(originals: seq<Bytes>, translations: seq<Bytes>, k: nat, at: nat)
    requires |originals| == |translations|
    requires k < 7 + 4 * |originals| && at == 4 * k
    requires Tables(originals, translations)[k] < Two32
    ensures at + 4 <= |Image(originals, translations)|
    ensures WordAt(Image(originals, translations), at) == Tables(originals, translations)[k]
  {
    WordOf(Tables(originals, translations), Pool(originals) + Pool(translations), k, at);
  }

  /** The header words read back as written. */
  lemma ImageHeader(originals: seq<Bytes>, translations: seq<Bytes>)
    requires |originals| == |translations|
    requires |Image(originals, translations)| < Two32
    ensures var image := Image(originals, translations);
      var n := |originals|;
      |image| >= HeaderSize
      && WordAt(image, 0) == Magic && WordAt(image, 4) == 0 && WordAt(image, 8) == n
      && WordAt(image, 12) == HeaderSize && WordAt(image, 16) == HeaderSize + 8 * n
      && WordAt(image, 20) == 0 && WordAt(image, 24) == HeaderSize + 16 * n
  {
    var n := |originals|;
    var ws := Tables(originals, translations);
    assert ws[..7] == HeaderWords(n);
    assert HeaderSize + 16 * n <= |Image(originals, translations)|;
    HeaderWord(originals, translations, 0);
    HeaderWord(originals, translations, 1);
    HeaderWord(originals, translations, 2);
    HeaderWord(originals, translations, 3);
    HeaderWord(originals, translations, 4);
    HeaderWord(originals, translations, 5);
    HeaderWord(originals, translations, 6);
  }

  lemma HeaderWord(originals: seq<Bytes>, translations: seq<Bytes>, k: nat)
    requires |originals| == |translations| && k < 7
    requires |Image(originals, translations)| < Two32
    ensures 4 * k + 4 <= |Image(originals, translations)|
    ensures WordAt(Image(originals, translations), 4 * k) == HeaderWords(|originals|)[k]
  {
    var ws := Tables(originals, translations);
    assert ws[k] == HeaderWords(|originals|)[k];
    assert HeaderSize + 16 * |originals| <= |Image(originals, translations)|;
    ImageWord(originals, translations, k, 4 * k);
  }

  /**
    A descriptor at byte d = table + 8i whose string and NUL lie inside the
    image yields that string.
  */
  lemma StringFound(image: Bytes, table: nat, i: nat, d: nat, len: nat, off: nat)
    requires d == table + 8 * i && d + 8 <= |image|
    requires WordAt(image, d) == len && WordAt(image, d + 4) == off
    requires off + len < |image| && image[off + len] == NUL
    ensures StringAt(image, table, i) == Some(image[off .. off + len])
  {
  }

  /** Original i reads back from the first table. */
  lemma ImageOriginal(originals: seq<Bytes>, translations: seq<Bytes>, i: nat)
    requires |originals| == |translations| && i < |originals|
    requires |Image(originals, translations)| < Two32
    ensures StringAt(Image(originals, translations), HeaderSize, i) == Some(originals[i])
  {
    var d := HeaderSize + 8 * i;
    var off := HeaderSize + 16 * |originals| + |Pool(originals[..i])|;
    ImagePools(originals, translations);
    OriginalBytes(Image(originals, translations), Words(Tables(originals, translations)), originals, translations, i, off);
    OriginalDescriptor(originals, translations, i, d, off);
    StringFound(Image(originals, translations), HeaderSize, i, d, |originals[i]|, off);
  }

  /** The descriptor of original i, at byte d, holds its length and its offset. */
  lemma OriginalDescriptor(originals: seq<Bytes>, translations: seq<Bytes>, i: nat, d: nat, off: nat)
    requires |originals| == |translations| && i < |originals|
    requires |Image(originals, translations)| < Two32
    requires d == HeaderSize + 8 * i && off == HeaderSize + 16 * |originals| + |Pool(originals[..i])|
    ensures d + 8 <= |Image(originals, translations)|
    ensures WordAt(Image(originals, translations), d) == |originals[i]|
    ensures WordAt(Image(originals, translations), d + 4) == off
  {
    var k := 7 + 2 * i;
    ImagePools(originals, translations);
    OriginalBytes(Image(originals, translations), Words(Tables(originals, translations)), originals, translations, i, off);
    TablesOriginal(originals, translations, i, k);
    PairOf(Image(originals, translations), Tables(originals, translations), Pool(originals) + Pool(translations), k, d);
  }

  /** Entry i of a table that sits between `front` and `back` is at positions k = |front| + 2i and k + 1. */
  lemma PairIn(ws: seq<nat>, front: seq<nat>, strs: seq<Bytes>, start: nat, back: seq<nat>, i: nat, k: nat)
    requires ws == front + Descriptors(strs, start) + back
    requires i < |strs| && k == |front| + 2 * i
    ensures k + 1 < |ws| && ws[k] == |strs[i]| && ws[k + 1] == start + |Pool(strs[..i])|
  {
    var ds := Descriptors(strs, start);
    DescriptorsAt(strs, start, i, 2 * i);
    assert ws[k] == ds[2 * i] && ws[k + 1] == ds[2 * i + 1];
  }

  /** Words k and k + 1 of the tables describe original i. */
  lemma TablesOriginal(originals: seq<Bytes>, translations: seq<Bytes>, i: nat, k: nat)
    requires |originals| == |translations| && i < |originals| && k == 7 + 2 * i
    ensures Tables(originals, translations)[k] == |originals[i]|
    ensures Tables(originals, translations)[k + 1] == HeaderSize + 16 * |originals| + |Pool(originals[..i])|
  {
    var n := |originals|;
    var stringsAt := HeaderSize + 16 * n;
    PairIn(Tables(originals, translations), HeaderWords(n), originals, stringsAt,
           Descriptors(translations, stringsAt + |Pool(originals)|), i, k);
  }

  /** Words k and k + 1 of the tables describe translation i. */
  lemma TablesTranslation(originals: seq<Bytes>, translations: seq<Bytes>, i: nat, k: nat)
    requires |originals| == |translations| && i < |translations| && k == 7 + 2 * |originals| + 2 * i
    ensures Tables(originals, translations)[k] == |translations[i]|
    ensures Tables(originals, translations)[k + 1]
            == HeaderSize + 16 * |originals| + |Pool(originals)| + |Pool(translations[..i])|
  {
    var n := |originals|;
    var stringsAt := HeaderSize + 16 * n;
    var front := HeaderWords(n) + Descriptors(originals, stringsAt);
    assert Tables(originals, translations) == front + Descriptors(translations, stringsAt + |Pool(originals)|) + [];
    PairIn(Tables(originals, translations), front, translations, stringsAt + |Pool(originals)|, [], i, k);
  }

  /** A (length, offset) pair of packed words, whatever follows them. */
  lemma PairOf(image: Bytes, ws: seq<nat>, rest: Bytes, k: nat, at: nat)
    requires image == Words(ws) + rest
    requires k + 1 < |ws| && at == 4 * k && ws[k] < Two32 && ws[k + 1] < Two32
    ensures at + 8 <= |image|
    ensures WordAt(image, at) == ws[k] && WordAt(image, at + 4) == ws[k + 1]
  {
    WordOf(ws, rest, k, at);
    WordOf(ws, rest, k + 1, at + 4);
  }

  /** Translation i reads back from the second table. */
  lemma ImageTranslation(originals: seq<Bytes>, translations: seq<Bytes>, i: nat)
    requires |originals| == |translations| && i < |translations|
    requires |Image(originals, translations)| < Two32
    ensures StringAt(Image(originals, translations), HeaderSize + 8 * |originals|, i) == Some(translations[i])
  {
    var table := HeaderSize + 8 * |originals|;
    var d := table + 8 * i;
    var off := HeaderSize + 16 * |originals| + |Pool(originals)| + |Pool(translations[..i])|;
    ImagePools(originals, translations);
    TranslationBytes(Image(originals, translations), Words(Tables(originals, translations)), originals, translations, i, off);
    TranslationDescriptor(originals, translations, i, d, off);
    StringFound(Image(originals, translations), table, i, d, |translations[i]|, off);
  }

  /** The descriptor of translation i, at byte d, holds its length and its offset. */
  lemma TranslationDescriptor(originals: seq<Bytes>, translations: seq<Bytes>, i: nat, d: nat, off: nat)
    requires |originals| == |translations| && i < |translations|
    requires |Image(originals, translations)| < Two32
    requires d == HeaderSize + 8 * |originals| + 8 * i
    requires off == HeaderSize + 16 * |originals| + |Pool(originals)| + |Pool(translations[..i])|
    ensures d + 8 <= |Image(originals, translations)|
    ensures WordAt(Image(originals, translations), d) == |translations[i]|
    ensures WordAt(Image(originals, translations), d + 4) == off
  {
    var k := 7 + 2 * |originals| + 2 * i;
    ImagePools(originals, translations);
    TranslationBytes(Image(originals, translations), Words(Tables(originals, translations)), originals, translations, i, off);
    TablesTranslation(originals, translations, i, k);
    PairOf(Image(originals, translations), Tables(originals, translations), Pool(originals) + Pool(translations), k, d);
  }

  /** Original i lies at byte off of the image, after the tables and the earlier originals, NUL-terminated. */
  lemma OriginalBytes(image: Bytes, before: Bytes, originals: seq<Bytes>, translations: seq<Bytes>, i: nat, off: nat)
    requires image == before + Pool(originals + translations)
    requires i < |originals| && off == |before| + |Pool(originals[..i])|
    ensures off + |originals[i]| < |image|
    ensures image[off .. off + |originals[i]|] == originals[i] && image[off + |originals[i]|] == NUL
  {
    var all := originals + translations;
    assert all[..i] == originals[..i] && all[i] == originals[i];
    PoolString(image, before, all, i, off, originals[i]);
  }

  /** Translation i lies at byte off of the image, after the tables, the originals and the earlier translations. */
  lemma TranslationBytes(image: Bytes, before: Bytes, originals: seq<Bytes>, translations: seq<Bytes>, i: nat, off: nat)
    requires image == before + Pool(originals + translations)
    requires i < |translations| && off == |before| + |Pool(originals)| + |Pool(translations[..i])|
    ensures off + |translations[i]| < |image|
    ensures image[off .. off + |translations[i]|] == translations[i] && image[off + |translations[i]|] == NUL
  {
    var j := |originals| + i;
    AfterOriginals(originals, translations, i, j);
    PoolString(image, before, originals + translations, j, off, translations[i]);
  }

  /** Translation i is string |originals| + i of all the strings, preceded by every original. */
  lemma AfterOriginals(originals: seq<Bytes>, translations: seq<Bytes>, i: nat, j: nat)
    requires i < |translations| && j == |originals| + i
    ensures j < |originals + translations| && (originals + translations)[j] == translations[i]
    ensures |Pool((originals + translations)[..j])| == |Pool(originals)| + |Pool(translations[..i])|
  {
    assert (originals + translations)[..j] == originals + translations[..i];
    PoolAppend(originals, translations[..i]);
  }

  /** The image is the table words followed by the pool of all the strings, originals first. */
  lemma ImagePools(originals: seq<Bytes>, translations: seq<Bytes>)
    requires |originals| == |translations|
    ensures |Words(Tables(originals, translations))| == HeaderSize + 16 * |originals|
    ensures Image(originals, translations) == Words(Tables(originals, translations)) + Pool(originals + translations)
  {
    PoolAppend(originals, translations);
  }

  /** One pool after another is the pool of both lists. */
  lemma {:induction false} PoolAppend(front: seq<Bytes>, back: seq<Bytes>)
    ensures Pool(front + back) == Pool(front) + Pool(back)
    decreases |back|
  {
    if back != [] {
      var last := back[|back| - 1];
      var rest := back[..|back| - 1];
      assert (front + back)[..|front + back| - 1] == front + rest;
      PoolAppend(front, rest);
    } else {
      assert front + back == front;
    }
  }

  /** String j of the pool, s, sits right after what precedes the pool and the earlier strings, NUL-terminated. */
  lemma PoolString(image: Bytes, before: Bytes, strs: seq<Bytes>, j: nat, off: nat, s: Bytes)
    requires image == before + Pool(strs)
    requires j < |strs| && s == strs[j] && off == |before| + |Pool(strs[..j])|
    ensures off + |s| < |image| && image[off .. off + |s|] == s && image[off + |s|] == NUL
  {
    var pool, at := Pool(strs), |Pool(strs[..j])|;
    PoolAt(strs, j);
    assert image[off .. off + |s|] == pool[at .. at + |s|];
    assert image[off + |s|] == pool[at + |s|];
  }

  lemma {:induction false} ReadTableOriginals(originals: seq<Bytes>, translations: seq<Bytes>, k: nat)
    requires |originals| == |translations| && k <= |originals|
    requires |Image(originals, translations)| < Two32
    ensures ReadTable(Image(originals, translations), HeaderSize, k) == Some(originals[..k])
    decreases k
  {
    if k > 0 {
      ReadTableOriginals(originals, translations, k - 1);
      ImageOriginal(originals, translations, k - 1);
      assert originals[..k - 1] + [originals[k - 1]] == originals[..k];
    }
  }

  lemma {:induction false} ReadTableTranslations(originals: seq<Bytes>, translations: seq<Bytes>, k: nat)
    requires |originals| == |translations| && k <= |translations|
    requires |Image(originals, translations)| < Two32
    ensures ReadTable(Image(originals, translations), HeaderSize + 8 * |originals|, k) == Some(translations[..k])
    decreases k
  {
    if k > 0 {
      ReadTableTranslations(originals, translations, k - 1);
      ImageTranslation(originals, translations, k - 1);
      assert translations[..k - 1] + [translations[k - 1]] == translations[..k];
    }
  }

  /**
    An image below 4 GiB reads back as the originals and translations it
    was written from, in order: every descriptor points at its string and
    every string is NUL-terminated.
  */
  lemma MoRoundTrip(originals: seq<Bytes>, translations: seq<Bytes>)
    requires |originals| == |translations|
    requires |Image(originals, translations)| < Two32
    ensures ReadMo(Image(originals, translations)) == Some((originals, translations))
  {
    var n := |originals|;
    ImageHeader(originals, translations);
    ReadTableOriginals(originals, translations, n);
    ReadTableTranslations(originals, translations, n);
    assert originals[..n] == originals && translations[..n] == translations;
  }

  /** Each string adds its length plus one NUL to its pool. */
  lemma {:induction false} PoolSize(strs: seq<Bytes>, extra: Bytes)
    ensures |Pool(strs + [extra])| == |Pool(strs)| + |extra| + 1
  {
    assert (strs + [extra])[..|strs|] == strs;
  }
}
