/**
  How `extract_string` / `homebio_extract_po_string` treat quotes.  Both
  copies remove the surrounding quotes with `trim($line, '"')`, which cuts
  every quote at either end, not one pair.  A translation whose last
  character is a quote is written in a PO file as `\"` just before the
  closing quote; the trim then eats the escaped quote as well and leaves
  a lone backslash.  `ExtractQuoted` is the reading that removes exactly
  the one pair of delimiters, and it undoes the PO escaping for every
  string.
*/
module PoQuote {
  import opened ByteString
  import opened PhpString
  import opened PoScan

  /** The escaping a PO file uses inside quotes: `\\`, `\"` and `\n`. */
  function PoEscapeByte(b: byte): Bytes
  {
    if b == BACKSLASH then [BACKSLASH, BACKSLASH]
    else if b == QUOTE then [BACKSLASH, QUOTE]
    else if b == LF then [BACKSLASH, 'n' as byte]
    else [b]
  }

  function PoEscape(s: Bytes): (r: Bytes)
    ensures LF !in r
  {
    if s == [] then [] else PoEscapeByte(s[0]) + PoEscape(s[1..])
  }

  lemma PoEscapeByteDecodes(b: byte, rest: Bytes)
    ensures StripCSlashes(PoEscapeByte(b) + rest) == [b] + StripCSlashes(rest)
  {
    var t := PoEscapeByte(b) + rest;
    if b == QUOTE {
      assert !IsLetterEscape(t[1]);
      assert OctalRun(t[1..]) == 0;
      assert t[2..] == rest;
    } else if b == BACKSLASH || b == LF {
      assert t[2..] == rest;
    } else {
      assert t[1..] == rest;
    }
  }

  /** `stripcslashes` undoes the PO escaping. */
  lemma {:induction false} StripCSlashesPoEscape(s: Bytes)
    ensures StripCSlashes(PoEscape(s)) == s
    decreases |s|
  {
    if s != [] {
      PoEscapeByteDecodes(s[0], PoEscape(s[1..]));
      StripCSlashesPoEscape(s[1..]);
      assert [s[0]] + s[1..] == s;
    }
  }

  /**
    As written: the translation `a"` is written `msgstr "a\""`; trimming every
    quote leaves `a\`, which decodes to `a\` instead of `a"`.
  */
  lemma TrailingQuoteLost()
    ensures var text := ['a' as byte, QUOTE];
      ExtractString(MsgstrKw + [QUOTE] + PoEscape(text) + [QUOTE], |MsgstrKw|) == ['a' as byte, BACKSLASH]
      && ExtractString(MsgstrKw + [QUOTE] + PoEscape(text) + [QUOTE], |MsgstrKw|) != text
  {
    var text := ['a' as byte, QUOTE];
    EscapedTrailingQuote(text);
    var t := [QUOTE, 'a' as byte, BACKSLASH];
    var quoted := t + [QUOTE, QUOTE];
    assert Substr(MsgstrKw + [QUOTE] + PoEscape(text) + [QUOTE], |MsgstrKw|) == quoted;
    TrimsEscapedQuote(t, quoted);
    LoneBackslashKept(['a' as byte, BACKSLASH]);
  }

  lemma EscapedTrailingQuote(text: Bytes)
    requires text == ['a' as byte, QUOTE]
    ensures PoEscape(text) == ['a' as byte, BACKSLASH, QUOTE]
  {
    assert text[1..][1..] == [];
    assert PoEscape(text[1..]) == [BACKSLASH, QUOTE];
  }

  lemma TrimsEscapedQuote(t: Bytes, quoted: Bytes)
    requires t == [QUOTE, 'a' as byte, BACKSLASH] && quoted == t + [QUOTE, QUOTE]
    ensures TrimQuotes(quoted) == ['a' as byte, BACKSLASH]
  {
    var rest := ['a' as byte, BACKSLASH];
    TrimTwoQuotes(t, quoted);
    assert t == [QUOTE] + rest;
    TrimLeftFirst(rest, {QUOTE}, QUOTE);
  }

  /** Both closing quotes go, the first of them being the escaped one. */
  lemma TrimTwoQuotes(t: Bytes, quoted: Bytes)
    requires t != [] && t[|t| - 1] != QUOTE && quoted == t + [QUOTE, QUOTE]
    ensures TrimRight(quoted, {QUOTE}) == t
  {
    assert quoted[..|quoted| - 1] == t + [QUOTE];
    assert (t + [QUOTE])[..|t|] == t;
  }

  lemma LoneBackslashKept(s: Bytes)
    requires s == ['a' as byte, BACKSLASH]
    ensures StripCSlashes(s) == s
  {
    assert s[1..] == [BACKSLASH];
    assert StripCSlashes(s[1..]) == [BACKSLASH] by { assert s[1..][1..] == []; }
  }

  /** The text after the keyword without exactly one pair of enclosing quotes, when both are there. */
  function Unquoted(t: Bytes): (r: Bytes)
    ensures |t| >= 2 && t[0] == QUOTE && t[|t| - 1] == QUOTE ==> r == t[1..|t| - 1]
    ensures !(|t| >= 2 && t[0] == QUOTE && t[|t| - 1] == QUOTE) ==> r == t
  {
    if |t| >= 2 && t[0] == QUOTE && t[|t| - 1] == QUOTE then t[1..|t| - 1] else t
  }

  /**
    Corrected: drop exactly one pair of delimiting quotes (when both are
    there) before decoding.
  */
  function ExtractQuoted(line: Bytes, prefixLength: nat): Bytes
  {
    StripCSlashes(Unquoted(Substr(line, prefixLength)))
  }

  lemma SubstrQuoted(prefix: Bytes, body: Bytes)
    ensures Substr(prefix + [QUOTE] + body + [QUOTE], |prefix|) == [QUOTE] + body + [QUOTE]
  {
    assert prefix + [QUOTE] + body + [QUOTE] == prefix + ([QUOTE] + body + [QUOTE]);
  }

  lemma UnquotedPair(body: Bytes)
    ensures Unquoted([QUOTE] + body + [QUOTE]) == body
  {
    var quoted := [QUOTE] + body + [QUOTE];
    assert quoted[1..|quoted| - 1] == body;
  }

  /** Every string comes back from its escaped, quoted form, a trailing quote included. */
  lemma ExtractQuotedRoundTrip(prefix: Bytes, s: Bytes)
    ensures ExtractQuoted(prefix + [QUOTE] + PoEscape(s) + [QUOTE], |prefix|) == s
  {
    var e := PoEscape(s);
    SubstrQuoted(prefix, e);
    UnquotedPair(e);
    StripCSlashesPoEscape(s);
  }

  /** A body that neither starts nor ends with a quote loses exactly the enclosing pair to `trim`. */
  lemma TrimOnePair(body: Bytes)
    requires body != [] ==> body[0] != QUOTE && body[|body| - 1] != QUOTE
    ensures TrimQuotes([QUOTE] + body + [QUOTE]) == body
  {
    if body == [] {
      TrimQuotesEmptyPair();
      return;
    }
    var front := [QUOTE] + body;
    assert front[|front| - 1] == body[|body| - 1];
    TrimRightLast(front, {QUOTE}, QUOTE);
    TrimLeftFirst(body, {QUOTE}, QUOTE);
  }

  lemma TrimRightLast(t: Bytes, cut: set<byte>, b: byte)
    requires t != [] && t[|t| - 1] !in cut && b in cut
    ensures TrimRight(t + [b], cut) == t
  {
    assert (t + [b])[..|t|] == t;
  }

  lemma TrimLeftFirst(t: Bytes, cut: set<byte>, b: byte)
    requires t != [] && t[0] !in cut && b in cut
    ensures TrimLeft([b] + t, cut) == t
  {
    assert ([b] + t)[1..] == t;
  }

  /** `""` trims to nothing, as one pair would. */
  lemma TrimQuotesEmptyPair()
    ensures TrimQuotes([QUOTE, QUOTE]) == []
  {
  }

  /**
    Where the body neither starts nor ends with a quote, the corrected
    reading agrees with the written one; the empty body `""` included.
  */
  lemma ExtractQuotedAgrees(prefix: Bytes, body: Bytes)
    requires body != [] ==> body[0] != QUOTE && body[|body| - 1] != QUOTE
    ensures ExtractQuoted(prefix + [QUOTE] + body + [QUOTE], |prefix|) == ExtractString(prefix + [QUOTE] + body + [QUOTE], |prefix|)
  {
    SubstrQuoted(prefix, body);
    UnquotedPair(body);
    TrimOnePair(body);
  }

  /**
    On text written with the octal quote escape, as the round-trip lemmas
    write it, the corrected reading changes nothing: no quote is emitted.
  */
  lemma EscapedAgrees(keyword: Bytes, s: Bytes)
    ensures ExtractQuoted(keyword + [QUOTE] + Escape(s) + [QUOTE], |keyword|)
         == ExtractString(keyword + [QUOTE] + Escape(s) + [QUOTE], |keyword|)
  {
    ExtractQuotedAgrees(keyword, Escape(s));
  }
}
