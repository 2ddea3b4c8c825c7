/**
  The PHP string builtins the PO scanner is written with, as functions on
  byte strings: `explode("\n", ...)`, `trim` (default set and a given set),
  `substr($s, $n)`, `stripcslashes`, and reading / printing a decimal
  integer.  Each comes with the property that pins it down, and the
  inverses (`Implode`, `Escape`) that the round-trip lemmas use.
*/
module PhpString {
  import opened ByteString

  // ---------------------------------------------------------------------------
  // explode("\n", $s)

  /** The pieces of `s` between line feeds; `n` line feeds give `n + 1` pieces. */
  function Explode(s: Bytes): (lines: seq<Bytes>)
    ensures |lines| >= 1
    ensures forall i | 0 <= i < |lines| :: LF !in lines[i]
    decreases |s|
  {
    if s == [] then [[]]
    else if s[0] == LF then [[]] + Explode(s[1..])
    else
      var rest := Explode(s[1..]);
      [[s[0]] + rest[0]] + rest[1..]
  }

  /** `implode("\n", $lines)`. */
  function Implode(lines: seq<Bytes>): Bytes
    requires |lines| >= 1
  {
    if |lines| == 1 then lines[0] else lines[0] + [LF] + Implode(lines[1..])
  }

  lemma {:induction false} ExplodeLine(a: Bytes)
    requires LF !in a
    ensures Explode(a) == [a]
    decreases |a|
  {
    if a != [] {
      ExplodeLine(a[1..]);
      assert [a[0]] + a[1..] == a;
    }
  }

  lemma {:induction false} ExplodeBreak(a: Bytes, b: Bytes)
    requires LF !in a
    ensures Explode(a + [LF] + b) == [a] + Explode(b)
    decreases |a|
  {
    if a == [] {
      assert a + [LF] + b == [LF] + b;
      assert ([LF] + b)[1..] == b;
    } else {
      assert (a + [LF] + b)[1..] == a[1..] + [LF] + b;
      ExplodeBreak(a[1..], b);
      assert [a[0]] + a[1..] == a;
    }
  }

  /** Splitting joined lines that hold no line feed gives the lines back. */
  lemma {:induction false} ExplodeImplode(lines: seq<Bytes>)
    requires |lines| >= 1
    requires forall i | 0 <= i < |lines| :: LF !in lines[i]
    ensures Explode(Implode(lines)) == lines
    decreases |lines|
  {
    if |lines| == 1 {
      ExplodeLine(lines[0]);
    } else {
      ExplodeImplode(lines[1..]);
      ExplodeBreak(lines[0], Implode(lines[1..]));
      assert [lines[0]] + lines[1..] == lines;
    }
  }

  // ---------------------------------------------------------------------------
  // trim($s) and trim($s, $chars)

  /** The bytes PHP's `trim` removes by default: " \t\n\r\0\x0B". */
  const Whitespace: set<byte> := {SPACE, TAB, LF, CR, NUL, VT}

  function TrimLeft(s: Bytes, cut: set<byte>): (r: Bytes)
    ensures |r| <= |s| && r == s[|s| - |r|..]
    ensures r == [] || r[0] !in cut
    ensures forall k | 0 <= k < |s| - |r| :: s[k] in cut
    decreases |s|
  {
    if s != [] && s[0] in cut then TrimLeft(s[1..], cut) else s
  }

  function TrimRight(s: Bytes, cut: set<byte>): (r: Bytes)
    ensures |r| <= |s| && r == s[..|r|]
    ensures r == [] || r[|r| - 1] !in cut
    ensures forall k | |r| <= k < |s| :: s[k] in cut
    decreases |s|
  {
    if s != [] && s[|s| - 1] in cut then TrimRight(s[..|s| - 1], cut) else s
  }

  /** `trim($s, $chars)`: drops every byte of `cut` at either end. */
  function TrimSet(s: Bytes, cut: set<byte>): Bytes
  {
    TrimLeft(TrimRight(s, cut), cut)
  }

  /** `trim($line)`. */
  function Trim(s: Bytes): Bytes
  {
    TrimSet(s, Whitespace)
  }

  /** `trim($s, '"')`: every leading and every trailing double quote goes, not one pair. */
  function TrimQuotes(s: Bytes): Bytes
  {
    TrimSet(s, {QUOTE})
  }

  /** A string whose first and last bytes are not cut is left alone by trimming. */
  lemma {:induction false} TrimSetUntouched(s: Bytes, cut: set<byte>)
    requires s != [] && s[0] !in cut && s[|s| - 1] !in cut
    ensures TrimSet(s, cut) == s
  {
  }

  /** A quote-free body between one pair of quotes comes out unchanged. */
  lemma TrimQuotesPair(body: Bytes)
    requires QUOTE !in body
    ensures TrimQuotes([QUOTE] + body + [QUOTE]) == body
  {
    var s := [QUOTE] + body + [QUOTE];
    assert s[..|s| - 1] == [QUOTE] + body;
    if body == [] {
      assert TrimRight(s[..|s| - 1], {QUOTE}) == [];
    } else {
      assert TrimRight(s, {QUOTE}) == TrimRight([QUOTE] + body, {QUOTE});
      assert TrimRight([QUOTE] + body, {QUOTE}) == [QUOTE] + body;
      assert ([QUOTE] + body)[1..] == body;
      assert TrimLeft([QUOTE] + body, {QUOTE}) == TrimLeft(body, {QUOTE});
      assert body[0] in body;
      assert TrimLeft(body, {QUOTE}) == body;
    }
  }

  // ---------------------------------------------------------------------------
  // substr($s, $n) and prefixes

  /** `substr($s, $n)` for `$n >= 0` (PHP 8: empty when `$n` is past the end). */
  function Substr(s: Bytes, n: nat): (r: Bytes)
    ensures n <= |s| ==> r == s[n..]
    ensures n > |s| ==> r == []
  {
    if n <= |s| then s[n..] else []
  }

  /** Dropping `|p|` bytes undoes prepending `p`, and the line starts with `p` exactly when that holds. */
  lemma SubstrAfterPrefix(line: Bytes, p: Bytes)
    ensures StartsWith(line, p) <==> |p| <= |line| && line == p + Substr(line, |p|)
    ensures Substr(p + line, |p|) == line
  {
    assert (p + line)[|p|..] == line;
    if |p| <= |line| {
      assert line == line[..|p|] + line[|p|..];
      if line == p + Substr(line, |p|) {
        assert line[..|p|] == p;
      }
    }
  }

  /** `empty($s)` on a string, taken to mean the empty string (PHP also counts "0"; see README). */
  predicate EmptyString(s: Bytes)
  {
    s == []
  }

  /** `strpos($s, $p) === 0`. */
  predicate StartsWith(s: Bytes, p: Bytes)
  {
    |p| <= |s| && s[..|p|] == p
  }

  // ---------------------------------------------------------------------------
  // stripcslashes

  predicate IsOctal(b: byte) { '0' as byte <= b <= '7' as byte }

  predicate IsHex(b: byte)
  {
    IsDigit(b) || ('a' as byte <= b <= 'f' as byte) || ('A' as byte <= b <= 'F' as byte)
  }

  function HexValue(b: byte): (v: nat)
    requires IsHex(b)
    ensures v < 16
  {
    if IsDigit(b) then (b - '0' as byte) as nat
    else if 'a' as byte <= b <= 'f' as byte then (b - 'a' as byte) as nat + 10
    else (b - 'A' as byte) as nat + 10
  }

  /** How many octal digits open `s`, at most three (the `\ooo` escape). */
  function OctalRun(s: Bytes): (n: nat)
    ensures n <= 3 && n <= |s|
    ensures forall k | 0 <= k < n :: IsOctal(s[k])
  {
    if |s| >= 1 && IsOctal(s[0]) then
      if |s| >= 2 && IsOctal(s[1]) then
        if |s| >= 3 && IsOctal(s[2]) then 3 else 2
      else 1
    else 0
  }

  function OctalDigit(b: byte): nat
    requires IsOctal(b)
  {
    b as int - '0' as int
  }

  function OctalValue(s: Bytes): nat
    requires forall k | 0 <= k < |s| :: IsOctal(s[k])
  {
    if s == [] then 0 else OctalValue(s[..|s| - 1]) * 8 + OctalDigit(s[|s| - 1])
  }

  /** The byte a one-letter escape `\c` stands for; `c` itself when the letter has no meaning. */
  function LetterEscape(c: byte): byte
  {
    if c == 'n' as byte then LF
    else if c == 'r' as byte then CR
    else if c == 'a' as byte then 7
    else if c == 't' as byte then TAB
    else if c == 'v' as byte then VT
    else if c == 'b' as byte then 8
    else if c == 'f' as byte then FF
    else c
  }

  predicate IsLetterEscape(c: byte)
  {
    c in {'n' as byte, 'r' as byte, 'a' as byte, 't' as byte, 'v' as byte, 'b' as byte, 'f' as byte, BACKSLASH}
  }

  /**
    PHP's `stripcslashes`: `\n \r \a \t \v \b \f \\` become their control
    bytes, `\xH` / `\xHH` a hex byte, `\o` .. `\ooo` an octal byte (taken
    modulo 256), any other `\c` the byte `c`; a lone trailing backslash stays.
  */
  function StripCSlashes(s: Bytes): Bytes
    decreases |s|
  {
    if s == [] then []
    else if s[0] != BACKSLASH || |s| == 1 then [s[0]] + StripCSlashes(s[1..])
    else
      var c := s[1];
      if IsLetterEscape(c) then [LetterEscape(c)] + StripCSlashes(s[2..])
      else if c == 'x' as byte && |s| > 2 && IsHex(s[2]) then
        if |s| > 3 && IsHex(s[3]) then [(HexValue(s[2]) * 16 + HexValue(s[3])) as byte] + StripCSlashes(s[4..])
        else [HexValue(s[2]) as byte] + StripCSlashes(s[3..])
      else
        var n := OctalRun(s[1..]);
        if n > 0 then [(OctalValue(s[1..1 + n]) % 256) as byte] + StripCSlashes(s[1 + n..])
        else [c] + StripCSlashes(s[2..])
  }

  /** Text without a backslash passes through unchanged. */
  lemma {:induction false} StripCSlashesPlain(s: Bytes)
    requires BACKSLASH !in s
    ensures StripCSlashes(s) == s
    decreases |s|
  {
    if s != [] {
      StripCSlashesPlain(s[1..]);
      assert [s[0]] + s[1..] == s;
    }
  }

  /** Decoding never lengthens the text. */
  lemma {:induction false} StripCSlashesShrinks(s: Bytes)
    ensures |StripCSlashes(s)| <= |s|
    decreases |s|
  {
    if s == [] {
    } else if s[0] != BACKSLASH || |s| == 1 {
      StripCSlashesShrinks(s[1..]);
    } else {
      var c := s[1];
      if IsLetterEscape(c) {
        StripCSlashesShrinks(s[2..]);
      } else if c == 'x' as byte && |s| > 2 && IsHex(s[2]) {
        if |s| > 3 && IsHex(s[3]) { StripCSlashesShrinks(s[4..]); } else { StripCSlashesShrinks(s[3..]); }
      } else {
        var n := OctalRun(s[1..]);
        if n > 0 { StripCSlashesShrinks(s[1 + n..]); } else { StripCSlashesShrinks(s[2..]); }
      }
    }
  }

  /** The two characters `\` `n` decode to one line feed (byte 0x0A), between plain text. */
  lemma NewlineEscape(a: Bytes, b: Bytes)
    requires BACKSLASH !in a && BACKSLASH !in b
    ensures StripCSlashes(a + [BACKSLASH, 'n' as byte] + b) == a + [LF] + b
  {
    StripCSlashesAppendPlain(a, [BACKSLASH, 'n' as byte] + b);
    var t := [BACKSLASH, 'n' as byte] + b;
    assert t[2..] == b;
    StripCSlashesPlain(b);
    assert a + [BACKSLASH, 'n' as byte] + b == a + t;
  }

  lemma {:induction false} StripCSlashesAppendPlain(a: Bytes, t: Bytes)
    requires BACKSLASH !in a
    ensures StripCSlashes(a + t) == a + StripCSlashes(t)
    decreases |a|
  {
    if a != [] {
      assert (a + t)[0] == a[0] && a[0] in a;
      assert (a + t)[1..] == a[1..] + t;
      assert StripCSlashes(a + t) == [a[0]] + StripCSlashes(a[1..] + t);
      StripCSlashesAppendPlain(a[1..], t);
      assert [a[0]] + a[1..] == a;
    } else {
      assert a + t == t;
    }
  }

  /** How the round-trip writes one byte: `\\`, `\n`, a quote as the octal escape `\042`. */
  function EscapeByte(b: byte): Bytes
  {
    if b == BACKSLASH then [BACKSLASH, BACKSLASH]
    else if b == LF then [BACKSLASH, 'n' as byte]
    else if b == QUOTE then [BACKSLASH, '0' as byte, '4' as byte, '2' as byte]
    else [b]
  }

  /** A C-style escaping of `s` that contains neither a quote nor a line feed. */
  function Escape(s: Bytes): (r: Bytes)
    ensures QUOTE !in r && LF !in r
  {
    if s == [] then [] else EscapeByte(s[0]) + Escape(s[1..])
  }

  lemma EscapeByteDecodes(b: byte, rest: Bytes)
    ensures StripCSlashes(EscapeByte(b) + rest) == [b] + StripCSlashes(rest)
  {
    var t := EscapeByte(b) + rest;
    if b == QUOTE {
      var oct := ['0' as byte, '4' as byte, '2' as byte];
      assert t[1..][..3] == oct;
      assert OctalRun(t[1..]) == 3;
      assert t[1..1 + 3] == oct;
      assert oct[..2] == ['0' as byte, '4' as byte] && oct[..2][..1] == ['0' as byte];
      assert ['0' as byte][..0] == [];
      assert OctalValue(['0' as byte]) == 0;
      assert OctalValue(['0' as byte, '4' as byte]) == 4;
      assert OctalValue(oct) == 34;
      assert t[1 + 3..] == rest;
      assert !IsLetterEscape(t[1]);
    } else if b == BACKSLASH || b == LF {
      assert t[2..] == rest;
    } else {
      assert t[1..] == rest;
    }
  }

  /** `stripcslashes` undoes `Escape`. */
  lemma {:induction false} StripCSlashesEscape(s: Bytes)
    ensures StripCSlashes(Escape(s)) == s
    decreases |s|
  {
    if s != [] {
      EscapeByteDecodes(s[0], Escape(s[1..]));
      StripCSlashesEscape(s[1..]);
      assert [s[0]] + s[1..] == s;
    }
  }

  // ---------------------------------------------------------------------------
  // Decimal integers

  function DigitValue(b: byte): nat
    requires IsDigit(b)
  {
    (b - '0' as byte) as nat
  }

  /** The value of a run of decimal digits, leading zeros allowed (`(int)"007"` is 7). */
  function DigitsValue(ds: Bytes): nat
    requires forall k | 0 <= k < |ds| :: IsDigit(ds[k])
  {
    if ds == [] then 0 else DigitsValue(ds[..|ds| - 1]) * 10 + DigitValue(ds[|ds| - 1])
  }

  /** How PHP prints a non-negative integer: decimal, no leading zero, "0" for zero. */
  function Decimal(n: nat): (r: Bytes)
    ensures |r| >= 1
    ensures forall k | 0 <= k < |r| :: IsDigit(r[k])
    decreases n
  {
    if n < 10 then [('0' as int + n) as byte]
    else Decimal(n / 10) + [('0' as int + n % 10) as byte]
  }

  /** Reading back a printed integer gives the integer. */
  lemma {:induction false} DigitsValueDecimal(n: nat)
    ensures DigitsValue(Decimal(n)) == n
    decreases n
  {
    if n >= 10 {
      DigitsValueDecimal(n / 10);
      var r := Decimal(n);
      assert r[..|r| - 1] == Decimal(n / 10);
    }
  }

  /** A printed integer has no leading zero unless it is zero itself. */
  lemma {:induction false} DecimalNoLeadingZero(n: nat)
    ensures Decimal(n)[0] == '0' as byte <==> n == 0
    decreases n
  {
    if n >= 10 { DecimalNoLeadingZero(n / 10); }
  }

  /** PHP_INT_MAX on a 64-bit build. */
  const PhpIntMax: nat := 0x7fff_ffff_ffff_ffff

  /** `(int)$digits` on a 64-bit build: the value, saturated at PHP_INT_MAX. */
  function IntOfDigits(ds: Bytes): (n: nat)
    requires forall k | 0 <= k < |ds| :: IsDigit(ds[k])
    ensures n <= PhpIntMax
    ensures DigitsValue(ds) <= PhpIntMax ==> n == DigitsValue(ds)
  {
    if DigitsValue(ds) <= PhpIntMax then DigitsValue(ds) else PhpIntMax
  }

  /** The length of the run of decimal digits starting at `from`. */
  function DigitRun(s: Bytes, from: nat): (n: nat)
    requires from <= |s|
    ensures from + n <= |s|
    ensures forall k | from <= k < from + n :: IsDigit(s[k])
    ensures from + n == |s| || !IsDigit(s[from + n])
    decreases |s| - from
  {
    if from < |s| && IsDigit(s[from]) then 1 + DigitRun(s, from + 1) else 0
  }
}
