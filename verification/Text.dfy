/**
 Strings as text (gdk_atoms.c: GDKstrFromStr, strFromStr, escapedStrlen, escapedStr, strToStr):
 escapes, quotes and UTF-8. Bytes are numbers below 256, and the source's operations on bits
 are written as the arithmetic that they are.
 */
module Text {

  type byte = x: int | 0 <= x < 256

  const QUOTE: byte := 34

  const BACKSLASH: byte := 92

  // ------------------------------------------------------------------------- UTF-8

  /** The length of the sequence that starts with byte c, or 0 (section 2 of RFC 2279). */
  function Lead(c: byte): nat {
    if c < 0x80 then 1
    else if 0xC0 <= c < 0xE0 then 2
    else if 0xE0 <= c < 0xF0 then 3
    else if 0xF0 <= c < 0xF8 then 4
    else if 0xF8 <= c < 0xFC then 5
    else if 0xFC <= c < 0xFE then 6
    else 0
  }

  predicate Follow(c: byte) { 0x80 <= c < 0xC0 }

  /** What the first byte contributes: its bits after the length marker. */
  function LeadBits(c: byte): nat {
    match Lead(c)
    case 1 => c
    case 2 => c - 0xC0
    case 3 => c - 0xE0
    case 4 => c - 0xF0
    case 5 => c - 0xF8
    case 6 => c - 0xFC
    case _ => 0
  }

  /** The code point of a (part of a) sequence. */
  function Code(s: seq<byte>): nat
    requires s != []
  {
    if |s| == 1 then LeadBits(s[0]) else Code(s[..|s| - 1]) * 64 + s[|s| - 1] % 64
  }

  /** The first code point that needs n bytes. */
  function Least(n: nat): nat {
    match n
    case 2 => 0x80
    case 3 => 0x800
    case 4 => 0x1_0000
    case 5 => 0x20_0000
    case 6 => 0x400_0000
    case _ => 0
  }

  /** s is one character, in its shortest form. */
  predicate IsChar(s: seq<byte>) {
    s != [] && Lead(s[0]) == |s| && (forall i :: 1 <= i < |s| ==> Follow(s[i])) && Code(s) >= Least(|s|)
  }

  /** s is a sequence of characters. */
  predicate Utf8(s: seq<byte>) {
    s == [] || (0 < Lead(s[0]) <= |s| && IsChar(s[..Lead(s[0])]) && Utf8(s[Lead(s[0])..]))
  }

  lemma {:induction false} Utf8Append(s: seq<byte>, t: seq<byte>)
    requires Utf8(s)
    ensures Utf8(s + t) <==> Utf8(t)
  {
    if s == [] {
      assert s + t == t;
    } else {
      var k := Lead(s[0]);
      Utf8Append(s[k..], t);
      assert (s + t)[..k] == s[..k] && (s + t)[k..] == s[k..] + t;
    }
  }

  lemma {:induction false} OneChar(s: seq<byte>)
    requires IsChar(s)
    ensures Utf8(s)
  {
    assert s[..|s|] == s && s[|s|..] == [];
  }

  // ---------------------------------------------------- the checker of GDKstrFromStr

  /** The bits of utf8chkmsk[n], for n bytes after the first: mask = (Size(n) - 1) << Shift(n). */
  function Shift(n: nat): nat {
    match n
    case 1 => 0x80
    case 2 => 0x800
    case 3 => 0x1_0000
    case 4 => 0x20_0000
    case 5 => 0x400_0000
    case _ => 1
  }

  function Size(n: nat): (r: nat)
    ensures r > 0
  {
    if n == 0 then 128 else if n == 1 then 16 else 32
  }

  /** (utf8char & utf8chkmsk[n]) == 0 */
  predicate Masked(u: nat, n: nat) { u / Shift(n) % Size(n) == 0 }

  /** A number that fits in n + 1 bytes has bits in the mask iff it needs them. */
  lemma MaskExact(u: nat, n: nat)
    requires 1 <= n <= 5 && u < Shift(n) * Size(n)
    ensures Masked(u, n) <==> u < Least(n + 1)
  {
    var s := Shift(n);
    assert s == Least(n + 1);
    QuotientZero(u, s, Size(n));
  }

  lemma QuotientZero(u: nat, s: nat, k: nat)
    requires s > 0 && k > 0 && u < s * k
    ensures u / s % k == 0 <==> u < s
  {
    var q := u / s;
    Quotient(u, s, k);
    SmallRest(q, k);
  }

  lemma Quotient(u: nat, s: nat, k: nat)
    requires s > 0 && u < s * k
    ensures u / s < k && (u / s == 0 <==> u < s)
  {
    var q, r := u / s, u % s;
    var p := q * s;
    assert u == p + r;
    if q >= k {
      Times(k, q, s);
    }
    if q >= 1 {
      Times(1, q, s);
    }
  }

  lemma SmallRest(q: nat, k: nat)
    requires q < k
    ensures q % k == q
  {
  }

  lemma Times(a: nat, b: nat, s: nat)
    requires a <= b
    ensures a * s <= b * s
  {
  }

  /** Bytes of a character that has been begun: n are missing. */
  ghost predicate Begun(part: seq<byte>, n: nat) {
    && (n == 0 <==> part == [])
    && (part != [] ==> Lead(part[0]) == |part| + n && |part| > 0 && (forall i :: 1 <= i < |part| ==> Follow(part[i])))
  }

  lemma {:induction false} CodeBound(s: seq<byte>)
    requires s != [] && Lead(s[0]) > 1
    ensures Code(s) < LeadSize(Lead(s[0])) * Sixes(|s| - 1)
  {
    if |s| > 1 {
      CodeBound(s[..|s| - 1]);
      var a, b, c := LeadSize(Lead(s[0])), Sixes(|s| - 2), Code(s[..|s| - 1]);
      assert a * (64 * b) == 64 * (a * b);
    }
  }

  /** How many values the bits of the first byte can have. */
  function LeadSize(n: nat): nat {
    match n
    case 2 => 32
    case 3 => 16
    case 4 => 8
    case 5 => 4
    case 6 => 2
    case _ => 128
  }

  function Sixes(k: nat): nat { if k == 0 then 1 else 64 * Sixes(k - 1) }

  lemma CharBound(s: seq<byte>)
    requires s != [] && 2 <= Lead(s[0]) == |s| <= 6
    ensures Code(s) < Shift(|s| - 1) * Size(|s| - 1)
  {
    CodeBound(s);
    assert Sixes(1) == 64 && Sixes(2) == 4096 && Sixes(3) == 0x4_0000 && Sixes(4) == 0x100_0000
      && Sixes(5) == 0x4000_0000;
  }

  /** The number of one-bits after the first, for c >= 0x80. */
  method CountFollow(c: byte) returns (n: nat)
    requires c >= 0x80
    ensures n == (if c < 0xC0 then 0 else if c < 0xE0 then 1 else if c < 0xF0 then 2 else if c < 0xF8 then 3
      else if c < 0xFC then 4 else if c < 0xFE then 5 else if c < 0xFF then 6 else 7)
  {
    n := 0;
    var m: nat := 0x40;
    while m > 0 && c / m % 2 == 1
      invariant n <= 7 && m == (if n == 0 then 64 else if n == 1 then 32 else if n == 2 then 16 else if n == 3 then 8
        else if n == 4 then 4 else if n == 5 then 2 else if n == 6 then 1 else 0)
      invariant c >= 256 - (if m > 0 then 2 * m else 1)
      decreases 7 - n
    {
      n := n + 1;
      m := m / 2;
    }
  }

  /** What has been read is complete characters and the beginning of one more. */
  ghost predicate Reading(good: seq<byte>, part: seq<byte>, n: nat, k: nat, u: nat) {
    Utf8(good) && Begun(part, n) && (part != [] ==> 1 <= k <= 5 && k == Lead(part[0]) - 1 && u == Code(part))
  }

  /**
   The check of one byte: n bytes are still to come of a character with k bytes after the
   first, whose code point so far is u. If it fails, no continuation is UTF-8.
   */
  method CheckByte(c: byte, n: nat, k: nat, u: nat, ghost good: seq<byte>, ghost part: seq<byte>)
    returns (ok: bool, n': nat, k': nat, u': nat, ghost good': seq<byte>, ghost part': seq<byte>)
    requires Reading(good, part, n, k, u)
    ensures ok ==> Reading(good', part', n', k', u') && good' + part' == good + part + [c]
    ensures !ok ==> forall rest :: !Utf8(good + part + [c] + rest)
  {
    hide Utf8, Masked, Code, Lead;
    ok, n', k', u', good', part' := true, n, k, u, good, part;
    if n > 0 {
      if c / 64 != 2 {
        NotFollow(good, part, n, c);
        return false, n, k, u, good, part;
      }
      u' := u * 64 + c % 64;
      n' := n - 1;
      FollowStep(good, part, n, k, u, c);
      part' := part + [c];
      if n' == 0 {
        if Masked(u', k) {
          return false, n, k, u, good, part;
        }
        good', part' := good + part', [];
      }
    } else if c >= 0x80 {
      var m := CountFollow(c);
      if m == 0 || m >= 6 {
        BadLead(good, c);
        return false, n, k, u, good, part;
      }
      n', k' := m, m;
      u' := c % (if m == 1 then 32 else if m == 2 then 16 else if m == 3 then 8 else if m == 4 then 4 else 2);
      part' := [c];
      LeadStep(c, m, u');
    } else {
      AsciiStep(good, c);
      good' := good + [c];
    }
  }

  lemma FollowAt(t: seq<byte>, i: nat)
    requires t != [] && Utf8(t) && 1 <= i < Lead(t[0])
    ensures i < |t| && Follow(t[i])
  {
    assert t[..Lead(t[0])][i] == t[i];
  }

  lemma NotFollow(good: seq<byte>, part: seq<byte>, n: nat, c: byte)
    requires Utf8(good) && Begun(part, n) && n > 0 && !Follow(c)
    ensures forall rest :: !Utf8(good + part + [c] + rest)
  {
    forall rest ensures !Utf8(good + part + [c] + rest) {
      var t := part + [c] + rest;
      Utf8Append(good, t);
      assert good + part + [c] + rest == good + t;
      if Utf8(t) {
        FollowAt(t, |part|);
      }
    }
  }

  lemma FollowStep(good: seq<byte>, part: seq<byte>, n: nat, k: nat, u: nat, c: byte)
    requires Reading(good, part, n, k, u) && n > 0 && Follow(c)
    ensures Code(part + [c]) == u * 64 + c % 64
    ensures n > 1 ==> Reading(good, part + [c], n - 1, k, u * 64 + c % 64)
    ensures n == 1 && !Masked(u * 64 + c % 64, k) ==> Utf8(good + (part + [c]))
    ensures n == 1 && Masked(u * 64 + c % 64, k) ==> forall rest :: !Utf8(good + part + [c] + rest)
  {
    var s := part + [c];
    assert s[..|part|] == part;
    if n == 1 {
      CharBound(s);
      MaskExact(Code(s), k);
      if !Masked(Code(s), k) {
        OneChar(s);
        Utf8Append(good, s);
      } else {
        TooLong(good, part, c);
      }
    }
  }

  lemma TooLong(good: seq<byte>, part: seq<byte>, c: byte)
    requires Utf8(good) && part != [] && Lead(part[0]) == |part| + 1 && Code(part + [c]) < Least(|part| + 1)
    ensures forall rest :: !Utf8(good + part + [c] + rest)
  {
    forall rest ensures !Utf8(good + part + [c] + rest) {
      var t := part + [c] + rest;
      Utf8Append(good, t);
      assert good + part + [c] + rest == good + t;
      assert t[..|part| + 1] == part + [c];
    }
  }

  lemma BadLead(good: seq<byte>, c: byte)
    requires Utf8(good) && (0x80 <= c < 0xC0 || 0xFE <= c)
    ensures forall rest :: !Utf8(good + [] + [c] + rest)
  {
    forall rest ensures !Utf8(good + [] + [c] + rest) {
      Utf8Append(good, [c] + rest);
      assert good + [] + [c] + rest == good + ([c] + rest);
    }
  }

  lemma LeadStep(c: byte, m: nat, u: nat)
    requires 0xC0 <= c < 0xFE && m ==
      (if c < 0xE0 then 1 else if c < 0xF0 then 2 else if c < 0xF8 then 3 else if c < 0xFC then 4 else 5)
    requires u == c % (if m == 1 then 32 else if m == 2 then 16 else if m == 3 then 8 else if m == 4 then 4 else 2)
    ensures Lead(c) == m + 1 && Code([c]) == u && Begun([c], m)
  {
  }

  lemma AsciiStep(good: seq<byte>, c: byte)
    requires Utf8(good) && c < 0x80
    ensures Utf8(good + [c])
  {
    OneChar([c]);
    Utf8Append(good, [c]);
  }

  // ---------------------------------------------------------------------- escapes

  function At(src: seq<byte>, i: nat): byte { if i < |src| then src[i] else 0 }

  predicate Octal(c: byte) { 48 <= c <= 55 }

  predicate Hex(c: byte) { 48 <= c <= 57 || 65 <= c <= 70 || 97 <= c <= 102 }

  function HexValue(c: byte): (r: nat)
    requires Hex(c)
    ensures r < 16
  {
    if c <= 57 then c - 48 else if c <= 70 then c - 55 else c - 87
  }

  /** The byte that the escape at i, after its backslash, stands for, and where the text goes on. */
  function Escape(src: seq<byte>, i: nat): (byte, nat) {
    var d := At(src, i);
    if Octal(d) then
      if Octal(At(src, i + 1)) then
        var two := (d - 48) * 8 + (At(src, i + 1) - 48);
        if Octal(At(src, i + 2)) then ((two * 8 + (At(src, i + 2) - 48)) % 256, i + 3) else (two, i + 2)
      else (d - 48, i + 1)
    else if d == 120 then
      if Hex(At(src, i + 1)) then
        if Hex(At(src, i + 2)) then (HexValue(At(src, i + 1)) * 16 + HexValue(At(src, i + 2)), i + 3)
        else (HexValue(At(src, i + 1)), i + 2)
      else (120, i + 1)
    else if d == 97 then (7, i + 1)
    else if d == 98 then (8, i + 1)
    else if d == 102 then (12, i + 1)
    else if d == 110 then (10, i + 1)
    else if d == 114 then (13, i + 1)
    else if d == 116 then (9, i + 1)
    else if d == 0 then (BACKSLASH, i + 1)
    else (d, i + 1)
  }

  /** The bytes that the text from i up to len stands for. */
  function Decoded(src: seq<byte>, i: nat, len: nat): seq<byte>
    decreases len - i
  {
    if i >= len then []
    else if At(src, i) == BACKSLASH then EscapeFirst(src, i + 1, len)
    else [At(src, i)] + Decoded(src, i + 1, len)
  }

  /** The same, after a backslash. */
  function EscapeFirst(src: seq<byte>, i: nat, len: nat): seq<byte>
    requires i > 0
    decreases len - i, 1
  {
    var (c, next) := Escape(src, i);
    [c] + if next < len then Decoded(src, next, len) else []
  }

  // ------------------------------------------------------ what an escape stands for

  const DIGITS: string := "0123456789abcdef"

  const CAPITALS: string := "0123456789ABCDEF"

  /** The letters of the escapes \a, \b, \t, \n, \f and \r, and the codes of what they stand for. */
  const LETTERS: string := "abtnfr"

  const CODES: seq<byte> := [7, 8, 9, 10, 12, 13]

  /** Byte c is digit d, below 16. */
  ghost predicate IsDigit(c: byte, d: nat) {
    d < 16 && (c == DIGITS[d] as int || c == CAPITALS[d] as int)
  }

  ghost predicate SomeDigit(c: byte, base: nat) { exists d: nat :: d < base && IsDigit(c, d) }

  ghost predicate SomeLetter(c: byte) { exists k :: 0 <= k < |LETTERS| && c == LETTERS[k] as int }

  lemma HexIsDigit(c: byte)
    ensures Hex(c) <==> SomeDigit(c, 16)
    ensures Octal(c) <==> SomeDigit(c, 8)
  {
    if Hex(c) {
      assert IsDigit(c, HexValue(c));
    }
    if Octal(c) {
      assert IsDigit(c, c - 48);
    }
    if SomeDigit(c, 16) {
      var d: nat :| d < 16 && IsDigit(c, d);
      DigitHex(c, d);
    }
    if SomeDigit(c, 8) {
      var d: nat :| d < 8 && IsDigit(c, d);
      DigitHex(c, d);
    }
  }

  lemma DigitHex(c: byte, d: nat)
    requires IsDigit(c, d)
    ensures Hex(c) && HexValue(c) == d && (Octal(c) <==> d < 8)
  {
  }

  /** \x and two digits, in either case of letters. */
  lemma HexEscape(src: seq<byte>, i: nat, c: byte)
    requires At(src, i) == 'x' as int && IsDigit(At(src, i + 1), c / 16) && IsDigit(At(src, i + 2), c % 16)
    ensures Escape(src, i) == (c, i + 3)
  {
    hide IsDigit;
    DigitHex(At(src, i + 1), c / 16);
    DigitHex(At(src, i + 2), c % 16);
  }

  /** \x and one digit, or none. */
  lemma ShortHexEscape(src: seq<byte>, i: nat, d: nat)
    requires At(src, i) == 'x' as int
    ensures IsDigit(At(src, i + 1), d) && !SomeDigit(At(src, i + 2), 16) ==> Escape(src, i) == (d, i + 2)
    ensures !SomeDigit(At(src, i + 1), 16) ==> Escape(src, i) == ('x' as int, i + 1)
  {
    hide IsDigit, SomeDigit;
    HexIsDigit(At(src, i + 1));
    HexIsDigit(At(src, i + 2));
    if IsDigit(At(src, i + 1), d) {
      DigitHex(At(src, i + 1), d);
    }
  }

  /** One, two and three octal digits. */
  lemma OctalEscapes(src: seq<byte>, i: nat, a: nat, b: nat, c: nat)
    requires a < 8 && b < 8 && c < 8 && IsDigit(At(src, i), a)
    ensures !SomeDigit(At(src, i + 1), 8) ==> Escape(src, i) == (a, i + 1)
    ensures IsDigit(At(src, i + 1), b) && !SomeDigit(At(src, i + 2), 8) ==> Escape(src, i) == (8 * a + b, i + 2)
    ensures IsDigit(At(src, i + 1), b) && IsDigit(At(src, i + 2), c) ==>
      Escape(src, i) == ((64 * a + 8 * b + c) % 256, i + 3)
  {
    hide IsDigit, SomeDigit;
    HexIsDigit(At(src, i + 1));
    HexIsDigit(At(src, i + 2));
    OctalDigit(At(src, i), a);
    if IsDigit(At(src, i + 1), b) {
      OctalDigit(At(src, i + 1), b);
    }
    if IsDigit(At(src, i + 2), c) {
      OctalDigit(At(src, i + 2), c);
    }
  }

  lemma OctalDigit(c: byte, d: nat)
    requires IsDigit(c, d) && d < 8
    ensures Octal(c) && c == 48 + d
  {
  }

  /** The letters stand for their control characters, and all else for itself; a final backslash is one. */
  lemma LetterEscapes(src: seq<byte>, i: nat)
    ensures forall k :: 0 <= k < |LETTERS| && At(src, i) == LETTERS[k] as int ==> Escape(src, i) == (CODES[k], i + 1)
    ensures At(src, i) == 0 ==> Escape(src, i) == (BACKSLASH, i + 1)
    ensures
      var d := At(src, i);
      d != 0 && d != 'x' as int && !SomeDigit(d, 8) && !SomeLetter(d) ==> Escape(src, i) == (d, i + 1)
  {
    hide IsDigit, SomeDigit;
    HexIsDigit(At(src, i));
    assert LETTERS[0] == 'a' && LETTERS[1] == 'b' && LETTERS[2] == 't';
    assert LETTERS[3] == 'n' && LETTERS[4] == 'f' && LETTERS[5] == 'r';
  }

  /** The text t writes every byte of s as \x and two digits. */
  ghost predicate HexText(s: seq<byte>, t: seq<byte>) {
    |t| == 4 * |s| && forall k :: 0 <= k < |s| ==> HexAt(s, t, k)
  }

  ghost predicate HexAt(s: seq<byte>, t: seq<byte>, k: nat)
    requires k < |s| && |t| == 4 * |s|
  {
    t[4 * k] == BACKSLASH && t[4 * k + 1] == 'x' as int
      && IsDigit(t[4 * k + 2], s[k] / 16) && IsDigit(t[4 * k + 3], s[k] % 16)
  }

  /** Any bytes can be written in hexadecimal, and are read back. */
  lemma {:induction false} HexDecoded(s: seq<byte>, t: seq<byte>, k: nat)
    requires HexText(s, t) && k <= |s|
    ensures Decoded(t, 4 * k, |t|) == s[k..]
    decreases |s| - k
  {
    hide IsDigit, Escape, Decoded, EscapeFirst;
    if k == |s| {
      DecodedEnd(t, 4 * k, |t|);
    } else {
      assert HexAt(s, t, k);
      HexEscape(t, 4 * k + 1, s[k]);
      DecodedStep(t, 4 * k, |t|);
      EscapeStep(t, 4 * k + 1, |t|);
      HexDecoded(s, t, k + 1);
    }
  }

  /** The text of len bytes is in a C string, where it need not be the last part. */
  predicate Terminated(src: seq<byte>, len: nat) { len < |src| && 0 in src[len..] }

  lemma EscapeLength(src: seq<byte>, i: nat)
    ensures i < Escape(src, i).1 <= i + 3
  {
  }

  predicate Ends(src: seq<byte>, len: nat) { len < |src| && (src[len] == QUOTE || src[len] == 0) }

  lemma EscapeStays(src: seq<byte>, i: nat, len: nat)
    requires Ends(src, len) && i <= len
    ensures i < Escape(src, i).1 <= len + 1 && (i < len ==> Escape(src, i).1 <= len)
  {
  }

  lemma DecodedStep(src: seq<byte>, i: nat, len: nat)
    requires i < len
    ensures Decoded(src, i, len) == if At(src, i) == BACKSLASH then EscapeFirst(src, i + 1, len)
      else [At(src, i)] + Decoded(src, i + 1, len)
  {
  }

  lemma EscapeStep(src: seq<byte>, i: nat, len: nat)
    requires i > 0
    ensures EscapeFirst(src, i, len) == [Escape(src, i).0] + Decoded(src, Escape(src, i).1, len)
  {
    hide Escape;
  }

  lemma DecodedEnd(src: seq<byte>, i: nat, len: nat)
    requires i >= len
    ensures Decoded(src, i, len) == []
  {
  }

  lemma LengthLeft(all: seq<byte>, before: seq<byte>, c: byte, rest: seq<byte>)
    requires all == before + [c] + rest
    ensures |before| < |all|
  {
  }

  lemma Incomplete(good: seq<byte>, part: seq<byte>, n: nat)
    requires Utf8(good) && Begun(part, n)
    ensures Utf8(good + part) <==> n == 0
  {
    Utf8Append(good, part);
  }

  /**
   GDKstrFromStr: the text of len bytes is unescaped into dst, which must have room for it and
   a final zero. It is accepted iff the result is UTF-8. An escape that begins inside the text may
   end behind it.
   */
  method StrFromText(dst: array<byte>, src: seq<byte>, len: nat) returns (ok: bool)
    requires Terminated(src, len) && |Decoded(src, 0, len)| < dst.Length
    modifies dst
    ensures ok <==> Utf8(Decoded(src, 0, len))
    ensures ok ==> var k := |Decoded(src, 0, len)|; dst[..k] == Decoded(src, 0, len) && dst[k] == 0
  {
    hide Utf8, Reading, Escape, Decoded, EscapeFirst, At, Terminated;
    ghost var all := Decoded(src, 0, len);
    ghost var good: seq<byte>, part: seq<byte> := [], [];
    var cur, escaped, n, k, u, p := 0, false, 0, 0, 0, 0;
    StartReading();
    while cur < len || escaped
      invariant cur <= len + 3 && (escaped ==> 0 < cur <= len) && p < dst.Length
      invariant all == dst[..p] + (if escaped then EscapeFirst(src, cur, len) else Decoded(src, cur, len))
      invariant Reading(good, part, n, k, u) && good + part == dst[..p]
      decreases len + 3 - cur
    {
      var c := At(src, cur);
      if escaped {
        EscapeLength(src, cur);
        EscapeStep(src, cur, len);
        var e := Escape(src, cur);
        c := e.0;
        cur := e.1;
        escaped := false;
      } else {
        DecodedStep(src, cur, len);
        cur := cur + 1;
        if c == BACKSLASH {
          escaped := true;
          continue;
        }
      }
      ghost var before := dst[..p];
      assert all == (before + [c]) + Decoded(src, cur, len);
      LengthLeft(all, before, c, Decoded(src, cur, len));
      ghost var good', part';
      var fine;
      fine, n, k, u, good', part' := CheckByte(c, n, k, u, good, part);
      if !fine {
        assert all == good + part + [c] + Decoded(src, cur, len);
        return false;
      }
      good, part := good', part';
      dst[p] := c;
      p := p + 1;
      assert dst[..p] == before + [c];
    }
    DecodedEnd(src, cur, len);
    assert all == dst[..p];
    EndReading(good, part, n, k, u);
    if n > 0 {
      return false;
    }
    dst[p] := 0;
    assert dst[..p] == all;
    ok := true;
  }

  lemma StartReading()
    ensures Reading([], [], 0, 0, 0)
  {
  }

  lemma EndReading(good: seq<byte>, part: seq<byte>, n: nat, k: nat, u: nat)
    requires Reading(good, part, n, k, u)
    ensures Utf8(good + part) <==> n == 0
  {
    Incomplete(good, part, n);
  }

  /** Text without a backslash stands for itself. */
  lemma {:induction false} PlainDecoded(src: seq<byte>, i: nat, len: nat)
    requires i <= len <= |src| && forall j :: i <= j < len ==> src[j] != BACKSLASH
    ensures Decoded(src, i, len) == src[i..len]
    decreases len - i
  {
    hide Escape, EscapeFirst;
    if i < len {
      PlainDecoded(src, i + 1, len);
      assert src[i..len] == [src[i]] + src[i + 1..len];
    }
  }

  // ---------------------------------------------------------------------- printing

  predicate Printable(c: byte) { 32 <= c <= 126 || c >= 128 }

  /** A control character U+0080 to U+009F starts at i. */
  predicate ControlPair(s: seq<byte>, i: nat) { i + 1 < |s| && s[i] == 0xC2 && 0x80 <= s[i + 1] <= 0x9F }

  function OctalEscape(c: byte): (r: seq<byte>)
    ensures |r| == 4
  {
    [BACKSLASH, 48 + c / 64, 48 + c / 8 % 8, 48 + c % 8]
  }

  /** How escapedStr writes byte i of s. */
  function Piece(s: seq<byte>, i: nat): (r: seq<byte>)
    requires i < |s|
    ensures 0 < |r| <= 4
  {
    if s[i] == 9 then [BACKSLASH, 116]
    else if s[i] == 10 then [BACKSLASH, 110]
    else if s[i] == BACKSLASH then [BACKSLASH, BACKSLASH]
    else if s[i] == QUOTE then [BACKSLASH, QUOTE]
    else if !Printable(s[i]) || ControlPair(s, i) || (i > 0 && ControlPair(s, i - 1)) then OctalEscape(s[i])
    else [s[i]]
  }

  /** The escaped text from byte i on. */
  function Escaped(s: seq<byte>, i: nat): seq<byte>
    decreases |s| - i
  {
    if i >= |s| then [] else Piece(s, i) + Escaped(s, i + 1)
  }

  /** A control character starts at j: U+0000 to U+001F, U+007F to U+009F. */
  ghost predicate Control(t: seq<byte>, j: nat)
    requires j < |t|
  {
    t[j] < 32 || t[j] == 127 || (j + 1 < |t| && t[j] == 0xC2 && 0x80 <= t[j + 1] <= 0x9F)
  }

  /** What escapedStr writes has no control characters. */
  lemma {:induction false} EscapedClean(s: seq<byte>, i: nat)
    requires i < |s|
    ensures Escaped(s, i) != [] && (Escaped(s, i)[0] >= 0x80 ==> Escaped(s, i)[0] == s[i])
    ensures forall j :: 0 <= j < |Escaped(s, i)| ==> !Control(Escaped(s, i), j)
    decreases |s| - i
  {
    var p, t := Piece(s, i), Escaped(s, i);
    PieceBytes(s, i);
    if i + 1 < |s| {
      EscapedClean(s, i + 1);
      var rest := Escaped(s, i + 1);
      assert t == p + rest;
      forall j | 0 <= j < |t| ensures !Control(t, j) {
        assert j >= |p| ==> t[j] == rest[j - |p|] && !Control(rest, j - |p|);
      }
    } else {
      assert t == p;
    }
  }

  lemma PieceBytes(s: seq<byte>, i: nat)
    requires i < |s|
    ensures forall j :: 0 <= j < |Piece(s, i)| ==> 32 <= Piece(s, i)[j] != 127
    ensures forall j :: 0 <= j < |Piece(s, i)| && Piece(s, i)[j] >= 0x80 ==>
      Piece(s, i) == [s[i]] && !ControlPair(s, i) && (i > 0 ==> !ControlPair(s, i - 1))
  {
  }

  /** Text without control characters, quotes and backslashes is written as it is. */
  lemma {:induction false} PlainEscaped(s: seq<byte>, i: nat)
    requires i <= |s| && forall j :: 0 <= j < |s| ==> !Control(s, j) && s[j] != QUOTE && s[j] != BACKSLASH
    ensures Escaped(s, i) == s[i..]
    decreases |s| - i
  {
    if i < |s| {
      assert !Control(s, i) && (i > 0 ==> !Control(s, i - 1));
      PlainEscaped(s, i + 1);
    }
  }

  /** escapedStrlen: the two bytes of a control character are counted as 7 and 1. */
  method EscapedLength(s: seq<byte>) returns (sz: nat)
    ensures sz == |Escaped(s, 0)|
  {
    sz := 0;
    for end := 0 to |s|
      invariant sz + |Escaped(s, end)| == |Escaped(s, 0)| + (if end > 0 && ControlPair(s, end - 1) then 3 else 0)
    {
      if s[end] == 9 || s[end] == 10 || s[end] == BACKSLASH || s[end] == QUOTE {
        sz := sz + 2;
      } else if s[end] == 0xC2 && end + 1 < |s| && 0x80 <= s[end + 1] <= 0x9F {
        sz := sz + 7;
      } else if !Printable(s[end]) {
        sz := sz + 4;
      } else {
        sz := sz + 1;
      }
    }
  }

  /** escapedStr: s is written from `off` on, with a final zero. */
  method WriteEscaped(dst: array<byte>, off: nat, s: seq<byte>) returns (l: nat)
    requires off + |Escaped(s, 0)| < dst.Length
    modifies dst
    ensures l == |Escaped(s, 0)| && dst[off..off + l] == Escaped(s, 0) && dst[off + l] == 0
      && dst[..off] == old(dst[..off])
  {
    hide Piece, Escaped;
    ghost var all := Escaped(s, 0);
    l := 0;
    for cur := 0 to |s|
      invariant off + l < dst.Length && dst[..off] == old(dst[..off])
      invariant all == dst[off..off + l] + Escaped(s, cur)
    {
      EscapedStep(s, cur);
      ghost var done := dst[off..off + l];
      var piece := Piece(s, cur);
      assert all == (done + piece) + Escaped(s, cur + 1);
      PutBytes(dst, off, off + l, piece);
      l := l + |piece|;
    }
    EscapedEnd(s);
    dst[off + l] := 0;
  }

  lemma EscapedStep(s: seq<byte>, i: nat)
    requires i < |s|
    ensures Escaped(s, i) == Piece(s, i) + Escaped(s, i + 1)
  {
  }

  lemma EscapedEnd(s: seq<byte>)
    ensures Escaped(s, |s|) == []
  {
  }

  /** The bytes of a piece are written at p. */
  method PutBytes(dst: array<byte>, ghost off: nat, p: nat, piece: seq<byte>)
    requires off <= p && p + |piece| <= dst.Length
    modifies dst
    ensures dst[..off] == old(dst[..off]) && dst[off..p + |piece|] == old(dst[off..p]) + piece
  {
    for i := 0 to |piece|
      invariant dst[..p] == old(dst[..p]) && dst[p..p + i] == piece[..i]
    {
      dst[p + i] := piece[i];
    }
    assert dst[off..p + |piece|] == dst[..p][off..] + dst[p..p + |piece|];
    assert dst[..off] == dst[..p][..off] && old(dst[..off]) == old(dst[..p])[..off];
    assert old(dst[off..p]) == old(dst[..p])[off..];
  }

  // -------------------------------------------------------------------- scouting

  /** What the scouting loop of strFromStr knows after i bytes: is one escaped, and how many it counted. */
  function Scouted(t: seq<byte>, i: nat): (r: (bool, nat)) {
    if i == 0 then (false, 0)
    else
      var (escaped, n) := Scouted(t, i - 1);
      if At(t, i - 1) == BACKSLASH && !escaped then (true, n) else (false, n + 1)
  }

  /** The loop does not end at j. */
  predicate GoesOn(t: seq<byte>, j: nat) { At(t, j) != 0 && (At(t, j) == QUOTE ==> Scouted(t, j).0) }

  /** The scouting loop stops at the first quote that is not escaped, or fails at the end of the string. */
  method Scout(t: seq<byte>) returns (found: bool, end: nat, l: nat)
    requires 0 in t
    ensures end < |t| && (forall j: nat :: j < end ==> GoesOn(t, j)) && !GoesOn(t, end)
    ensures found ==> t[end] == QUOTE && !Scouted(t, end).0 && l == Scouted(t, end).1 + 1
    ensures !found ==> t[end] == 0
  {
    var escaped := false;
    end, l := 0, 1;
    ghost var z :| 0 <= z < |t| && t[z] == 0;
    while t[end] != QUOTE || escaped
      invariant end <= z && (forall j: nat :: j < end ==> GoesOn(t, j)) && Scouted(t, end) == (escaped, l - 1)
      decreases z - end
    {
      if t[end] == 0 {
        return false, end, l;
      } else if t[end] == BACKSLASH && !escaped {
        escaped := true;
      } else {
        escaped := false;
        l := l + 1;
      }
      end := end + 1;
    }
    found := true;
  }

  /** The buffer that the scouting loop asks for is large enough. */
  lemma {:induction false} ScoutEnough(t: seq<byte>, i: nat, len: nat)
    requires i <= len && Ends(t, len) && !Scouted(t, len).0 && !Scouted(t, i).0
    ensures |Decoded(t, i, len)| + Scouted(t, i).1 <= Scouted(t, len).1
    decreases len - i
  {
    hide Escape;
    if i < len {
      if At(t, i) != BACKSLASH {
        ScoutEnough(t, i + 1, len);
      } else if i + 1 < len {
        EscapeStays(t, i + 1, len);
        EscapeScouted(t, i + 1, len);
        ScoutEnough(t, Escape(t, i + 1).1, len);
      }
    }
  }

  /** An escape is scouted as at least one byte. */
  lemma EscapeScouted(t: seq<byte>, i: nat, len: nat)
    requires i < len && Scouted(t, i).0
    ensures var next := Escape(t, i).1; !Scouted(t, next).0 && Scouted(t, next).1 >= Scouted(t, i).1 + 1
  {
    assert Scouted(t, i + 1) == (false, Scouted(t, i).1 + 1);
    if At(t, i + 1) != BACKSLASH {
      assert Scouted(t, i + 2) == (false, Scouted(t, i).1 + 2);
      if At(t, i + 2) != BACKSLASH {
        assert Scouted(t, i + 3) == (false, Scouted(t, i).1 + 3);
      }
    }
  }

  // ------------------------------------------------------------ reading and writing

  const NILTEXT: seq<byte> := [0x80]

  const NILWORD: seq<byte> := [110, 105, 108]

  predicate IsNil(s: seq<byte>) { s != [] && s[0] == 0x80 }

  predicate Space(c: byte) { c == 32 || 9 <= c <= 13 }

  /** The white space of the C locale: \t, \n, \v, \f, \r and the blank. */
  const SPACES: set<byte> := {9, 10, 11, 12, 13, 32}

  /** The scouting loop ends at e. */
  ghost predicate StopsAt(t: seq<byte>, e: nat) { e < |t| && (forall j: nat :: j < e ==> GoesOn(t, j))
      && !GoesOn(t, e) }

  /** A buffer holds a C string. */
  ghost predicate Holds(m: seq<byte>, text: seq<byte>) { |text| < |m| && m[..|text|] == text && m[|text|] == 0 }

  /** What strFromStr makes of the text t after the opening quote, if scouting ends at e. */
  ghost predicate Reads(t: seq<byte>, e: nat, res: int, m: seq<byte>) {
    if At(t, e) == QUOTE && Utf8(Decoded(t, 0, e)) then res == e && Holds(m, Decoded(t, 0, e))
    else res == 0 && Holds(m, NILTEXT)
  }

  /** The first byte of src that is no space is at c. */
  ghost predicate StartsAt(src: seq<byte>, c: nat) {
    c < |src| && src[c] !in SPACES && forall j :: 0 <= j < c ==> src[j] in SPACES
  }

  function After(src: seq<byte>, c: nat): seq<byte> { if c < |src| then src[c + 1..] else [] }

  method NilBuffer() returns (dst: array<byte>)
    ensures fresh(dst) && Holds(dst[..], NILTEXT)
  {
    dst := new byte[2][0x80, 0];
    assert dst[..][..1] == NILTEXT;
  }

  /**
   strFromStr on a C string, with a buffer of `size` bytes (0 if there is none). A quoted text
   is read if it is closed and is UTF-8; the buffer is never overrun.
   */
  method StrFromStr(src: seq<byte>, size: nat) returns (res: int, dst: array<byte>)
    requires 0 in src
    ensures forall c: nat :: StartsAt(src, c) && src[c] != QUOTE ==>
      Holds(dst[..], NILTEXT) && res == if NILWORD <= src[c..] then c + 3 else 0
    ensures forall c: nat, e: nat :: StartsAt(src, c) && src[c] == QUOTE && StopsAt(After(src, c), e) ==>
      Reads(After(src, c), e, res, dst[..])
  {
    hide Decoded, Utf8, GoesOn, Scouted, Holds, Ends;
    var cur := SkipSpaces(src);
    forall c: nat | StartsAt(src, c) ensures c == cur {
      OneStart(src, c, cur);
    }
    if src[cur] != QUOTE {
      var isNil := At(src, cur) == 110 && At(src, cur + 1) == 105 && At(src, cur + 2) == 108;
      NilFollows(src, cur);
      res := if isNil then cur + 3 else 0;
      dst := NilBuffer();
      return;
    }
    var t := After(src, cur);
    StillEnds(src, cur);
    res, dst := ReadQuoted(t, size);
  }

  lemma NilFollows(src: seq<byte>, c: nat)
    requires c <= |src|
    ensures NILWORD <= src[c..] <==> At(src, c) == 110 && At(src, c + 1) == 105 && At(src, c + 2) == 108
  {
  }

  lemma OneStart(src: seq<byte>, c: nat, d: nat)
    requires StartsAt(src, c) && StartsAt(src, d)
    ensures c == d
  {
  }

  lemma StillEnds(src: seq<byte>, cur: nat)
    requires 0 in src && StartsAt(src, cur) && src[cur] == QUOTE
    ensures 0 in After(src, cur)
  {
    var z :| 0 <= z < |src| && src[z] == 0;
    assert src[cur + 1..][z - cur - 1] == 0;
  }

  method SkipSpaces(src: seq<byte>) returns (cur: nat)
    requires 0 in src
    ensures StartsAt(src, cur)
  {
    cur := 0;
    ghost var z :| 0 <= z < |src| && src[z] == 0;
    while Space(src[cur])
      invariant cur <= z && forall j :: 0 <= j < cur ==> Space(src[j])
      decreases z - cur
    {
      cur := cur + 1;
    }
  }

  /** strFromStr from the opening quote on. */
  method ReadQuoted(t: seq<byte>, size: nat) returns (res: int, dst: array<byte>)
    requires 0 in t
    ensures forall e: nat :: StopsAt(t, e) ==> Reads(t, e, res, dst[..])
  {
    hide Decoded, Utf8, GoesOn, Scouted, Holds, Ends;
    var found, e, l := Scout(t);
    forall f: nat | StopsAt(t, f) ensures f == e {
      OneStop(t, e, f);
    }
    if found {
      ScoutFits(t, e, l);
      ZeroBehind(t, e);
      dst := new byte[if size < l then l else size];
      var ok := StrFromText(dst, t, e);
      if ok {
        res := e;
        BufferHolds(dst[..], Decoded(t, 0, e));
        return;
      }
    }
    res := 0;
    dst := NilBuffer();
  }

  lemma OneStop(t: seq<byte>, e: nat, f: nat)
    requires StopsAt(t, e) && StopsAt(t, f)
    ensures e == f
  {
    hide GoesOn;
  }

  lemma ZeroBehind(t: seq<byte>, e: nat)
    requires 0 in t && e < |t| && forall j: nat :: j < e ==> GoesOn(t, j)
    ensures Terminated(t, e)
  {
    var z :| 0 <= z < |t| && t[z] == 0;
    assert z < e ==> GoesOn(t, z);
    assert t[e..][z - e] == 0;
  }

  lemma ScoutFits(t: seq<byte>, e: nat, l: nat)
    requires e < |t| && t[e] == QUOTE && !Scouted(t, e).0 && l == Scouted(t, e).1 + 1
    ensures Ends(t, e) && |Decoded(t, 0, e)| < l
  {
    ScoutEnough(t, 0, e);
  }

  lemma BufferHolds(m: seq<byte>, text: seq<byte>)
    requires |text| < |m| && m[..|text|] == text && m[|text|] == 0
    ensures Holds(m, text)
  {
  }

  /** The text that strToStr writes for a string that is not nil. */
  function Printed(s: seq<byte>): seq<byte> { [QUOTE] + Escaped(s, 0) + [QUOTE, 0] }

  /** strToStr, with a buffer of `size` bytes. */
  method StrToStr(s: seq<byte>, size: nat) returns (l: nat, dst: array<byte>)
    ensures l + 1 <= dst.Length
    ensures if IsNil(s) then dst[..l + 1] == [110, 105, 108, 0] else dst[..l + 1] == Printed(s)
  {
    hide Escaped, Printed;
    if IsNil(s) {
      dst := new byte[if size < 4 then 4 else size];
      dst[0], dst[1], dst[2], dst[3] := 110, 105, 108, 0;
      return 3, dst;
    }
    var sz := EscapedLength(s);
    dst := new byte[if size < sz + 3 then sz + 3 else size];
    l := WriteEscaped(dst, 1, s);
    l := l + 1;
    ghost var body := dst[..];
    dst[0], dst[l] := QUOTE, QUOTE;
    l := l + 1;
    dst[l] := 0;
    Quoted(body, dst[..], s);
  }

  lemma Quoted(m: seq<byte>, m': seq<byte>, s: seq<byte>)
    requires var n := |Escaped(s, 0)|;
      n + 3 <= |m| && m[1..n + 1] == Escaped(s, 0) && m' == m[0 := QUOTE][n + 1 := QUOTE][n + 2 := 0]
    ensures |Escaped(s, 0)| + 3 <= |m'| && m'[..|Escaped(s, 0)| + 3] == Printed(s)
  {
    hide Escaped;
    var n := |Escaped(s, 0)|;
    assert m'[1..n + 1] == m[1..n + 1];
  }

  // -------------------------------------------------------------------- round trip

  lemma OctalDigits(c: byte)
    ensures var r := OctalEscape(c);
      Octal(r[1]) && Octal(r[2]) && Octal(r[3]) && (((r[1] - 48) * 8 + (r[2] - 48)) * 8 + (r[3] - 48)) % 256 == c
  {
  }

  /** Reading what was written for byte i, from p on, gives that byte. */
  lemma PieceDecoded(s: seq<byte>, i: nat, t: seq<byte>, p: nat, len: nat)
    requires i < |s| && 0 !in s && p + |Piece(s, i)| <= len < |t| && t[p..p + |Piece(s, i)|] == Piece(s, i)
      && t[len] == QUOTE
    ensures var q := p + |Piece(s, i)|; Decoded(t, p, len) == [s[i]] + Decoded(t, q, len)
  {
    var piece := Piece(s, i);
    forall k | p <= k < p + |piece| ensures t[k] == piece[k - p] {
      assert t[p..p + |piece|][k - p] == t[k];
    }
    OctalDigits(s[i]);
    assert s[i] in s;
  }

  lemma {:induction false} EscapedDecoded(s: seq<byte>, i: nat, t: seq<byte>, p: nat, len: nat)
    requires i <= |s| && 0 !in s && p <= len < |t| && t[p..len] == Escaped(s, i) && t[len] == QUOTE
    ensures Decoded(t, p, len) == s[i..]
    decreases |s| - i
  {
    hide Piece, Decoded;
    if i < |s| {
      var q := p + |Piece(s, i)|;
      NextPiece(s, i, t, p, len);
      PieceDecoded(s, i, t, p, len);
      EscapedDecoded(s, i + 1, t, q, len);
    } else {
      NothingLeft(t, len);
    }
  }

  lemma NothingLeft(t: seq<byte>, len: nat)
    ensures Decoded(t, len, len) == []
  {
  }

  lemma NextPiece(s: seq<byte>, i: nat, t: seq<byte>, p: nat, len: nat)
    requires i < |s| && p <= len <= |t| && t[p..len] == Escaped(s, i)
    ensures var q := p + |Piece(s, i)|; q <= len && t[p..q] == Piece(s, i) && t[q..len] == Escaped(s, i + 1)
  {
    hide Piece;
    var n := |Piece(s, i)|;
    assert t[p..len] == Piece(s, i) + Escaped(s, i + 1);
    assert t[p..p + n] == t[p..len][..n] && t[p + n..len] == t[p..len][n..];
  }

  /** The scouting loop goes through a piece, and is not in an escape after it. */
  lemma PieceScouted(s: seq<byte>, i: nat, t: seq<byte>, p: nat)
    requires i < |s| && 0 !in s && p + |Piece(s, i)| <= |t| && t[p..p + |Piece(s, i)|] == Piece(s, i)
      && !Scouted(t, p).0
    ensures forall j: nat :: p <= j < p + |Piece(s, i)| ==> GoesOn(t, j)
    ensures !Scouted(t, p + |Piece(s, i)|).0
  {
    var piece := Piece(s, i);
    forall k | p <= k < p + |piece| ensures t[k] == piece[k - p] {
      assert t[p..p + |piece|][k - p] == t[k];
    }
    assert s[i] in s;
    OctalDigits(s[i]);
    var n := Scouted(t, p).1;
    if |piece| == 1 {
      assert Scouted(t, p + 1) == (false, n + 1);
    } else {
      assert Scouted(t, p + 1) == (true, n) && Scouted(t, p + 2) == (false, n + 1);
      if |piece| == 4 {
        assert Scouted(t, p + 3) == (false, n + 2) && Scouted(t, p + 4) == (false, n + 3);
      }
    }
  }

  lemma {:induction false} EscapedScouted(s: seq<byte>, i: nat, t: seq<byte>, p: nat, len: nat)
    requires i <= |s| && 0 !in s && p <= len < |t| && t[p..len] == Escaped(s, i) && !Scouted(t, p).0
    ensures (forall j: nat :: p <= j < len ==> GoesOn(t, j)) && !Scouted(t, len).0
    decreases |s| - i
  {
    hide Piece, GoesOn, Scouted;
    if i < |s| {
      NextPiece(s, i, t, p, len);
      PieceScouted(s, i, t, p);
      EscapedScouted(s, i + 1, t, p + |Piece(s, i)|, len);
    }
  }

  /** Of what strToStr writes, scouting finds the closing quote, and reading gives the string back. */
  lemma RoundTrip(s: seq<byte>)
    requires 0 !in s
    ensures var e := |Escaped(s, 0)|;
      StartsAt(Printed(s), 0) && StopsAt(After(Printed(s), 0), e) && At(After(Printed(s), 0), e) == QUOTE
        && Decoded(After(Printed(s), 0), 0, e) == s
  {
    hide Escaped, Decoded, GoesOn;
    var t, e := After(Printed(s), 0), |Escaped(s, 0)|;
    assert t == Escaped(s, 0) + [QUOTE, 0];
    assert t[0..e] == Escaped(s, 0);
    EscapedScouted(s, 0, t, 0, e);
    EscapedDecoded(s, 0, t, 0, e);
    Stops(t, e);
  }

  lemma Stops(t: seq<byte>, e: nat)
    requires e < |t| && t[e] == QUOTE && !Scouted(t, e).0
    ensures !GoesOn(t, e)
  {
  }

  /** strFromStr gives back every string that is UTF-8 and has no zero byte. */
  method WriteAndRead(s: seq<byte>, size: nat, size': nat) returns (res: int, dst: array<byte>)
    requires Utf8(s) && 0 !in s
    ensures Holds(dst[..], s) && res == |Escaped(s, 0)|
  {
    Utf8NotNil(s);
    hide Utf8, Escaped, Decoded, StopsAt, Holds;
    var l, printed := StrToStr(s, size);
    RoundTrip(s);
    ZeroEnds(s);
    res, dst := StrFromStr(printed[..l + 1], size');
    assert StartsAt(Printed(s), 0) && Printed(s)[0] == QUOTE;
    assert Reads(After(Printed(s), 0), |Escaped(s, 0)|, res, dst[..]);
  }

  lemma Utf8NotNil(s: seq<byte>)
    requires Utf8(s)
    ensures !IsNil(s)
  {
  }

  lemma ZeroEnds(s: seq<byte>)
    ensures 0 in Printed(s)
  {
    assert Printed(s)[|Printed(s)| - 1] == 0;
  }

  /** For text without a backslash, GDKstrFromStr accepts exactly what is UTF-8. */
  lemma PlainAccepted(src: seq<byte>, len: nat)
    requires len <= |src| && forall j :: 0 <= j < len ==> src[j] != BACKSLASH
    ensures Utf8(Decoded(src, 0, len)) <==> Utf8(src[..len])
  {
    hide Utf8, Decoded;
    PlainDecoded(src, 0, len);
    assert src[0..len] == src[..len];
  }
}
