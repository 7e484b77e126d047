/**
 * The byte codecs the edit overlay uses: 32-bit little-endian integers,
 * strings as 1, 2 or 4 bytes per UTF-16 code unit, the charset decoders that
 * read staged wide strings back, and the UTF-8 encoder used for inserted
 * records.
 */
module ValueCodec {

  /** One octet of a save file (Java's signed byte, read as its unsigned pattern). */
  newtype byte = b: int | 0 <= b < 0x100

  type Bytes = seq<byte>

  /** A Java `int`. */
  newtype int32 = x: int | -0x8000_0000 <= x < 0x8000_0000

  /** A Java `char`: one UTF-16 code unit. */
  newtype JChar = c: int | 0 <= c < 0x1_0000

  /** A Java `String`: its `length()` is the number of code units. */
  type JString = seq<JChar>

  /** U+FFFD, what Java's decoders put in place of malformed input. */
  const REPLACEMENT: JChar := 0xFFFD

  /** '?', what Java's UTF-8 encoder puts in place of an unpaired surrogate. */
  const QUESTION_MARK: JChar := 0x3F

  /** A string literal of this model, read as the UTF-16 units of its ASCII characters. */
  function Ascii(s: string): (r: JString)
    ensures |r| == |s|
  {
    seq(|s|, i requires 0 <= i < |s| => (s[i] as int % 0x1_0000) as JChar)
  }

  // ---------------------------------------------------------------------------
  // 32-bit integers

  /** Java's narrowing of a wider integer to `int`: the low 32 bits, two's complement. */
  function ToInt32(x: int): (r: int32)
    ensures (r as int - x) % 0x1_0000_0000 == 0
    ensures -0x8000_0000 <= x < 0x8000_0000 ==> r as int == x
  {
    var u := x % 0x1_0000_0000;
    if u < 0x8000_0000 then u as int32 else (u - 0x1_0000_0000) as int32
  }

  /** `ByteBuffer.order(LITTLE_ENDIAN).putInt(x)`: the four bytes of x, least significant first. */
  function EncodeInt32(x: int32): (b: Bytes)
    ensures |b| == 4
    ensures Unsigned32(b) == x as int % 0x1_0000_0000
  {
    var u0 := if x < 0 then x as int + 0x1_0000_0000 else x as int;
    var u1 := u0 / 0x100;
    var u2 := u1 / 0x100;
    assert u0 == u0 % 0x100 + 0x100 * (u1 % 0x100 + 0x100 * (u2 % 0x100 + 0x100 * (u2 / 0x100)));
    [(u0 % 0x100) as byte, (u1 % 0x100) as byte, (u2 % 0x100) as byte, (u2 / 0x100) as byte]
  }

  /** The first four bytes as an unsigned number, least significant first. */
  function Unsigned32(b: Bytes): (u: nat)
    requires |b| >= 4
    ensures u < 0x1_0000_0000
  {
    b[0] as int + 0x100 * (b[1] as int + 0x100 * (b[2] as int + 0x100 * b[3] as int))
  }

  /** Only the first four bytes count. */
  lemma Unsigned32Prefix(x: Bytes, y: Bytes)
    requires |x| >= 4
    ensures Unsigned32(x + y) == Unsigned32(x)
  {
    assert (x + y)[0] == x[0] && (x + y)[1] == x[1] && (x + y)[2] == x[2] && (x + y)[3] == x[3];
  }

  /** `ByteBuffer.wrap(b).order(LITTLE_ENDIAN).getInt()`: the int whose two's complement bit
      pattern is the first four bytes, least significant first; the top bit of the fourth byte
      is the sign. */
  function DecodeInt32(b: Bytes): (x: int32)
    requires |b| >= 4
    ensures x as int == Unsigned32(b) || x as int == Unsigned32(b) - 0x1_0000_0000
    ensures x < 0 <==> b[3] >= 0x80
  {
    var u := Unsigned32(b);
    if u < 0x8000_0000 then u as int32 else (u - 0x1_0000_0000) as int32
  }

  /** Decoding an encoded integer gives it back. */
  lemma DecodeEncodeInt32(x: int32)
    ensures DecodeInt32(EncodeInt32(x)) == x
  {
  }

  /** Encoding the integer that four bytes decode to gives those bytes back. */
  lemma EncodeDecodeInt32(b: Bytes)
    requires |b| == 4
    ensures EncodeInt32(DecodeInt32(b)) == b
  {
    var u := Unsigned32(b);
    assert u == b[0] as int + 0x100 * (b[1] as int + 0x100 * (b[2] as int + 0x100 * b[3] as int));
    var x := DecodeInt32(b);
    assert (if x < 0 then x as int + 0x1_0000_0000 else x as int) == u;
    assert u / 0x100 == b[1] as int + 0x100 * (b[2] as int + 0x100 * b[3] as int);
    assert u / 0x100 / 0x100 == b[2] as int + 0x100 * b[3] as int;
  }

  // ---------------------------------------------------------------------------
  // Strings as code units

  /** The three string encodings: 1, 2 or 4 bytes per code unit. */
  datatype CharWidth = Narrow | Wide16 | Wide32

  /** Bytes per code unit (the string type's dataTypeSize). */
  function Unit(w: CharWidth): (n: nat)
    ensures n == 1 || n == 2 || n == 4
  {
    match w
    case Narrow => 1
    case Wide16 => 2
    case Wide32 => 4
  }

  /** The bytes one (already accent-stripped) code unit contributes: its low byte, then for
      the wide encodings its high byte, then for the 32-bit one two zero bytes. */
  function CharBytes(c: JChar, w: CharWidth): (b: Bytes)
    ensures |b| == Unit(w)
    ensures b[0] as int == c as int % 0x100
    ensures w != Narrow ==> b[1] as int == c as int / 0x100
    ensures w == Wide32 ==> b[2] == 0 && b[3] == 0
  {
    var lo := (c as int % 0x100) as byte;
    var hi := (c as int / 0x100) as byte;
    match w
    case Narrow => [lo]
    case Wide16 => [lo, hi]
    case Wide32 => [lo, hi, 0, 0]
  }

  /** The string with the accent stripper applied to each code unit. */
  function StripAll(s: JString, strip: JChar -> JChar): (r: JString)
    ensures |r| == |s|
    ensures forall i :: 0 <= i < |s| ==> r[i] == strip(s[i])
  {
    seq(|s|, i requires 0 <= i < |s| => strip(s[i]))
  }

  /** Stripping splits off the first and the last unit alike. */
  lemma StripAllEnds(s: JString, strip: JChar -> JChar)
    requires s != []
    ensures StripAll(s, strip) == [strip(s[0])] + StripAll(s[1..], strip)
    ensures StripAll(s, strip) == StripAll(s[..|s| - 1], strip) + [strip(s[|s| - 1])]
  {
  }

  /** The value bytes of a string: each code unit stripped of its accent and written at the
      encoding's width, in order. */
  function StringBytes(s: JString, w: CharWidth, strip: JChar -> JChar): (b: Bytes)
    ensures |b| == |s| * Unit(w)
    decreases |s|
  {
    if s == [] then []
    else StringBytes(s[..|s| - 1], w, strip) + CharBytes(strip(s[|s| - 1]), w)
  }

  /** Multiplying by a natural number keeps the order. */
  lemma {:induction false} MulMonotone(a: nat, b: nat, u: nat)
    requires a <= b
    ensures a * u <= b * u
  {
    if a < b {
      MulMonotone(a, b - 1, u);
      assert b * u == (b - 1) * u + u;
    }
  }

  /** Code unit i of the string occupies bytes [i * unit, (i + 1) * unit) of its encoding. */
  lemma {:induction false} StringBytesAt(s: JString, w: CharWidth, strip: JChar -> JChar, i: nat)
    requires i < |s|
    ensures (i + 1) * Unit(w) <= |StringBytes(s, w, strip)|
    ensures StringBytes(s, w, strip)[i * Unit(w) .. (i + 1) * Unit(w)] == CharBytes(strip(s[i]), w)
  {
    var u := Unit(w);
    var init := s[..|s| - 1];
    var a := StringBytes(init, w, strip);
    var last := CharBytes(strip(s[|s| - 1]), w);
    assert StringBytes(s, w, strip) == a + last;
    UnitOffsets(i, |s|, u);
    if i == |s| - 1 {
      SliceOfAppend(a, last, i * u, (i + 1) * u);
    } else {
      StringBytesAt(init, w, strip, i);
      assert init[i] == s[i];
      SliceOfAppend(a, last, i * u, (i + 1) * u);
    }
  }

  /** The offsets of unit i among n units of width u. */
  lemma UnitOffsets(i: nat, n: nat, u: nat)
    requires i < n
    ensures (i + 1) * u == i * u + u
    ensures n * u == (n - 1) * u + u
    ensures i < n - 1 ==> (i + 1) * u <= (n - 1) * u
  {
    if i < n - 1 {
      MulMonotone(i + 1, n - 1, u);
    }
  }

  /** Concatenation regroups freely. */
  lemma AppendAssociative<T>(a: seq<T>, b: seq<T>, c: seq<T>)
    ensures a + (b + c) == (a + b) + c
  {
  }

  /** A slice of a concatenation that lies inside the first part, or is exactly the second. */
  lemma SliceOfAppend(a: Bytes, b: Bytes, lo: nat, hi: nat)
    requires lo <= hi <= |a| + |b|
    ensures hi <= |a| ==> (a + b)[lo..hi] == a[lo..hi]
    ensures lo == |a| && hi == |a| + |b| ==> (a + b)[lo..hi] == b
  {
  }

  /** Strings whose code units strip to the same units encode to the same bytes: this is
      why a name with diacritics and its plain-Latin form are written identically. */
  lemma {:induction false} StripEquivalentEncodeEqually(s: JString, t: JString, w: CharWidth, strip: JChar -> JChar)
    requires |s| == |t|
    requires forall i :: 0 <= i < |s| ==> strip(s[i]) == strip(t[i])
    ensures StringBytes(s, w, strip) == StringBytes(t, w, strip)
  {
    if s != [] {
      StripEquivalentEncodeEqually(s[..|s| - 1], t[..|t| - 1], w, strip);
      assert strip(s[|s| - 1]) == strip(t[|t| - 1]);
    }
  }

  /** One `buffer.put(new byte[]{...})` of encodeString: the unit's bytes at position pos. */
  method PutChar(buffer: array<byte>, pos: nat, c: JChar, w: CharWidth)
    requires pos + Unit(w) <= buffer.Length
    modifies buffer
    ensures buffer[..pos + Unit(w)] == old(buffer[..pos]) + CharBytes(c, w)
  {
    var lo := (c as int % 0x100) as byte;
    var hi := (c as int / 0x100) as byte;
    match w {
      case Narrow =>
        buffer[pos] := lo;
      case Wide16 =>
        buffer[pos], buffer[pos + 1] := lo, hi;
      case Wide32 =>
        buffer[pos], buffer[pos + 1], buffer[pos + 2], buffer[pos + 3] := lo, hi, 0, 0;
    }
  }

  /** encodeString: allocates |str| * unit bytes and fills them code unit by code unit, each
      unit stripped of its accent first. */
  method EncodeString(str: JString, w: CharWidth, strip: JChar -> JChar) returns (r: Bytes)
    ensures r == StringBytes(str, w, strip)
  {
    var buffer := new byte[|str| * Unit(w)];
    var i := 0;
    while i < |str|
      invariant 0 <= i <= |str|
      invariant buffer.Length == |str| * Unit(w)
      invariant buffer[..i * Unit(w)] == StringBytes(str[..i], w, strip)
    {
      PutUnit(buffer, str, i, w, strip);
      i := i + 1;
    }
    assert str[..i] == str;
    r := buffer[..];
  }

  /** One iteration of encodeString's loop: unit i, stripped, goes at offset i * unit, which
      extends the encoded prefix by one unit. */
  method PutUnit(buffer: array<byte>, str: JString, i: nat, w: CharWidth, strip: JChar -> JChar)
    requires i < |str| && buffer.Length == |str| * Unit(w)
    requires buffer[..i * Unit(w)] == StringBytes(str[..i], w, strip)
    modifies buffer
    ensures buffer[..(i + 1) * Unit(w)] == StringBytes(str[..i + 1], w, strip)
  {
    EncodeStep(str, i, w, strip);
    PutChar(buffer, i * Unit(w), strip(str[i]), w);
  }

  /** Encoding one more code unit appends that unit's bytes, at the next free offset, which
      still lies inside the whole string's encoding. */
  lemma EncodeStep(str: JString, i: nat, w: CharWidth, strip: JChar -> JChar)
    requires i < |str|
    ensures StringBytes(str[..i + 1], w, strip) == StringBytes(str[..i], w, strip) + CharBytes(strip(str[i]), w)
    ensures (i + 1) * Unit(w) == i * Unit(w) + Unit(w) <= |str| * Unit(w)
  {
    assert str[..i + 1][..i] == str[..i];
    MulMonotone(i + 1, |str|, Unit(w));
  }

  // ---------------------------------------------------------------------------
  // Reading wide strings back

  predicate IsHighSurrogate(c: JChar) { 0xD800 <= c < 0xDC00 }
  predicate IsLowSurrogate(c: JChar) { 0xDC00 <= c < 0xE000 }
  predicate IsSurrogate(c: JChar) { 0xD800 <= c < 0xE000 }

  predicate NoSurrogates(s: JString) {
    forall i :: 0 <= i < |s| ==> !IsSurrogate(s[i])
  }

  /** Every surrogate of the string is part of a high-low pair, read left to right. */
  predicate WellPaired(s: JString)
    decreases |s|
  {
    if |s| == 0 then true
    else if |s| >= 2 && IsHighSurrogate(s[0]) && IsLowSurrogate(s[1]) then WellPaired(s[2..])
    else !IsSurrogate(s[0]) && WellPaired(s[1..])
  }

  /** U+FEFF, the byte order mark. */
  const BYTE_ORDER_MARK: JChar := 0xFEFF

  /** U+FFFE, a byte-swapped byte order mark. */
  const REVERSED_MARK: JChar := 0xFFFE

  /** The code unit of the first two bytes, low byte first. */
  function Unit16(b: Bytes): (c: JChar)
    requires |b| >= 2
    ensures c as int == b[0] as int + 0x100 * b[1] as int
  {
    (b[0] as int + 0x100 * b[1] as int) as JChar
  }

  /** `new String(b, UTF_16LE)`, whose decoder replaces malformed input with U+FFFD: each byte
      pair, low byte first, is one code unit; a byte-swapped mark or a low surrogate on its own
      is malformed over its two bytes; a high surrogate followed by a unit that is not a low
      surrogate is malformed over both units; what is left at the end (an odd byte, or a high
      surrogate with fewer than two bytes after it) is malformed as a whole. So the text never
      holds an unpaired surrogate. */
  function DecodeWide16(b: Bytes): (s: JString)
    ensures |s| <= (|b| + 1) / 2
    ensures WellPaired(s)
    decreases |b|
  {
    if |b| == 0 then []
    else if |b| == 1 then [REPLACEMENT]
    else
      var c := Unit16(b);
      if c == REVERSED_MARK || IsLowSurrogate(c) then
        var rest := DecodeWide16(b[2..]);
        assert ([REPLACEMENT] + rest)[1..] == rest;
        [REPLACEMENT] + rest
      else if !IsHighSurrogate(c) then
        var rest := DecodeWide16(b[2..]);
        assert ([c] + rest)[1..] == rest;
        [c] + rest
      else if |b| < 4 then [REPLACEMENT]
      else if IsLowSurrogate(Unit16(b[2..])) then
        var rest := DecodeWide16(b[4..]);
        assert ([c, Unit16(b[2..])] + rest)[2..] == rest;
        [c, Unit16(b[2..])] + rest
      else
        var rest := DecodeWide16(b[4..]);
        assert ([REPLACEMENT] + rest)[1..] == rest;
        [REPLACEMENT] + rest
  }

  /** "\uD800A" written at 16 bits: the high surrogate followed by 'A' is one malformed
      sequence, so it decodes to a single U+FFFD. */
  lemma Wide16IllPairedExample()
    ensures DecodeWide16(StringBytes([0xD800, 0x41], Wide16, c => c)) == [REPLACEMENT]
  {
    var b := StringBytes([0xD800, 0x41], Wide16, c => c);
    assert [0xD800, 0x41][..1] == [0xD800];
    assert b == [0x00, 0xD8, 0x41, 0x00];
  }

  /** U+1F600 written at 16 bits as its surrogate pair decodes back to the pair. */
  lemma Wide16SupplementaryExample()
    ensures DecodeWide16(StringBytes([0xD83D, 0xDE00], Wide16, c => c)) == [0xD83D, 0xDE00]
  {
    var b := StringBytes([0xD83D, 0xDE00], Wide16, c => c);
    assert [0xD83D, 0xDE00][..1] == [0xD83D];
    assert b == [0x3D, 0xD8, 0x00, 0xDE];
    assert b[2..] == [0x00, 0xDE] && b[4..] == [];
  }

  /** A unit that is neither a surrogate nor the reversed mark decodes to itself. */
  lemma DecodeWide16Plain(b: Bytes)
    requires |b| >= 2 && !IsSurrogate(Unit16(b)) && Unit16(b) != REVERSED_MARK
    ensures DecodeWide16(b) == [Unit16(b)] + DecodeWide16(b[2..])
  {
  }

  /** The byte pairs of b, low byte first, include no high surrogate. */
  predicate NoHighUnits(b: Bytes)
    decreases |b|
  {
    |b| < 2 || (!IsHighSurrogate(Unit16(b)) && NoHighUnits(b[2..]))
  }

  /** The 16-bit decoder splits at an even byte position with no high surrogate before it. */
  lemma {:induction false} DecodeWide16Append(x: Bytes, y: Bytes)
    requires |x| % 2 == 0 && NoHighUnits(x)
    ensures DecodeWide16(x + y) == DecodeWide16(x) + DecodeWide16(y)
    decreases |x|
  {
    if |x| > 0 {
      assert (x + y)[2..] == x[2..] + y;
      assert Unit16(x + y) == Unit16(x);
      DecodeWide16Append(x[2..], y);
    } else {
      assert x + y == y;
    }
  }

  /** The UTF-16 units of one decoded UTF-32 code point: itself in the Basic Multilingual
      Plane (surrogate values included, which the JDK's UTF-32 decoder passes through), a
      surrogate pair above it, U+FFFD for a value past U+10FFFF. */
  function CodePointUnits(cp: int): (s: JString)
    requires 0 <= cp
    ensures 1 <= |s| <= 2
    ensures cp < 0x1_0000 ==> s[0] as int == cp
    ensures |s| == 2 <==> 0x1_0000 <= cp < 0x11_0000
    ensures |s| == 2 ==> && IsHighSurrogate(s[0]) && IsLowSurrogate(s[1])
                         && 0x1_0000 + (s[0] as int - 0xD800) * 0x400 + (s[1] as int - 0xDC00) == cp
  {
    if cp < 0x1_0000 then [cp as JChar]
    else if cp < 0x11_0000 then
      [(0xD800 + (cp - 0x1_0000) / 0x400) as JChar, (0xDC00 + (cp - 0x1_0000) % 0x400) as JChar]
    else [REPLACEMENT]
  }

  /** The decoding loop of UTF-32LE: each four bytes, least significant first, are one code
      point; a trailing group of one to three bytes is malformed and becomes U+FFFD. */
  function Utf32Units(b: Bytes): (s: JString)
    ensures |s| <= 2 * ((|b| + 3) / 4)
    decreases |b|
  {
    if |b| == 0 then []
    else if |b| < 4 then [REPLACEMENT]
    else
      CodePointUnits(Unsigned32(b)) + Utf32Units(b[4..])
  }

  /** `new String(b, Charset.forName("UTF-32LE"))`: a byte order mark in the first four bytes
      is dropped; the rest goes through the decoding loop. */
  function DecodeWide32(b: Bytes): (s: JString)
    ensures |s| <= 2 * ((|b| + 3) / 4)
  {
    if |b| >= 4 && Unsigned32(b) == BYTE_ORDER_MARK as int then Utf32Units(b[4..]) else Utf32Units(b)
  }

  /** A leading byte order mark is dropped; the same four bytes later on are decoded as U+FEFF. */
  lemma Wide32LeadingMark(b: Bytes)
    ensures DecodeWide32(CharBytes(BYTE_ORDER_MARK, Wide32) + b) == Utf32Units(b)
    ensures Utf32Units(CharBytes(BYTE_ORDER_MARK, Wide32) + b) == [BYTE_ORDER_MARK] + Utf32Units(b)
  {
    var m := CharBytes(BYTE_ORDER_MARK, Wide32);
    Unsigned32Prefix(m, b);
    assert Unsigned32(m) == BYTE_ORDER_MARK as int;
    assert (m + b)[4..] == b;
  }

  /** `new String(s.getBytes())` with the default charset UTF-8: surrogate pairs survive,
      an unpaired surrogate comes back as '?'. */
  function Sanitize(s: JString): (r: JString)
    ensures |r| == |s|
    ensures WellPaired(r)
    ensures WellPaired(s) ==> r == s
    ensures NoSurrogates(s) ==> r == s
    decreases |s|
  {
    if |s| == 0 then []
    else if |s| >= 2 && IsHighSurrogate(s[0]) && IsLowSurrogate(s[1]) then
      var rest := Sanitize(s[2..]);
      assert (s[..2] + rest)[2..] == rest && (s[..2] + rest)[..2] == s[..2];
      s[..2] + rest
    else if IsSurrogate(s[0]) then
      var rest := Sanitize(s[1..]);
      assert ([QUESTION_MARK] + rest)[1..] == rest;
      [QUESTION_MARK] + rest
    else
      assert NoSurrogates(s) ==> NoSurrogates(s[1..]);
      var rest := Sanitize(s[1..]);
      assert ([s[0]] + rest)[1..] == rest;
      [s[0]] + rest
  }

  /** The 32-bit decoding loop splits at any position that is a multiple of four. */
  lemma {:induction false} Utf32UnitsAppend(x: Bytes, y: Bytes)
    requires |x| % 4 == 0
    ensures Utf32Units(x + y) == Utf32Units(x) + Utf32Units(y)
    decreases |x|
  {
    if |x| > 0 {
      assert (x + y)[4..] == x[4..] + y;
      Utf32UnitsAppend(x[4..], y);
      Unsigned32Prefix(x, y);
      assert Utf32Units(x + y) == CodePointUnits(Unsigned32(x)) + Utf32Units(x[4..] + y);
    } else {
      assert x + y == y;
    }
  }

  /** A non-empty encoding begins with the first unit's bytes, followed by the rest's. */
  lemma {:induction false} StringBytesCons(s: JString, w: CharWidth, strip: JChar -> JChar)
    requires s != []
    ensures StringBytes(s, w, strip) == CharBytes(strip(s[0]), w) + StringBytes(s[1..], w, strip)
    decreases |s|
  {
    if |s| > 1 {
      var init := s[..|s| - 1];
      StringBytesCons(init, w, strip);
      assert init[0] == s[0];
      assert s[1..][..|s[1..]| - 1] == init[1..];
      assert s[1..][|s[1..]| - 1] == s[|s| - 1];
    } else {
      assert s[1..] == [];
    }
  }

  /** A high surrogate followed by a low one decodes to the pair. */
  lemma DecodeWide16Pair(b: Bytes)
    requires |b| >= 4 && IsHighSurrogate(Unit16(b)) && IsLowSurrogate(Unit16(b[2..]))
    ensures DecodeWide16(b) == [Unit16(b), Unit16(b[2..])] + DecodeWide16(b[4..])
  {
    assert b[2..][2..] == b[4..];
  }

  /** A well-paired text either begins with a unit that is not a surrogate, or with a
      high-low pair; what follows is well paired in both cases. */
  lemma WellPairedHead(t: JString)
    requires WellPaired(t) && t != []
    ensures !IsSurrogate(t[0]) ==> WellPaired(t[1..])
    ensures IsSurrogate(t[0]) ==> |t| >= 2 && IsHighSurrogate(t[0]) && IsLowSurrogate(t[1]) && WellPaired(t[2..])
  {
  }

  /** The 16-bit encoding of a text led by a unit that is neither a surrogate nor the
      byte-swapped mark decodes to that unit, followed by the decoding of the rest. */
  lemma Wide16PlainStep(s: JString, strip: JChar -> JChar)
    requires s != [] && !IsSurrogate(strip(s[0])) && strip(s[0]) != REVERSED_MARK
    ensures DecodeWide16(StringBytes(s, Wide16, strip)) == [strip(s[0])] + DecodeWide16(StringBytes(s[1..], Wide16, strip))
  {
    StringBytesCons(s, Wide16, strip);
    var b := StringBytes(s, Wide16, strip);
    assert Unit16(b) == strip(s[0]);
    assert b[2..] == StringBytes(s[1..], Wide16, strip);
    DecodeWide16Plain(b);
  }

  /** The 16-bit encoding of a text led by a high-low pair decodes to the pair, followed by
      the decoding of the rest. */
  lemma Wide16PairStep(s: JString, strip: JChar -> JChar)
    requires |s| >= 2 && IsHighSurrogate(strip(s[0])) && IsLowSurrogate(strip(s[1]))
    ensures DecodeWide16(StringBytes(s, Wide16, strip))
         == [strip(s[0]), strip(s[1])] + DecodeWide16(StringBytes(s[2..], Wide16, strip))
  {
    var rest := s[1..];
    StringBytesCons(s, Wide16, strip);
    StringBytesCons(rest, Wide16, strip);
    assert rest[0] == s[1] && rest[1..] == s[2..];
    var b := StringBytes(s, Wide16, strip);
    var r := StringBytes(rest, Wide16, strip);
    assert b[2..] == r;
    assert Unit16(b) == strip(s[0]);
    assert Unit16(r) == strip(s[1]);
    assert r[2..] == StringBytes(s[2..], Wide16, strip);
    assert b[4..] == r[2..];
    DecodeWide16Pair(b);
  }

  /** Stripping a text of two or more units strips the first two, then the rest. */
  lemma StripAllPair(s: JString, strip: JChar -> JChar)
    requires |s| >= 2
    ensures StripAll(s, strip) == [strip(s[0]), strip(s[1])] + StripAll(s[2..], strip)
    ensures StripAll(s, strip)[1] == strip(s[1]) && StripAll(s, strip)[2..] == StripAll(s[2..], strip)
  {
    var r := StripAll(s, strip);
    var u := StripAll(s[2..], strip);
    assert r[2..] == u by {
      forall i | 0 <= i < |u| ensures r[2..][i] == u[i] { assert s[2..][i] == s[i + 2]; }
    }
    assert r == r[..2] + r[2..];
    assert r[..2] == [strip(s[0]), strip(s[1])];
  }

  /** The text's units after the first one or two carry no byte-swapped mark either. */
  lemma NoReversedMarkAfter(s: JString, strip: JChar -> JChar, n: nat)
    requires n <= |s|
    requires forall i :: 0 <= i < |s| ==> strip(s[i]) != REVERSED_MARK
    ensures forall i :: 0 <= i < |s[n..]| ==> strip(s[n..][i]) != REVERSED_MARK
  {
    forall i | 0 <= i < |s[n..]| ensures strip(s[n..][i]) != REVERSED_MARK { assert s[n..][i] == s[i + n]; }
  }

  /** Decoding a 16-bit encoding gives back the stripped code units, provided they are well
      paired and none of them is the byte-swapped mark, which the decoder treats as malformed. */
  lemma {:induction false} Wide16RoundTrip(s: JString, strip: JChar -> JChar)
    requires WellPaired(StripAll(s, strip))
    requires forall i :: 0 <= i < |s| ==> strip(s[i]) != REVERSED_MARK
    ensures DecodeWide16(StringBytes(s, Wide16, strip)) == StripAll(s, strip)
    decreases |s|
  {
    if s != [] {
      var t := StripAll(s, strip);
      StripAllEnds(s, strip);
      assert t[0] == strip(s[0]) && t[1..] == StripAll(s[1..], strip);
      WellPairedHead(t);
      if !IsSurrogate(t[0]) {
        NoReversedMarkAfter(s, strip, 1);
        Wide16RoundTrip(s[1..], strip);
        Wide16PlainStep(s, strip);
      } else {
        StripAllPair(s, strip);
        NoReversedMarkAfter(s, strip, 2);
        Wide16RoundTrip(s[2..], strip);
        Wide16PairStep(s, strip);
      }
    }
  }

  /** The four bytes of a 32-bit unit read back as the unit. */
  lemma Wide32UnitValue(c: JChar)
    ensures Unsigned32(CharBytes(c, Wide32)) == c as int
    ensures CharBytes(c, Wide32)[4..] == []
  {
    var b := CharBytes(c, Wide32);
    assert Unsigned32(b) == b[0] as int + 0x100 * b[1] as int;
  }

  /** The decoding loop gives back the stripped code units of a 32-bit encoding. */
  lemma {:induction false} Utf32UnitsRoundTrip(s: JString, strip: JChar -> JChar)
    ensures Utf32Units(StringBytes(s, Wide32, strip)) == StripAll(s, strip)
    decreases |s|
  {
    if s != [] {
      var init := s[..|s| - 1];
      var c := strip(s[|s| - 1]);
      StripAllEnds(s, strip);
      Utf32UnitsRoundTrip(init, strip);
      var x := StringBytes(init, Wide32, strip);
      assert |x| == |init| * 4;
      FourfoldLength(|init|, |x|);
      Utf32UnitsAppend(x, CharBytes(c, Wide32));
      Utf32UnitsOne(c);
    }
  }

  /** Four times a count is a whole number of 32-bit units. */
  lemma FourfoldLength(n: nat, m: nat)
    requires m == n * 4
    ensures m % 4 == 0
  {
  }

  /** One code unit's four bytes decode to that unit. */
  lemma Utf32UnitsOne(c: JChar)
    ensures Utf32Units(CharBytes(c, Wide32)) == [c]
  {
    var b := CharBytes(c, Wide32);
    Wide32UnitValue(c);
    assert Utf32Units(b) == CodePointUnits(c as int) + Utf32Units(b[4..]);
  }

  /** Decoding a 32-bit encoding gives back the stripped code units, provided the first of them
      is not U+FEFF, which the decoder takes for a byte order mark and drops. */
  lemma Wide32RoundTrip(s: JString, strip: JChar -> JChar)
    requires |s| > 0 ==> strip(s[0]) != BYTE_ORDER_MARK
    ensures DecodeWide32(StringBytes(s, Wide32, strip)) == StripAll(s, strip)
  {
    Utf32UnitsRoundTrip(s, strip);
    if s != [] {
      StringBytesCons(s, Wide32, strip);
      var b := StringBytes(s, Wide32, strip);
      Unsigned32Prefix(CharBytes(strip(s[0]), Wide32), StringBytes(s[1..], Wide32, strip));
      Wide32UnitValue(strip(s[0]));
      assert Unsigned32(b) != BYTE_ORDER_MARK as int;
    }
  }

  // ---------------------------------------------------------------------------
  // UTF-8, the charset of `String.getBytes()` for names and inserted values

  /** The UTF-8 bytes of one code point. */
  function CodePointUtf8(cp: int): (b: Bytes)
    requires 0 <= cp < 0x11_0000
    ensures 1 <= |b| <= 4
    ensures |b| == 1 <==> cp < 0x80
  {
    if cp < 0x80 then [cp as byte]
    else if cp < 0x800 then [(0xC0 + cp / 0x40) as byte, (0x80 + cp % 0x40) as byte]
    else if cp < 0x1_0000 then
      [(0xE0 + cp / 0x1000) as byte, (0x80 + cp / 0x40 % 0x40) as byte, (0x80 + cp % 0x40) as byte]
    else
      [(0xF0 + cp / 0x4_0000) as byte, (0x80 + cp / 0x1000 % 0x40) as byte,
       (0x80 + cp / 0x40 % 0x40) as byte, (0x80 + cp % 0x40) as byte]
  }

  /** `s.getBytes(UTF_8)`: a surrogate pair is one four-byte code point, an unpaired
      surrogate is '?', every other unit is its code point's bytes. */
  function Utf8(s: JString): (b: Bytes)
    ensures |b| >= |s|
  {
    if |s| == 0 then []
    else if |s| >= 2 && IsHighSurrogate(s[0]) && IsLowSurrogate(s[1]) then
      CodePointUtf8(0x1_0000 + (s[0] as int - 0xD800) * 0x400 + (s[1] as int - 0xDC00)) + Utf8(s[2..])
    else if IsSurrogate(s[0]) then [QUESTION_MARK as byte] + Utf8(s[1..])
    else CodePointUtf8(s[0] as int) + Utf8(s[1..])
  }

  predicate IsAscii(s: JString) {
    forall i :: 0 <= i < |s| ==> s[i] < 0x80
  }

  /** UTF-8 writes an ASCII string as one byte per code unit, each equal to the unit. */
  lemma {:induction false} Utf8OfAscii(s: JString)
    requires IsAscii(s)
    ensures |Utf8(s)| == |s|
    ensures forall i :: 0 <= i < |s| ==> Utf8(s)[i] as int == s[i] as int
  {
    if |s| > 0 {
      assert IsAscii(s[1..]) by {
        forall i | 0 <= i < |s[1..]| ensures s[1..][i] < 0x80 { assert s[1..][i] == s[i + 1]; }
      }
      Utf8OfAscii(s[1..]);
      assert Utf8(s) == [s[0] as byte] + Utf8(s[1..]);
    }
  }

  /** A non-ASCII unit that is not a surrogate makes UTF-8 longer than the string. */
  lemma {:induction false} Utf8LongerThanNonAscii(s: JString, i: nat)
    requires i < |s| && s[i] >= 0x80 && !IsSurrogate(s[i])
    ensures |Utf8(s)| > |s|
  {
    if |s| >= 2 && IsHighSurrogate(s[0]) && IsLowSurrogate(s[1]) {
      assert |Utf8(s[2..])| >= |s| - 2;
    } else if IsSurrogate(s[0]) {
      assert i > 0;
      Utf8LongerThanNonAscii(s[1..], i - 1);
    } else if i == 0 {
      assert |CodePointUtf8(s[0] as int)| > 1;
    } else {
      Utf8LongerThanNonAscii(s[1..], i - 1);
    }
  }
}
