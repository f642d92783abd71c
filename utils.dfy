/**
 * The Base58Check address codec of the server's utility module: the
 * alphabet and its reverse table, hexadecimal conversion, the base-58
 * decoder and `base58ToHex`, and the checksummed encoder `hexToBase58`.
 */
module Utils {
  import opened Wrappers
  import opened Positional

  type Byte = b: int | 0 <= b < 256

  type Digit = d: int | 0 <= d < 58

  const Base: nat := 58

  /**
   * The 58 digit characters in digit order: no '0', 'O', 'I' or 'l'. The
   * literal is split at the gaps the alphabet leaves out.
   */
  const Alphabet: string := "123456789" + "ABCDEFGH" + "JKLMN" + "PQRSTUVWXYZ" + "abcdefghijk" + "mnopqrstuvwxyz"

  predicate Ascending(s: string)
  {
    forall i :: 0 < i < |s| ==> s[i - 1] < s[i]
  }

  lemma AlphabetAscending()
    ensures |Alphabet| == Base && Ascending(Alphabet)
  {
    var a, b, c := "123456789", "ABCDEFGH", "JKLMN";
    var d, e, f := "PQRSTUVWXYZ", "abcdefghijk", "mnopqrstuvwxyz";
    RangesAscending();
    AscendingConcat(a, b);
    AscendingConcat(a + b, c);
    AscendingConcat(a + b + c, d);
    AscendingConcat(a + b + c + d, e);
    AscendingConcat(a + b + c + d + e, f);
  }

  /** Each range of the alphabet is in character order. */
  lemma RangesAscending()
    ensures Ascending("123456789") && Ascending("ABCDEFGH") && Ascending("JKLMN")
    ensures Ascending("PQRSTUVWXYZ") && Ascending("abcdefghijk") && Ascending("mnopqrstuvwxyz")
  {
    assert Ascending("123456789") by { }
    assert Ascending("ABCDEFGH") by { }
    assert Ascending("JKLMN") by { }
    assert Ascending("PQRSTUVWXYZ") by { }
    assert Ascending("abcdefghijk") by { }
  }

  lemma AscendingConcat(s: string, t: string)
    requires Ascending(s) && Ascending(t) && s != [] && t != [] && s[|s| - 1] < t[0]
    ensures Ascending(s + t) && (s + t)[|s + t| - 1] == t[|t| - 1]
  {
  }

  lemma AscendingPair(s: string, i: int, j: int)
    requires Ascending(s) && 0 <= i < j < |s|
    ensures s[i] < s[j]
    decreases j - i
  {
    if i + 1 < j {
      AscendingPair(s, i + 1, j);
    }
  }

  lemma AlphabetDistinct()
    ensures Distinct(Alphabet)
  {
    AlphabetAscending();
    forall i, j | 0 <= i < j < |Alphabet|
      ensures Alphabet[i] != Alphabet[j]
    {
      AscendingPair(Alphabet, i, j);
    }
  }

  /** The table from each character of `s` to its position in `s`. */
  function IndexTable(s: string): (r: map<char, int>)
    requires Distinct(s)
    ensures forall i :: 0 <= i < |s| ==> s[i] in r && r[s[i]] == i
    ensures forall c :: c in r ==> 0 <= r[c] < |s| && s[r[c]] == c
  {
    var r := map i | 0 <= i < |s| :: s[i] := i;
    assert forall i :: 0 <= i < |s| ==> s[i] in r && r[s[i]] == i by {
      forall i | 0 <= i < |s|
        ensures s[i] in r && r[s[i]] == i
      {
        assert s[i] in r.Keys;
      }
    }
    r
  }

  /**
   * The table filled by the loop over the alphabet: character `s[i]` maps
   * to `i`, for every position in turn.
   */
  method BuildIndexTable(s: string) returns (m: map<char, int>)
    requires Distinct(s)
    ensures m == IndexTable(s)
  {
    var table := IndexTable(s);
    m := map[];
    for i := 0 to |s|
      invariant forall k :: 0 <= k < i ==> s[k] in m && m[s[k]] == k
      invariant forall c :: c in m ==> c in table && table[c] < i
    {
      m := m[s[i] := i];
    }
    assert forall c :: c in table ==> c in m by {
      forall c | c in table
        ensures c in m
      {
        assert s[table[c]] == c;
      }
    }
  }

  /** The reverse table: each alphabet character to its digit. */
  const AlphabetMap: map<char, Digit> := (AlphabetDistinct(); IndexTable(Alphabet))

  /** The table and the alphabet are inverse to each other. */
  lemma AlphabetMapInverse()
    ensures forall d: Digit :: Alphabet[d] in AlphabetMap && AlphabetMap[Alphabet[d]] == d
    ensures forall c :: c in AlphabetMap ==> Alphabet[AlphabetMap[c]] == c
  {
    AlphabetDistinct();
  }

  /** A character that falls between two neighbours of the alphabet, or before its first, is no digit. */
  lemma NotADigit(x: char, i: int)
    requires -1 <= i < |Alphabet| - 1
    requires (i < 0 || Alphabet[i] < x) && x < Alphabet[i + 1]
    ensures x !in AlphabetMap
  {
    AlphabetDistinct();
    AlphabetAscending();
    if x in AlphabetMap {
      var d := AlphabetMap[x];
      assert Alphabet[d] == x;
      if d <= i {
        if d < i {
          AscendingPair(Alphabet, d, i);
        }
      } else if d > i + 1 {
        AscendingPair(Alphabet, i + 1, d);
      }
    }
  }

  /** The characters that look alike in print are not digits; '1' is digit zero and no other. */
  lemma AlphabetExcludes()
    ensures '0' !in AlphabetMap && 'O' !in AlphabetMap && 'I' !in AlphabetMap && 'l' !in AlphabetMap
    ensures '1' in AlphabetMap && AlphabetMap['1'] == 0
    ensures forall d: Digit :: Alphabet[d] == '1' <==> d == 0
  {
    AlphabetDistinct();
    assert Alphabet[0] == '1' && Alphabet[1] == '2';
    assert Alphabet[16] == 'H' && Alphabet[17] == 'J';
    assert Alphabet[21] == 'N' && Alphabet[22] == 'P';
    assert Alphabet[43] == 'k' && Alphabet[44] == 'm';
    NotADigit('0', -1);
    NotADigit('I', 16);
    NotADigit('O', 21);
    NotADigit('l', 43);
  }

  // Hexadecimal text

  predicate IsHexChar(c: char)
  {
    '0' <= c <= '9' || 'a' <= c <= 'f' || 'A' <= c <= 'F'
  }

  predicate IsLowerHexChar(c: char)
  {
    '0' <= c <= '9' || 'a' <= c <= 'f'
  }

  /** Text that decodes to whole bytes: an even number of hexadecimal digits. */
  predicate IsHex(s: string)
  {
    |s| % 2 == 0 && forall i :: 0 <= i < |s| ==> IsHexChar(s[i])
  }

  /** Hexadecimal text as the encoder writes it: lowercase, whole bytes. */
  predicate IsLowerHex(s: string)
  {
    |s| % 2 == 0 && forall i :: 0 <= i < |s| ==> IsLowerHexChar(s[i])
  }

  function HexValue(c: char): (n: int)
    requires IsHexChar(c)
    ensures 0 <= n < 16
  {
    if c <= '9' then c as int - '0' as int
    else if c >= 'a' then c as int - 'a' as int + 10
    else c as int - 'A' as int + 10
  }

  /** The lowercase digit for `n`, the digit `toString(16)` writes. */
  function HexDigit(n: int): (c: char)
    requires 0 <= n < 16
    ensures IsLowerHexChar(c) && HexValue(c) == n
  {
    if n < 10 then ('0' as int + n) as char else ('a' as int + n - 10) as char
  }

  /** A lowercase digit is determined by its value. */
  lemma HexDigitOfValue(c: char)
    requires IsLowerHexChar(c)
    ensures HexDigit(HexValue(c)) == c
  {
  }

  /** `n.toString(16)` for a byte: one digit below 16, two from there on, most significant first. */
  function ToBase16(n: Byte): (r: string)
    ensures 1 <= |r| <= 2
    ensures forall i :: 0 <= i < |r| ==> IsLowerHexChar(r[i])
    ensures |r| == 1 <==> n < 16
    ensures n < 16 ==> IsHexChar(r[0]) && HexValue(r[0]) == n
    ensures n >= 16 ==> IsHexChar(r[0]) && IsHexChar(r[1]) && HexValue(r[0]) * 16 + HexValue(r[1]) == n
  {
    if n < 16 then [HexDigit(n)] else [HexDigit(n / 16), HexDigit(n % 16)]
  }

  /**
   * One byte as two lowercase digits: '0' is put in front and the last two
   * characters are kept. The mask with 0xFF leaves a byte unchanged.
   */
  function ByteToHex(n: Byte): (r: string)
    ensures |r| == 2 && IsLowerHex(r)
    ensures HexValue(r[0]) * 16 + HexValue(r[1]) == n
  {
    var padded := "0" + ToBase16(n);
    padded[|padded| - 2..]
  }

  /** `Buffer.from(s, 'hex')` on well-formed text: one byte per digit pair, high digit first. */
  function HexDecode(s: string): (r: seq<Byte>)
    requires IsHex(s)
    ensures |r| == |s| / 2
    ensures forall i :: 0 <= i < |r| ==> r[i] == HexValue(s[2 * i]) * 16 + HexValue(s[2 * i + 1])
  {
    if s == [] then [] else [HexValue(s[0]) * 16 + HexValue(s[1])] + HexDecode(s[2..])
  }

  lemma HexDecodeAppend(s: string, t: string)
    requires IsHex(s) && IsHex(t)
    ensures IsHex(s + t)
    ensures HexDecode(s + t) == HexDecode(s) + HexDecode(t)
  {
    var u := s + t;
    assert IsHex(u);
    var l, r := HexDecode(u), HexDecode(s) + HexDecode(t);
    forall i | 0 <= i < |l|
      ensures l[i] == r[i]
    {
      if i >= |s| / 2 {
        var k := i - |s| / 2;
        assert u[2 * i] == t[2 * k] && u[2 * i + 1] == t[2 * k + 1];
      }
    }
  }

  lemma ByteToHexDecodes(n: Byte)
    ensures IsHex(ByteToHex(n)) && HexDecode(ByteToHex(n)) == [n]
  {
    var h := ByteToHex(n);
    assert IsHexChar(h[0]) && IsHexChar(h[1]);
    assert h[2..] == [];
  }

  /**
   * toHexString: each byte, masked with 0xFF, written with `toString(16)`,
   * given a leading '0' and cut to its last two characters; the pieces are
   * joined in order, so two lowercase digits per byte.
   */
  function ToHexString(bytes: seq<Byte>): (r: string)
    ensures |r| == 2 * |bytes| && IsLowerHex(r)
  {
    if bytes == [] then "" else ByteToHex(bytes[0]) + ToHexString(bytes[1..])
  }

  /** `HexDecode` undoes `ToHexString`. */
  lemma {:induction false} HexDecodeOfToHexString(bytes: seq<Byte>)
    ensures IsHex(ToHexString(bytes)) && HexDecode(ToHexString(bytes)) == bytes
  {
    if bytes != [] {
      var head, rest := ByteToHex(bytes[0]), ToHexString(bytes[1..]);
      HexDecodeOfToHexString(bytes[1..]);
      ByteToHexDecodes(bytes[0]);
      HexDecodeAppend(head, rest);
      assert ToHexString(bytes) == head + rest;
      assert HexDecode(head + rest) == [bytes[0]] + bytes[1..];
      FirstAndRest(bytes);
    }
  }

  /** Two lowercase texts with the same bytes are the same text. */
  lemma {:induction false} HexDecodeInjective(a: string, b: string)
    requires IsLowerHex(a) && IsLowerHex(b)
    requires HexDecode(a) == HexDecode(b)
    ensures a == b
    decreases |a|
  {
    if a != [] {
      HexDecodeFirst(a);
      HexDecodeFirst(b);
      ConsInjective(HexDecode(a)[0], HexDecode(b)[0], HexDecode(a[2..]), HexDecode(b[2..]));
      SameByte(a[0], a[1], b[0], b[1]);
      HexDecodeInjective(a[2..], b[2..]);
      SameFirstTwo(a, b);
    }
  }

  /** Lowercase hexadecimal text is its first byte's two digits followed by the rest. */
  lemma HexDecodeFirst(s: string)
    requires IsLowerHex(s) && s != []
    ensures |s| >= 2 && IsLowerHex(s[2..]) && IsLowerHexChar(s[0]) && IsLowerHexChar(s[1])
    ensures HexDecode(s) == [HexValue(s[0]) * 16 + HexValue(s[1])] + HexDecode(s[2..])
    ensures HexDecode(s)[0] == HexValue(s[0]) * 16 + HexValue(s[1])
  {
    assert IsLowerHexChar(s[0]) && IsLowerHexChar(s[1]);
  }

  lemma ConsInjective<T>(x: T, y: T, xs: seq<T>, ys: seq<T>)
    requires [x] + xs == [y] + ys
    ensures x == y && xs == ys
  {
    assert x == ([x] + xs)[0];
    assert xs == ([x] + xs)[1..];
  }

  /** Sequences that agree on their first two elements and on the rest are equal. */
  lemma SameFirstTwo<T>(a: seq<T>, b: seq<T>)
    requires |a| == |b| >= 2 && a[0] == b[0] && a[1] == b[1] && a[2..] == b[2..]
    ensures a == b
  {
    assert a == [a[0], a[1]] + a[2..];
    assert b == [b[0], b[1]] + b[2..];
  }

  lemma SameByte(hi: char, lo: char, hi': char, lo': char)
    requires IsLowerHexChar(hi) && IsLowerHexChar(lo) && IsLowerHexChar(hi') && IsLowerHexChar(lo')
    requires HexValue(hi) * 16 + HexValue(lo) == HexValue(hi') * 16 + HexValue(lo')
    ensures hi == hi' && lo == lo'
  {
    HexDigitOfValue(hi);
    HexDigitOfValue(hi');
    HexDigitOfValue(lo);
    HexDigitOfValue(lo');
  }

  /** On lowercase text, `ToHexString` undoes `HexDecode`. */
  lemma ToHexStringOfHexDecode(h: string)
    requires IsLowerHex(h)
    ensures IsHex(h) && ToHexString(HexDecode(h)) == h
  {
    HexDecodeOfToHexString(HexDecode(h));
    HexDecodeInjective(ToHexString(HexDecode(h)), h);
  }

  // SHA-256

  /** A SHA-256 digest as 64 lowercase hexadecimal digits. */
  type HexDigest = h: string | |h| == 64 && IsLowerHex(h) witness Repeat('0', 64)

  /** SHA-256 of hexadecimal text, digest in hexadecimal; the hash itself is a parameter. */
  type Sha256 = string -> HexDigest

  // Base-58 text

  datatype CodecError = NonBase58Character

  /** Every character is in the alphabet. */
  predicate IsBase58(s: string)
  {
    forall i :: 0 <= i < |s| ==> s[i] in AlphabetMap
  }

  /** The digits of base-58 text, most significant first. */
  function DigitsOf(s: string): (ds: seq<int>)
    requires IsBase58(s)
    ensures |ds| == |s| && IsDigits(ds, Base)
  {
    seq(|s|, i requires 0 <= i < |s| => AlphabetMap[s[i]])
  }

  /** The text of big-endian base-58 digits, one alphabet character per digit. */
  function Chars(ds: seq<int>): (s: string)
    requires IsDigits(ds, Base)
    ensures |s| == |ds|
  {
    seq(|ds|, i requires 0 <= i < |ds| => Alphabet[ds[i]])
  }

  /** `DigitsOf` reads back the digits `Chars` spells. */
  lemma DigitsOfChars(ds: seq<int>)
    requires IsDigits(ds, Base)
    ensures IsBase58(Chars(ds)) && DigitsOf(Chars(ds)) == ds
  {
    AlphabetMapInverse();
  }

  lemma CharsOfDigitsOf(s: string)
    requires IsBase58(s)
    ensures Chars(DigitsOf(s)) == s
  {
    AlphabetMapInverse();
  }

  /** Leading '1' characters are exactly the leading zero digits. */
  lemma LeadingOnes(ds: seq<int>)
    requires IsDigits(ds, Base)
    ensures LeadingRun(Chars(ds), '1') == LeadingRun(ds, 0)
  {
    AlphabetExcludes();
    if ds != [] {
      LeadingRunUnique(Chars(ds), '1', LeadingRun(ds, 0));
    }
  }

  function Base58Value(s: string): nat
    requires IsBase58(s)
  {
    BeValueBounds(DigitsOf(s), Base);
    BeValue(DigitsOf(s), Base)
  }

  lemma Base58ValueSnoc(s: string, i: nat)
    requires i < |s| && IsBase58(s[..i]) && s[i] in AlphabetMap
    ensures IsBase58(s[..i + 1])
    ensures Base58Value(s[..i + 1]) == Base58Value(s[..i]) * Base + AlphabetMap[s[i]]
  {
    assert forall k :: 0 <= k < i + 1 ==> s[..i + 1][k] == s[k];
    assert IsBase58(s[..i + 1]);
    var ds := DigitsOf(s[..i + 1]);
    assert ds[..i] == DigitsOf(s[..i]);
  }

  /**
   * The result of decode58: no bytes for empty text, an error for a
   * character outside the alphabet, and otherwise one zero byte per leading
   * '1' (never counting the last character) followed by the value of the
   * text in big-endian base 256 without leading zeros.
   */
  function Decoded(s: string): Result<seq<Byte>, CodecError>
  {
    if |s| == 0 then Ok([])
    else if !IsBase58(s) then Err(NonBase58Character)
    else Ok(Repeat(0, LeadingRun(s, '1')) + Reverse(Canon(Base58Value(s), 256)))
  }

  /**
   * The inverse of decode58 that hexToBase58 applies to its checked buffer:
   * one '1' per leading zero byte (never counting the last byte), then the
   * value of the bytes in big-endian base 58 without leading zeros.
   */
  function Encoded(buffer: seq<Byte>): (s: string)
    ensures |s| >= 1
  {
    BeValueBounds(buffer, 256);
    Chars(Repeat(0, LeadingRun(buffer, 0)) + Reverse(Canon(BeValue(buffer, 256), Base)))
  }

  /** decode58 gives no bytes for empty text and fails exactly when some character is outside the alphabet. */
  lemma DecodedFails(s: string)
    ensures s == [] ==> Decoded(s) == Ok([])
    ensures Decoded(s).Err? <==> exists i :: 0 <= i < |s| && s[i] !in AlphabetMap
  {
  }

  /** A character outside the alphabet makes decode58 fail. */
  lemma DecodedFailsAt(s: string, i: nat)
    requires i < |s| && s[i] !in AlphabetMap
    ensures Decoded(s) == Err(NonBase58Character)
  {
  }

  /**
   * Decoded bytes keep the value of the text, and as many leading zero bytes
   * as the text has leading '1' characters.
   */
  lemma DecodedValue(s: string)
    requires |s| >= 1 && IsBase58(s)
    ensures Decoded(s).Ok? && |Decoded(s).value| >= 1
    ensures BeValue(Decoded(s).value, 256) == Base58Value(s)
    ensures LeadingRun(Decoded(s).value, 0) == LeadingRun(s, '1')
  {
    ZerosThenCanon(LeadingRun(s, '1'), Base58Value(s), 256);
  }

  /**
   * Encoded text keeps the value of the bytes, and has as many leading '1'
   * characters as the bytes have leading zero bytes.
   */
  lemma EncodedValue(buffer: seq<Byte>)
    ensures IsBase58(Encoded(buffer))
    ensures Base58Value(Encoded(buffer)) == BeValue(buffer, 256)
    ensures LeadingRun(Encoded(buffer), '1') == LeadingRun(buffer, 0)
  {
    BeValueBounds(buffer, 256);
    var z, v := LeadingRun(buffer, 0), BeValue(buffer, 256);
    var ds := Repeat(0, z) + Reverse(Canon(v, Base));
    DigitsOfChars(ds);
    ZerosThenCanon(z, v, Base);
    LeadingOnes(ds);
  }

  /** Decoding the encoding of a nonempty buffer gives the buffer back. */
  lemma DecodeEncode(buffer: seq<Byte>)
    requires |buffer| >= 1
    ensures Decoded(Encoded(buffer)) == Ok(buffer)
  {
    EncodedValue(buffer);
    DecodesTo(Encoded(buffer), buffer);
  }

  /** Text decodes to the bytes that have its value and its count of leading zeros. */
  lemma DecodesTo(s: string, buffer: seq<Byte>)
    requires |s| >= 1 && IsBase58(s) && |buffer| >= 1
    requires LeadingRun(s, '1') == LeadingRun(buffer, 0)
    requires Base58Value(s) == BeValue(buffer, 256)
    ensures Decoded(s) == Ok(buffer)
  {
    var k := LeadingRun<Byte>(buffer, 0);
    LeadingRunUnique<int>(buffer, 0, k);
    SplitCanonical(buffer, 256);
    DecodedShape(s, k, BeValue(buffer, 256));
  }

  lemma DecodedShape(s: string, k: nat, v: nat)
    requires |s| >= 1 && IsBase58(s)
    requires LeadingRun(s, '1') == k && Base58Value(s) == v
    ensures Decoded(s) == Ok(Repeat(0, k) + Reverse(Canon(v, 256)))
  {
  }

  /** Encoding the decoding of nonempty base-58 text gives the text back. */
  lemma EncodeDecode(s: string)
    requires |s| >= 1 && IsBase58(s)
    ensures Decoded(s).Ok? && Encoded(Decoded(s).value) == s
  {
    var ds := DigitsOf(s);
    var k, v := LeadingRun(s, '1'), Base58Value(s);
    var bytes := Decoded(s).value;
    assert LeadingRun(bytes, 0) == k && BeValue(bytes, 256) == v by {
      DecodedValue(s);
    }
    assert ds == Repeat(0, k) + Reverse(Canon(v, Base)) by {
      LeadingOnes(ds);
      CharsOfDigitsOf(s);
      SplitCanonical(ds, Base);
    }
    CharsOfDigitsOf(s);
  }

  /**
   * The empty buffer is the one the round trip misses: it encodes as "1",
   * which decodes to a single zero byte.
   */
  lemma EmptyBufferRoundTrip()
    ensures Encoded([]) == "1"
    ensures Decoded("1") == Ok([0])
  {
    AlphabetExcludes();
    EncodedEmpty();
    DecodedOne();
  }

  lemma EncodedEmpty()
    ensures Encoded([]) == "1"
  {
    var ds := Repeat(0, LeadingRun([], 0)) + Reverse(Canon(BeValue([], 256), Base));
    assert Canon(0, Base) == [0];
    assert ds == [0];
    assert Alphabet[0] == '1';
  }

  lemma DecodedOne()
    ensures Decoded("1") == Ok([0])
  {
    AlphabetExcludes();
    assert IsBase58("1");
    assert DigitsOf("1") == [0];
    assert Base58Value("1") == 0;
    assert LeadingRun("1", '1') == 0;
    assert Canon(0, 256) == [0];
    DecodedShape("1", 0, 0);
    assert Repeat(0, 0) + Reverse([0]) == [0];
  }

  /**
   * One round of decode58 for the digit `d`: the little-endian base-256
   * array is multiplied by 58, `d` is added at the bottom, the carries are
   * propagated and what is left of the carry is pushed on top. No value
   * exceeds 255 * 58 + 57 + 58 < 2^15, so `>> 8` and `& 0xff` are division
   * and remainder by 256.
   */
  method Decode58Round(bytes: seq<int>, d: Digit) returns (r: seq<int>)
    requires IsDigits(bytes, 256) && Trimmed(bytes)
    ensures LeValue(bytes, 256) >= 0
    ensures r == Canon(LeValue(bytes, 256) * Base + d, 256)
  {
    r := MultiplyAdd(bytes, Base, d, 256, 255 * Base + Base - 1, Base);
  }

  /**
   * One round of hexToBase58 for the byte `x`: the little-endian base-58
   * array is shifted left by 8 bits, `x` is added at the bottom, the carries
   * are propagated and what is left of the carry is pushed on top. No value
   * exceeds 57 * 256 + 255 + 260 < 2^15, so `<< 8` is a multiplication by
   * 256 and `(y / 58) | 0` is division by 58.
   */
  method Base58Round(digits: seq<int>, x: Byte) returns (r: seq<int>)
    requires IsDigits(digits, Base) && Trimmed(digits)
    ensures LeValue(digits, Base) >= 0
    ensures r == Canon(LeValue(digits, Base) * 256 + x, Base)
  {
    r := MultiplyAdd(digits, 256, x, Base, (Base - 1) * 256 + 255, 260);
  }

  /**
   * decode58 as the module writes it: a multiply-add-carry round per
   * character on a little-endian byte array, then a zero byte per leading
   * '1', then the array reversed.
   */
  method Decode58(s: string) returns (r: Result<seq<Byte>, CodecError>)
    ensures r == Decoded(s)
  {
    if |s| == 0 {
      return Ok([]);
    }
    var digits := Base256Digits(s);
    if digits.Err? {
      return Err(NonBase58Character);
    }
    var bytes := digits.value;
    ghost var canon := bytes;
    var i := 0;
    while s[i] == '1' && i < |s| - 1
      invariant 0 <= i <= LeadingRun(s, '1')
      invariant bytes == canon + Repeat(0, i)
    {
      LeadingRunGrows(s, '1', i);
      PadStep(canon, 0, i);
      bytes := bytes + [0];
      i := i + 1;
    }
    LeadingRunStops(s, '1', i);
    DecodedFromDigits(s, canon, i);
    r := Ok(Reverse(bytes));
  }

  /**
   * The first loop of decode58: a round per character, from the first, on a
   * little-endian byte array, stopping with an error at the first character
   * outside the alphabet.
   */
  method Base256Digits(s: string) returns (r: Result<seq<int>, CodecError>)
    ensures r.Ok? <==> IsBase58(s)
    ensures r.Ok? ==> r.value == Canon(Base58Value(s), 256)
    ensures r.Err? ==> r.error == NonBase58Character
  {
    var bytes: seq<int> := [0];
    var i := 0;
    assert s[..0] == "";
    while i < |s|
      invariant 0 <= i <= |s|
      invariant IsBase58(s[..i])
      invariant bytes == Canon(Base58Value(s[..i]), 256)
    {
      var c := s[i];
      if c !in AlphabetMap {
        return Err(NonBase58Character);
      }
      Base58ValueSnoc(s, i);
      bytes := Decode58Round(bytes, AlphabetMap[c]);
      i := i + 1;
    }
    assert s[..i] == s;
    r := Ok(bytes);
  }

  /** The loops' final array, reversed, is the decoding. */
  lemma DecodedFromDigits(s: string, canon: seq<int>, k: nat)
    requires |s| >= 1 && IsBase58(s)
    requires canon == Canon(Base58Value(s), 256) && k == LeadingRun(s, '1')
    ensures IsDigits(Reverse(canon + Repeat(0, k)), 256)
    ensures Decoded(s) == Ok(Reverse(canon + Repeat(0, k)))
  {
    DecodedShape(s, k, Base58Value(s));
    ReverseAppend(canon, Repeat(0, k));
    ReverseRepeat(0, k);
    assert Reverse(canon + Repeat(0, k)) == Repeat(0, k) + Reverse(canon);
  }

  /** The bytes hexToBase58 encodes: the bytes of `hex` and then the first four bytes of its double SHA-256. */
  function CheckedBuffer(hex: string, sha256: Sha256): (buffer: seq<Byte>)
    requires IsHex(hex)
    ensures |buffer| == |hex| / 2 + 4
    ensures buffer[..|hex| / 2] == HexDecode(hex)
    ensures buffer[|hex| / 2..] == HexDecode(sha256(sha256(hex))[..8])
  {
    var checksum := sha256(sha256(hex))[..8];
    HexDecodeAppend(hex, checksum);
    HexDecode(hex + checksum)
  }

  /** The address hexToBase58 computes for `hex`. */
  function Base58Check(hex: string, sha256: Sha256): string
    requires IsHex(hex)
  {
    Encoded(CheckedBuffer(hex, sha256))
  }

  /**
   * hexToBase58 as the module writes it: the double SHA-256 of the text,
   * the buffer of its bytes and the first four checksum bytes, and that
   * buffer in base 58.
   */
  method HexToBase58(hex: string, sha256: Sha256) returns (address: string)
    requires IsHex(hex)
    ensures address == Base58Check(hex, sha256)
  {
    var primary := sha256(hex);
    var secondary := sha256(primary);
    var checksum := secondary[..8];
    HexDecodeAppend(hex, checksum);
    var buffer := HexDecode(hex + checksum);
    address := Encode58(buffer);
  }

  /**
   * The base-58 part of hexToBase58: a shift-add-carry round per byte on a
   * little-endian base-58 array, then a zero digit per leading zero byte,
   * then the digits reversed and spelt with the alphabet. The leading-zero
   * test reads `i < |buffer| - 1` first so that the index stays in range;
   * the source reads `buffer[i]` first, which on an empty buffer is
   * `undefined` and stops the loop all the same.
   */
  method Encode58(buffer: seq<Byte>) returns (address: string)
    ensures address == Encoded(buffer)
  {
    var digits := Base58Digits(buffer);
    ghost var canon := digits;
    var i := 0;
    while i < |buffer| - 1 && buffer[i] == 0
      invariant 0 <= i <= LeadingRun(buffer, 0)
      invariant digits == canon + Repeat(0, i)
    {
      LeadingRunGrows(buffer, 0, i);
      PadStep(canon, 0, i);
      digits := digits + [0];
      i := i + 1;
    }
    LeadingRunStops(buffer, 0, i);
    EncodedFromDigits(buffer, canon, i);
    address := Chars(Reverse(digits));
  }

  /**
   * The rounds of hexToBase58, one per byte from the first: the
   * little-endian base-58 digits of the buffer's big-endian value.
   */
  method Base58Digits(buffer: seq<Byte>) returns (digits: seq<int>)
    ensures BeValue(buffer, 256) >= 0
    ensures digits == Canon(BeValue(buffer, 256), Base)
  {
    digits := [0];
    ghost var v: nat := 0;
    var i := 0;
    while i < |buffer|
      invariant 0 <= i <= |buffer|
      invariant v == BeValue(buffer[..i], 256)
      invariant digits == Canon(v, Base)
    {
      BeValuePrefix(buffer, i, 256);
      digits := Base58Round(digits, buffer[i]);
      v := v * 256 + buffer[i];
      i := i + 1;
    }
    assert buffer[..i] == buffer;
  }

  /** The loops' final array, reversed and spelt, is the encoding. */
  lemma EncodedFromDigits(buffer: seq<Byte>, canon: seq<int>, k: nat)
    requires BeValue(buffer, 256) >= 0 && canon == Canon(BeValue(buffer, 256), Base)
    requires k == LeadingRun(buffer, 0)
    ensures IsDigits(Reverse(canon + Repeat(0, k)), Base)
    ensures Encoded(buffer) == Chars(Reverse(canon + Repeat(0, k)))
  {
    ReverseAppend(canon, Repeat(0, k));
    ReverseRepeat(0, k);
    assert Reverse(canon + Repeat(0, k)) == Repeat(0, k) + Reverse(canon);
  }

  /**
   * base58ToHex: the decoded bytes without their last four, as lowercase
   * hexadecimal, or `None` (the source's `null`) when no more than four
   * bytes decode. A decoding error is passed on to the caller.
   */
  function Base58ToHex(pub: string): (r: Result<Option<string>, CodecError>)
    ensures r.Err? <==> Decoded(pub).Err?
    ensures r.Ok? ==> (r.value.None? <==> |Decoded(pub).value| <= 4)
    ensures r.Ok? && r.value.Some? ==>
      var bytes := Decoded(pub).value;
      IsLowerHex(r.value.value) && HexDecode(r.value.value) + bytes[|bytes| - 4..] == bytes
  {
    match Decoded(pub)
    case Err(e) => Err(e)
    case Ok(bytes) =>
      if |bytes| <= 4 then Ok(None)
      else
        var data := bytes[..|bytes| - 4];
        assert data + bytes[|bytes| - 4..] == bytes;
        HexDecodeOfToHexString(data);
        Ok(Some(ToHexString(data)))
  }

  /**
   * The address of nonempty lowercase hexadecimal gives the hexadecimal
   * back, whatever the hash.
   */
  lemma Base58CheckRoundTrip(hex: string, sha256: Sha256)
    requires IsLowerHex(hex) && |hex| >= 2
    ensures Base58ToHex(Base58Check(hex, sha256)) == Ok(Some(hex))
  {
    var buffer := CheckedBuffer(hex, sha256);
    DecodeEncode(buffer);
    ToHexStringOfHexDecode(hex);
    assert buffer[..|buffer| - 4] == HexDecode(hex);
  }

  /**
   * The address of the empty text holds only the four checksum bytes, so
   * base58ToHex gives `None` for it.
   */
  lemma EmptyHexRoundTrip(sha256: Sha256)
    ensures Base58ToHex(Base58Check("", sha256)) == Ok(None)
  {
    DecodeEncode(CheckedBuffer("", sha256));
  }

  /**
   * base58ToHex does not check the checksum: whatever four bytes follow the
   * data, the data comes back.
   */
  lemma ChecksumIgnored(data: seq<Byte>, tail: seq<Byte>)
    requires |data| >= 1 && |tail| == 4
    ensures Base58ToHex(Encoded(data + tail)) == Ok(Some(ToHexString(data)))
  {
    DecodeEncode(data + tail);
    assert (data + tail)[..|data|] == data;
  }
}
