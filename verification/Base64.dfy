/** The Base64 coder with its buffers. Shifts and ors of disjoint bit ranges are written as * / % and +. */
module Base64 {
  import opened Common
  import opened Base64Spec
  import opened Base64Text

  // ---- one block at a time ----

  lemma AppendByte(a: nat, x: nat, b: Byte)
    ensures Bits(a + 8, x * 256 + b) == Bits(a, x) + Bits(8, b)
  {
    SmallPowers();
    BitsJoin(a, x, 8, b);
  }

  lemma AppendSextet(a: nat, x: nat, q: Sextet)
    ensures Bits(a + 6, x * 64 + q) == Bits(a, x) + Bits(6, q)
  {
    SmallPowers();
    BitsJoin(a, x, 6, q);
  }

  lemma AppendTwoBits(a: nat, x: nat, y: nat)
    requires y < 4
    ensures Bits(a + 2, x * 4 + y) == Bits(a, x) + Bits(2, y)
  {
    assert Power(2) == 4;
    BitsJoin(a, x, 2, y);
  }

  lemma AppendFourBits(a: nat, x: nat, y: nat)
    requires y < 16
    ensures Bits(a + 4, x * 16 + y) == Bits(a, x) + Bits(4, y)
  {
    assert Power(2) == 4;
    assert Power(4) == 16;
    BitsJoin(a, x, 4, y);
  }

  lemma OneByte(b0: Byte)
    ensures BytesToBits([b0]) == Bits(8, b0)
  {
    assert [b0][1..] == [];
  }

  lemma OneMoreByte(d: seq<Byte>, a: nat, x: nat, b: Byte, v: nat)
    requires BytesToBits(d) == Bits(a, x) && v == x * 256 + b
    ensures BytesToBits(d + [b]) == Bits(a + 8, v)
  {
    AppendByte(a, x, b);
    BytesToBitsConcat(d, [b]);
    OneByte(b);
  }

  lemma TwoBytes(b0: Byte, b1: Byte, v: nat)
    requires v == b0 as int * 256 + b1
    ensures BytesToBits([b0, b1]) == Bits(16, v)
  {
    OneByte(b0);
    OneMoreByte([b0], 8, b0, b1, v);
    assert [b0] + [b1] == [b0, b1];
  }

  lemma ThreeBytes(b0: Byte, b1: Byte, b2: Byte, x: nat, v: nat)
    requires x == b0 as int * 256 + b1 && v == x * 256 + b2
    ensures BytesToBits([b0, b1, b2]) == Bits(24, v)
  {
    TwoBytes(b0, b1, x);
    OneMoreByte([b0, b1], 16, x, b2, v);
    assert [b0, b1] + [b2] == [b0, b1, b2];
  }

  lemma OneMoreSextet(s: seq<Sextet>, a: nat, x: nat, q: Sextet, v: nat)
    requires SextetsToBits(s) == Bits(a, x) && v == x * 64 + q
    ensures SextetsToBits(s + [q]) == Bits(a + 6, v)
  {
    AppendSextet(a, x, q);
    SextetsToBitsConcat(s, [q]);
    OneSextet(q);
  }

  lemma TwoSextets(q0: Sextet, q1: Sextet, v: nat)
    requires v == q0 as int * 64 + q1
    ensures SextetsToBits([q0, q1]) == Bits(12, v)
  {
    OneSextet(q0);
    OneMoreSextet([q0], 6, q0, q1, v);
    assert [q0] + [q1] == [q0, q1];
  }

  lemma ThreeSextets(q0: Sextet, q1: Sextet, q2: Sextet, x: nat, v: nat)
    requires x == q0 as int * 64 + q1 && v == x * 64 + q2
    ensures SextetsToBits([q0, q1, q2]) == Bits(18, v)
  {
    TwoSextets(q0, q1, x);
    OneMoreSextet([q0, q1], 12, x, q2, v);
    assert [q0, q1] + [q2] == [q0, q1, q2];
  }

  lemma FourSextets(q0: Sextet, q1: Sextet, q2: Sextet, q3: Sextet, x: nat, y: nat, v: nat)
    requires x == q0 as int * 64 + q1 && y == x * 64 + q2 && v == y * 64 + q3
    ensures SextetsToBits([q0, q1, q2, q3]) == Bits(24, v)
  {
    ThreeSextets(q0, q1, q2, x, y);
    OneMoreSextet([q0, q1, q2], 18, y, q3, v);
    assert [q0, q1, q2] + [q3] == [q0, q1, q2, q3];
  }

  // ---- encoding ----

  /** n has 24 bits: its four groups of six. */
  lemma FourGroups(n: nat)
    requires n < 0x100_0000
    ensures ((n / 262144 % 64 * 64 + n / 4096 % 64) * 64 + n / 64 % 64) * 64 + n % 64 == n
  {
    assert n / 262144 < 64;
    assert n / 4096 == n / 262144 * 64 + n / 4096 % 64;
    assert n / 64 == n / 4096 * 64 + n / 64 % 64;
  }

  /** Three bytes and four groups of the same value have the same bits. */
  lemma SameBits(b0: Byte, b1: Byte, b2: Byte, q0: Sextet, q1: Sextet, q2: Sextet, q3: Sextet, n: nat)
    requires n == (b0 as int * 256 + b1) * 256 + b2 == ((q0 as int * 64 + q1) * 64 + q2) * 64 + q3
    ensures BytesToBits([b0, b1, b2]) == SextetsToBits([q0, q1, q2, q3])
  {
    ThreeBytes(b0, b1, b2, b0 as int * 256 + b1, n);
    FourSextets(q0, q1, q2, q3, q0 as int * 64 + q1, (q0 as int * 64 + q1) * 64 + q2, n);
  }

  lemma FullBlock(b0: Byte, b1: Byte, b2: Byte, n: nat)
    requires n == b0 as int * 65536 + b1 as int * 256 + b2
    ensures ToSextets(BytesToBits([b0, b1, b2])) == [n / 262144 % 64, n / 4096 % 64, n / 64 % 64, n % 64]
  {
    FourGroups(n);
    SameBits(b0, b1, b2, n / 262144 % 64, n / 4096 % 64, n / 64 % 64, n % 64, n);
    SextetsRoundTrip([n / 262144 % 64, n / 4096 % 64, n / 64 % 64, n % 64]);
  }

  lemma FillsOfBytes()
    ensures Fill(8) == Zeros(4) && Fill(16) == Zeros(2)
  {
  }

  /** One byte filled up to two groups. */
  lemma FilledByte(b: Byte)
    ensures Bits(8, b) + Fill(8) == Bits(12, b as int * 16)
  {
    AppendFourBits(8, b, 0);
    ZeroBits(4);
    FillsOfBytes();
  }

  /** Two bytes filled up to three groups. */
  lemma FilledPair(pair: nat)
    ensures Bits(16, pair) + Fill(16) == Bits(18, pair * 4)
  {
    AppendTwoBits(16, pair, 0);
    ZeroBits(2);
    FillsOfBytes();
  }

  lemma TwoGroups(n: nat, b: Byte)
    requires n == b as int * 65536
    ensures n / 262144 % 64 * 64 + n / 4096 % 64 == b as int * 16
  {
    FourGroups(n);
  }

  lemma ThreeGroups(n: nat, pair: nat)
    requires n == pair * 256 && pair < 0x1_0000
    ensures (n / 262144 % 64 * 64 + n / 4096 % 64) * 64 + n / 64 % 64 == pair * 4
  {
    FourGroups(n);
  }

  lemma OneByteBlock(b0: Byte, n: nat)
    requires n == b0 as int * 65536
    ensures ToSextets(BytesToBits([b0])) == [n / 262144 % 64, n / 4096 % 64]
  {
    var q0, q1 := n / 262144 % 64, n / 4096 % 64;
    TwoGroups(n, b0);
    OneByte(b0);
    FilledByte(b0);
    TwoSextets(q0, q1, b0 as int * 16);
    GroupsOfFilled(BytesToBits([b0]), [q0, q1]);
  }

  lemma PairBits(b0: Byte, b1: Byte, q0: Sextet, q1: Sextet, q2: Sextet, pair: nat)
    requires (q0 * 64 + q1) * 64 + q2 == pair * 4 && pair == b0 as int * 256 + b1
    ensures BytesToBits([b0, b1]) + Fill(16) == SextetsToBits([q0, q1, q2])
  {
    TwoBytes(b0, b1, pair);
    FilledPair(pair);
    ThreeSextets(q0, q1, q2, q0 as int * 64 + q1, pair * 4);
  }

  lemma PairAsGroups(b0: Byte, b1: Byte, q0: Sextet, q1: Sextet, q2: Sextet)
    requires (q0 * 64 + q1) * 64 + q2 == (b0 as int * 256 + b1) * 4
    ensures ToSextets(BytesToBits([b0, b1])) == [q0, q1, q2]
  {
    PairBits(b0, b1, q0, q1, q2, b0 as int * 256 + b1);
    GroupsOfFilled(BytesToBits([b0, b1]), [q0, q1, q2]);
  }

  lemma TwoByteBlock(b0: Byte, b1: Byte, n: nat)
    requires n == b0 as int * 65536 + b1 as int * 256
    ensures ToSextets(BytesToBits([b0, b1])) == [n / 262144 % 64, n / 4096 % 64, n / 64 % 64]
  {
    ThreeGroups(n, b0 as int * 256 + b1);
    PairAsGroups(b0, b1, n / 262144 % 64, n / 4096 % 64, n / 64 % 64);
  }

  /** What the encoder has written after m whole blocks. */
  function Body(d: seq<Byte>): string {
    Chars(ToSextets(BytesToBits(d)))
  }

  lemma CharsConcat(a: seq<Sextet>, b: seq<Sextet>)
    ensures Chars(a + b) == Chars(a) + Chars(b)
  {
  }

  lemma BodyGrows(d: seq<Byte>, m: nat, block: seq<Byte>)
    requires |d| == 3 * m
    ensures Body(d + block) == Body(d) + Chars(ToSextets(BytesToBits(block)))
  {
    BytesToBitsConcat(d, block);
    ToSextetsConcat(BytesToBits(d), 4 * m, BytesToBits(block));
    CharsConcat(ToSextets(BytesToBits(d)), ToSextets(BytesToBits(block)));
  }

  lemma PaddingCount(k: nat, m: nat, r: nat)
    requires r < 3 && k == 4 * m + (if r == 0 then 0 else r + 1)
    ensures (4 - k % 4) % 4 == if r == 0 then 0 else 3 - r
  {
  }

  lemma PaddingOf(d: seq<Byte>, m: nat, r: nat)
    requires |d| == 3 * m + r && r < 3
    ensures Encode(d) == Body(d) + Padding(if r == 0 then 0 else 3 - r)
  {
    EncodedLength(d, m, r);
    PaddingCount(|Body(d)|, m, r);
  }

  /** Four characters to the buffer. */
  method Put4(out: array<char>, o: nat, c0: char, c1: char, c2: char, c3: char) returns (end: nat)
    requires o + 4 <= out.Length
    modifies out
    ensures end == o + 4 && out[..end] == old(out[..o]) + [c0, c1, c2, c3]
  {
    out[o] := c0;
    out[o + 1] := c1;
    out[o + 2] := c2;
    out[o + 3] := c3;
    end := o + 4;
  }

  /** Three bytes become four characters. */
  method EncodeBlock(data: array<Byte>, i: nat, out: array<char>, o: nat, ghost m: nat) returns (end: nat)
    requires i == 3 * m && i + 3 <= data.Length && o + 4 <= out.Length && out[..o] == Body(data[..i])
    modifies out
    ensures end == o + 4 && out[..end] == Body(data[..i + 3])
  {
    var n := data[i] as int * 65536 + data[i + 1] as int * 256 + data[i + 2];
    BlockGrows(data[..], i, m, n);
    assert data[..][..i] == data[..i] && data[..][..i + 3] == data[..i + 3];
    end := Put4(out, o, ALPHABET[n / 262144 % 64], ALPHABET[n / 4096 % 64], ALPHABET[n / 64 % 64], ALPHABET[n % 64]);
  }

  /** `memory` says whether the allocation succeeds. The result is NUL-terminated. */
  method EncodeBuffer(data: array<Byte>, memory: bool) returns (out: array?<char>)
    ensures out == null <==> !memory
    ensures out != null ==> fresh(out) && out.Length == |Encode(data[..])| + 1
                            && out[..out.Length - 1] == Encode(data[..]) && out[out.Length - 1] == '\0'
  {
    var len := data.Length;
    var outLen := (len + 2) / 3 * 4;
    if !memory {
      return null;
    }
    out := new char[outLen + 1](_ => '\0');
    var o, i := 0, 0;
    ghost var m := 0;
    while i + 3 <= len
      invariant i == 3 * m <= len && o == 4 * m <= outLen
      invariant out[..o] == Body(data[..i])
    {
      o := EncodeBlock(data, i, out, o, m);
      i := i + 3;
      m := m + 1;
    }
    OutputLength(len, m, len - i);
    o := EncodeTail(data, i, out, o, m);
    out[o] := '\0';
  }

  lemma OutputLength(len: nat, m: nat, r: nat)
    requires len == 3 * m + r && r < 3
    ensures (len + 2) / 3 * 4 == 4 * m + (if r == 0 then 0 else 4)
  {
  }

  lemma BlockGrows(d: seq<Byte>, i: nat, m: nat, n: nat)
    requires i == 3 * m && i + 3 <= |d| && n == d[i] as int * 65536 + d[i + 1] as int * 256 + d[i + 2]
    ensures Body(d[..i + 3]) == Body(d[..i]) + [ALPHABET[n / 262144 % 64], ALPHABET[n / 4096 % 64], ALPHABET[n / 64 % 64], ALPHABET[n % 64]]
  {
    FullBlock(d[i], d[i + 1], d[i + 2], n);
    assert d[i..i + 3] == [d[i], d[i + 1], d[i + 2]];
    BodyGrows(d[..i], m, d[i..i + 3]);
    assert d[..i + 3] == d[..i] + d[i..i + 3];
  }

  lemma LastByteEnds(d: seq<Byte>, m: nat, n: nat)
    requires |d| == 3 * m + 1 && n == d[3 * m] as int * 65536
    ensures Encode(d) == Body(d[..3 * m]) + [ALPHABET[n / 262144 % 64], ALPHABET[n / 4096 % 64], '=', '=']
  {
    var i := 3 * m;
    assert d[i..] == [d[i]] && d == d[..i] + d[i..];
    BodyGrows(d[..i], m, d[i..]);
    OneByteBlock(d[i], n);
    PaddingOf(d, m, 1);
  }

  lemma LastTwoBytesEnd(d: seq<Byte>, m: nat, n: nat)
    requires |d| == 3 * m + 2 && n == d[3 * m] as int * 65536 + d[3 * m + 1] as int * 256
    ensures Encode(d) == Body(d[..3 * m]) + [ALPHABET[n / 262144 % 64], ALPHABET[n / 4096 % 64], ALPHABET[n / 64 % 64], '=']
  {
    var i := 3 * m;
    assert d[i..] == [d[i], d[i + 1]] && d == d[..i] + d[i..];
    BodyGrows(d[..i], m, d[i..]);
    TwoByteBlock(d[i], d[i + 1], n);
    PaddingOf(d, m, 2);
  }

  /** The one or two bytes after the last whole block. */
  method EncodeTail(data: array<Byte>, i: nat, out: array<char>, o: nat, ghost m: nat) returns (end: nat)
    requires i == 3 * m <= data.Length < i + 3 && o == 4 * m
    requires out.Length == 4 * m + (if i == data.Length then 0 else 4) + 1 && out[..o] == Body(data[..i])
    modifies out
    ensures end == out.Length - 1 && out[..end] == Encode(data[..])
  {
    end := o;
    var rem := data.Length - i;
    if rem == 1 {
      var n := data[i] as int * 65536;
      LastByteEnds(data[..], m, n);
      end := Put4(out, end, ALPHABET[n / 262144 % 64], ALPHABET[n / 4096 % 64], '=', '=');
    } else if rem == 2 {
      var n := data[i] as int * 65536 + data[i + 1] as int * 256;
      LastTwoBytesEnd(data[..], m, n);
      end := Put4(out, end, ALPHABET[n / 262144 % 64], ALPHABET[n / 4096 % 64], ALPHABET[n / 64 % 64], '=');
    } else {
      PaddingOf(data[..], m, 0);
      assert data[..i] == data[..];
    }
  }

  /** Section 4 of RFC 4648 in numbers: three bytes are a number of 24 bits, written as four characters of six bits, the
      highest first; one or two bytes at the end are filled up with zero bits, and '=' stands where no bits are left. */
  lemma EncodesByBlocks(d: seq<Byte>)
    ensures d == [] ==> Encode(d) == ""
    ensures |d| == 1 ==>
              var n := d[0] as int * 65536;
              Encode(d) == [ALPHABET[n / 262144 % 64], ALPHABET[n / 4096 % 64], '=', '=']
    ensures |d| == 2 ==>
              var n := d[0] as int * 65536 + d[1] as int * 256;
              Encode(d) == [ALPHABET[n / 262144 % 64], ALPHABET[n / 4096 % 64], ALPHABET[n / 64 % 64], '=']
    ensures |d| >= 3 ==>
              var n := d[0] as int * 65536 + d[1] as int * 256 + d[2];
              Encode(d) == [ALPHABET[n / 262144 % 64], ALPHABET[n / 4096 % 64], ALPHABET[n / 64 % 64], ALPHABET[n % 64]]
                           + Encode(d[3..])
  {
    if |d| == 1 {
      LastByteEnds(d, 0, d[0] as int * 65536);
      assert d[..0] == [];
    } else if |d| == 2 {
      LastTwoBytesEnd(d, 0, d[0] as int * 65536 + d[1] as int * 256);
      assert d[..0] == [];
    } else if |d| >= 3 {
      BlockFirst(d, d[0] as int * 65536 + d[1] as int * 256 + d[2]);
    }
  }

  lemma BlockFirst(d: seq<Byte>, n: nat)
    requires |d| >= 3 && n == d[0] as int * 65536 + d[1] as int * 256 + d[2]
    ensures Encode(d) == [ALPHABET[n / 262144 % 64], ALPHABET[n / 4096 % 64], ALPHABET[n / 64 % 64], ALPHABET[n % 64]]
                         + Encode(d[3..])
  {
    var first, rest := [d[0], d[1], d[2]], d[3..];
    assert d == first + rest;
    BytesToBitsConcat(first, rest);
    ToSextetsConcat(BytesToBits(first), 4, BytesToBits(rest));
    FullBlock(d[0], d[1], d[2], n);
    GroupsAndPadding(ToSextets(BytesToBits(first)), ToSextets(BytesToBits(rest)));
  }

  lemma GroupsAndPadding(block: seq<Sextet>, rest: seq<Sextet>)
    requires |block| == 4
    ensures Chars(block + rest) + Padding((4 - |block + rest| % 4) % 4) ==
            [ALPHABET[block[0]], ALPHABET[block[1]], ALPHABET[block[2]], ALPHABET[block[3]]]
            + (Chars(rest) + Padding((4 - |rest| % 4) % 4))
  {
    assert |block + rest| % 4 == |rest| % 4;
    CharsConcat(block, rest);
  }

  // ---- decoding ----

  /** The place of a character in the alphabet, -1 outside it. */
  function B64Val(c: char): (v: int)
    ensures -1 <= v < |ALPHABET|
    ensures v >= 0 ==> ALPHABET[v] == c
    ensures v == -1 <==> c !in ALPHABET
    ensures (v == 62 <==> c == '+') && (v == 63 <==> c == '/')
  {
    CharacterPosition(c);
    AlphabetLength();
    if 'A' <= c <= 'Z' then c as int - 'A' as int
    else if 'a' <= c <= 'z' then c as int - 'a' as int + 26
    else if '0' <= c <= '9' then c as int - '0' as int + 52
    else if c == '+' then 62
    else if c == '/' then 63
    else -1
  }

  lemma ValueIsPosition(c: char)
    ensures InAlphabet(c) <==> B64Val(c) >= 0
    ensures InAlphabet(c) ==> B64Val(c) == Val(c)
  {
    CharacterPosition(c);
    AlphabetLength();
    if B64Val(c) >= 0 {
      AlphabetPosition(B64Val(c));
    }
  }

  function Byte0(q0: Sextet, q1: Sextet): Byte {
    (q0 as int * 4 + q1 as int / 16) % 256
  }

  function Byte1(q1: Sextet, q2: Sextet): Byte {
    (q1 as int * 16 + q2 as int / 4) % 256
  }

  function Byte2(q2: Sextet, q3: Sextet): Byte {
    (q2 as int * 64 + q3) % 256
  }

  lemma BytesAsParts(q0: Sextet, q1: Sextet, q2: Sextet, q3: Sextet)
    ensures Byte0(q0, q1) as int == q0 as int * 4 + q1 as int / 16
    ensures Byte1(q1, q2) as int == q1 as int % 16 * 16 + q2 as int / 4
    ensures Byte2(q2, q3) as int == q2 as int % 4 * 64 + q3
  {
    LowByte(0, q0 as int * 4 + q1 as int / 16);
    LowByte(q1 as int / 16, q1 as int % 16 * 16 + q2 as int / 4);
    LowByte(q2 as int / 4, q2 as int % 4 * 64 + q3);
  }

  /** A cast to an unsigned char drops what lies above 8 bits. */
  lemma LowByte(high: nat, low: nat)
    requires low < 256
    ensures (high * 256 + low) % 256 == low
  {
  }

  lemma FourGroupsValue(q0: Sextet, q1: Sextet, q2: Sextet, q3: Sextet)
    ensures ((q0 as int * 64 + q1) * 64 + q2) * 64 + q3 == (Byte0(q0, q1) as int * 256 + Byte1(q1, q2)) * 256 + Byte2(q2, q3)
  {
    BytesAsParts(q0, q1, q2, q3);
  }

  lemma TwoGroupsValue(q0: Sextet, q1: Sextet)
    ensures q0 as int * 64 + q1 == Byte0(q0, q1) as int * 16 + q1 as int % 16
  {
    BytesAsParts(q0, q1, 0, 0);
  }

  lemma ThreeGroupsValue(q0: Sextet, q1: Sextet, q2: Sextet)
    ensures (q0 as int * 64 + q1) * 64 + q2 == (Byte0(q0, q1) as int * 256 + Byte1(q1, q2)) * 4 + q2 as int % 4
  {
    BytesAsParts(q0, q1, q2, 0);
  }

  lemma SameBitsFour(q0: Sextet, q1: Sextet, q2: Sextet, q3: Sextet, d0: Byte, d1: Byte, d2: Byte)
    requires ((q0 as int * 64 + q1) * 64 + q2) * 64 + q3 == (d0 as int * 256 + d1) * 256 + d2
    ensures ToBytes(SextetsToBits([q0, q1, q2, q3])) == [d0, d1, d2]
  {
    SameBits(d0, d1, d2, q0, q1, q2, q3, (d0 as int * 256 + d1) * 256 + d2);
    BytesRoundTrip([d0, d1, d2], []);
    assert BytesToBits([d0, d1, d2]) + [] == BytesToBits([d0, d1, d2]);
  }

  lemma SameBitsTwo(q0: Sextet, q1: Sextet, d: Byte, rest: nat)
    requires q0 as int * 64 + q1 == d as int * 16 + rest && rest < 16
    ensures ToBytes(SextetsToBits([q0, q1])) == [d]
  {
    TwoSextets(q0, q1, d as int * 16 + rest);
    OneByte(d);
    AppendFourBits(8, d, rest);
    BytesRoundTrip([d], Bits(4, rest));
  }

  lemma TwoBytesAndRest(q0: Sextet, q1: Sextet, q2: Sextet, d0: Byte, d1: Byte, pair: nat, rest: nat)
    requires (q0 as int * 64 + q1) * 64 + q2 == pair * 4 + rest && pair == d0 as int * 256 + d1 && rest < 4
    ensures SextetsToBits([q0, q1, q2]) == BytesToBits([d0, d1]) + Bits(2, rest)
  {
    ThreeSextets(q0, q1, q2, q0 as int * 64 + q1, pair * 4 + rest);
    TwoBytes(d0, d1, pair);
    AppendTwoBits(16, pair, rest);
  }

  lemma SameBitsThree(q0: Sextet, q1: Sextet, q2: Sextet, d0: Byte, d1: Byte, rest: nat)
    requires (q0 as int * 64 + q1) * 64 + q2 == (d0 as int * 256 + d1) * 4 + rest && rest < 4
    ensures ToBytes(SextetsToBits([q0, q1, q2])) == [d0, d1]
  {
    TwoBytesAndRest(q0, q1, q2, d0, d1, d0 as int * 256 + d1, rest);
    BytesRoundTrip([d0, d1], Bits(2, rest));
  }

  lemma FourGroupsAreThreeBytes(q0: Sextet, q1: Sextet, q2: Sextet, q3: Sextet)
    ensures ToBytes(SextetsToBits([q0, q1, q2, q3])) == [Byte0(q0, q1), Byte1(q1, q2), Byte2(q2, q3)]
  {
    FourGroupsValue(q0, q1, q2, q3);
    SameBitsFour(q0, q1, q2, q3, Byte0(q0, q1), Byte1(q1, q2), Byte2(q2, q3));
  }

  lemma TwoGroupsAreOneByte(q0: Sextet, q1: Sextet)
    ensures ToBytes(SextetsToBits([q0, q1])) == [Byte0(q0, q1)]
  {
    TwoGroupsValue(q0, q1);
    SameBitsTwo(q0, q1, Byte0(q0, q1), q1 as int % 16);
  }

  lemma ThreeGroupsAreTwoBytes(q0: Sextet, q1: Sextet, q2: Sextet)
    ensures ToBytes(SextetsToBits([q0, q1, q2])) == [Byte0(q0, q1), Byte1(q1, q2)]
  {
    ThreeGroupsValue(q0, q1, q2);
    SameBitsThree(q0, q1, q2, Byte0(q0, q1), Byte1(q1, q2), q2 as int % 4);
  }

  /** What the bytes of the first 4m groups become when more groups follow. */
  lemma BytesGrow(s: seq<Sextet>, m: nat, block: seq<Sextet>)
    requires |s| == 4 * m
    ensures ToBytes(SextetsToBits(s + block)) == ToBytes(SextetsToBits(s)) + ToBytes(SextetsToBits(block))
  {
    SextetsToBitsConcat(s, block);
    ToBytesConcat(SextetsToBits(s), 3 * m, SextetsToBits(block));
  }

  /** A part of the text decodes to no more bytes than the whole. */
  lemma PrefixDecodesToLess(text: string, p: nat)
    requires p <= |text|
    ensures |Sextets(text[..p])| <= |Sextets(text)|
  {
    SextetsConcat(text[..p], text[p..]);
    assert text == text[..p] + text[p..];
  }

  /** A whole block more makes three bytes more. */
  lemma BlockDecoded(s: seq<Sextet>, m: nat, quad: seq<Sextet>)
    requires |s| == 4 * m + 4 && |quad| == 4 && s[4 * m..] == quad
    ensures ToBytes(SextetsToBits(s)) == ToBytes(SextetsToBits(s[..4 * m])) + ToBytes(SextetsToBits(quad))
  {
    BytesGrow(s[..4 * m], m, quad);
    assert s == s[..4 * m] + quad;
  }

  lemma TooManyBytes(text: string, p: nat, m: nat, outCap: nat)
    requires p <= |text| && |Sextets(text[..p])| >= 4 * m + 4 && 3 * m + 3 > outCap
    ensures TooLong(text, outCap)
  {
    PrefixDecodesToLess(text, p);
  }

  /** One character of the text. */
  lemma SextetsStep(text: string, p: nat)
    requires p < |text|
    ensures Sextets(text[..p + 1]) == Fed(Sextets(text[..p]), text[p])
  {
    assert text[..p + 1][..p] == text[..p];
  }

  /** The decoder's bookkeeping: s has been read, 4m groups of it are written, quad[..q] is waiting. */
  ghost predicate Halfway(s: seq<Sextet>, m: nat, quad: seq<Sextet>, q: nat, written: seq<Byte>) {
    && |quad| == 4 && q <= 4 && |s| == 4 * m + q
    && quad[..q] == s[4 * m..]
    && |written| == 3 * m && written == ToBytes(SextetsToBits(s[..4 * m]))
  }

  lemma WaitingGrows(s: seq<Sextet>, m: nat, quad: seq<Sextet>, q: nat, written: seq<Byte>, v: Sextet)
    requires Halfway(s, m, quad, q, written) && q < 4
    ensures Halfway(s + [v], m, quad[q := v], q + 1, written)
  {
    assert (s + [v])[..4 * m] == s[..4 * m];
  }

  lemma BlockWritten(s: seq<Sextet>, m: nat, quad: seq<Sextet>, written: seq<Byte>)
    requires Halfway(s, m, quad, 4, written)
    ensures Halfway(s, m + 1, quad, 0, written + ToBytes(SextetsToBits(quad)))
  {
    assert quad[..4] == quad && s[..4 * (m + 1)] == s;
    BlockDecoded(s, m, quad);
    ToBytesLength(SextetsToBits(quad));
  }

  /** A full quad to the buffer, if there is room for it. */
  method PutBlock(out: array<Byte>, outCap: nat, o: nat, quad: seq<Sextet>, ghost s: seq<Sextet>, ghost m: nat) returns (end: int)
    requires o <= outCap <= out.Length && Halfway(s, m, quad, 4, out[..o])
    modifies out
    ensures end == if o + 3 > outCap then -1 else o + 3
    ensures end == -1 ==> unchanged(out)
    ensures end != -1 ==> Halfway(s, m + 1, quad, 0, out[..end])
    ensures end != -1 ==> forall k | end <= k < out.Length :: out[k] == old(out[k])
  {
    if o + 3 > outCap {
      return -1;
    }
    ghost var written := out[..o];
    BlockWritten(s, m, quad, written);
    assert quad == [quad[0], quad[1], quad[2], quad[3]];
    FourGroupsAreThreeBytes(quad[0], quad[1], quad[2], quad[3]);
    out[o] := Byte0(quad[0], quad[1]);
    out[o + 1] := Byte1(quad[1], quad[2]);
    out[o + 2] := Byte2(quad[2], quad[3]);
    end := o + 3;
    assert out[..end] == written + ToBytes(SextetsToBits(quad));
  }

  /** What is read after one more character. */
  function Fed(s: seq<Sextet>, c: char): seq<Sextet> {
    if InAlphabet(c) then s + [Val(c)] else s
  }

  /** The body of the decoding loop; -1 when the buffer is too small. */
  method Feed(c: char, out: array<Byte>, outCap: nat, quad: seq<Sextet>, q: nat, o: nat, ghost s: seq<Sextet>, ghost m: nat)
    returns (quad': seq<Sextet>, q': nat, o': int, ghost m': nat)
    requires q < 4 && o <= outCap <= out.Length && Halfway(s, m, quad, q, out[..o])
    modifies out
    ensures o' == -1 ==> |Fed(s, c)| == 4 * m + 4 && 3 * m + 3 > outCap && unchanged(out)
    ensures o' != -1 ==> o <= o' <= outCap && q' < 4 && Halfway(Fed(s, c), m', quad', q', out[..o'])
    ensures o' != -1 ==> forall k | o' <= k < out.Length :: out[k] == old(out[k])
  {
    quad', q', o', m' := quad, q, o, m;
    if c == '=' || c == '\r' || c == '\n' || c == ' ' || c == '\t' {
      return;
    }
    var v := B64Val(c);
    ValueIsPosition(c);
    if v < 0 {
      return;
    }
    WaitingGrows(s, m, quad, q, out[..o], v);
    quad' := quad[q := v];
    q' := q + 1;
    if q' == 4 {
      o' := PutBlock(out, outCap, o, quad', s + [v], m);
      q' := 0;
      m' := m + 1;
    }
  }

  /** One turn of the decoding loop. */
  method Advance(text: string, p: nat, out: array<Byte>, outCap: nat, quad: seq<Sextet>, q: nat, o: nat, ghost m: nat)
    returns (quad': seq<Sextet>, q': nat, o': int, ghost m': nat)
    requires p < |text| && q < 4 && o <= outCap <= out.Length && Halfway(Sextets(text[..p]), m, quad, q, out[..o])
    modifies out
    ensures o' == -1 ==> TooLong(text, outCap) && unchanged(out)
    ensures o' != -1 ==> o <= o' <= outCap && q' < 4 && Halfway(Sextets(text[..p + 1]), m', quad', q', out[..o'])
    ensures o' != -1 ==> forall k | o' <= k < out.Length :: out[k] == old(out[k])
  {
    SextetsStep(text, p);
    quad', q', o', m' := Feed(text[p], out, outCap, quad, q, o, Sextets(text[..p]), m);
    if o' == -1 {
      TooManyBytes(text, p + 1, m, outCap);
    }
  }

  /** Decodes a C string into `out`, whose first outCap bytes may be used. The header promises -1 exactly on malformed text or
      too little room. That promise is kept exactly for the texts that are well formed or do not fit. */
  method DecodeBuffer(text: string, out: array<Byte>, outCap: nat) returns (r: int)
    requires outCap <= out.Length && '\0' !in text
    modifies out
    ensures r == -1 <==> TooLong(text, outCap)
    ensures (r == -1 <==> !WellFormed(Stripped(text)) || TooLong(text, outCap)) <==>
            WellFormed(Stripped(text)) || TooLong(text, outCap)
    ensures r != -1 ==> r == |Decode(text)| <= outCap && out[..r] == Decode(text)
    ensures r != -1 && WellFormed(Stripped(text)) ==> Encode(out[..r]) == Stripped(text)
    ensures forall k | (if r == -1 then outCap else r) <= k < out.Length :: out[k] == old(out[k])
  {
    r := DecodeLoop(text, out, outCap);
    if WellFormed(Stripped(text)) {
      DecodesWhatItEncodes(text);
    }
  }

  method DecodeLoop(text: string, out: array<Byte>, outCap: nat) returns (r: int)
    requires outCap <= out.Length
    modifies out
    ensures r == -1 <==> TooLong(text, outCap)
    ensures r != -1 ==> r == |Decode(text)| <= outCap && out[..r] == Decode(text)
    ensures forall k | (if r == -1 then outCap else r) <= k < out.Length :: out[k] == old(out[k])
  {
    var quad: seq<Sextet> := [0, 0, 0, 0];
    var q: nat, o: nat := 0, 0;
    ghost var m := 0;
    for p := 0 to |text|
      invariant o <= outCap && q < 4
      invariant Halfway(Sextets(text[..p]), m, quad, q, out[..o])
      invariant forall k | o <= k < out.Length :: out[k] == old(out[k])
    {
      var end;
      quad, q, end, m := Advance(text, p, out, outCap, quad, q, o, m);
      if end == -1 {
        return -1;
      }
      o := end;
    }
    assert text[..|text|] == text;
    r := DecodeRest(text, out, outCap, quad, q, o, m);
  }

  /** The bytes of an incomplete last block. */
  method DecodeRest(text: string, out: array<Byte>, outCap: nat, quad: seq<Sextet>, q: nat, o: nat, ghost m: nat) returns (r: int)
    requires outCap <= out.Length && q < 4 && o == 3 * m <= outCap
    requires Halfway(Sextets(text), m, quad, q, out[..o])
    modifies out
    ensures r == -1 <==> TooLong(text, outCap)
    ensures r != -1 ==> o <= r == |Decode(text)| <= outCap && out[..r] == Decode(text)
    ensures forall k | (if r == -1 then outCap else r) <= k < out.Length :: out[k] == old(out[k])
  {
    BytesGrow(Sextets(text)[..4 * m], m, quad[..q]);
    assert Sextets(text) == Sextets(text)[..4 * m] + quad[..q];
    r := o;
    if q == 2 {
      if o + 1 > outCap {
        return -1;
      }
      assert quad[..q] == [quad[0], quad[1]];
      TwoGroupsAreOneByte(quad[0], quad[1]);
      out[o] := Byte0(quad[0], quad[1]);
      r := o + 1;
    } else if q == 3 {
      if o + 2 > outCap {
        return -1;
      }
      assert quad[..q] == [quad[0], quad[1], quad[2]];
      ThreeGroupsAreTwoBytes(quad[0], quad[1], quad[2]);
      out[o] := Byte0(quad[0], quad[1]);
      out[o + 1] := Byte1(quad[1], quad[2]);
      r := o + 2;
    }
  }

  /** The decoder in numbers. Four groups are three bytes, the highest bits first. */
  lemma DecodesFourGroups(a: string, rest: string, n: nat)
    requires var q := Sextets(a); |q| == 4 && n == ((q[0] as int * 64 + q[1]) * 64 + q[2]) * 64 + q[3]
    ensures n < 0x100_0000 && Decode(a + rest) == [n / 65536, n / 256 % 256, n % 256] + Decode(rest)
  {
    var q := Sextets(a);
    FourThenRest(a, rest);
    FourInNumbers(q[0], q[1], q[2], q[3], n);
  }

  /** Three groups left over are two bytes. */
  lemma DecodesThreeGroups(a: string, n: nat)
    requires var q := Sextets(a); |q| == 3 && n == (q[0] as int * 64 + q[1]) * 64 + q[2]
    ensures n < 0x4_0000 && Decode(a) == [n / 1024, n / 4 % 256]
  {
    var q := Sextets(a);
    assert q == [q[0], q[1], q[2]];
    ThreeGroupsAreTwoBytes(q[0], q[1], q[2]);
    ThreeInNumbers(q[0], q[1], q[2], n);
  }

  /** Two groups left over are one byte, and one is none. */
  lemma DecodesFewGroups(a: string)
    ensures |Sextets(a)| < 2 ==> Decode(a) == []
    ensures |Sextets(a)| == 2 ==> Decode(a) == [(Sextets(a)[0] as int * 64 + Sextets(a)[1]) / 16]
  {
    var q := Sextets(a);
    if |q| == 2 {
      assert q == [q[0], q[1]];
      TwoGroupsAreOneByte(q[0], q[1]);
      TwoInNumbers(q[0], q[1]);
    }
  }

  lemma FourThenRest(a: string, rest: string)
    requires |Sextets(a)| == 4
    ensures var q := Sextets(a);
            Decode(a + rest) == [Byte0(q[0], q[1]), Byte1(q[1], q[2]), Byte2(q[2], q[3])] + Decode(rest)
  {
    var q := Sextets(a);
    assert q == [q[0], q[1], q[2], q[3]];
    FourGroupsAreThreeBytes(q[0], q[1], q[2], q[3]);
    SextetsConcat(a, rest);
    SextetsToBitsConcat(q, Sextets(rest));
    ToBytesConcat(SextetsToBits(q), 3, SextetsToBits(Sextets(rest)));
  }

  lemma TwoInNumbers(q0: Sextet, q1: Sextet)
    ensures Byte0(q0, q1) as int == (q0 as int * 64 + q1) / 16
  {
    TwoGroupsValue(q0, q1);
  }

  lemma ThreeInNumbers(q0: Sextet, q1: Sextet, q2: Sextet, n: nat)
    requires n == (q0 as int * 64 + q1) * 64 + q2
    ensures n < 0x4_0000 && Byte0(q0, q1) as int == n / 1024 && Byte1(q1, q2) as int == n / 4 % 256
  {
    ThreeGroupsValue(q0, q1, q2);
    PartsOf(Byte0(q0, q1), Byte1(q1, q2), q2 as int % 4, n);
  }

  lemma FourInNumbers(q0: Sextet, q1: Sextet, q2: Sextet, q3: Sextet, n: nat)
    requires n == ((q0 as int * 64 + q1) * 64 + q2) * 64 + q3
    ensures n < 0x100_0000
    ensures Byte0(q0, q1) as int == n / 65536 && Byte1(q1, q2) as int == n / 256 % 256 && Byte2(q2, q3) as int == n % 256
  {
    FourGroupsValue(q0, q1, q2, q3);
    TopOf(Byte0(q0, q1), Byte1(q1, q2), Byte2(q2, q3), n);
  }

  lemma PartsOf(x: nat, y: nat, z: nat, n: nat)
    requires y < 256 && z < 4 && n == (x * 256 + y) * 4 + z
    ensures n / 1024 == x && n / 4 % 256 == y
  {
    assert n / 4 == x * 256 + y;
    assert n / 1024 == x;
  }

  lemma TopOf(x: nat, y: nat, z: nat, n: nat)
    requires y < 256 && z < 256 && n == (x * 256 + y) * 256 + z
    ensures n / 65536 == x && n / 256 % 256 == y && n % 256 == z
  {
    assert n / 256 == x * 256 + y;
    assert n / 65536 == x;
  }
}
