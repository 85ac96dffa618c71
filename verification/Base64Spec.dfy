/** Base64 as a statement about bit strings (section 4 of RFC 4648). */
module Base64Spec {
  import opened Common

  type Byte = b: int | 0 <= b < 256
  type Sextet = s: int | 0 <= s < 64
  type BitString = seq<bool>

  const UPPERCASE := "ABCDEFGHIJKLMNOPQRSTUVWXYZ"
  const LOWERCASE := "abcdefghijklmnopqrstuvwxyz"
  const NUMERALS := "0123456789"
  const ALPHABET := UPPERCASE + LOWERCASE + NUMERALS + "+/"

  /** The n low bits of v, most significant first. */
  function Bits(n: nat, v: nat): (bits: BitString)
    ensures |bits| == n
  {
    if n == 0 then [] else Bits(n - 1, v / 2) + [v % 2 == 1]
  }

  function Value(bits: BitString): nat {
    if bits == [] then 0 else 2 * Value(bits[..|bits| - 1]) + (if bits[|bits| - 1] then 1 else 0)
  }

  function BytesToBits(d: seq<Byte>): (bits: BitString)
    ensures |bits| == 8 * |d|
  {
    if d == [] then [] else Bits(8, d[0]) + BytesToBits(d[1..])
  }

  function SextetsToBits(s: seq<Sextet>): (bits: BitString)
    ensures |bits| == 6 * |s|
  {
    if s == [] then [] else Bits(6, s[0]) + SextetsToBits(s[1..])
  }

  /** The whole bytes of a bit string; a remainder of fewer than 8 bits is dropped. */
  function ToBytes(bits: BitString): seq<Byte>
    decreases |bits|
  {
    if |bits| < 8 then [] else ValueBound(bits[..8]); [Value(bits[..8])] + ToBytes(bits[8..])
  }

  function Zeros(k: nat): (bits: BitString)
    ensures |bits| == k
  {
    seq(k, i => false)
  }

  /** The 6-bit groups of a bit string, the last one filled up with zero bits on the right. */
  function ToSextets(bits: BitString): seq<Sextet>
    decreases |bits|
  {
    if bits == [] then []
    else if |bits| < 6 then ValueBound(bits + Zeros(6 - |bits|)); [Value(bits + Zeros(6 - |bits|))]
    else ValueBound(bits[..6]); [Value(bits[..6])] + ToSextets(bits[6..])
  }

  function Chars(s: seq<Sextet>): (t: string)
    ensures |t| == |s|
  {
    seq(|s|, i requires 0 <= i < |s| => ALPHABET[s[i]])
  }

  /** The encoding: the groups as characters, padded with '=' to a multiple of four. */
  function Encode(d: seq<Byte>): string {
    var chars := Chars(ToSextets(BytesToBits(d)));
    chars + Padding((4 - |chars| % 4) % 4)
  }

  function Padding(k: nat): (t: string)
    ensures |t| == k && forall c | c in t :: c == '='
  {
    seq(k, i => '=')
  }

  predicate InAlphabet(c: char) {
    'A' <= c <= 'Z' || 'a' <= c <= 'z' || '0' <= c <= '9' || c == '+' || c == '/'
  }

  /** The position of an alphabet character. */
  function Val(c: char): (v: Sextet)
    requires InAlphabet(c)
  {
    if 'A' <= c <= 'Z' then c as int - 'A' as int
    else if 'a' <= c <= 'z' then c as int - 'a' as int + 26
    else if '0' <= c <= '9' then c as int - '0' as int + 52
    else if c == '+' then 62
    else 63
  }

  lemma Uppercase(k: nat)
    requires k < 26
    ensures |UPPERCASE| == 26 && UPPERCASE[k] as int == 'A' as int + k
  {
    assert k == 0 || k == 1 || k == 2 || k == 3 || k == 4 || k == 5 || k == 6 || k == 7 || k == 8 || k == 9 ||
           k == 10 || k == 11 || k == 12 || k == 13 || k == 14 || k == 15 || k == 16 || k == 17 || k == 18 ||
           k == 19 || k == 20 || k == 21 || k == 22 || k == 23 || k == 24 || k == 25;
  }

  lemma Lowercase(k: nat)
    requires k < 26
    ensures |LOWERCASE| == 26 && LOWERCASE[k] as int == 'a' as int + k
  {
    assert k == 0 || k == 1 || k == 2 || k == 3 || k == 4 || k == 5 || k == 6 || k == 7 || k == 8 || k == 9 ||
           k == 10 || k == 11 || k == 12 || k == 13 || k == 14 || k == 15 || k == 16 || k == 17 || k == 18 ||
           k == 19 || k == 20 || k == 21 || k == 22 || k == 23 || k == 24 || k == 25;
  }

  lemma Numerals(k: nat)
    requires k < 10
    ensures |NUMERALS| == 10 && NUMERALS[k] as int == '0' as int + k
  {
    assert k == 0 || k == 1 || k == 2 || k == 3 || k == 4 || k == 5 || k == 6 || k == 7 || k == 8 || k == 9;
  }

  /** Table 1 of RFC 4648, value by value. */
  lemma Table(v: nat)
    requires v < 64
    ensures |ALPHABET| == 64
    ensures ALPHABET[v] as int ==
            if v < 26 then 'A' as int + v
            else if v < 52 then 'a' as int + (v - 26)
            else if v < 62 then '0' as int + (v - 52)
            else if v == 62 then '+' as int
            else '/' as int
  {
    AlphabetLength();
    if v < 26 {
      Uppercase(v);
    } else if v < 52 {
      Lowercase(v - 26);
    } else if v < 62 {
      Numerals(v - 52);
    } else {
      assert v == 62 || v == 63;
    }
  }

  /** The decoder's ranges invert the encoder's table. */
  lemma AlphabetPosition(v: Sextet)
    ensures InAlphabet(ALPHABET[v]) && Val(ALPHABET[v]) == v
  {
    if v < 26 {
      Uppercase(v);
    } else if v < 52 {
      Lowercase(v - 26);
    } else if v < 62 {
      Numerals(v - 52);
    } else {
      assert v == 62 || v == 63;
    }
  }

  /** The ranges of the decoder are the alphabet, and the position it computes is the character's. */
  lemma CharacterPosition(c: char)
    ensures InAlphabet(c) <==> c in ALPHABET
    ensures InAlphabet(c) ==> ALPHABET[Val(c)] == c
  {
    if InAlphabet(c) {
      CharacterAt(c);
    }
    if c in ALPHABET {
      var v :| 0 <= v < |ALPHABET| && ALPHABET[v] == c;
      AlphabetLength();
      AlphabetPosition(v);
    }
  }

  lemma CharacterAt(c: char)
    requires InAlphabet(c)
    ensures ALPHABET[Val(c)] == c
  {
    if 'A' <= c <= 'Z' {
      Uppercase(c as int - 'A' as int);
    } else if 'a' <= c <= 'z' {
      Lowercase(c as int - 'a' as int);
    } else if '0' <= c <= '9' {
      Numerals(c as int - '0' as int);
    }
  }

  lemma AlphabetLength()
    ensures |ALPHABET| == 64
  {
    Uppercase(0);
    Lowercase(0);
    Numerals(0);
  }

  /** The groups a text carries: everything outside the alphabet is skipped. */
  function Sextets(text: string): (s: seq<Sextet>)
    ensures |s| <= |text|
  {
    if text == [] then []
    else
      var c := text[|text| - 1];
      Sextets(text[..|text| - 1]) + (if InAlphabet(c) then [Val(c)] else [])
  }

  /** The decoding. */
  function Decode(text: string): seq<Byte> {
    ToBytes(SextetsToBits(Sextets(text)))
  }

  // ---- bits and values ----

  lemma {:induction false} ValueBound(bits: BitString)
    ensures Value(bits) < Power(|bits|)
    ensures |bits| == 6 ==> Value(bits) < 64
    ensures |bits| == 8 ==> Value(bits) < 256
    decreases |bits|
  {
    if bits != [] {
      ValueBound(bits[..|bits| - 1]);
    }
    SmallPowers();
  }

  lemma SmallPowers()
    ensures Power(6) == 64 && Power(8) == 256 && Power(12) == 4096 && Power(16) == 65536 && Power(18) == 262144
  {
    assert Power(3) == 8;
    assert Power(6) == 64;
    assert Power(9) == 512;
    assert Power(12) == 4096;
    assert Power(15) == 32768;
  }

  lemma {:induction false} ValueOfBits(n: nat, v: nat)
    requires v < Power(n)
    ensures Value(Bits(n, v)) == v
  {
    if n > 0 {
      ValueOfBits(n - 1, v / 2);
      assert Bits(n, v)[..n - 1] == Bits(n - 1, v / 2);
    }
  }

  lemma {:induction false} BitsOfValue(bits: BitString)
    ensures Bits(|bits|, Value(bits)) == bits
    decreases |bits|
  {
    if bits != [] {
      BitsOfValue(bits[..|bits| - 1]);
    }
  }

  lemma Halve(x: nat, p: nat, y: nat)
    ensures (x * (2 * p) + y) / 2 == x * p + y / 2 && (x * (2 * p) + y) % 2 == y % 2
  {
    assert x * (2 * p) == 2 * (x * p);
  }

  /** Writing x in front of the b bits of y. */
  lemma {:induction false} BitsJoin(a: nat, x: nat, b: nat, y: nat)
    requires y < Power(b)
    ensures Bits(a + b, x * Power(b) + y) == Bits(a, x) + Bits(b, y)
    decreases b
  {
    if b > 0 {
      Halve(x, Power(b - 1), y);
      BitsJoin(a, x, b - 1, y / 2);
    }
  }

  // ---- lengths ----

  lemma {:induction false} ToBytesLength(bits: BitString)
    ensures 8 * |ToBytes(bits)| <= |bits| < 8 * |ToBytes(bits)| + 8
    decreases |bits|
  {
    if |bits| >= 8 {
      ToBytesLength(bits[8..]);
    }
  }

  lemma {:induction false} ToSextetsLength(bits: BitString)
    ensures |bits| <= 6 * |ToSextets(bits)| < |bits| + 6
    decreases |bits|
  {
    if |bits| >= 6 {
      ToSextetsLength(bits[6..]);
    }
  }

  /** k groups decode to floor(6k / 8) bytes. */
  lemma DecodeLength(text: string)
    ensures |Decode(text)| == 3 * |Sextets(text)| / 4
  {
    ToBytesLength(SextetsToBits(Sextets(text)));
  }

  // ---- regrouping ----

  lemma {:induction false} BytesToBitsConcat(a: seq<Byte>, b: seq<Byte>)
    ensures BytesToBits(a + b) == BytesToBits(a) + BytesToBits(b)
    decreases |a|
  {
    if a == [] {
      assert a + b == b;
    } else {
      assert (a + b)[1..] == a[1..] + b;
      BytesToBitsConcat(a[1..], b);
    }
  }

  lemma {:induction false} SextetsToBitsConcat(a: seq<Sextet>, b: seq<Sextet>)
    ensures SextetsToBits(a + b) == SextetsToBits(a) + SextetsToBits(b)
    decreases |a|
  {
    if a == [] {
      assert a + b == b;
    } else {
      assert (a + b)[1..] == a[1..] + b;
      SextetsToBitsConcat(a[1..], b);
    }
  }

  lemma OneSextet(q0: Sextet)
    ensures SextetsToBits([q0]) == Bits(6, q0)
  {
    assert [q0][1..] == [];
  }

  lemma {:induction false} ToBytesConcat(a: BitString, m: nat, b: BitString)
    requires |a| == 8 * m
    ensures ToBytes(a + b) == ToBytes(a) + ToBytes(b)
    decreases m
  {
    if m == 0 {
      assert a + b == b;
    } else {
      assert (a + b)[..8] == a[..8] && (a + b)[8..] == a[8..] + b;
      ToBytesConcat(a[8..], m - 1, b);
    }
  }

  lemma {:induction false} ToSextetsConcat(a: BitString, m: nat, b: BitString)
    requires |a| == 6 * m
    ensures ToSextets(a + b) == ToSextets(a) + ToSextets(b)
    decreases m
  {
    if m == 0 {
      assert a + b == b;
    } else {
      assert (a + b)[..6] == a[..6] && (a + b)[6..] == a[6..] + b;
      ToSextetsConcat(a[6..], m - 1, b);
    }
  }

  /** Bytes survive being turned into bits, and up to seven bits after them change nothing. */
  lemma {:induction false} BytesRoundTrip(d: seq<Byte>, tail: BitString)
    requires |tail| < 8
    ensures ToBytes(BytesToBits(d) + tail) == d
    decreases |d|
  {
    if d == [] {
      assert BytesToBits(d) + tail == tail;
    } else {
      var bits := BytesToBits(d) + tail;
      assert bits[..8] == Bits(8, d[0]);
      assert bits[8..] == BytesToBits(d[1..]) + tail;
      ByteValue(d[0]);
      BytesRoundTrip(d[1..], tail);
    }
  }

  lemma ByteValue(b: Byte)
    ensures Value(Bits(8, b)) == b
  {
    SmallPowers();
    ValueOfBits(8, b);
  }

  lemma SextetValue(s: Sextet)
    ensures Value(Bits(6, s)) == s
  {
    SmallPowers();
    ValueOfBits(6, s);
  }

  /** Sextets survive being turned into bits. */
  lemma {:induction false} SextetsRoundTrip(s: seq<Sextet>)
    ensures ToSextets(SextetsToBits(s)) == s
    decreases |s|
  {
    if s != [] {
      var bits := SextetsToBits(s);
      assert bits[..6] == Bits(6, s[0]);
      assert bits[6..] == SextetsToBits(s[1..]);
      SextetValue(s[0]);
      SextetsRoundTrip(s[1..]);
    }
  }

  /** The zero bits that complete the last group of n bits. */
  function Fill(n: nat): (bits: BitString)
    ensures |bits| < 6
  {
    Zeros((6 - n % 6) % 6)
  }

  lemma FillOfSixMore(n: nat)
    ensures Fill(n + 6) == Fill(n)
  {
    assert (n + 6) % 6 == n % 6;
  }

  /** One group in front. */
  lemma GroupInFront(s: Sextet, rest: seq<Sextet>, bits: BitString)
    requires |bits| == 6 && s == Value(bits)
    ensures SextetsToBits([s] + rest) == bits + SextetsToBits(rest)
  {
    BitsOfValue(bits);
    assert ([s] + rest)[1..] == rest;
  }

  lemma OneGroup(bits: BitString)
    requires |bits| == 6
    ensures Value(bits) < 64 && SextetsToBits([Value(bits)]) == bits
  {
    ValueBound(bits);
    GroupInFront(Value(bits), [], bits);
    assert [Value(bits)] + [] == [Value(bits)];
  }

  lemma LastGroup(bits: BitString)
    requires 0 < |bits| < 6
    ensures SextetsToBits(ToSextets(bits)) == bits + Fill(|bits|)
  {
    OneGroup(bits + Zeros(6 - |bits|));
    FillOfFew(|bits|);
  }

  lemma FillOfFew(n: nat)
    requires 0 < n < 6
    ensures Fill(n) == Zeros(6 - n)
  {
  }

  /** Grouping into sextets only adds zero bits, fewer than six. */
  lemma {:induction false} GroupingPads(bits: BitString)
    ensures SextetsToBits(ToSextets(bits)) == bits + Fill(|bits|)
    decreases |bits|
  {
    if bits == [] {
    } else if |bits| < 6 {
      LastGroup(bits);
    } else {
      var first, rest := bits[..6], bits[6..];
      GroupingPads(rest);
      ValueBound(first);
      assert ToSextets(bits) == [Value(first)] + ToSextets(rest);
      GroupInFront(Value(first), ToSextets(rest), first);
      FillOfSixMore(|rest|);
      assert bits == first + rest;
    }
  }

  /** Filling up before grouping makes no difference. */
  lemma GroupsOfFilled(bits: BitString, s: seq<Sextet>)
    requires bits + Fill(|bits|) == SextetsToBits(s)
    ensures ToSextets(bits) == s
  {
    GroupingPads(bits);
    SextetsRoundTrip(ToSextets(bits));
    SextetsRoundTrip(s);
  }

  lemma {:induction false} ZeroBits(k: nat)
    ensures Bits(k, 0) == Zeros(k)
  {
    if k > 0 {
      ZeroBits(k - 1);
    }
  }

  // ---- texts ----

  lemma {:induction false} SextetsConcat(a: string, b: string)
    ensures Sextets(a + b) == Sextets(a) + Sextets(b)
    decreases |b|
  {
    if b == [] {
      assert a + b == a;
    } else {
      assert (a + b)[..|a + b| - 1] == a + b[..|b| - 1];
      SextetsConcat(a, b[..|b| - 1]);
    }
  }

  /** One character of the alphabet is the group of its place in it; any other is none. */
  lemma SextetOf(c: char)
    ensures Sextets([c]) != [] <==> c in ALPHABET
    ensures c in ALPHABET ==> |Sextets([c])| == 1 && ALPHABET[Sextets([c])[0]] == c
  {
    CharacterPosition(c);
    assert [c][..0] == [];
  }

  lemma {:induction false} SextetsOfJunk(t: string)
    requires forall c | c in t :: !InAlphabet(c)
    ensures Sextets(t) == []
    decreases |t|
  {
    if t != [] {
      SextetsOfJunk(t[..|t| - 1]);
      assert t[|t| - 1] in t;
    }
  }

  lemma {:induction false} SextetsOfChars(s: seq<Sextet>)
    ensures Sextets(Chars(s)) == s
    decreases |s|
  {
    if s != [] {
      var front := s[..|s| - 1];
      assert Chars(s)[..|s| - 1] == Chars(front);
      SextetsOfChars(front);
      AlphabetPosition(s[|s| - 1]);
    }
  }

  // ---- the promises ----

  lemma SextetsOfPadded(groups: seq<Sextet>, k: nat)
    ensures Sextets(Chars(groups) + Padding(k)) == groups
  {
    SextetsConcat(Chars(groups), Padding(k));
    SextetsOfChars(groups);
    SextetsOfJunk(Padding(k));
    assert groups + [] == groups;
  }

  lemma SextetsOfEncode(d: seq<Byte>)
    ensures Sextets(Encode(d)) == ToSextets(BytesToBits(d))
  {
    var groups := ToSextets(BytesToBits(d));
    SextetsOfPadded(groups, (4 - |groups| % 4) % 4);
  }

  /** Any byte string survives the round trip. */
  lemma RoundTrip(d: seq<Byte>)
    ensures Decode(Encode(d)) == d
  {
    var bits := BytesToBits(d);
    SextetsOfEncode(d);
    GroupingPads(bits);
    BytesRoundTrip(d, Fill(|bits|));
  }

  /** No two byte strings share an encoding. */
  lemma EncodeIsInjective(d: seq<Byte>, e: seq<Byte>)
    requires Encode(d) == Encode(e)
    ensures d == e
  {
    RoundTrip(d);
    RoundTrip(e);
  }

  /** Groups and padding for 3m + r bytes. */
  lemma EncodedLength(d: seq<Byte>, m: nat, r: nat)
    requires r < 3 && |d| == 3 * m + r
    ensures |ToSextets(BytesToBits(d))| == 4 * m + (if r == 0 then 0 else r + 1)
    ensures |Encode(d)| == 4 * m + (if r == 0 then 0 else 4)
  {
    ToSextetsLength(BytesToBits(d));
  }

  /** An encoding fills whole groups of four characters, with at most two '=' at its end and none before. */
  lemma EncodeShape(d: seq<Byte>)
    ensures |Encode(d)| == 4 * ((|d| + 2) / 3)
    ensures var pad := if |d| % 3 == 0 then 0 else 3 - |d| % 3;
            forall i | 0 <= i < |Encode(d)| :: if i < |Encode(d)| - pad then InAlphabet(Encode(d)[i]) else Encode(d)[i] == '='
  {
    var groups := ToSextets(BytesToBits(d));
    EncodedLength(d, |d| / 3, |d| % 3);
    forall i | 0 <= i < |groups|
      ensures InAlphabet(Encode(d)[i])
    {
      AlphabetPosition(groups[i]);
    }
  }

  /** Line breaks, padding and strays anywhere in the text change nothing. */
  lemma JunkIsIgnored(a: string, junk: string, b: string)
    requires forall c | c in junk :: !InAlphabet(c)
    ensures Decode(a + junk + b) == Decode(a + b)
  {
    SextetsConcat(a + junk, b);
    SextetsConcat(a, junk);
    SextetsOfJunk(junk);
    SextetsConcat(a, b);
    assert Sextets(a + junk + b) == Sextets(a + b);
  }
}
