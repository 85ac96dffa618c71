/** Which texts are encodings, told from the text alone, and what the decoder makes of the others. */
module Base64Text {
  import opened Common
  import opened Base64Spec

  /** The whitespace the decoder documents that it ignores. */
  predicate IsBlank(c: char) {
    c == ' ' || c == '\t' || c == '\r' || c == '\n'
  }

  function Stripped(text: string): string {
    if text == [] then []
    else Stripped(text[..|text| - 1]) + (if IsBlank(text[|text| - 1]) then [] else [text[|text| - 1]])
  }

  /** The number of '=' at the end. */
  function PadCount(s: string): (p: nat)
    ensures p <= |s|
  {
    if s != [] && s[|s| - 1] == '=' then 1 + PadCount(s[..|s| - 1]) else 0
  }

  /** What stands before the padding. */
  function Unpadded(s: string): string {
    s[..|s| - PadCount(s)]
  }

  predicate AllInAlphabet(s: string) {
    forall i | 0 <= i < |s| :: InAlphabet(s[i])
  }

  /** The bits of the last character that belong to no byte. */
  predicate SpareBitsAreZero(body: string, pad: nat)
    requires AllInAlphabet(body)
  {
    body != [] ==> (pad == 1 ==> Val(body[|body| - 1]) % 4 == 0) && (pad == 2 ==> Val(body[|body| - 1]) % 16 == 0)
  }

  /** Section 4 of RFC 4648, for a reader: whole groups of four characters of the alphabet, at most two '=' in place of the
      last ones, and no bits left over that are not zero. */
  predicate WellFormed(s: string) {
    |s| % 4 == 0 && PadCount(s) <= 2 && AllInAlphabet(Unpadded(s)) && SpareBitsAreZero(Unpadded(s), PadCount(s))
  }

  // ---- spare bits ----

  /** The last k bits of some groups are the low bits of the last group. */
  lemma LastBits(groups: seq<Sextet>, k: nat, high: nat, low: nat)
    requires groups != [] && k <= 6 && low < Power(k) && groups[|groups| - 1] == high * Power(k) + low
    ensures var bits := SextetsToBits(groups); bits[|bits| - k..] == Bits(k, low)
  {
    var front, last := groups[..|groups| - 1], groups[|groups| - 1];
    GroupsEnd(groups);
    BitsJoin(6 - k, high, k, low);
    TailOfTail(SextetsToBits(front), Bits(6 - k, high), Bits(k, low));
  }

  lemma GroupsEnd(groups: seq<Sextet>)
    requires groups != []
    ensures SextetsToBits(groups) == SextetsToBits(groups[..|groups| - 1]) + Bits(6, groups[|groups| - 1])
  {
    LastApart(groups);
    SextetsToBitsConcat(groups[..|groups| - 1], [groups[|groups| - 1]]);
    OneSextet(groups[|groups| - 1]);
  }

  lemma LastApart(groups: seq<Sextet>)
    requires groups != []
    ensures groups == groups[..|groups| - 1] + [groups[|groups| - 1]]
  {
  }

  lemma TailOfTail(a: BitString, b: BitString, c: BitString)
    ensures (a + (b + c))[|a + (b + c)| - |c|..] == c
  {
  }

  lemma PowersOfFour()
    ensures Power(2) == 4 && Power(4) == 16
  {
    assert Power(1) == 2;
    assert Power(3) == 8;
  }

  lemma SpareTwo(groups: seq<Sextet>)
    requires groups != []
    ensures var bits := SextetsToBits(groups); bits[|bits| - 2..] == Zeros(2) <==> groups[|groups| - 1] % 4 == 0
  {
    PowersOfFour();
    var low := groups[|groups| - 1] % 4;
    LastBits(groups, 2, groups[|groups| - 1] as int / 4, low);
    ZeroBits(2);
    ValueOfBits(2, low);
    ValueOfBits(2, 0);
  }

  lemma SpareFour(groups: seq<Sextet>)
    requires groups != []
    ensures var bits := SextetsToBits(groups); bits[|bits| - 4..] == Zeros(4) <==> groups[|groups| - 1] % 16 == 0
  {
    PowersOfFour();
    var low := groups[|groups| - 1] % 16;
    LastBits(groups, 4, groups[|groups| - 1] as int / 16, low);
    ZeroBits(4);
    ValueOfBits(4, low);
    ValueOfBits(4, 0);
  }

  // ---- encodings are well formed ----

  lemma {:induction false} PadCountOf(body: string, k: nat)
    requires AllInAlphabet(body)
    ensures PadCount(body + Padding(k)) == k && Unpadded(body + Padding(k)) == body
  {
    var s := body + Padding(k);
    if k == 0 {
      assert s == body;
    } else {
      assert s[..|s| - 1] == body + Padding(k - 1);
      PadCountOf(body, k - 1);
    }
  }

  lemma CharsAreInAlphabet(groups: seq<Sextet>)
    ensures AllInAlphabet(Chars(groups))
    ensures forall i | 0 <= i < |groups| :: InAlphabet(Chars(groups)[i]) && Val(Chars(groups)[i]) == groups[i]
  {
    forall i | 0 <= i < |groups|
      ensures InAlphabet(Chars(groups)[i]) && Val(Chars(groups)[i]) == groups[i]
    {
      AlphabetPosition(groups[i]);
    }
  }

  /** The groups of 3m + r bytes, and how many of the last one's bits are filled up. */
  lemma GroupsOf(d: seq<Byte>, m: nat, r: nat)
    requires r < 3 && |d| == 3 * m + r
    ensures var groups := ToSextets(BytesToBits(d));
            && |groups| == 4 * m + (if r == 0 then 0 else r + 1)
            && (r == 1 ==> groups[|groups| - 1] % 16 == 0)
            && (r == 2 ==> groups[|groups| - 1] % 4 == 0)
  {
    var bits := BytesToBits(d);
    var groups := ToSextets(bits);
    EncodedLength(d, m, r);
    GroupingPads(bits);
    FillOf(m, r);
    assert r > 0 ==> SextetsToBits(groups)[|bits|..] == Fill(|bits|);
    if r == 1 {
      SpareFour(groups);
    } else if r == 2 {
      SpareTwo(groups);
    }
  }

  lemma FillOf(m: nat, r: nat)
    requires r < 3
    ensures Fill(8 * (3 * m + r)) == Zeros(if r == 0 then 0 else if r == 1 then 4 else 2)
  {
    assert 8 * (3 * m + r) == 6 * (4 * m + r) + 2 * r;
  }

  lemma PaddedIsWellFormed(groups: seq<Sextet>, p: nat)
    requires p <= 2 && (|groups| + p) % 4 == 0
    requires p == 2 ==> groups[|groups| - 1] % 16 == 0
    requires p == 1 ==> groups[|groups| - 1] % 4 == 0
    ensures WellFormed(Chars(groups) + Padding(p))
  {
    CharsAreInAlphabet(groups);
    PadCountOf(Chars(groups), p);
  }

  lemma EncodeIsWellFormed(d: seq<Byte>)
    ensures WellFormed(Encode(d))
  {
    var m, r := |d| / 3, |d| % 3;
    GroupsOf(d, m, r);
    EncodeIs(d, m, r);
    PaddedIsWellFormed(ToSextets(BytesToBits(d)), if r == 0 then 0 else 3 - r);
  }

  lemma EncodeIs(d: seq<Byte>, m: nat, r: nat)
    requires r < 3 && |ToSextets(BytesToBits(d))| == 4 * m + (if r == 0 then 0 else r + 1)
    ensures Encode(d) == Chars(ToSextets(BytesToBits(d))) + Padding(if r == 0 then 0 else 3 - r)
  {
  }

  // ---- well-formed texts are encodings ----

  /** The whole bytes of a bit string, turned back into bits. */
  lemma {:induction false} BytesBack(bits: BitString)
    ensures 8 * |ToBytes(bits)| <= |bits| && BytesToBits(ToBytes(bits)) == bits[..8 * |ToBytes(bits)|]
    decreases |bits|
  {
    ToBytesLength(bits);
    if |bits| >= 8 {
      BytesBack(bits[8..]);
      BitsOfValue(bits[..8]);
      var d := ToBytes(bits);
      assert d[1..] == ToBytes(bits[8..]);
      assert bits[..8 * |d|] == bits[..8] + bits[8..][..8 * (|d| - 1)];
    } else {
      assert bits[..0] == [];
    }
  }

  lemma {:induction false} UnpaddedAndPad(s: string)
    ensures s == Unpadded(s) + Padding(PadCount(s))
    decreases |s|
  {
    if s != [] && s[|s| - 1] == '=' {
      UnpaddedAndPad(s[..|s| - 1]);
    }
  }

  lemma CharsMore(groups: seq<Sextet>, v: Sextet)
    ensures Chars(groups + [v]) == Chars(groups) + [ALPHABET[v]]
  {
  }

  lemma {:induction false} SextetsOfBody(body: string)
    requires AllInAlphabet(body)
    ensures |Sextets(body)| == |body| && Chars(Sextets(body)) == body
    ensures forall i | 0 <= i < |body| :: Sextets(body)[i] == Val(body[i])
    decreases |body|
  {
    if body != [] {
      var front, c := body[..|body| - 1], body[|body| - 1];
      SextetsOfBody(front);
      CharsMore(Sextets(front), Val(c));
      CharacterAt(c);
      assert body == front + [c];
    }
  }

  /** 4m groups and r bytes' worth more, the spare bits zero: the whole bytes in them group back to them. */
  lemma GroupsBack(groups: seq<Sextet>, m: nat, r: nat)
    requires r < 3 && |groups| == 4 * m + (if r == 0 then 0 else r + 1)
    requires r == 1 ==> groups[|groups| - 1] % 16 == 0
    requires r == 2 ==> groups[|groups| - 1] % 4 == 0
    ensures ToSextets(BytesToBits(ToBytes(SextetsToBits(groups)))) == groups
  {
    var bits := SextetsToBits(groups);
    var d := ToBytes(bits);
    BytesBack(bits);
    ToBytesLength(bits);
    SpareBits(groups, m, r);
    ByteCount(|d|, |bits|, 3 * m + r);
    FilledBack(groups, d, 8 * (3 * m + r));
  }

  lemma ByteCount(x: nat, n: nat, y: nat)
    requires 8 * x <= n < 8 * x + 8 && 8 * y <= n < 8 * y + 8
    ensures x == y
  {
  }

  lemma FilledBack(groups: seq<Sextet>, d: seq<Byte>, n: nat)
    requires n == 8 * |d| && |SextetsToBits(groups)| == n + |Fill(n)|
    requires BytesToBits(d) == SextetsToBits(groups)[..n] && SextetsToBits(groups)[n..] == Fill(n)
    ensures ToSextets(BytesToBits(d)) == groups
  {
    HeadAndTail(SextetsToBits(groups), n);
    GroupsOfFilled(BytesToBits(d), groups);
  }

  lemma SpareBits(groups: seq<Sextet>, m: nat, r: nat)
    requires r < 3 && |groups| == 4 * m + (if r == 0 then 0 else r + 1)
    requires r == 1 ==> groups[|groups| - 1] % 16 == 0
    requires r == 2 ==> groups[|groups| - 1] % 4 == 0
    ensures var n := 8 * (3 * m + r);
            |SextetsToBits(groups)| == n + |Fill(n)| && SextetsToBits(groups)[n..] == Fill(n)
  {
    if r == 1 {
      SpareFour(groups);
    } else if r == 2 {
      SpareTwo(groups);
    }
    FillOf(m, r);
  }

  lemma HeadAndTail(bits: BitString, n: nat)
    requires n <= |bits|
    ensures bits == bits[..n] + bits[n..]
  {
  }

  lemma WellFormedIsEncoding(s: string)
    requires WellFormed(s)
    ensures Encode(Decode(s)) == s
  {
    UnpaddedAndPad(s);
    SextetsOfBody(Unpadded(s));
    SextetsOfPadded(Sextets(Unpadded(s)), PadCount(s));
    EncodingOf(s, Unpadded(s), Sextets(Unpadded(s)), PadCount(s));
  }

  lemma EncodingOf(s: string, body: string, groups: seq<Sextet>, p: nat)
    requires s == body + Padding(p) && body == Chars(groups) && Sextets(s) == groups
    requires p <= 2 && (|groups| + p) % 4 == 0
    requires p == 2 ==> groups[|groups| - 1] % 16 == 0
    requires p == 1 ==> groups[|groups| - 1] % 4 == 0
    ensures Encode(Decode(s)) == s
  {
    PaddedGroupsEncode(groups, p);
  }

  lemma PaddedGroupsEncode(groups: seq<Sextet>, p: nat)
    requires p <= 2 && (|groups| + p) % 4 == 0
    requires p == 2 ==> groups[|groups| - 1] % 16 == 0
    requires p == 1 ==> groups[|groups| - 1] % 4 == 0
    ensures Encode(ToBytes(SextetsToBits(groups))) == Chars(groups) + Padding(p)
  {
    var r := if p == 0 then 0 else 3 - p;
    var m := (|groups| - (if r == 0 then 0 else r + 1)) / 4;
    GroupCount(|groups| + p, p, m, r);
    GroupsEncode(groups, m, r);
  }

  /** Such groups, padded, are the encoding of the whole bytes in them. */
  lemma GroupsEncode(groups: seq<Sextet>, m: nat, r: nat)
    requires r < 3 && |groups| == 4 * m + (if r == 0 then 0 else r + 1)
    requires r == 1 ==> groups[|groups| - 1] % 16 == 0
    requires r == 2 ==> groups[|groups| - 1] % 4 == 0
    ensures Encode(ToBytes(SextetsToBits(groups))) == Chars(groups) + Padding(if r == 0 then 0 else 3 - r)
  {
    GroupsBack(groups, m, r);
    EncodeIs(ToBytes(SextetsToBits(groups)), m, r);
  }

  lemma GroupCount(n: nat, p: nat, m: nat, r: nat)
    requires n % 4 == 0 && p <= 2 && p <= n && r == if p == 0 then 0 else 3 - p
    requires m == (n - p - (if r == 0 then 0 else r + 1)) / 4
    ensures n - p == 4 * m + (if r == 0 then 0 else r + 1)
  {
  }

  /** A text is the encoding of something if and only if it is well formed. */
  lemma EncodingsAreWellFormed(s: string)
    ensures (exists d: seq<Byte> :: Encode(d) == s) <==> WellFormed(s)
  {
    if d: seq<Byte> :| Encode(d) == s {
      EncodeIsWellFormed(d);
    }
    if WellFormed(s) {
      WellFormedIsEncoding(s);
    }
  }

  // ---- what the decoder promises ----

  lemma {:induction false} BlanksCarryNothing(text: string)
    ensures Sextets(Stripped(text)) == Sextets(text)
    decreases |text|
  {
    if text != [] {
      var front, c := text[..|text| - 1], text[|text| - 1];
      BlanksCarryNothing(front);
      if IsBlank(c) {
        assert Stripped(front) + [] == Stripped(front);
      } else {
        SextetsConcat(Stripped(front), [c]);
        SextetsConcat(front, [c]);
        assert text == front + [c];
      }
    }
  }

  /** The bytes of a text do not fit. */
  predicate TooLong(text: string, outCap: nat) {
    3 * |Sextets(text)| / 4 > outCap
  }

  /** A well-formed text with blanks in it decodes to what it encodes. */
  lemma DecodesWhatItEncodes(text: string)
    requires WellFormed(Stripped(text))
    ensures Encode(Decode(text)) == Stripped(text)
  {
    BlanksCarryNothing(text);
    WellFormedIsEncoding(Stripped(text));
  }

  /** Malformed text within the capacity: one stray character. The decoder takes it for the empty byte string. */
  lemma MalformedIsAccepted()
    ensures !WellFormed(Stripped("A")) && !TooLong("A", 0) && Decode("A") == []
  {
    assert "A"[..0] == "" && Stripped("") == "" && Sextets("") == [];
    assert [] + ['A'] == "A";
    DecodeLength("A");
  }
}
