/** Version-4 UUIDs as the load generator builds them (main.go `uuid4`): sixteen
    random octets, stamped with the RFC 4122 variant and version bits
    (sections 4.1.1, 4.1.3 and 4.4 of RFC 4122), then rendered in the
    8-4-4-4-12 lower-case hexadecimal layout of section 3 of RFC 4122.

    The random octets are a parameter: reading them from `crypto/rand` is I/O. */
module Uuid {
  import opened Wrappers

  /** Number of octets in a UUID. */
  const Size := 16

  /** Length of the text form: 32 hexadecimal digits and four hyphens. */
  const TextLength := 36

  /** Go's `%x` verb renders octets with these lower-case digits. */
  const HexDigits: string := "0123456789abcdef"

  // ---------------------------------------------------------------------------
  // Octet stamping
  // ---------------------------------------------------------------------------

  /** Octet 8 (clock_seq_hi_and_reserved): clear the two most significant
      bits, then set them to the variant `10`. */
  function SetVariant(b: bv8): (r: bv8)
    ensures r >> 6 == 2
    ensures 0x80 <= r as int <= 0xBF
    ensures r & 0x3F == b & 0x3F
  {
    (b & !0xC0) | 0x80
  }

  /** Octet 6 (time_hi_and_version): clear the high nibble, then set it to
      the version number 4. */
  function SetVersion(b: bv8): (r: bv8)
    ensures r >> 4 == 4
    ensures r & 0x0F == b & 0x0F
  {
    (b & !0xF0) | 0x40
  }

  /** The octet-level part of `uuid4`: overwrite the variant bits of octet 8,
      then the version nibble of octet 6; every other octet is kept. */
  function Stamp(bs: seq<bv8>): (r: seq<bv8>)
    requires |bs| == Size
    ensures |r| == Size
    ensures r[6] >> 4 == 4 && r[6] & 0x0F == bs[6] & 0x0F
    ensures r[8] >> 6 == 2 && r[8] & 0x3F == bs[8] & 0x3F
    ensures 0x80 <= r[8] as int <= 0xBF
    ensures forall i :: 0 <= i < Size && i != 6 && i != 8 ==> r[i] == bs[i]
  {
    var withVariant := bs[8 := SetVariant(bs[8])];
    withVariant[6 := SetVersion(withVariant[6])]
  }

  /** The octets carry version 4 and the RFC 4122 variant. */
  predicate IsVersion4(bs: seq<bv8>)
    requires |bs| == Size
  {
    bs[6] >> 4 == 4 && bs[8] >> 6 == 2
  }

  /** Stamping an already stamped value changes nothing. */
  lemma StampIdempotent(bs: seq<bv8>)
    requires |bs| == Size
    ensures Stamp(Stamp(bs)) == Stamp(bs)
  {
    var s := Stamp(bs);
    var t := Stamp(s);
    forall i | 0 <= i < Size
      ensures t[i] == s[i]
    {
      if i == 6 {
        BitsDetermineOctet(t[6], s[6], 4);
      } else if i == 8 {
        BitsDetermineOctet(t[8], s[8], 6);
      }
    }
  }

  /** An octet is determined by its bits above and below position `k`. */
  lemma BitsDetermineOctet(x: bv8, y: bv8, k: nat)
    requires k == 4 || k == 6
    requires x >> k == y >> k
    requires k == 4 ==> x & 0x0F == y & 0x0F
    requires k == 6 ==> x & 0x3F == y & 0x3F
    ensures x == y
  {
  }

  /** The fixed points of stamping are exactly the version-4 octet strings. */
  lemma StampFixesExactlyVersion4(bs: seq<bv8>)
    requires |bs| == Size
    ensures Stamp(bs) == bs <==> IsVersion4(bs)
  {
    var s := Stamp(bs);
    if IsVersion4(bs) {
      BitsDetermineOctet(s[6], bs[6], 4);
      BitsDetermineOctet(s[8], bs[8], 6);
      assert forall i :: 0 <= i < Size ==> s[i] == bs[i];
    }
  }

  // ---------------------------------------------------------------------------
  // Hexadecimal text
  // ---------------------------------------------------------------------------

  predicate IsHexDigit(c: char) {
    '0' <= c <= '9' || 'a' <= c <= 'f'
  }

  /** The digit a nibble is written as. */
  function Digit(d: bv8): (c: char)
    requires d < 16
    ensures IsHexDigit(c)
  {
    HexDigits[d as int]
  }

  /** The nibble a lower-case hexadecimal digit stands for. */
  function NibbleValue(c: char): (d: bv8)
    requires IsHexDigit(c)
    ensures d < 16 && Digit(d) == c
  {
    if '0' <= c <= '9' then (c as int - '0' as int) as bv8
    else (c as int - 'a' as int + 10) as bv8
  }

  /** The octet whose two printed digits are `hi` and `lo`. */
  function OctetOf(hi: char, lo: char): (b: bv8)
    requires IsHexDigit(hi) && IsHexDigit(lo)
    ensures HexOctet(b) == [hi, lo]
  {
    var b := (NibbleValue(hi) << 4) | NibbleValue(lo);
    assert b >> 4 == NibbleValue(hi) && b & 0x0F == NibbleValue(lo);
    b
  }

  lemma NibbleValueOfDigit(d: bv8)
    requires d < 16
    ensures NibbleValue(Digit(d)) == d
  {
  }

  /** One octet as `%x` prints it: two digits, high nibble first. */
  function HexOctet(b: bv8): string
  {
    [Digit(b >> 4), Digit(b & 0x0F)]
  }

  /** Go's `%x` applied to a byte slice: the octets' two-digit forms, in order,
      with no separator. */
  function Hex(bs: seq<bv8>): (r: string)
    ensures |r| == 2 * |bs|
    ensures forall i :: 0 <= i < |bs| ==> r[2 * i] == Digit(bs[i] >> 4) && r[2 * i + 1] == Digit(bs[i] & 0x0F)
    ensures forall j :: 0 <= j < |r| ==> IsHexDigit(r[j])
  {
    if bs == [] then ""
    else
      HexCons(bs[0], bs[1..], Hex(bs[1..]));
      assert [bs[0]] + bs[1..] == bs;
      HexOctet(bs[0]) + Hex(bs[1..])
  }

  /** Printing one more octet in front keeps every later digit in place,
      two positions further on. */
  lemma HexCons(b: bv8, rest: seq<bv8>, tail: string)
    requires |tail| == 2 * |rest|
    requires forall i :: 0 <= i < |rest| ==> tail[2 * i] == Digit(rest[i] >> 4) && tail[2 * i + 1] == Digit(rest[i] & 0x0F)
    requires forall j :: 0 <= j < |tail| ==> IsHexDigit(tail[j])
    ensures var bs, r := [b] + rest, HexOctet(b) + tail;
      && |r| == 2 * |bs|
      && (forall i :: 0 <= i < |bs| ==> r[2 * i] == Digit(bs[i] >> 4) && r[2 * i + 1] == Digit(bs[i] & 0x0F))
      && (forall j :: 0 <= j < |r| ==> IsHexDigit(r[j]))
  {
    var bs, r := [b] + rest, HexOctet(b) + tail;
    forall i | 1 <= i < |bs|
      ensures r[2 * i] == Digit(bs[i] >> 4) && r[2 * i + 1] == Digit(bs[i] & 0x0F)
    {
      assert r[2 * i] == tail[2 * (i - 1)] && r[2 * i + 1] == tail[2 * (i - 1) + 1];
      assert bs[i] == rest[i - 1];
    }
    forall j | 2 <= j < |r|
      ensures IsHexDigit(r[j])
    {
      assert r[j] == tail[j - 2];
    }
  }

  // ---------------------------------------------------------------------------
  // The 8-4-4-4-12 layout
  // ---------------------------------------------------------------------------

  /** Positions of the four hyphens in the text form. */
  predicate IsHyphenPosition(i: int) {
    i == 8 || i == 13 || i == 18 || i == 23
  }

  /** The string-representation grammar of section 3 of RFC 4122, restricted
      to the lower-case digits `%x` prints. */
  predicate WellFormed(s: string) {
    && |s| == TextLength
    && forall i :: 0 <= i < TextLength ==> if IsHyphenPosition(i) then s[i] == '-' else IsHexDigit(s[i])
  }

  /** Where octet `k`'s first digit sits in the text form: two digits per
      octet, plus one for every hyphen before it. */
  function DigitPosition(k: int): (p: int)
    requires 0 <= k < Size
    ensures 0 <= p < TextLength - 1 && !IsHyphenPosition(p) && !IsHyphenPosition(p + 1)
  {
    if k < 4 then 2 * k
    else if k < 6 then 2 * k + 1
    else if k < 8 then 2 * k + 2
    else if k < 10 then 2 * k + 3
    else 2 * k + 4
  }

  /** The text form: the octets in five groups of 4, 2, 2, 2 and 6, each group
      printed in hexadecimal, the groups joined by hyphens. */
  function Format(bs: seq<bv8>): (s: string)
    requires |bs| == Size
    ensures WellFormed(s)
    ensures forall k :: 0 <= k < Size ==>
              s[DigitPosition(k)] == Digit(bs[k] >> 4) && s[DigitPosition(k) + 1] == Digit(bs[k] & 0x0F)
  {
    var s := Hex(bs[0..4]) + "-" + Hex(bs[4..6]) + "-" + Hex(bs[6..8]) + "-" + Hex(bs[8..10]) + "-" + Hex(bs[10..]);
    FormatPieces(bs, s);
    FormatWellFormed(bs, s);
    FormatDigits(bs, s);
    s
  }

  /** The octets `bs[lo..hi]` are printed starting at position `at` of `s`. */
  predicate PrintedAt(s: string, at: nat, bs: seq<bv8>, lo: nat, hi: nat)
    requires lo <= hi <= |bs|
  {
    at + 2 * (hi - lo) <= |s| && s[at..at + 2 * (hi - lo)] == Hex(bs[lo..hi])
  }

  lemma PrintedDigits(s: string, at: nat, bs: seq<bv8>, lo: nat, hi: nat)
    requires lo <= hi <= |bs| && PrintedAt(s, at, bs, lo, hi)
    ensures forall k :: lo <= k < hi ==>
              s[at + 2 * (k - lo)] == Digit(bs[k] >> 4) && s[at + 2 * (k - lo) + 1] == Digit(bs[k] & 0x0F)
    ensures forall i :: at <= i < at + 2 * (hi - lo) ==> IsHexDigit(s[i])
  {
    var h := Hex(bs[lo..hi]);
    assert forall k :: lo <= k < hi ==> h[2 * (k - lo)] == s[at + 2 * (k - lo)] && bs[lo..hi][k - lo] == bs[k];
    assert forall i :: at <= i < at + 2 * (hi - lo) ==> s[i] == h[i - at];
  }

  lemma FormatPieces(bs: seq<bv8>, s: string)
    requires |bs| == Size
    requires s == Hex(bs[0..4]) + "-" + Hex(bs[4..6]) + "-" + Hex(bs[6..8]) + "-" + Hex(bs[8..10]) + "-" + Hex(bs[10..])
    ensures |s| == TextLength
    ensures s[8] == '-' && s[13] == '-' && s[18] == '-' && s[23] == '-'
    ensures PrintedAt(s, 0, bs, 0, 4) && PrintedAt(s, 9, bs, 4, 6) && PrintedAt(s, 14, bs, 6, 8)
    ensures PrintedAt(s, 19, bs, 8, 10) && PrintedAt(s, 24, bs, 10, 16)
  {
    assert bs[10..] == bs[10..16];
  }

  lemma FormatWellFormed(bs: seq<bv8>, s: string)
    requires |bs| == Size
    requires |s| == TextLength
    requires s[8] == '-' && s[13] == '-' && s[18] == '-' && s[23] == '-'
    requires PrintedAt(s, 0, bs, 0, 4) && PrintedAt(s, 9, bs, 4, 6) && PrintedAt(s, 14, bs, 6, 8)
    requires PrintedAt(s, 19, bs, 8, 10) && PrintedAt(s, 24, bs, 10, 16)
    ensures WellFormed(s)
  {
    forall i | 0 <= i < TextLength
      ensures if IsHyphenPosition(i) then s[i] == '-' else IsHexDigit(s[i])
    {
      if i < 8 {
        PrintedDigits(s, 0, bs, 0, 4);
      } else if 8 < i < 13 {
        PrintedDigits(s, 9, bs, 4, 6);
      } else if 13 < i < 18 {
        PrintedDigits(s, 14, bs, 6, 8);
      } else if 18 < i < 23 {
        PrintedDigits(s, 19, bs, 8, 10);
      } else if 23 < i {
        PrintedDigits(s, 24, bs, 10, 16);
      }
    }
  }

  /** One octet of a printed run, at its two positions. */
  lemma PrintedOctet(s: string, at: nat, bs: seq<bv8>, lo: nat, hi: nat, k: nat)
    requires lo <= k < hi <= |bs| && PrintedAt(s, at, bs, lo, hi)
    ensures at + 2 * (k - lo) + 1 < |s|
    ensures s[at + 2 * (k - lo)] == Digit(bs[k] >> 4) && s[at + 2 * (k - lo) + 1] == Digit(bs[k] & 0x0F)
  {
    PrintedDigits(s, at, bs, lo, hi);
  }

  lemma FormatDigits(bs: seq<bv8>, s: string)
    requires |bs| == Size
    requires |s| == TextLength
    requires PrintedAt(s, 0, bs, 0, 4) && PrintedAt(s, 9, bs, 4, 6) && PrintedAt(s, 14, bs, 6, 8)
    requires PrintedAt(s, 19, bs, 8, 10) && PrintedAt(s, 24, bs, 10, 16)
    ensures forall k :: 0 <= k < Size ==>
              s[DigitPosition(k)] == Digit(bs[k] >> 4) && s[DigitPosition(k) + 1] == Digit(bs[k] & 0x0F)
  {
    forall k | 0 <= k < Size
      ensures s[DigitPosition(k)] == Digit(bs[k] >> 4) && s[DigitPosition(k) + 1] == Digit(bs[k] & 0x0F)
    {
      if k < 4 {
        PrintedOctet(s, 0, bs, 0, 4, k);
      } else if k < 6 {
        PrintedOctet(s, 9, bs, 4, 6, k);
      } else if k < 8 {
        PrintedOctet(s, 14, bs, 6, 8, k);
      } else if k < 10 {
        PrintedOctet(s, 19, bs, 8, 10, k);
      } else {
        PrintedOctet(s, 24, bs, 10, 16, k);
      }
    }
  }

  /** `uuid4()` on a given sixteen-octet read: the text form of the stamped
      octets. Digit 14 is the version and digit 19 starts with the variant. */
  function Uuid4(random: seq<bv8>): (s: string)
    requires |random| == Size
    ensures WellFormed(s)
    ensures s[14] == '4'
    ensures s[19] in {'8', '9', 'a', 'b'}
  {
    var stamped := Stamp(random);
    var s := Format(stamped);
    assert s[DigitPosition(6)] == Digit(stamped[6] >> 4);
    assert s[DigitPosition(8)] == Digit(stamped[8] >> 4);
    assert 8 <= (stamped[8] >> 4) as int < 12;
    s
  }

  // ---------------------------------------------------------------------------
  // Reading the text form back
  // ---------------------------------------------------------------------------

  /** The octet whose digits sit at text position `i` (a digit position). */
  function OctetAt(i: int): (k: int)
    requires 0 <= i < TextLength && !IsHyphenPosition(i)
    ensures 0 <= k < Size && (DigitPosition(k) == i || DigitPosition(k) + 1 == i)
  {
    if i < 8 then i / 2
    else if i < 13 then (i - 1) / 2
    else if i < 18 then (i - 2) / 2
    else if i < 23 then (i - 3) / 2
    else (i - 4) / 2
  }

  /** Inverse of `Format`: the octets of a well-formed text form, or `None`. */
  function Parse(s: string): (r: Option<seq<bv8>>)
    ensures r.Some? <==> WellFormed(s)
    ensures r.Some? ==> |r.value| == Size && Format(r.value) == s
  {
    if !WellFormed(s) then None
    else
      var bs := seq(Size, k requires 0 <= k < Size => OctetOf(s[DigitPosition(k)], s[DigitPosition(k) + 1]));
      FormatParsed(s, bs);
      Some(bs)
  }

  lemma FormatParsed(s: string, bs: seq<bv8>)
    requires WellFormed(s) && |bs| == Size
    requires forall k :: 0 <= k < Size ==> bs[k] == OctetOf(s[DigitPosition(k)], s[DigitPosition(k) + 1])
    ensures Format(bs) == s
  {
    SameText(s, Format(bs), bs);
  }

  /** Two well-formed texts agree when every octet's digits do. */
  lemma SameText(s: string, f: string, bs: seq<bv8>)
    requires WellFormed(s) && WellFormed(f) && |bs| == Size
    requires forall k :: 0 <= k < Size ==>
               f[DigitPosition(k)] == Digit(bs[k] >> 4) && f[DigitPosition(k) + 1] == Digit(bs[k] & 0x0F)
    requires forall k :: 0 <= k < Size ==> bs[k] == OctetOf(s[DigitPosition(k)], s[DigitPosition(k) + 1])
    ensures f == s
  {
    forall i | 0 <= i < TextLength
      ensures f[i] == s[i]
    {
      if !IsHyphenPosition(i) {
        var k := OctetAt(i);
        assert HexOctet(bs[k]) == [s[DigitPosition(k)], s[DigitPosition(k) + 1]];
      }
    }
  }

  /** Reading back the text of any octet string gives those octets. */
  lemma ParseFormat(bs: seq<bv8>)
    requires |bs| == Size
    ensures Parse(Format(bs)) == Some(bs)
  {
    var s := Format(bs);
    var r := Parse(s).value;
    forall k | 0 <= k < Size
      ensures r[k] == bs[k]
    {
      assert HexOctet(r[k]) == [s[DigitPosition(k)], s[DigitPosition(k) + 1]] == HexOctet(bs[k]);
      HexOctetInjective(r[k], bs[k]);
    }
    assert |r| == Size && r == bs;
  }

  lemma HexOctetInjective(a: bv8, b: bv8)
    requires HexOctet(a) == HexOctet(b)
    ensures a == b
  {
    NibbleValueOfDigit(a >> 4);
    NibbleValueOfDigit(b >> 4);
    NibbleValueOfDigit(a & 0x0F);
    NibbleValueOfDigit(b & 0x0F);
    assert a >> 4 == b >> 4 && a & 0x0F == b & 0x0F;
    BitsDetermineOctet(a, b, 4);
  }

  /** Distinct octet strings have distinct text forms. */
  lemma FormatInjective(a: seq<bv8>, b: seq<bv8>)
    requires |a| == Size && |b| == Size
    ensures Format(a) == Format(b) <==> a == b
  {
    if Format(a) == Format(b) {
      ParseFormat(a);
      ParseFormat(b);
    }
  }

  /** Two reads give the same identifier exactly when they agree after
      stamping: the six overwritten bits carry no randomness. */
  lemma Uuid4SameText(a: seq<bv8>, b: seq<bv8>)
    requires |a| == Size && |b| == Size
    ensures Uuid4(a) == Uuid4(b) <==> Stamp(a) == Stamp(b)
  {
    FormatInjective(Stamp(a), Stamp(b));
  }

  /** So distinct reads can collide: flipping a version bit of octet 6 is
      invisible in the result. */
  lemma Uuid4IgnoresVersionBits(bs: seq<bv8>)
    requires |bs| == Size
    ensures bs[6 := bs[6] ^ 0x10] != bs
    ensures Uuid4(bs[6 := bs[6] ^ 0x10]) == Uuid4(bs)
  {
    var flipped := bs[6 := bs[6] ^ 0x10];
    assert flipped[6] != bs[6];
    var s, t := Stamp(flipped), Stamp(bs);
    BitsDetermineOctet(s[6], t[6], 4);
    assert forall i :: 0 <= i < Size ==> s[i] == t[i];
  }
}
