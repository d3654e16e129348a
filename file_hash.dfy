/**
  The text form of a file's MD5 digest used as the deduplication key:
  `BitConverter.ToString(hash).Replace("-", "").ToLowerInvariant()`.
  MD5 itself (RFC 1321) is not modelled; it enters as a function from bytes
  to a 16-byte digest.
 */
module FileHash {
  import opened Wrappers
  import opened OrdinalText

  newtype byte = b: int | 0 <= b < 256

  type Bytes = seq<byte>

  /** An MD5 digest is 128 bits. */
  type Digest = d: Bytes | |d| == 16
    witness [0, 0, 0, 0, 0, 0, 0, 0, 0, 0, 0, 0, 0, 0, 0, 0]

  /** MD5 over a file's full content. */
  type Hasher = Bytes -> Digest

  /** Hexadecimal digit of a nibble, in upper or lower case. */
  function HexDigit(n: nat, upper: bool): (c: char)
    requires n < 16
    ensures IsHexDigit(c, upper)
  {
    if n < 10 then ('0' as int + n) as char
    else ((if upper then 'A' else 'a') as int + n - 10) as char
  }

  predicate IsHexDigit(c: char, upper: bool) {
    ('0' <= c <= '9') || (if upper then 'A' <= c <= 'F' else 'a' <= c <= 'f')
  }

  /** The two digits of one byte, high nibble first. */
  function Pair(b: byte, upper: bool): string {
    [HexDigit(b as int / 16, upper), HexDigit(b as int % 16, upper)]
  }

  /** `BitConverter.ToString(byte[])`: upper-case pairs joined by dashes. */
  function BitConverterToString(bs: Bytes): (r: string)
    ensures |bs| > 0 ==> |r| == 3 * |bs| - 1
  {
    if |bs| == 0 then ""
    else if |bs| == 1 then Pair(bs[0], true)
    else Pair(bs[0], true) + "-" + BitConverterToString(bs[1..])
  }

  /** `String.Replace("-", "")`. */
  function RemoveDashes(s: string): (r: string)
    ensures '-' !in r
  {
    if s == [] then "" else (if s[0] == '-' then "" else [s[0]]) + RemoveDashes(s[1..])
  }

  /** The rendering `GetFileHash` returns for a digest: no dash and no
      upper-case letter survive it. */
  function RenderHash(d: Bytes): (r: string)
    ensures '-' !in r
    ensures forall k :: 0 <= k < |r| ==> !('A' <= r[k] <= 'Z')
  {
    var plain := RemoveDashes(BitConverterToString(d));
    var r := ToLowerInvariant(plain);
    assert forall k :: 0 <= k < |r| ==> r[k] == LowerAscii(plain[k]);
    r
  }

  /** Reference rendering: base16 (section 8 of RFC 4648) without separators. */
  function Hex(bs: Bytes, upper: bool): (r: string)
    ensures |r| == 2 * |bs|
    ensures forall k :: 0 <= k < |r| ==> IsHexDigit(r[k], upper)
  {
    if bs == [] then "" else Pair(bs[0], upper) + Hex(bs[1..], upper)
  }

  /** Value of a lower-case hexadecimal digit. */
  function DigitValue(c: char): (r: Option<nat>)
    ensures r.Some? <==> IsHexDigit(c, false)
    ensures r.Some? ==> r.value < 16
  {
    if '0' <= c <= '9' then Some(c as int - '0' as int)
    else if 'a' <= c <= 'f' then Some(c as int - 'a' as int + 10)
    else None
  }

  /** Decodes lower-case base16 text; `None` for odd length or a non-digit. */
  function ParseHex(s: string): (r: Option<Bytes>)
    ensures r.Some? ==> 2 * |r.value| == |s|
  {
    if |s| == 0 then Some([])
    else if |s| == 1 then None
    else
      match (DigitValue(s[0]), DigitValue(s[1]), ParseHex(s[2..]))
      case (Some(h), Some(l), Some(rest)) => Some([(h * 16 + l) as byte] + rest)
      case _ => None
  }

  lemma RemoveDashesAppend(a: string, b: string)
    ensures RemoveDashes(a + b) == RemoveDashes(a) + RemoveDashes(b)
  {
    if a == [] {
      assert a + b == b;
    } else {
      assert (a + b)[0] == a[0];
      assert (a + b)[1..] == a[1..] + b;
      RemoveDashesAppend(a[1..], b);
    }
  }

  /** A pair of hexadecimal digits holds no dash. */
  lemma PairHasNoDash(b: byte, upper: bool)
    ensures RemoveDashes(Pair(b, upper)) == Pair(b, upper)
  {
    var p := Pair(b, upper);
    assert p[0] != '-' && p[1] != '-';
    assert RemoveDashes(p[1..]) == [p[1]] + RemoveDashes([]);
    assert p == [p[0]] + [p[1]];
  }

  /** Removing the dashes from `BitConverter.ToString` leaves the plain
      upper-case base16 text. */
  lemma {:induction false} StripDashes(bs: Bytes)
    ensures RemoveDashes(BitConverterToString(bs)) == Hex(bs, true)
  {
    if |bs| == 1 {
      PairHasNoDash(bs[0], true);
      assert Hex(bs, true) == Pair(bs[0], true) + Hex([], true);
    } else if |bs| > 1 {
      var p := Pair(bs[0], true);
      RemoveDashesAppend(p + "-", BitConverterToString(bs[1..]));
      RemoveDashesAppend(p, "-");
      PairHasNoDash(bs[0], true);
      StripDashes(bs[1..]);
    }
  }

  /** Lower-casing upper-case base16 text gives lower-case base16 text. */
  lemma {:induction false} LowerHex(bs: Bytes)
    ensures ToLowerInvariant(Hex(bs, true)) == Hex(bs, false)
  {
    var u, l := Hex(bs, true), Hex(bs, false);
    forall k | 0 <= k < |u| ensures LowerAscii(u[k]) == l[k] {
      HexAt(bs, k);
    }
  }

  lemma {:induction false} HexAt(bs: Bytes, k: nat)
    requires k < 2 * |bs|
    ensures LowerAscii(Hex(bs, true)[k]) == Hex(bs, false)[k]
  {
    if k >= 2 {
      HexAt(bs[1..], k - 2);
    }
  }

  /** `GetFileHash`'s text is exactly lower-case base16 of the digest. */
  lemma {:induction false} RenderHashIsLowerHex(d: Bytes)
    ensures RenderHash(d) == Hex(d, false)
  {
    StripDashes(d);
    LowerHex(d);
  }

  /** Decoding inverts the lower-case rendering. */
  lemma {:induction false} ParseHexRoundTrip(bs: Bytes)
    ensures ParseHex(Hex(bs, false)) == Some(bs)
  {
    if bs != [] {
      var s := Hex(bs, false);
      assert s[2..] == Hex(bs[1..], false);
      ParseHexRoundTrip(bs[1..]);
      var b := bs[0] as int;
      assert DigitValue(s[0]) == Some(b / 16);
      assert DigitValue(s[1]) == Some(b % 16);
      assert [bs[0]] + bs[1..] == bs;
    }
  }

  /** The rendered digest is 32 lower-case hexadecimal digits with no dash. */
  lemma RenderHashShape(d: Digest)
    ensures |RenderHash(d)| == 32
    ensures forall k :: 0 <= k < 32 ==> IsHexDigit(RenderHash(d)[k], false)
    ensures '-' !in RenderHash(d)
  {
    RenderHashIsLowerHex(d);
  }

  /** Distinct digests render to distinct texts. */
  lemma RenderHashInjective(d1: Bytes, d2: Bytes)
    ensures RenderHash(d1) == RenderHash(d2) <==> d1 == d2
  {
    RenderHashIsLowerHex(d1);
    RenderHashIsLowerHex(d2);
    ParseHexRoundTrip(d1);
    ParseHexRoundTrip(d2);
  }

  /** Under ordinal case-insensitive comparison, whatever the runtime's case
      map beyond ASCII, two rendered digests are equal exactly when the
      digests are: case folding loses nothing on lower-case hexadecimal text. */
  lemma FoldedHashInjective(upper: CaseMap, d1: Bytes, d2: Bytes)
    requires AgreesOnAscii(upper)
    ensures EqualsIgnoreCase(upper, RenderHash(d1), RenderHash(d2)) <==> d1 == d2
  {
    RenderHashIsLowerHex(d1);
    RenderHashIsLowerHex(d2);
    var s, t := RenderHash(d1), RenderHash(d2);
    if EqualsIgnoreCase(upper, s, t) {
      EqualsIgnoreCaseMeaning(upper, s, t);
      forall k | 0 <= k < |s| ensures s[k] == t[k] {
        assert upper(s[k]) == upper(t[k]);
        assert IsHexDigit(s[k], false) && IsHexDigit(t[k], false);
        assert IsAscii(s[k]) && IsAscii(t[k]);
        assert UpperAscii(s[k]) == UpperAscii(t[k]);
      }
      assert s == t;
    }
    RenderHashInjective(d1, d2);
  }
}
