/** Base16 text of byte strings as the TTPlayer lyrics downloader writes it
    into its request URLs (upper-case digits, two per byte, no separators),
    and the pairwise reading of such text back into bytes that its token
    generator performs. */
module Hex {
  import opened Bytes

  /** The digit QString::number uses for the base-16 value v (lower case). */
  function LowerDigit(v: nat): (c: char)
    requires v < 16
  {
    if v < 10 then ('0' as int + v) as char else ('a' as int + v - 10) as char
  }

  /** The digit of the encoding for v, as toUpper() leaves it. */
  function UpperDigit(v: nat): (c: char)
    requires v < 16
  {
    if v < 10 then ('0' as int + v) as char else ('A' as int + v - 10) as char
  }

  /** QString::number(v, 16): the base-16 digits of v, without leading zeros. */
  function NumberBase16(v: nat): (s: string)
    ensures 1 <= |s|
    ensures v < 16 ==> s == [LowerDigit(v)]
    ensures 16 <= v < 256 ==> s == [LowerDigit(v / 16), LowerDigit(v % 16)]
    decreases v
  {
    if v < 16 then [LowerDigit(v)] else NumberBase16(v / 16) + [LowerDigit(v % 16)]
  }

  /** QString::toUpper restricted to the characters that occur here. */
  function ToUpperChar(c: char): char
  {
    if 'a' <= c <= 'z' then (c as int - 32) as char else c
  }

  /** QString::toUpper, character by character. */
  function ToUpper(s: string): string
  {
    seq(|s|, i requires 0 <= i < |s| => ToUpperChar(s[i]))
  }

  /** Upper-casing lower-case hexadecimal text, as utf8HexText does with
      the digits of QString::number(v, 16), gives upper-case hexadecimal
      text of the same length. */
  lemma ToUpperOfLowerHex(s: string)
    requires forall i :: 0 <= i < |s| ==> '0' <= s[i] <= '9' || 'a' <= s[i] <= 'f'
    ensures |ToUpper(s)| == |s| && IsUpperHex(ToUpper(s))
  {
    forall i | 0 <= i < |s|
      ensures IsUpperHexDigit(ToUpper(s)[i])
    {
      assert ToUpper(s)[i] == ToUpperChar(s[i]);
    }
  }

  /** The two upper-case digits of one byte, high nibble first. */
  function HexPair(b: Byte): (s: string)
  {
    [UpperDigit((b as int) / 16), UpperDigit((b as int) % 16)]
  }

  predicate IsUpperHexDigit(c: char)
  {
    '0' <= c <= '9' || 'A' <= c <= 'F'
  }

  predicate IsUpperHex(s: string)
  {
    forall i :: 0 <= i < |s| ==> IsUpperHexDigit(s[i])
  }

  /** Reference encoding: Base16 with the upper-case alphabet, each byte as
      two digits, bytes in order. */
  function HexText(bytes: seq<Byte>): (s: string)
    ensures |s| == 2 * |bytes|
    ensures IsUpperHex(s)
  {
    if bytes == [] then [] else HexPair(bytes[0]) + HexText(bytes[1..])
  }

  lemma {:induction false} HexTextAppend(xs: seq<Byte>, ys: seq<Byte>)
    ensures HexText(xs + ys) == HexText(xs) + HexText(ys)
  {
    if xs == [] {
      assert xs + ys == ys;
    } else {
      assert (xs + ys)[1..] == xs[1..] + ys;
      HexTextAppend(xs[1..], ys);
    }
  }

  /** What the loop body of utf8HexText and utf16LEHex appends for one byte
      (a '0' when the byte is below 16, then the upper-cased base-16 number)
      is exactly the two-digit pair of the reference encoding. */
  lemma AppendedDigitsArePair(b: Byte)
    ensures (if b < 16 then "0" else "") + ToUpper(NumberBase16(b as nat)) == HexPair(b)
  {
    var v := b as nat;
    if v < 16 {
      assert NumberBase16(v) == [LowerDigit(v)];
    } else {
      assert NumberBase16(v) == [LowerDigit(v / 16), LowerDigit(v % 16)];
    }
  }

  /** utf8HexText (the UTF-8 conversion itself is the caller's: the bytes
      are the parameter). */
  method Utf8HexText(utf8: seq<Byte>) returns (text: string)
    ensures text == HexText(utf8)
  {
    text := "";
    for i := 0 to |utf8|
      invariant text == HexText(utf8[..i])
    {
      var b := utf8[i];
      AppendedDigitsArePair(b);
      var digits := ToUpper(NumberBase16(b as nat));
      ghost var before := text;
      if b < 16 {
        text := text + "0";
      }
      text := text + digits;
      assert text == before + HexPair(b);
      assert utf8[..i + 1] == utf8[..i] + [b];
      HexTextAppend(utf8[..i], [b]);
    }
    assert utf8[..|utf8|] == utf8;
  }

  /** Reference meaning of utf16LEHex on the codec's output: empty when
      there are fewer than two bytes, otherwise the encoding of everything
      after the two-byte order mark. */
  function Utf16LEHexText(le: seq<Byte>): (s: string)
  {
    if |le| < 2 then "" else HexText(le[2..])
  }

  /** utf16LEHex on the UTF-16LE bytes the codec returned. The loop that
      follows the removal of the order mark is the same byte-to-digits loop
      as in utf8HexText. */
  method Utf16LEHex(leBytes: seq<Byte>) returns (text: string)
    ensures |leBytes| < 2 ==> text == ""
    ensures 2 <= |leBytes| ==> |text| == 2 * (|leBytes| - 2) && text == HexText(leBytes[2..])
    ensures text == Utf16LEHexText(leBytes)
  {
    var le := leBytes;
    if |le| < 2 {
      return "";
    }
    le := le[2..];
    text := Utf8HexText(le);
  }

  /** The value of a hexadecimal digit of either case, or -1. */
  function HexDigitValue(c: char): (v: int)
    ensures -1 <= v < 16
    ensures v == -1 <==> !(IsUpperHexDigit(c) || 'a' <= c <= 'f')
    ensures IsUpperHexDigit(c) ==> UpperDigit(v) == c
  {
    if '0' <= c <= '9' then c as int - '0' as int
    else if 'A' <= c <= 'F' then c as int - 'A' as int + 10
    else if 'a' <= c <= 'f' then c as int - 'a' as int + 10
    else -1
  }

  /** QString::toInt(0, 16) on the one- or two-character slices of
      hexadecimal digits the token generator takes: the value of the
      digits; anything else reads as 0 here (a sign or whitespace, which
      Qt accepts, is not modelled). */
  function ToIntBase16(s: string): (v: nat)
    requires |s| <= 2
    ensures v < 256
    ensures (|s| == 0 || HexDigitValue(s[0]) < 0 || (|s| == 2 && HexDigitValue(s[1]) < 0)) ==> v == 0
    ensures |s| == 1 && HexDigitValue(s[0]) >= 0 ==> v == HexDigitValue(s[0])
    ensures |s| == 2 && HexDigitValue(s[0]) >= 0 && HexDigitValue(s[1]) >= 0 ==>
              v == 16 * HexDigitValue(s[0]) + HexDigitValue(s[1])
  {
    if |s| == 0 || HexDigitValue(s[0]) < 0 then 0
    else if |s| == 1 then HexDigitValue(s[0])
    else if HexDigitValue(s[1]) < 0 then 0
    else 16 * HexDigitValue(s[0]) + HexDigitValue(s[1])
  }

  /** utf8hex.mid(i, 2): at most two characters starting at i. */
  function Mid2(s: string, i: nat): (m: string)
    requires i <= |s|
    ensures |m| == (if i + 2 <= |s| then 2 else |s| - i)
    ensures m == s[i..i + |m|]
  {
    if i + 2 <= |s| then s[i..i + 2] else s[i..]
  }

  /** The pairwise reading at lines 172-177 of the token generator: every
      two characters become one quint8. */
  function DecodePairs(hex: string): (bytes: seq<Byte>)
    decreases |hex|
  {
    if hex == [] then []
    else [ToIntBase16(Mid2(hex, 0)) as Byte] + DecodePairs(hex[|Mid2(hex, 0)|..])
  }

  lemma HexPairValue(b: Byte)
    ensures ToIntBase16(HexPair(b)) == b as int
  {
  }

  /** Reading the encoding back pair by pair gives the original bytes. */
  lemma {:induction false} DecodeHexText(bytes: seq<Byte>)
    ensures DecodePairs(HexText(bytes)) == bytes
    ensures |DecodePairs(HexText(bytes))| == |HexText(bytes)| / 2
  {
    if bytes != [] {
      var hex := HexText(bytes);
      assert hex == HexPair(bytes[0]) + HexText(bytes[1..]);
      assert Mid2(hex, 0) == HexPair(bytes[0]);
      assert hex[2..] == HexText(bytes[1..]);
      HexPairValue(bytes[0]);
      DecodeHexText(bytes[1..]);
    }
  }

  /** The parameters utf16LEHex writes into the discovery URL read back as
      the codec's bytes without the order mark. */
  lemma Utf16LEHexDecodes(le: seq<Byte>)
    requires 2 <= |le|
    ensures DecodePairs(Utf16LEHexText(le)) == le[2..]
  {
    DecodeHexText(le[2..]);
  }
}
