/** The authentication code the TTPlayer lyrics server expects with every
    download request (generateCode and its helper conv in
    knmusicttplayerlyrics.cpp): a bit-exact 32-bit computation over the
    UTF-8 bytes of artist + title and the numeric id of the record. */
module TtplayerCode {
  import opened Bytes
  import opened Hex
  import opened Decimal

  const Two32: int := 0x1_0000_0000

  predicate InInt64(x: int)
  {
    Int64Min <= x < Int64Bound
  }

  /** The 32-bit pattern of an integer: the conversion of a qint64 (or of
      any wider integer) to qint32 keeps the low 32 bits. */
  function ToBv32(x: int): (w: bv32)
  {
    (x % Two32) as bv32
  }

  /** `x & 0xFFFFFFFF` on a qint64: the mask keeps the low 32 bits of the
      two's-complement pattern, that is the residue of x modulo 2^32. */
  function Low32(x: int): (r: int)
  {
    x % Two32
  }

  /** Conversion of an integer to qint32: the low 32 bits, signed. */
  function Int32(x: int): (v: int)
    ensures -0x8000_0000 <= v < 0x8000_0000
    ensures v % Two32 == x % Two32
  {
    var low := x % Two32;
    if low < 0x8000_0000 then low else low - Two32
  }

  /** The `%` of C++ on integers, which truncates toward zero. */
  function CRem(a: int, b: int): (r: int)
    requires b > 0
  {
    if a >= 0 then a % b else -((-a) % b)
  }

  /** conv: whatever its qint64 argument, the result is the argument's low
      32 bits read as a non-negative number. After the mask at its first
      line the argument is never negative, so its second correction never
      applies, and the first is undone by the final mask. */
  function Conv(i: int): (r: int)
    requires InInt64(i)
    ensures 0 <= r < Two32
    ensures r == i % Two32
  {
    var i1 := Low32(i);
    var r1 := CRem(i1, Two32);
    var r2 := if i1 >= 0 && r1 > 0x8000_0000 then r1 - Two32 else r1;
    var r3 := if i1 < 0 && r2 < 0x8000_0000 then r2 + Two32 else r2;
    Low32(r3)
  }

  /** conv of a value conv returned gives it back. */
  lemma ConvIdempotent(i: int)
    requires InInt64(i)
    ensures InInt64(Conv(i)) && Conv(Conv(i)) == Conv(i)
  {
  }

  /** Conversion of an integer to qint8: the low eight bits, signed. */
  function Int8(x: int): (v: int)
    ensures -0x80 <= v < 0x80
    ensures v % 0x100 == x % 0x100
  {
    var low := x % 0x100;
    if low < 0x80 then low else low - 0x100
  }

  /** The correction `c -= (qint8)0x100` of both passes subtracts
      (qint8)0x100, which is 0: the byte keeps its signed reading. */
  lemma SignCorrectionIsIdentity(b: Byte)
    ensures Int8(SignedByte(b) - Int8(0x100)) == SignedByte(b)
  {
  }

  /** 2^k. */
  function Pow2(k: nat): (p: nat)
    ensures p >= 1
  {
    if k == 0 then 1 else 2 * Pow2(k - 1)
  }

  /** `t << k` on a 32-bit word held as its residue modulo 2^32: the bits
      shifted past bit 31 are lost. */
  function ShiftLeft(t: int, k: nat): (r: int)
    ensures 0 <= r < Two32
  {
    (t * Pow2(k)) % Two32
  }

  /** The multiplier the backward pass applies at index j: a shift by
      j % 2 + 4 followed by adding the old value. */
  function BackwardMultiplier(j: nat): (m: nat)
  {
    if j % 2 == 0 then 17 else 33
  }

  /** The multiplier the forward pass applies at index j (shift by
      j % 2 + 3, plus the old value). */
  function ForwardMultiplier(j: nat): (m: nat)
  {
    if j % 2 == 0 then 9 else 17
  }

  /** The backward pass (lines 196-208): t2, as its residue modulo 2^32,
      after the steps for the indices |code| - 1 down to j. Each step sets
      t1 := c + t2 and then t2 := t1 + (t2 << (j % 2 + 4)), each result
      masked to 32 bits. */
  function Backward(code: seq<Byte>, j: nat): (t2: int)
    requires j <= |code|
    ensures 0 <= t2 < Two32
    decreases |code| - j
  {
    if j == |code| then 0
    else
      var t2 := Backward(code, j + 1);
      Low32(Low32(SignedByte(code[j]) + t2) + Low32(ShiftLeft(t2, j % 2 + 4)))
  }

  /** The forward pass (lines 209-222): t1 after the steps for the indices
      0 to n - 1, starting from 0. Each step sets t4 := c + t1 and then
      t1 := (t1 << (j % 2 + 3)) + t4. */
  function Forward(code: seq<Byte>, n: nat): (t1: int)
    requires n <= |code|
    ensures 0 <= t1 < Two32
  {
    if n == 0 then 0
    else
      var t1 := Forward(code, n - 1);
      Low32(Low32(ShiftLeft(t1, (n - 1) % 2 + 3)) + Low32(SignedByte(code[n - 1]) + t1))
  }

  /** Independent reading of the backward pass as a polynomial hash modulo
      2^32: from the last byte to the first, multiply by 17 at even and 33
      at odd indices and add the signed byte. */
  function BackwardHash(code: seq<Byte>, j: nat): (h: int)
    requires j <= |code|
    decreases |code| - j
  {
    if j == |code| then 0
    else (BackwardHash(code, j + 1) * BackwardMultiplier(j) + SignedByte(code[j])) % Two32
  }

  /** The forward pass as a polynomial hash from the first byte: multiply by
      9 at even and 17 at odd indices. */
  function ForwardHash(code: seq<Byte>, n: nat): (h: int)
    requires n <= |code|
  {
    if n == 0 then 0
    else (ForwardHash(code, n - 1) * ForwardMultiplier(n - 1) + SignedByte(code[n - 1])) % Two32
  }

  /** Reducing the operands of a sum modulo 2^32 does not change the
      residue of the sum. */
  lemma SumMod(a: int, b: int)
    ensures (a % Two32 + b % Two32) % Two32 == (a + b) % Two32
  {
    var q := a / Two32 + b / Two32;
    assert a % Two32 + b % Two32 == (a + b) - q * Two32;
    ModMultiple(a + b, q);
  }

  /** Shifting by k and adding the old value is multiplying by 2^k + 1. */
  lemma ShiftAddIsMultiply(t: int, w: int, k: nat)
    ensures Low32(Low32(w + t) + Low32(ShiftLeft(t, k))) == (t * (Pow2(k) + 1) + w) % Two32
  {
    var p := Pow2(k);
    SumMod(w + t, t * p);
    assert Low32(ShiftLeft(t, k)) == (t * p) % Two32;
    assert (w + t) + t * p == t * (p + 1) + w;
  }

  lemma {:induction false} BackwardIsHash(code: seq<Byte>, j: nat)
    requires j <= |code|
    ensures Backward(code, j) == BackwardHash(code, j)
    decreases |code| - j
  {
    if j < |code| {
      BackwardIsHash(code, j + 1);
      ShiftAddIsMultiply(Backward(code, j + 1), SignedByte(code[j]), j % 2 + 4);
      if j % 2 == 0 {
        assert Pow2(4) == 16;
      } else {
        assert Pow2(5) == 32;
      }
    }
  }

  lemma {:induction false} ForwardIsHash(code: seq<Byte>, n: nat)
    requires n <= |code|
    ensures Forward(code, n) == ForwardHash(code, n)
  {
    if n > 0 {
      ForwardIsHash(code, n - 1);
      var t := Forward(code, n - 1);
      var w := SignedByte(code[n - 1]);
      ShiftAddIsMultiply(t, w, (n - 1) % 2 + 3);
      if (n - 1) % 2 == 0 {
        assert Pow2(3) == 8;
      } else {
        assert Pow2(4) == 16;
      }
    }
  }

  /** Lines 178-195: t3 packed from the bytes of the id by the source's
      sequence of masks, shifts and ORs, starting from t1 = bits 8-15. The
      shift `id >> 24` is arithmetic on a qint32 in the source; the mask
      with 0xFF keeps only bits 24-31 either way. */
  function T3FromId(id: bv32): (t3: bv32)
  {
    var t1: bv32 := (id & 0x0000_FF00) >> 8;
    var t3: bv32 := if (id & 0x00FF_0000) == 0 then 0xFF & !t1
                    else 0xFF & ((id & 0x00FF_0000) >> 16);
    var t3 := t3 | ((0xFF & id) << 8);
    var t3 := t3 << 8;
    var t3 := t3 | (0xFF & t1);
    var t3 := t3 << 8;
    if (id & 0xFF00_0000) == 0 then t3 | (0xFF & !id) else t3 | (0xFF & (id >> 24))
  }

  /** The layout of t3, byte by byte from the most significant. Its top
      byte is the low byte of the id. */
  lemma T3TopByte(id: bv32)
    ensures T3FromId(id) >> 24 == id & 0xFF
  {
  }

  /** Its second byte is bits 16-23 of the id, or the complement of bits
      8-15 when those are zero. */
  lemma T3SecondByte(id: bv32)
    ensures (T3FromId(id) >> 16) & 0xFF
            == if (id >> 16) & 0xFF == 0 then !(id >> 8) & 0xFF else (id >> 16) & 0xFF
  {
  }

  /** Its third byte is bits 8-15 of the id. */
  lemma T3ThirdByte(id: bv32)
    ensures (T3FromId(id) >> 8) & 0xFF == (id >> 8) & 0xFF
  {
  }

  /** Its low byte is bits 24-31 of the id, or the complement of the id's
      low byte (not of its top byte) when those are zero. */
  lemma T3LowByte(id: bv32)
    ensures T3FromId(id) & 0xFF == if id >> 24 == 0 then !id & 0xFF else id >> 24
  {
  }

  /** (a + b) * c * d in wrapping 32-bit arithmetic, read as unsigned. */
  function Mix(a: int, b: int, c: int, d: int): (t: int)
    ensures 0 <= t < Two32
  {
    (((a + b) % Two32 * c) % Two32 * d) % Two32
  }

  /** The combination of the results t1 and t2 of the two passes with t3
      and the id: ((t2 ^ t3) + (t1 | id)) * (t1 | t3) * (t2 ^ id) in
      wrapping 32-bit arithmetic, read as unsigned. */
  function Combined(t1: bv32, t2: bv32, t3: bv32, id: bv32): (t: int)
    ensures 0 <= t < Two32
  {
    Mix((t2 ^ t3) as int, (t1 | id) as int, (t1 | t3) as int, (t2 ^ id) as int)
  }

  /** Combined unfolded once, in a context of its own: Combine uses it so
      that its own proof does not unfold the combination itself. */
  lemma CombinedIsMix(t1: bv32, t2: bv32, t3: bv32, id: bv32)
    ensures Combined(t1, t2, t3, id)
            == Mix((t2 ^ t3) as int, (t1 | id) as int, (t1 | t3) as int, (t2 ^ id) as int)
  {
  }

  /** The code as a number, for the bytes of artist + title and the id. */
  function Token(code: seq<Byte>, id: bv32): (t: nat)
    ensures t < Two32
  {
    Combined(ToBv32(Forward(code, |code|)), ToBv32(Backward(code, 0)), T3FromId(id), id)
  }

  /** What generateCode returns for the UTF-8 bytes of artist + title and
      the record's id attribute. */
  function CodeText(artistTitleUtf8: seq<Byte>, idText: string): (code: string)
  {
    DecimalText(Token(artistTitleUtf8, ToBv32(ToLongLong(idText))))
  }

  /** The code is the decimal text of an unsigned 32-bit number: it never
      has a sign, and it reads back as that number. */
  lemma CodeIsUnsignedDecimal(artistTitleUtf8: seq<Byte>, idText: string)
    ensures var t := Token(artistTitleUtf8, ToBv32(ToLongLong(idText)));
            var code := CodeText(artistTitleUtf8, idText);
            IsDigits(code) && 0 <= ToLongLong(code) == t <= 0xFFFF_FFFF
  {
    DecimalTextRoundTrip(Token(artistTitleUtf8, ToBv32(ToLongLong(idText))));
  }

  /** A product of a value below 2^32 and a qint32 fits in a qint64, so the
      multiplications of the combine stage never overflow. */
  lemma ProductInInt64(a: int, s: int)
    requires 0 <= a < Two32
    requires -0x8000_0000 <= s < 0x8000_0000
    ensures InInt64(a * s)
  {
    if s >= 0 {
      assert a * s <= a * 0x8000_0000;
    } else {
      assert a * s >= a * -0x8000_0000;
    }
  }

  /** Subtracting a multiple of 2^32 does not change the residue. */
  lemma ModMultiple(x: int, k: int)
    ensures (x - k * Two32) % Two32 == x % Two32
  {
  }

  /** Reducing the second factor of a product modulo 2^32 does not change
      the residue of the product. */
  lemma MulMod(a: int, b: int)
    ensures (a * (b % Two32)) % Two32 == (a * b) % Two32
  {
    var q := b / Two32;
    assert b == q * Two32 + b % Two32;
    assert a * b == a * (b % Two32) + (a * q) * Two32;
    ModMultiple(a * b, a * q);
  }

  /** Lines 196-208: the backward pass over the bytes, from the last to the
      first, with the sign correction of each byte. */
  method BackwardPass(bytes: seq<Byte>) returns (t2: int)
    ensures t2 == Backward(bytes, 0)
    ensures t2 == BackwardHash(bytes, 0)
  {
    var t1: int;
    t2 := 0;
    var j := |bytes| - 1;
    while j >= 0
      invariant -1 <= j < |bytes|
      invariant t2 == Backward(bytes, j + 1)
    {
      var c := SignedByte(bytes[j]);
      if bytes[j] >= 0x80 {
        SignCorrectionIsIdentity(bytes[j]);
        c := Int8(c - Int8(0x100));
      }
      t1 := Low32(c + t2);
      t2 := Low32(ShiftLeft(t2, j % 2 + 4));
      t2 := Low32(t1 + t2);
      j := j - 1;
    }
    BackwardIsHash(bytes, 0);
  }

  /** Lines 209-222: the forward pass, starting again from t1 = 0. */
  method ForwardPass(bytes: seq<Byte>) returns (t1: int)
    ensures t1 == Forward(bytes, |bytes|)
    ensures t1 == ForwardHash(bytes, |bytes|)
  {
    var j := 0;
    t1 := 0;
    while j < |bytes|
      invariant 0 <= j <= |bytes|
      invariant t1 == Forward(bytes, j)
    {
      var c := SignedByte(bytes[j]);
      if bytes[j] >= 0x80 {
        SignCorrectionIsIdentity(bytes[j]);
        c := Int8(c - Int8(0x100));
      }
      var t4 := Low32(c + t1);
      t1 := Low32(ShiftLeft(t1, j % 2 + 3));
      t1 := Low32(t1 + t4);
      j := j + 1;
    }
    ForwardIsHash(bytes, |bytes|);
  }

  /** The text from position i on, empty once i has passed the end. */
  function Rest(hex: string, i: nat): (r: string)
    ensures |r| == if i <= |hex| then |hex| - i else 0
  {
    if i <= |hex| then hex[i..] else []
  }

  /** One iteration of the reading loop: the pairwise reading of the rest
      of the text takes its next one or two characters. */
  lemma DecodePairsStep(hex: string, i: nat)
    requires i < |hex|
    ensures DecodePairs(Rest(hex, i)) == [ToIntBase16(Mid2(hex, i)) as Byte] + DecodePairs(Rest(hex, i + 2))
  {
    assert Mid2(hex[i..], 0) == Mid2(hex, i);
    if i + 2 <= |hex| {
      assert hex[i..][2..] == hex[i + 2..];
    } else {
      assert hex[i..][|Mid2(hex, i)|..] == [];
    }
  }

  /** The invariant of the reading loop survives one iteration. */
  lemma ReadPairsStep(hex: string, i: nat, code: seq<Byte>)
    requires i < |hex| && code + DecodePairs(Rest(hex, i)) == DecodePairs(hex)
    ensures (code + [ToIntBase16(Mid2(hex, i)) as Byte]) + DecodePairs(Rest(hex, i + 2)) == DecodePairs(hex)
  {
    var b := ToIntBase16(Mid2(hex, i)) as Byte;
    var rest := DecodePairs(Rest(hex, i + 2));
    DecodePairsStep(hex, i);
    assert (code + [b]) + rest == code + ([b] + rest);
  }

  /** Lines 172-177: the text read back two characters at a time, with the
      number of bytes the text's length announces. */
  method ReadPairs(utf8hex: string) returns (code: seq<Byte>, len: int)
    ensures code == DecodePairs(utf8hex)
    ensures len == |utf8hex| / 2
  {
    code := [];
    len := |utf8hex| / 2;
    var i := 0;
    while i < |utf8hex|
      invariant 0 <= i <= |utf8hex| + 1
      invariant code + DecodePairs(Rest(utf8hex, i)) == DecodePairs(utf8hex)
    {
      var b := ToIntBase16(Mid2(utf8hex, i)) as Byte;
      ReadPairsStep(utf8hex, i, code);
      code := code + [b];
      i := i + 2;
    }
    assert Rest(utf8hex, i) == [];
  }

  /** Lines 171-177: the hex text of the bytes, read back pair by pair,
      gives the bytes themselves. */
  method HexRoundTrip(artistTitleUtf8: seq<Byte>) returns (bytes: seq<Byte>, len: int)
    ensures bytes == artistTitleUtf8 && len == |artistTitleUtf8|
  {
    var utf8hex := Utf8HexText(artistTitleUtf8);
    bytes, len := ReadPairs(utf8hex);
    DecodeHexText(artistTitleUtf8);
  }

  /** One addition step of the combine stage: conv of a residue plus a
      qint32 value. */
  lemma ConvSumStep(t: int, y: int)
    requires 0 <= t < Two32 && -0x8000_0000 <= y < 0x8000_0000
    ensures InInt64(t + y) && Conv(t + y) == (t + y % Two32) % Two32
  {
    SumMod(t, y);
  }

  /** One multiplication step: the product of a residue and a qint32 value
      fits in a qint64, and conv of it is the product of the residues. */
  lemma ConvProductStep(t: int, z: int)
    requires 0 <= t < Two32 && -0x8000_0000 <= z < 0x8000_0000
    ensures InInt64(t * z) && Conv(t * z) == (t * (z % Two32)) % Two32
  {
    ProductInInt64(t, z);
    MulMod(t, z);
  }

  /** The last comparison of generateCode is against (qint32)0x80000000,
      which is -2^31 and below every value of conv: the branch is always
      taken, and the masked subtraction it performs gives the value back. */
  lemma FinalCorrectionIsIdentity(t: int)
    requires 0 <= t < Two32
    ensures Int32(0x8000_0000) == -0x8000_0000
    ensures t > Int32(0x8000_0000) && Low32(t - Two32) == t
  {
    ModMultiple(t, 1);
  }

  /** The qint32 reading of a 32-bit word, reduced modulo 2^32, is the
      word again: combining the qint32 readings of the operands gives the
      same code as combining their unsigned readings. */
  lemma MixOfResidues(a: int, b: int, c: int, d: int)
    requires 0 <= a < Two32 && 0 <= b < Two32 && 0 <= c < Two32 && 0 <= d < Two32
    ensures Mix(Int32(a) % Two32, Int32(b) % Two32, Int32(c) % Two32, Int32(d) % Two32)
            == Mix(a, b, c, d)
  {
    Residue(a);
    Residue(b);
    Residue(c);
    Residue(d);
  }

  lemma Residue(u: int)
    requires 0 <= u < Two32
    ensures Int32(u) % Two32 == u
  {
  }

  /** The arithmetic of lines 223-231: the combination through conv in
      qint64 of the operands t2 ^ t3, t1 | id, t1 | t3 and t2 ^ id, each
      given as a 32-bit word read as unsigned and used as its qint32 value,
      and the final comparison with (qint32)0x80000000. */
  method ConvChain(a: int, b: int, c: int, d: int) returns (t5: int)
    requires 0 <= a < Two32 && 0 <= b < Two32 && 0 <= c < Two32 && 0 <= d < Two32
    ensures t5 == Mix(a, b, c, d)
  {
    var x, y, z, w := Int32(a), Int32(b), Int32(c), Int32(d);
    t5 := Conv(x);
    ghost var sum := (x % Two32 + y % Two32) % Two32;
    assert Conv(t5 + y) == sum by { ConvSumStep(t5, y); }
    t5 := Conv(t5 + y);
    ghost var product := (sum * (z % Two32)) % Two32;
    assert InInt64(t5 * z) && Conv(t5 * z) == product by { ConvProductStep(t5, z); }
    t5 := Conv(t5 * z);
    ghost var result := (product * (w % Two32)) % Two32;
    assert InInt64(t5 * w) && Conv(t5 * w) == result by { ConvProductStep(t5, w); }
    t5 := Conv(t5 * w);
    assert t5 > Int32(0x8000_0000) && Low32(t5 - Two32) == t5 by {
      FinalCorrectionIsIdentity(t5);
    }
    if t5 > Int32(0x8000_0000) {
      t5 := Low32(t5 - Two32);
    }
    assert t5 == Mix(a, b, c, d) by {
      assert t5 == Mix(x % Two32, y % Two32, z % Two32, w % Two32);
      MixOfResidues(a, b, c, d);
    }
  }

  /** Lines 223-231 on the 32-bit words t1, t2, t3 and id. Sign-extending
      t2 and t3 to 64 bits before the first XOR gives the sign extension of
      t2 ^ t3, since the upper halves are copies of the two sign bits; so
      every operand of the combination is the qint32 reading of a word. */
  method Combine(t1: bv32, t2: bv32, t3: bv32, id: bv32) returns (t5: int)
    ensures t5 == Combined(t1, t2, t3, id)
  {
    t5 := ConvChain((t2 ^ t3) as int, (t1 | id) as int, (t1 | t3) as int, (t2 ^ id) as int);
    CombinedIsMix(t1, t2, t3, id);
  }

  /** generateCode for the UTF-8 bytes of artist + title (the conversion to
      UTF-8 is the caller's) and the record's id attribute. */
  method GenerateCode(artistTitleUtf8: seq<Byte>, idText: string) returns (code: string)
    ensures code == CodeText(artistTitleUtf8, idText)
  {
    var bytes, len := HexRoundTrip(artistTitleUtf8);
    // qint32 id = toLongLong(): the low 32 bits of the parsed qint64.
    var id: bv32 := ToBv32(ToLongLong(idText));
    var t3 := T3FromId(id);
    var t2 := BackwardPass(bytes);
    var t1 := ForwardPass(bytes);
    var t5 := Combine(ToBv32(t1), ToBv32(t2), t3, id);
    code := DecimalText(t5);
  }
}
