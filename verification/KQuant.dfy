/**
  The Q4_K and Q6_K storage formats, read in two ways: byte by byte as the reference dequantiser does
  (`tinygrad/llm/gguf.py`), and through packed words as the decode kernels do (`tinygrad/llm/decode_kernels.py`).

  The lemmas of this module say that both readings give the same numbers. Integers are the machine's own
  bit-vectors; only the final weights are real numbers. A half-precision number is decoded by an arbitrary
  function `f16` of its sixteen bits.
 */
module KQuant {
  import opened IndexMath

  const BLOCK_ELEMS: nat := 256
  const Q4K_BYTES: nat := 144
  const Q4K_WORDS: nat := 36
  const Q6K_BYTES: nat := 210
  const Q6K_HALFWORDS: nat := 105

  type Memory = nat -> bv8

  type F16 = bv16 -> real

  /** The value of an unsigned byte. */
  function Unsigned(b: bv8): real { b as int as real }

  function UnsignedWord(w: bv32): real { w as int as real }

  function UnsignedHalf(h: bv16): real { h as int as real }

  lemma UnsignedSteps(b: bv8, b': bv8)
    ensures b == 0 ==> Unsigned(b) == 0.0
    ensures b' as int == b as int + 1 ==> Unsigned(b') == Unsigned(b) + 1.0
  {
  }

  /** The value of a byte read as a signed one. */
  function Signed(b: bv8): real { if b < 128 then b as int as real else (b as int - 256) as real }

  /** Two bytes, the low one first. */
  function HalfBits(lo: bv8, hi: bv8): bv16 { (lo as bv16) | ((hi as bv16) << 8) }

  /** The w-th 32-bit word of a little-endian memory. */
  function Word(mem: Memory, w: nat): bv32 {
    (mem(4 * w) as bv32) | ((mem(4 * w + 1) as bv32) << 8)
    | ((mem(4 * w + 2) as bv32) << 16) | ((mem(4 * w + 3) as bv32) << 24)
  }

  /** The h-th 16-bit word of a little-endian memory. */
  function Halfword(mem: Memory, h: nat): bv16 { HalfBits(mem(2 * h), mem(2 * h + 1)) }

  // ---------------------------------------------------------------- Q4_K, byte by byte

  /** One 6-bit scale: four are stored whole, four are put together from a low nibble and two high bits. */
  function Q4Scale(mem: Memory, start: nat, grp: nat): bv8
    requires grp < 8
  {
    var s := (i: nat) => mem(start + 4 + i);
    if grp < 4 then s(grp) & 63 else (s(8 + grp - 4) & 0xF) | ((s(grp - 4) >> 6) << 4)
  }

  function Q4Min(mem: Memory, start: nat, grp: nat): bv8
    requires grp < 8
  {
    var s := (i: nat) => mem(start + 4 + i);
    if grp < 4 then s(4 + grp) & 63 else (s(8 + grp - 4) >> 4) | ((s(4 + grp - 4) >> 6) << 4)
  }

  /** Each 32-byte row of quants holds two groups: the low nibbles and the high nibbles. */
  function Q4Quant(mem: Memory, start: nat, grp: nat, l: nat): bv8 {
    var qs := mem(start + 16 + grp / 2 * 32 + l);
    if grp % 2 == 0 then qs & 0xF else qs >> 4
  }

  /** Element e of the block of 144 bytes that begins at `start`. */
  function Q4Element(mem: Memory, f16: F16, start: nat, e: nat): real
    requires e < BLOCK_ELEMS
  {
    var d, dmin := f16(HalfBits(mem(start), mem(start + 1))), f16(HalfBits(mem(start + 2), mem(start + 3)));
    var grp, l := e / 32, e % 32;
    var sc, mn := Unsigned(Q4Scale(mem, start, grp)), Unsigned(Q4Min(mem, start, grp));
    d * sc * Unsigned(Q4Quant(mem, start, grp, l)) - dmin * mn
  }

  lemma HalfBitsValue(lo: bv8, hi: bv8)
    ensures HalfBits(lo, hi) == (lo as bv16) + 256 * (hi as bv16)
  {
  }

  /** The two bytes at p, the low one first, as a half-precision number. */
  function F16At(mem: Memory, f16: F16, p: nat): real { f16((mem(p) as bv16) + 256 * (mem(p + 1) as bv16)) }

  ghost predicate SameHeader(mem: Memory, mem': Memory, start: nat) {
    forall i :: start <= i < start + 16 ==> mem(i) == mem'(i)
  }

  /** Scale and minimum of a group of 32 elements, applied to a quant. */
  function Affine(d: real, sc: real, q: real, dmin: real, mn: real): real { d * sc * q - dmin * mn }

  lemma AffineSteps(d: real, sc: real, q: real, dmin: real, mn: real)
    ensures Affine(d, sc, 0.0, dmin, mn) == 0.0 - dmin * mn
    ensures Affine(d, sc, q + 1.0, dmin, mn) == Affine(d, sc, q, dmin, mn) + d * sc
  {
    assert d * sc * (q + 1.0) == d * sc * q + d * sc;
  }

  lemma Q4ElementIsAffine(mem: Memory, f16: F16, start: nat, e: nat)
    requires e < BLOCK_ELEMS
    ensures
      var grp := e / 32;
      Q4Element(mem, f16, start, e) ==
      Affine(F16At(mem, f16, start), Unsigned(Q4Scale(mem, start, grp)), Unsigned(Q4Quant(mem, start, grp, e % 32)),
             F16At(mem, f16, start + 2), Unsigned(Q4Min(mem, start, grp)))
  {
    hide HalfBits, Q4Quant, Q4Scale, Q4Min, Unsigned;
    HalfBitsValue(mem(start), mem(start + 1));
    HalfBitsValue(mem(start + 2), mem(start + 3));
  }

  /**
    An element with quant 0 is minus dmin times the minimum of its group. In a block with the same sixteen
    header bytes, one more in the quant adds d times the scale of the group.
   */
  lemma Q4ElementSteps(mem: Memory, mem': Memory, f16: F16, start: nat, e: nat)
    requires e < BLOCK_ELEMS && SameHeader(mem, mem', start)
    ensures
      var q := Q4Quant(mem, start, e / 32, e % 32);
      var value, value' := Q4Element(mem, f16, start, e), Q4Element(mem', f16, start, e);
      && (q == 0 ==> value == 0.0 - F16At(mem, f16, start + 2) * Unsigned(Q4Min(mem, start, e / 32)))
      && (Q4Quant(mem', start, e / 32, e % 32) as int == q as int + 1 ==>
        value' == value + F16At(mem, f16, start) * Unsigned(Q4Scale(mem, start, e / 32)))
  {
    hide Q4Element, Q4Quant, Q4Scale, Q4Min, Unsigned, F16At, SameHeader;
    UnsignedSteps(Q4Quant(mem, start, e / 32, e % 32), Q4Quant(mem', start, e / 32, e % 32));
    QuantSteps(mem, mem', f16, start, e);
  }

  lemma QuantSteps(mem: Memory, mem': Memory, f16: F16, start: nat, e: nat)
    requires e < BLOCK_ELEMS && SameHeader(mem, mem', start)
    ensures
      var q, q' := Unsigned(Q4Quant(mem, start, e / 32, e % 32)), Unsigned(Q4Quant(mem', start, e / 32, e % 32));
      var value, value' := Q4Element(mem, f16, start, e), Q4Element(mem', f16, start, e);
      && (q == 0.0 ==> value == 0.0 - F16At(mem, f16, start + 2) * Unsigned(Q4Min(mem, start, e / 32)))
      && (q' == q + 1.0 ==> value' == value + F16At(mem, f16, start) * Unsigned(Q4Scale(mem, start, e / 32)))
  {
    hide Affine, Q4Element, Q4Quant, Q4Scale, Q4Min, Unsigned, F16At;
    SameHalf(mem, mem', f16, start);
    SameHalf(mem, mem', f16, start + 2);
    Q4ElementIsAffine(mem, f16, start, e);
    Q4ElementIsAffine(mem', f16, start, e);
    SameScales(mem, mem', start, e / 32);
    AffineSteps(F16At(mem, f16, start), Unsigned(Q4Scale(mem, start, e / 32)),
                Unsigned(Q4Quant(mem, start, e / 32, e % 32)),
                F16At(mem, f16, start + 2), Unsigned(Q4Min(mem, start, e / 32)));
  }

  lemma SameHalf(mem: Memory, mem': Memory, f16: F16, p: nat)
    requires mem(p) == mem'(p) && mem(p + 1) == mem'(p + 1)
    ensures F16At(mem, f16, p) == F16At(mem', f16, p)
  {
  }

  lemma SameScales(mem: Memory, mem': Memory, start: nat, grp: nat)
    requires grp < 8 && SameHeader(mem, mem', start)
    ensures Q4Scale(mem, start, grp) == Q4Scale(mem', start, grp) && Q4Min(mem, start, grp) == Q4Min(mem', start, grp)
  {
  }

  // ---------------------------------------------------------------- Q4_K, word by word

  function F16Word(f16: F16, word: bv32, high: bool): real {
    f16(((if high then word >> 16 else word) & 0xffff) as bv16)
  }

  // Shift distances are multiples of the same few constants; each function below lists its own.

  /** (word >> 8j) & 0xff */
  function ByteOf(word: bv32, j: nat): bv32
    requires j < 4
  {
    (if j == 0 then word else if j == 1 then word >> 8 else if j == 2 then word >> 16 else word >> 24) & 0xff
  }

  function ScaleByte(mem: Memory, base: nat, idx: nat): bv32 { ByteOf(Word(mem, base + 1 + idx / 4), idx % 4) }

  datatype Q4Params = Q4Params(d: real, dmin: real, sc: bv32, mn: bv32)

  function GroupParams(mem: Memory, f16: F16, base: nat, grp: nat): Q4Params
    requires grp < 8
  {
    var word := Word(mem, base);
    var d, dmin := F16Word(f16, word, false), F16Word(f16, word, true);
    if grp < 4 then Q4Params(d, dmin, ScaleByte(mem, base, grp) & 63, ScaleByte(mem, base, 4 + grp) & 63)
    else
      var high := ScaleByte(mem, base, 8 + grp - 4);
      Q4Params(d, dmin,
               (high & 0xf) | ((ScaleByte(mem, base, grp - 4) >> 6) << 4),
               (high >> 4) | ((ScaleByte(mem, base, 4 + grp - 4) >> 6) << 4))
  }

  /** Four quants at once: the nibbles of an even or odd group in a word of quants. */
  function Nibbles(word: bv32, odd: nat): bv32
    requires odd < 2
  {
    (if odd == 0 then word else word >> 4) & 0x0F0F0F0F
  }

  function QuantPack(mem: Memory, base: nat, grp: nat, lane4: nat): bv32 {
    Nibbles(Word(mem, base + 4 + grp / 2 * 8 + lane4), grp % 2)
  }

  function PackedQuant(qpack: bv32, nib: nat): bv32
    requires nib < 4
  {
    (if nib == 0 then qpack else if nib == 1 then qpack >> 8 else if nib == 2 then qpack >> 16 else qpack >> 24) & 0xf
  }

  function Q4KernelWeight(mem: Memory, f16: F16, base: nat, grp: nat, lane4: nat, nib: nat): real
    requires grp < 8 && nib < 4
  {
    var g := GroupParams(mem, f16, base, grp);
    var q := PackedQuant(QuantPack(mem, base, grp, lane4), nib);
    g.d * UnsignedWord(g.sc) * UnsignedWord(q) - g.dmin * UnsignedWord(g.mn)
  }

  lemma EachWordByte(mem: Memory, w: nat)
    ensures ByteOf(Word(mem, w), 0) == mem(4 * w) as bv32 && ByteOf(Word(mem, w), 1) == mem(4 * w + 1) as bv32
    ensures ByteOf(Word(mem, w), 2) == mem(4 * w + 2) as bv32 && ByteOf(Word(mem, w), 3) == mem(4 * w + 3) as bv32
  {
  }

  lemma WordBytes(mem: Memory, w: nat, j: nat)
    requires j < 4
    ensures ByteOf(Word(mem, w), j) == mem(4 * w + j) as bv32
  {
    hide ByteOf, Word;
    EachWordByte(mem, w);
    if j == 0 {} else if j == 1 {} else if j == 2 {} else { assert j == 3; }
  }

  lemma WordHalves(mem: Memory, w: nat)
    ensures (Word(mem, w) & 0xffff) as bv16 == HalfBits(mem(4 * w), mem(4 * w + 1))
    ensures ((Word(mem, w) >> 16) & 0xffff) as bv16 == HalfBits(mem(4 * w + 2), mem(4 * w + 3))
  {
  }

  lemma ScaleByteIsByte(mem: Memory, base: nat, idx: nat)
    ensures ScaleByte(mem, base, idx) == mem(4 * base + 4 + idx) as bv32
  {
    hide Word, ByteOf;
    WordBytes(mem, base + 1 + idx / 4, idx % 4);
    assert 4 * (base + 1 + idx / 4) + idx % 4 == 4 * base + 4 + idx;
  }

  lemma WidenedScale(low: bv8, high: bv8)
    ensures (low as bv32) & 63 == (low & 63) as bv32
    ensures ((high as bv32) & 0xf) | (((low as bv32) >> 6) << 4) == ((high & 0xF) | ((low >> 6) << 4)) as bv32
    ensures ((high as bv32) >> 4) | (((low as bv32) >> 6) << 4) == ((high >> 4) | ((low >> 6) << 4)) as bv32
  {
  }

  /** Scales and minima read from words are the ones read from bytes. */
  lemma GroupParamsAgree(mem: Memory, f16: F16, base: nat, grp: nat)
    requires grp < 8
    ensures
      var g, start := GroupParams(mem, f16, base, grp), 4 * base;
      && g.d == f16(HalfBits(mem(start), mem(start + 1))) && g.dmin == f16(HalfBits(mem(start + 2), mem(start + 3)))
      && g.sc == Q4Scale(mem, start, grp) as bv32 && g.mn == Q4Min(mem, start, grp) as bv32
  {
    hide Word, HalfBits;
    WordHalves(mem, base);
    if grp < 4 {
      ScaleByteIsByte(mem, base, grp);
      ScaleByteIsByte(mem, base, 4 + grp);
      WidenedScale(mem(4 * base + 4 + grp), 0);
      WidenedScale(mem(4 * base + 8 + grp), 0);
    } else {
      ScaleByteIsByte(mem, base, 8 + grp - 4);
      ScaleByteIsByte(mem, base, grp - 4);
      ScaleByteIsByte(mem, base, 4 + grp - 4);
      WidenedScale(mem(4 * base + grp), mem(4 * base + 8 + grp));
      WidenedScale(mem(4 * base + 4 + grp), mem(4 * base + 8 + grp));
    }
  }

  function NibbleOf(b: bv32, odd: nat): bv32
    requires odd < 2
  {
    (if odd == 0 then b else b >> 4) & 0xf
  }

  lemma EachMaskedNibble(w: bv32)
    ensures PackedQuant(Nibbles(w, 0), 0) == NibbleOf(ByteOf(w, 0), 0)
    ensures PackedQuant(Nibbles(w, 0), 1) == NibbleOf(ByteOf(w, 1), 0)
    ensures PackedQuant(Nibbles(w, 0), 2) == NibbleOf(ByteOf(w, 2), 0)
    ensures PackedQuant(Nibbles(w, 0), 3) == NibbleOf(ByteOf(w, 3), 0)
    ensures PackedQuant(Nibbles(w, 1), 0) == NibbleOf(ByteOf(w, 0), 1)
    ensures PackedQuant(Nibbles(w, 1), 1) == NibbleOf(ByteOf(w, 1), 1)
    ensures PackedQuant(Nibbles(w, 1), 2) == NibbleOf(ByteOf(w, 2), 1)
    ensures PackedQuant(Nibbles(w, 1), 3) == NibbleOf(ByteOf(w, 3), 1)
  {
  }

  /** Masking a whole word and picking a byte is picking the byte and then its nibble. */
  lemma MaskedNibble(w: bv32, odd: nat, nib: nat)
    requires odd < 2 && nib < 4
    ensures PackedQuant(Nibbles(w, odd), nib) == NibbleOf(ByteOf(w, nib), odd)
  {
    hide ByteOf, Nibbles, PackedQuant, NibbleOf;
    EachMaskedNibble(w);
    if odd == 0 {
      if nib == 0 {} else if nib == 1 {} else if nib == 2 {} else { assert nib == 3; }
    } else {
      assert odd == 1;
      if nib == 0 {} else if nib == 1 {} else if nib == 2 {} else { assert nib == 3; }
    }
  }

  lemma WidenedNibble(b: bv8)
    ensures NibbleOf(b as bv32, 0) == (b & 0xF) as bv32 && NibbleOf(b as bv32, 1) == (b >> 4) as bv32
  {
  }

  /** A quant taken from the masked word is the nibble of its byte. */
  lemma QuantsAgree(mem: Memory, base: nat, grp: nat, lane4: nat, nib: nat)
    requires nib < 4
    ensures
      PackedQuant(QuantPack(mem, base, grp, lane4), nib) == Q4Quant(mem, 4 * base, grp, lane4 * 4 + nib) as bv32
  {
    hide Word, ByteOf, Nibbles, PackedQuant, NibbleOf;
    var w := base + 4 + grp / 2 * 8 + lane4;
    MaskedNibble(Word(mem, w), grp % 2, nib);
    WordBytes(mem, w, nib);
    assert 4 * w + nib == 4 * base + 16 + grp / 2 * 32 + (lane4 * 4 + nib);
    WidenedNibble(mem(4 * w + nib));
  }

  lemma WidenedValue(b: bv8)
    ensures UnsignedWord(b as bv32) == Unsigned(b)
  {
  }

  lemma Q4KernelWeightIsAffine(mem: Memory, f16: F16, base: nat, grp: nat, lane4: nat, nib: nat)
    requires grp < 8 && nib < 4
    ensures
      var g, q := GroupParams(mem, f16, base, grp), PackedQuant(QuantPack(mem, base, grp, lane4), nib);
      Q4KernelWeight(mem, f16, base, grp, lane4, nib) ==
      Affine(g.d, UnsignedWord(g.sc), UnsignedWord(q), g.dmin, UnsignedWord(g.mn))
  {
    hide GroupParams, QuantPack, PackedQuant, UnsignedWord;
  }

  /** The kernel's weight is the reference's element grp * 32 + lane4 * 4 + nib. */
  lemma Q4KernelWeightIsElement(mem: Memory, f16: F16, base: nat, grp: nat, lane4: nat, nib: nat)
    requires grp < 8 && lane4 < 8 && nib < 4
    ensures
      Q4KernelWeight(mem, f16, base, grp, lane4, nib) ==
      Q4Element(mem, f16, 4 * base, grp * 32 + (lane4 * 4 + nib))
  {
    hide GroupParams, QuantPack, PackedQuant, Q4Scale, Q4Min, Q4Quant, Unsigned, UnsignedWord, HalfBits;
    hide Affine, Q4Element;
    var l := lane4 * 4 + nib;
    DivModUnique(grp * 32 + l, 32, grp, l);
    Q4KernelWeightIsAffine(mem, f16, base, grp, lane4, nib);
    Q4ElementIsAffine(mem, f16, 4 * base, grp * 32 + l);
    HalfBitsValue(mem(4 * base), mem(4 * base + 1));
    HalfBitsValue(mem(4 * base + 2), mem(4 * base + 3));
    hide Q4KernelWeight;
    GroupParamsAgree(mem, f16, base, grp);
    QuantsAgree(mem, base, grp, lane4, nib);
    WidenedValue(Q4Scale(mem, 4 * base, grp));
    WidenedValue(Q4Min(mem, 4 * base, grp));
    WidenedValue(Q4Quant(mem, 4 * base, grp, l));
  }

  // ---------------------------------------------------------------- Q6_K, byte by byte

  /** The low or the high nibble. */
  function Nibble8(b: bv8, high: bool): bv8 { (if high then b >> 4 else b) & 0xF }

  /** A pair of bits, moved above a nibble. */
  function Pair8(b: bv8, pair: nat): bv8
    requires pair < 4
  {
    ((if pair == 0 then b else if pair == 1 then b >> 2 else if pair == 2 then b >> 4 else b >> 6) & 3) << 4
  }

  /** The low four bits: two halves of 64 bytes, each holding two runs of 64 elements. */
  function Q6Low(mem: Memory, start: nat, e: nat): bv8 {
    var half, r := e / 128, e % 128;
    Nibble8(mem(start + half * 64 + r % 64), r / 64 == 1)
  }

  /** The high two bits, moved into place: two halves of 32 bytes, each holding four runs of 32 elements. */
  function Q6High(mem: Memory, start: nat, e: nat): bv8 {
    var half, r := e / 128, e % 128;
    Pair8(mem(start + 128 + half * 32 + r % 32), r / 32)
  }

  function Q6Stored(mem: Memory, start: nat, e: nat): bv8 { Q6Low(mem, start, e) | Q6High(mem, start, e) }

  /** Element e of the block of 210 bytes that begins at `start`. */
  function Q6Element(mem: Memory, f16: F16, start: nat, e: nat): real
    requires e < BLOCK_ELEMS
  {
    var d := f16(HalfBits(mem(start + 208), mem(start + 209)));
    d * (Signed(Q6Stored(mem, start, e)) - 32.0) * Signed(mem(start + 192 + e / 16))
  }

  function Centered(d: real, code: real, sc: real): real { d * (code - 32.0) * sc }

  lemma CenteredSteps(d: real, code: real, sc: real)
    ensures Centered(d, 32.0, sc) == 0.0
    ensures Centered(d, code + 1.0, sc) == Centered(d, code, sc) + d * sc
  {
    assert d * (code - 32.0 + 1.0) == d * (code - 32.0) + d;
    assert (d * (code - 32.0) + d) * sc == d * (code - 32.0) * sc + d * sc;
  }

  lemma Q6ElementIsCentered(mem: Memory, f16: F16, start: nat, e: nat)
    requires e < BLOCK_ELEMS
    ensures Q6Element(mem, f16, start, e) ==
      Centered(F16At(mem, f16, start + 208), Signed(Q6Stored(mem, start, e)),
               Signed(mem(start + 192 + e / 16)))
  {
    hide HalfBits, Q6Stored, Signed;
    HalfBitsValue(mem(start + 208), mem(start + 209));
  }

  ghost predicate SameScale(mem: Memory, mem': Memory, start: nat, e: nat) {
    forall i | i == start + 208 || i == start + 209 || i == start + 192 + e / 16 :: mem(i) == mem'(i)
  }

  lemma SignedSteps(code: bv8, code': bv8)
    requires code < 64 && code' < 64
    ensures code == 32 ==> Signed(code) == 32.0
    ensures code' as int == code as int + 1 ==> Signed(code') == Signed(code) + 1.0
  {
  }

  /** A byte from 128 on is negative, 256 less. */
  function ScaleOf(b: bv8): int { if b as int < 128 then b as int else b as int - 256 }

  lemma SignedValue(b: bv8)
    ensures Signed(b) == ScaleOf(b) as real
  {
  }

  /**
    The code 32 stands for 0, and in a block with the same scales one more in the code adds d times the scale,
    which may be negative.
   */
  lemma Q6ElementSteps(mem: Memory, mem': Memory, f16: F16, start: nat, e: nat)
    requires e < BLOCK_ELEMS && SameScale(mem, mem', start, e)
    ensures
      var code, code' := Q6Stored(mem, start, e), Q6Stored(mem', start, e);
      var value, value' := Q6Element(mem, f16, start, e), Q6Element(mem', f16, start, e);
      && code < 64 && (code == 32 ==> value == 0.0)
      && (code' as int == code as int + 1 ==>
        value' == value + F16At(mem, f16, start + 208) * (ScaleOf(mem(start + 192 + e / 16)) as real))
  {
    hide Q6Element, Q6Stored, Signed, ScaleOf, F16At, SameScale;
    SixBitCode(mem, start, e);
    SixBitCode(mem', start, e);
    SignedSteps(Q6Stored(mem, start, e), Q6Stored(mem', start, e));
    SignedValue(mem(start + 192 + e / 16));
    CodeSteps(mem, mem', f16, start, e);
  }

  lemma CodeSteps(mem: Memory, mem': Memory, f16: F16, start: nat, e: nat)
    requires e < BLOCK_ELEMS && SameScale(mem, mem', start, e)
    ensures
      var code, code' := Signed(Q6Stored(mem, start, e)), Signed(Q6Stored(mem', start, e));
      var value, value' := Q6Element(mem, f16, start, e), Q6Element(mem', f16, start, e);
      && (code == 32.0 ==> value == 0.0)
      && (code' == code + 1.0 ==>
        value' == value + F16At(mem, f16, start + 208) * Signed(mem(start + 192 + e / 16)))
  {
    hide Centered, Q6Element, Q6Stored, Signed, F16At;
    Q6ElementIsCentered(mem, f16, start, e);
    Q6ElementIsCentered(mem', f16, start, e);
    SameHalf(mem, mem', f16, start + 208);
    CenteredSteps(F16At(mem, f16, start + 208), Signed(Q6Stored(mem, start, e)), Signed(mem(start + 192 + e / 16)));
  }

  lemma SixBitCode(mem: Memory, start: nat, e: nat)
    ensures Q6Stored(mem, start, e) < 64
  {
    var half, r := e / 128, e % 128;
    hide Nibble8, Pair8, Q6High;
    LowIsNibble(mem, start, e);
    HighIsPair(mem, start, e);
    SixBits(Q6Low(mem, start, e), Q6High(mem, start, e));
  }

  lemma HighIsPair(mem: Memory, start: nat, e: nat)
    ensures Q6High(mem, start, e) <= 48
  {
    hide Pair8;
    var r := e % 128;
    HighBits(mem(start + 128 + e / 128 * 32 + r % 32), r / 32);
  }

  // ---------------------------------------------------------------- Q6_K, halfword by halfword

  function HalfByteOf(half: bv16, j: nat): bv16
    requires j < 2
  {
    (if j == 0 then half else half >> 8) & 0xff
  }

  function Q6Byte(mem: Memory, base: nat, idx: nat): bv16 { HalfByteOf(Halfword(mem, base + idx / 2), idx % 2) }

  function Nibble16(b: bv16, high: bool): bv16 { (if high then b >> 4 else b) & 0xf }

  function Pair16(b: bv16, pair: nat): bv16
    requires pair < 4
  {
    ((if pair == 0 then b else if pair == 1 then b >> 2 else if pair == 2 then b >> 4 else b >> 6) & 0x3) << 4
  }

  function Q6Code(mem: Memory, base: nat, grp: nat, pos: nat): bv16
    requires grp < 16 && pos < 16
  {
    KernelLow(mem, base, grp, pos) | KernelHigh(mem, base, grp, pos)
  }

  function KernelLow(mem: Memory, base: nat, grp: nat, pos: nat): bv16 {
    var half, pgrp := grp / 8, grp % 8;
    Nibble16(Q6Byte(mem, base, half * 64 + pgrp % 4 * 16 + pos), pgrp >= 4)
  }

  function KernelHigh(mem: Memory, base: nat, grp: nat, pos: nat): bv16 {
    var half, pgrp := grp / 8, grp % 8;
    Pair16(Q6Byte(mem, base, 128 + half * 32 + pgrp % 2 * 16 + pos), pgrp / 2)
  }

  function Q6KernelWeight(mem: Memory, f16: F16, base: nat, grp: nat, pos: nat): real
    requires grp < 16 && pos < 16
  {
    f16(Halfword(mem, base + 104)) * (UnsignedHalf(Q6Code(mem, base, grp, pos)) - 32.0) *
    SignedByte(Q6Byte(mem, base, 192 + grp) as bv8)
  }

  /** The byte in two's complement. */
  function SignedByte(b: bv8): real { ((b as int + 128) % 256 - 128) as real }

  lemma SignedByteIsSigned(b: bv8)
    ensures SignedByte(b) == Signed(b)
  {
  }

  lemma HalfwordBytes(mem: Memory, h: nat, j: nat)
    requires j < 2
    ensures HalfByteOf(Halfword(mem, h), j) == mem(2 * h + j) as bv16
  {
  }

  lemma NarrowAgain(b: bv8)
    ensures (b as bv16) as bv8 == b
  {
  }

  lemma Q6ByteIsByte(mem: Memory, base: nat, idx: nat)
    ensures Q6Byte(mem, base, idx) == mem(2 * base + idx) as bv16 &&
      Q6Byte(mem, base, idx) as bv8 == mem(2 * base + idx)
  {
    hide Halfword, HalfByteOf;
    HalfwordBytes(mem, base + idx / 2, idx % 2);
    NarrowAgain(mem(2 * base + idx));
    assert 2 * (base + idx / 2) + idx % 2 == 2 * base + idx;
  }

  lemma LowBits(b: bv8, high: bool)
    ensures Nibble16(b as bv16, high) == Nibble8(b, high) as bv16 && Nibble8(b, high) <= 15
  {
  }

  lemma HighBits(b: bv8, pair: nat)
    requires pair < 4
    ensures Pair16(b as bv16, pair) == Pair8(b, pair) as bv16 && Pair8(b, pair) <= 48
  {
  }

  /** Six bits are the same number whether the byte is read as signed or unsigned. */
  lemma SixBits(low: bv8, high: bv8)
    requires low <= 15 && high <= 48
    ensures UnsignedHalf((low as bv16) | (high as bv16)) == Signed(low | high) && low | high < 64
  {
    assert (low as bv16) | (high as bv16) == (low | high) as bv16;
    assert low | high < 64;
  }

  /** The byte and shift the kernel computes from (grp, pos) are those of element grp * 16 + pos. */
  lemma Q6Positions(grp: nat, pos: nat)
    requires grp < 16 && pos < 16
    ensures
      var e := grp * 16 + pos;
      var r := e % 128;
      && e < BLOCK_ELEMS && e / 16 == grp && e / 128 == grp / 8
      && (r / 64 == 1 <==> grp % 8 >= 4) && r % 64 == grp % 8 % 4 * 16 + pos
      && r / 32 == grp % 8 / 2 && grp % 8 / 2 < 4 && r % 32 == grp % 8 % 2 * 16 + pos
  {
  }

  lemma LowAgrees(mem: Memory, base: nat, grp: nat, pos: nat)
    requires grp < 16 && pos < 16
    ensures KernelLow(mem, base, grp, pos) == Q6Low(mem, 2 * base, grp * 16 + pos) as bv16
  {
    hide Q6Byte, Nibble8, Nibble16;
    Q6Positions(grp, pos);
    var byteIdx := grp / 8 * 64 + grp % 8 % 4 * 16 + pos;
    Q6ByteIsByte(mem, base, byteIdx);
    LowBits(mem(2 * base + byteIdx), grp % 8 >= 4);
  }

  lemma HighAgrees(mem: Memory, base: nat, grp: nat, pos: nat)
    requires grp < 16 && pos < 16
    ensures KernelHigh(mem, base, grp, pos) == Q6High(mem, 2 * base, grp * 16 + pos) as bv16
    ensures Q6High(mem, 2 * base, grp * 16 + pos) <= 48
  {
    hide Q6Byte, Pair8, Pair16;
    Q6Positions(grp, pos);
    var byteIdx := 128 + grp / 8 * 32 + grp % 8 % 2 * 16 + pos;
    Q6ByteIsByte(mem, base, byteIdx);
    HighBits(mem(2 * base + byteIdx), grp % 8 / 2);
  }

  /** The six-bit code of (grp, pos) is that of element grp * 16 + pos. */
  lemma Q6CodesAgree(mem: Memory, base: nat, grp: nat, pos: nat)
    requires grp < 16 && pos < 16
    ensures
      UnsignedHalf(Q6Code(mem, base, grp, pos)) == Signed(Q6Stored(mem, 2 * base, grp * 16 + pos))
  {
    hide KernelLow, KernelHigh, Q6Low, Q6High, Signed, UnsignedHalf;
    LowAgrees(mem, base, grp, pos);
    HighAgrees(mem, base, grp, pos);
    LowIsNibble(mem, 2 * base, grp * 16 + pos);
    SixBits(Q6Low(mem, 2 * base, grp * 16 + pos), Q6High(mem, 2 * base, grp * 16 + pos));
  }

  lemma LowIsNibble(mem: Memory, start: nat, e: nat)
    ensures Q6Low(mem, start, e) <= 15
  {
    hide Nibble8;
    var r := e % 128;
    LowBits(mem(start + e / 128 * 64 + r % 64), r / 64 == 1);
  }

  lemma Q6KernelWeightIsCentered(mem: Memory, f16: F16, base: nat, grp: nat, pos: nat)
    requires grp < 16 && pos < 16
    ensures Q6KernelWeight(mem, f16, base, grp, pos) ==
      Centered(f16(Halfword(mem, base + 104)), UnsignedHalf(Q6Code(mem, base, grp, pos)),
               SignedByte(Q6Byte(mem, base, 192 + grp) as bv8))
  {
    hide Halfword, Q6Code, Q6Byte, SignedByte, UnsignedHalf;
  }

  /** The kernel's weight is the reference's element grp * 16 + pos. */
  lemma Q6KernelWeightIsElement(mem: Memory, f16: F16, base: nat, grp: nat, pos: nat)
    requires grp < 16 && pos < 16
    ensures Q6KernelWeight(mem, f16, base, grp, pos) == Q6Element(mem, f16, 2 * base, grp * 16 + pos)
  {
    hide Q6Byte, Q6Code, Q6Stored, Signed, SignedByte, UnsignedHalf, HalfBits, Centered, Q6Element;
    Q6KernelWeightIsCentered(mem, f16, base, grp, pos);
    Q6ElementIsCentered(mem, f16, 2 * base, grp * 16 + pos);
    HalfBitsValue(mem(2 * base + 208), mem(2 * base + 209));
    hide Q6KernelWeight;
    Q6CodesAgree(mem, base, grp, pos);
    Q6ByteIsByte(mem, base, 192 + grp);
    SignedByteIsSigned(mem(2 * base + 192 + grp));
    assert 2 * (base + 104) == 2 * base + 208 && (grp * 16 + pos) / 16 == grp;
  }

  // ---------------------------------------------------------------- a matrix of blocks

  /** A matrix-vector product: `mem` holds rows * k quantised weights, row after row. */
  datatype Problem = Problem(rows: nat, k: nat, mem: Memory, f16: F16, x: nat -> real)

  function KBlocks(k: nat): nat { k / BLOCK_ELEMS }

  /** Element e of block blk of a row, as an element of the whole tensor. */
  lemma FlatIndex(row: nat, kBlocks: nat, blk: nat, e: nat)
    requires e < BLOCK_ELEMS
    ensures
      var i := row * (kBlocks * BLOCK_ELEMS) + (blk * BLOCK_ELEMS + e);
      i / BLOCK_ELEMS == row * kBlocks + blk && i % BLOCK_ELEMS == e
  {
    assert row * (kBlocks * BLOCK_ELEMS) == row * kBlocks * BLOCK_ELEMS;
    var q := row * kBlocks + blk;
    assert q * BLOCK_ELEMS == row * kBlocks * BLOCK_ELEMS + blk * BLOCK_ELEMS;
    DivModUnique(row * (kBlocks * BLOCK_ELEMS) + (blk * BLOCK_ELEMS + e), BLOCK_ELEMS, q, e);
  }
}
