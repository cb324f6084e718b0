/** The byte-pair renderers of src/dataout.cpp: a differing pair of bytes is
    printed as two hexadecimal fields, two binary fields, or two bit masks
    that show only the bit positions where the bytes differ. */
module DataOutput {
  import opened ByteBits
  import opened Numerals

  /** Hex digits and bits in an unsigned char, for CHAR_BIT == 8. */
  const UCHAR_HEX_COUNT: nat := 2
  const UCHAR_BIT_COUNT: nat := 8

  const HEX_RADIX: nat := 16
  const BIN_RADIX: nat := 2

  /** Placeholder for a bit position where the two bytes agree. */
  const NO_DIFF: char := '.'
  const HEX_PREFIX: string := "0x"
  const BIN_PREFIX: string := "0b"
  const NUL: char := '\0'

  /** The render modes (DataOutType). */
  datatype Kind = Hex | Binary | Bits

  /** Characters of one rendered byte: the digit field or the bit mask. */
  function Width(kind: Kind): nat {
    if kind == Hex then UCHAR_HEX_COUNT else UCHAR_BIT_COUNT
  }

  function Prefix(kind: Kind): string {
    if kind == Hex then HEX_PREFIX else BIN_PREFIX
  }

  function Radix(kind: Kind): nat {
    if kind == Hex then HEX_RADIX else BIN_RADIX
  }

  /** The character for bit `shift` in the mask of `value` under the
      difference mask `x`. */
  function MaskChar(value: bv8, x: bv8, shift: nat): char {
    if !Bit(x, shift) then NO_DIFF else if Bit(value, shift) then '1' else '0'
  }

  /** The `n`-character bit mask of `value`, most significant bit first. */
  function MaskString(value: bv8, x: bv8, n: nat): (s: seq<char>)
    ensures |s| == n
  {
    seq(n, i requires 0 <= i < n => MaskChar(value, x, n - 1 - i))
  }

  /** The number of mask characters that are a literal bit. */
  function CountLiterals(s: seq<char>): nat {
    if s == [] then 0 else (if s[0] != NO_DIFF then 1 else 0) + CountLiterals(s[1..])
  }

  /** The text a stream receives for a NUL-terminated character buffer. */
  function CString(s: seq<char>): seq<char> {
    if s == [] || s[0] == NUL then [] else [s[0]] + CString(s[1..])
  }

  /** The field of one byte: its zero-padded hexadecimal or binary numeral,
      or its bit mask under the difference mask `x`. */
  function Field(kind: Kind, value: bv8, x: bv8): string {
    if kind == Bits then MaskString(value, x, UCHAR_BIT_COUNT)
    else Padded(Value(value), Radix(kind), Width(kind))
  }

  /** What `print` writes for the pair `(a, b)`: each byte as a prefixed
      field, separated by the delimiter. */
  function Render(kind: Kind, delim: char, a: bv8, b: bv8): string {
    match kind
    case Bits =>
      BIN_PREFIX + MaskString(a, Xor(a, b), UCHAR_BIT_COUNT) + [delim]
        + BIN_PREFIX + MaskString(b, Xor(a, b), UCHAR_BIT_COUNT)
    case _ =>
      Prefix(kind) + Padded(Value(a), Radix(kind), Width(kind)) + [delim]
        + Prefix(kind) + Padded(Value(b), Radix(kind), Width(kind))
  }

  /** Every byte fits its hexadecimal and its binary field, so the error
      branch of `_to_chars` is never taken by the renderers. */
  lemma ByteDigitsFit(v: bv8)
    ensures |Digits(Value(v), HEX_RADIX)| <= UCHAR_HEX_COUNT
    ensures |Digits(Value(v), BIN_RADIX)| <= UCHAR_BIT_COUNT
  {
    assert Pow(16, 2) == 256;
    DigitsFit(Value(v), 16, 2);
    assert Pow(2, 8) == 256;
    DigitsFit(Value(v), 2, 8);
  }

  lemma {:induction false} MaskStringStep(value: bv8, x: bv8, n: nat)
    requires n > 0
    ensures MaskString(value, x, n) == [MaskChar(value, x, n - 1)] + MaskString(value, x, n - 1)
  {
  }

  /** The number of literal bits in a mask is the popcount of the difference
      mask over the positions it covers. */
  lemma {:induction false} MaskLiterals(value: bv8, x: bv8, n: nat)
    ensures CountLiterals(MaskString(value, x, n)) == PopcountBelow(x, n)
  {
    if n > 0 {
      MaskStringStep(value, x, n);
      MaskLiterals(value, x, n - 1);
    }
  }

  /** One position of the bit renderer's two masks. */
  lemma MaskCharPair(a: bv8, b: bv8, k: nat)
    ensures var ca, cb := MaskChar(a, Xor(a, b), k), MaskChar(b, Xor(a, b), k);
      && (ca == NO_DIFF <==> Bit(a, k) == Bit(b, k))
      && (cb == NO_DIFF <==> ca == NO_DIFF)
      && (ca != NO_DIFF ==>
            && (ca == '1' <==> Bit(a, k)) && (ca == '0' <==> !Bit(a, k))
            && (cb == '1' <==> Bit(b, k)) && (cb == '0' <==> !Bit(b, k))
            && ca != cb)
  {
    BitXor(a, b, k);
  }

  /** The two masks of the bit renderer: the placeholder stands in the same
      positions in both, exactly where the bytes agree; every other position
      shows that operand's own bit, so the two masks hold opposite bits there;
      each has as many literal bits as the bytes have differing bits. */
  lemma BitMaskPair(a: bv8, b: bv8)
    ensures var ma, mb := MaskString(a, Xor(a, b), UCHAR_BIT_COUNT), MaskString(b, Xor(a, b), UCHAR_BIT_COUNT);
      && |ma| == |mb| == UCHAR_BIT_COUNT
      && (forall i :: 0 <= i < UCHAR_BIT_COUNT ==>
            && (ma[i] == NO_DIFF <==> Bit(a, 7 - i) == Bit(b, 7 - i))
            && (mb[i] == NO_DIFF <==> ma[i] == NO_DIFF)
            && (ma[i] != NO_DIFF ==>
                  && (ma[i] == '1' <==> Bit(a, 7 - i)) && (ma[i] == '0' <==> !Bit(a, 7 - i))
                  && (mb[i] == '1' <==> Bit(b, 7 - i)) && (mb[i] == '0' <==> !Bit(b, 7 - i))
                  && ma[i] != mb[i]))
      && CountLiterals(ma) == Popcount(Xor(a, b))
      && CountLiterals(mb) == Popcount(Xor(a, b))
  {
    var ma, mb := MaskString(a, Xor(a, b), UCHAR_BIT_COUNT), MaskString(b, Xor(a, b), UCHAR_BIT_COUNT);
    forall i | 0 <= i < UCHAR_BIT_COUNT
      ensures && (ma[i] == NO_DIFF <==> Bit(a, 7 - i) == Bit(b, 7 - i))
              && (mb[i] == NO_DIFF <==> ma[i] == NO_DIFF)
              && (ma[i] != NO_DIFF ==>
                    && (ma[i] == '1' <==> Bit(a, 7 - i)) && (ma[i] == '0' <==> !Bit(a, 7 - i))
                    && (mb[i] == '1' <==> Bit(b, 7 - i)) && (mb[i] == '0' <==> !Bit(b, 7 - i))
                    && ma[i] != mb[i])
    {
      MaskCharPair(a, b, 7 - i);
    }
    MaskLiterals(a, Xor(a, b), 8);
    MaskLiterals(b, Xor(a, b), 8);
  }

  /** Rendering `(b, a)` with the bit renderer shows the two masks of
      `(a, b)` in swapped order, with the same popcount. */
  lemma BitMaskSwap(a: bv8, b: bv8, delim: char)
    ensures Render(Bits, delim, b, a)
      == BIN_PREFIX + MaskString(b, Xor(a, b), UCHAR_BIT_COUNT) + [delim]
         + BIN_PREFIX + MaskString(a, Xor(a, b), UCHAR_BIT_COUNT)
    ensures Popcount(Xor(b, a)) == Popcount(Xor(a, b))
  {
    assert Xor(b, a) == Xor(a, b);
  }

  /** Two `w`-digit fields behind a two-character prefix each, joined by a
      delimiter: the fields sit at fixed positions and read back as they
      did on their own. */
  lemma FieldPair(prefix: string, radix: nat, delim: char, fx: string, fy: string)
    requires |prefix| == 2 && |fx| == |fy|
    requires forall i :: 0 <= i < |fx| ==> IsDigit(fx[i], radix) && IsDigit(fy[i], radix)
    ensures var r, w := prefix + fx + [delim] + prefix + fy, |fx|;
      && |r| == 2 * w + 5
      && r[..2] == prefix && r[w + 2] == delim && r[w + 3..w + 5] == prefix
      && (forall i :: 2 <= i < w + 2 ==> IsDigit(r[i], radix))
      && (forall i :: w + 5 <= i < 2 * w + 5 ==> IsDigit(r[i], radix))
      && Parse(r[2..w + 2], radix) == Parse(fx, radix)
      && Parse(r[w + 5..], radix) == Parse(fy, radix)
  {
    var w := |fx|;
    var r := prefix + fx + [delim] + prefix + fy;
    assert r[2..w + 2] == fx;
    assert r[w + 5..] == fy;
    forall i | 2 <= i < w + 2
      ensures IsDigit(r[i], radix)
    {
      assert r[i] == fx[i - 2];
    }
    forall i | w + 5 <= i < 2 * w + 5
      ensures IsDigit(r[i], radix)
    {
      assert r[i] == fy[i - w - 5];
    }
  }

  /** The hexadecimal and binary renderings have a fixed shape, and reading
      each field back in its radix gives the original byte. */
  lemma FieldRoundTrip(kind: Kind, delim: char, a: bv8, b: bv8)
    requires kind != Bits
    ensures var r, w := Render(kind, delim, a, b), Width(kind);
      && |r| == 2 * w + 5
      && r[..2] == Prefix(kind) && r[w + 2] == delim && r[w + 3..w + 5] == Prefix(kind)
      && (forall i :: 2 <= i < w + 2 ==> IsDigit(r[i], Radix(kind)))
      && (forall i :: w + 5 <= i < 2 * w + 5 ==> IsDigit(r[i], Radix(kind)))
      && Parse(r[2..w + 2], Radix(kind)) == Value(a)
      && Parse(r[w + 5..], Radix(kind)) == Value(b)
  {
    ByteDigitsFit(a);
    ByteDigitsFit(b);
    var radix, w := Radix(kind), Width(kind);
    PaddedRoundTrip(Value(a), radix, w);
    PaddedRoundTrip(Value(b), radix, w);
    FieldPair(Prefix(kind), radix, delim, Padded(Value(a), radix, w), Padded(Value(b), radix, w));
  }

  /** A field is exactly as wide as its kind says and holds no NUL, so
      the C string read back from the scratch buffer is the whole field. */
  lemma FieldChars(kind: Kind, value: bv8, x: bv8)
    ensures |Field(kind, value, x)| == Width(kind)
    ensures forall i :: 0 <= i < Width(kind) ==> Field(kind, value, x)[i] != NUL
  {
    if kind != Bits {
      ByteDigitsFit(value);
      PaddedRoundTrip(Value(value), Radix(kind), Width(kind));
    }
  }

  /** A buffer whose first `w` characters hold no NUL and whose character `w`
      is NUL reads as those `w` characters. */
  lemma {:induction false} CStringUpTo(s: seq<char>, w: nat)
    requires w < |s| && s[w] == NUL
    requires forall i :: 0 <= i < w ==> s[i] != NUL
    ensures CString(s) == s[..w]
  {
    if w > 0 {
      CStringUpTo(s[1..], w - 1);
    }
  }

  /** `_to_bitwise_string`: fills `buffer[..bufferSize]` with the mask of
      `value` under the difference mask `x`, most significant bit first. */
  method ToBitwiseString(value: bv8, x: bv8, buffer: array<char>, bufferSize: nat)
    requires bufferSize <= buffer.Length
    modifies buffer
    ensures buffer[..bufferSize] == MaskString(value, x, bufferSize)
    ensures forall i :: 0 <= i < bufferSize ==>
      && (buffer[i] == NO_DIFF <==> !Bit(x, bufferSize - 1 - i))
      && (buffer[i] != NO_DIFF ==> (buffer[i] == '1' <==> Bit(value, bufferSize - 1 - i)))
      && (buffer[i] == NO_DIFF || buffer[i] == '0' || buffer[i] == '1')
    ensures buffer[bufferSize..] == old(buffer[bufferSize..])
  {
    for i := 0 to bufferSize
      invariant forall j :: 0 <= j < i ==> buffer[j] == MaskChar(value, x, bufferSize - 1 - j)
      invariant forall j :: bufferSize <= j < buffer.Length ==> buffer[j] == old(buffer[j])
    {
      var shift := bufferSize - i - 1;
      if !Bit(x, shift) {
        buffer[i] := NO_DIFF;
      } else if !Bit(value, shift) {
        buffer[i] := '0';
      } else {
        buffer[i] := '1';
      }
    }
    assert buffer[bufferSize..] == old(buffer[bufferSize..]);
  }

  /** `memmove(buffer + dst, buffer + src, n)` for a move to the right:
      the ranges may overlap, so the characters are copied from the back. */
  method MemMove(buffer: array<char>, dst: nat, src: nat, n: nat)
    requires src <= dst && dst + n <= buffer.Length
    modifies buffer
    ensures forall i :: 0 <= i < buffer.Length ==>
      buffer[i] == if dst <= i < dst + n then old(buffer[i - dst + src]) else old(buffer[i])
  {
    var k := n;
    while k > 0
      invariant 0 <= k <= n
      invariant forall i :: 0 <= i < buffer.Length ==>
        buffer[i] == if dst + k <= i < dst + n then old(buffer[i - dst + src]) else old(buffer[i])
    {
      k := k - 1;
      buffer[dst + k] := buffer[src + k];
    }
  }

  /** `memset(buffer + start, c, n)`. */
  method MemSet(buffer: array<char>, start: nat, c: char, n: nat)
    requires start + n <= buffer.Length
    modifies buffer
    ensures forall i :: 0 <= i < buffer.Length ==>
      buffer[i] == if start <= i < start + n then c else old(buffer[i])
  {
    for j := 0 to n
      invariant forall i :: 0 <= i < buffer.Length ==>
        buffer[i] == if start <= i < start + j then c else old(buffer[i])
    {
      buffer[start + j] := c;
    }
  }

  /** `_to_chars`: writes the radix numeral of `value` into
      `buffer[start..end]`, right-aligned and left-padded with '0'. `ok` is
      false where the source throws because the numeral does not fit. */
  method ToChars(buffer: array<char>, start: nat, end: nat, value: bv8, radix: nat) returns (ok: bool)
    requires start <= end <= buffer.Length && IsRadix(radix)
    modifies buffer
    ensures ok <==> |Digits(Value(value), radix)| <= end - start
    ensures ok ==> buffer[start..end] == Padded(Value(value), radix, end - start)
    ensures forall i :: 0 <= i < buffer.Length && !(start <= i < end) ==> buffer[i] == old(buffer[i])
  {
    // std::to_chars: the shortest numeral written from `start`, or an error
    var digits := Digits(Value(value), radix);
    if |digits| > end - start {
      return false;
    }
    for j := 0 to |digits|
      invariant forall i :: 0 <= i < buffer.Length ==>
        buffer[i] == if start <= i < start + j then digits[i - start] else old(buffer[i])
    {
      buffer[start + j] := digits[j];
    }
    var ptr := start + |digits|;
    if ptr != end {
      var offset := end - ptr;
      var full := end - start;
      var difference := full - offset;
      MemMove(buffer, start + offset, start, difference);
      MemSet(buffer, start, '0', offset);
    }
    ghost var padded := Padded(Value(value), radix, end - start);
    assert |padded| == end - start;
    forall i | start <= i < end
      ensures buffer[i] == padded[i - start]
    {
    }
    assert buffer[start..end] == padded;
    ok := true;
  }

  /** A renderer (DataOut with its Hex, Binary and Bit variants): the stored
      byte pair, the delimiter and a scratch buffer one character wider than
      a rendered byte; the bit variant also caches the difference mask. */
  class DataOut {
    const kind: Kind
    const delim: char
    const buffer: array<char>
    var a: bv8
    var b: bv8
    var xor: bv8

    ghost predicate Valid()
      reads this
    {
      buffer.Length == Width(kind) + 1 && (kind == Bits ==> xor == Xor(a, b))
    }

    constructor (kind: Kind, delim: char)
      ensures Valid() && fresh(buffer)
      ensures this.kind == kind && this.delim == delim && a == 0 && b == 0
    {
      this.kind := kind;
      this.delim := delim;
      a, b, xor := 0, 0, 0;
      buffer := new char[Width(kind) + 1];
    }

    /** Stores a new pair; the bit variant also recomputes its mask. */
    method Init(dataA: bv8, dataB: bv8)
      requires Valid()
      modifies this
      ensures Valid()
      ensures a == dataA && b == dataB
      ensures kind == Bits ==> xor == Xor(dataA, dataB)
      ensures kind != Bits ==> xor == old(xor)
    {
      a := dataA;
      b := dataB;
      if kind == Bits {
        xor := Xor(dataA, dataB);
      }
    }

    /** The number of differing bits of the stored pair; the bit variant
        reads it from its cached mask. */
    function GetDiffPopCount(): (r: nat)
      reads this
      requires Valid()
      ensures r == Popcount(Xor(a, b))
      ensures r <= 8 && (r == 0 <==> a == b)
    {
      DiffPopcount(a, b);
      if kind == Bits then Popcount(xor) else Popcount(Xor(a, b))
    }

    /** The text of one byte: `_to_chars` or `_to_bitwise_string` into the
        scratch buffer, which ends in a NUL, read back as a C string. */
    method RenderByte(value: bv8) returns (field: string)
      requires Valid()
      modifies buffer
      ensures field == Field(kind, value, xor)
    {
      var w := Width(kind);
      buffer[w] := NUL;
      if kind == Bits {
        ToBitwiseString(value, xor, buffer, w);
      } else {
        ByteDigitsFit(value);
        var ok := ToChars(buffer, 0, w, value, Radix(kind));
        assert ok;
      }
      FieldChars(kind, value, xor);
      assert buffer[..w] == Field(kind, value, xor);
      CStringUpTo(buffer[..], w);
      field := CString(buffer[..]);
    }

    /** `print`: both bytes of the stored pair, each behind its prefix,
        separated by the delimiter. */
    method Print() returns (text: string)
      requires Valid()
      modifies buffer
      ensures text == Render(kind, delim, a, b)
    {
      var first := RenderByte(a);
      text := Prefix(kind) + first + [delim];
      var second := RenderByte(b);
      text := text + Prefix(kind) + second;
    }
  }
}
