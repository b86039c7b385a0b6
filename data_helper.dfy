/** The bit-string codec of the gateway (class DataHelper in
    scripts/data_helper.py). Registers travel as 16-character strings of
    '0' and '1', most significant bit first. */
module DataHelper {
  import opened Wrappers

  // ---------------------------------------------------------------------
  // Reference definitions
  // ---------------------------------------------------------------------

  function Pow2(n: nat): (r: nat)
    ensures r >= 1
  {
    if n == 0 then 1 else 2 * Pow2(n - 1)
  }

  lemma {:induction false} LemmaPow2Values()
    ensures Pow2(8) == 256 && Pow2(15) == 32768 && Pow2(16) == 65536
  {
    assert Pow2(4) == 16;
    assert Pow2(8) == 256;
    assert Pow2(12) == 4096;
    assert Pow2(15) == 32768;
  }

  /** A string made only of '0' and '1'. */
  predicate IsBits(s: string)
  {
    forall i :: 0 <= i < |s| ==> s[i] == '0' || s[i] == '1'
  }

  function BitChar(b: nat): char { if b % 2 == 1 then '1' else '0' }

  function BitValue(c: char): nat { if c == '1' then 1 else 0 }

  /** What `int(s, 2)` gives for a bit string: read most significant
      character first. */
  function BitsValue(s: string): nat
  {
    if s == [] then 0 else 2 * BitsValue(s[..|s| - 1]) + BitValue(s[|s| - 1])
  }

  /** The w-character binary string of n modulo 2^w, most significant bit
      first: the intended shape of every register string. */
  function Bits(n: nat, w: nat): string
  {
    if w == 0 then [] else Bits(n / 2, w - 1) + [BitChar(n)]
  }

  /** Bit k of n, bit 0 being the least significant. */
  function BitAt(n: nat, k: nat): nat
  {
    if k == 0 then n % 2 else BitAt(n / 2, k - 1)
  }

  /** Python's `bin(n)[2:]` for n >= 0: no leading zero, "0" for zero. */
  function Binary(n: nat): string
  {
    (if n < 2 then [] else Binary(n / 2)) + [BitChar(n)]
  }

  /** Python's `bin(s)`, sign and "0b" prefix included. */
  function PyBin(s: int): string
  {
    if s < 0 then "-0b" + Binary(-s) else "0b" + Binary(s)
  }

  /** `str.zfill(w)` (c = '0') and `'{0:wb}'` padding (c = ' '). */
  function LeftPad(s: string, w: nat, c: char): (r: string)
  {
    if |s| >= w then s else seq(w - |s|, _ => c) + s
  }

  /** Python's clamped slice s[i:j] for 0 <= i and 0 <= j. */
  function Slice(s: string, i: nat, j: nat): (r: string)
    ensures |s| >= j && i <= j ==> r == s[i..j]
  {
    var hi := if j <= |s| then j else |s|;
    var lo := if i <= hi then i else hi;
    s[lo..hi]
  }

  /** Every character flipped ('1' -> '0', anything else -> '1'). */
  function Invert(s: string): string
  {
    if s == [] then [] else Invert(s[..|s| - 1]) + [if s[|s| - 1] == '1' then '0' else '1']
  }

  /** Two's complement reading of a 16-bit register word. */
  function Signed16(w: nat): int
  {
    if w <= 32767 then w else w - 65536
  }

  // ---------------------------------------------------------------------
  // Lemmas about the reference definitions
  // ---------------------------------------------------------------------

  lemma {:induction false} LemmaBitsValueConcat(a: string, b: string)
    ensures BitsValue(a + b) == BitsValue(a) * Pow2(|b|) + BitsValue(b)
  {
    if b == [] {
      assert a + b == a;
    } else {
      var b' := b[..|b| - 1];
      var c := BitValue(b[|b| - 1]);
      assert (a + b)[..|a + b| - 1] == a + b';
      assert (a + b)[|a + b| - 1] == b[|b| - 1];
      LemmaBitsValueConcat(a, b');
      assert BitsValue(a + b) == 2 * BitsValue(a + b') + c;
      assert BitsValue(b) == 2 * BitsValue(b') + c;
      assert Pow2(|b|) == 2 * Pow2(|b'|);
      LemmaShiftDistributes(BitsValue(a), Pow2(|b'|), BitsValue(b'), c);
    }
  }

  lemma LemmaShiftDistributes(x: nat, p: nat, y: nat, c: nat)
    ensures 2 * (x * p + y) + c == x * (2 * p) + (2 * y + c)
  {
  }

  lemma {:induction false} LemmaBitsValueBound(s: string)
    ensures BitsValue(s) < Pow2(|s|)
  {
    if s != [] {
      LemmaBitsValueBound(s[..|s| - 1]);
    }
  }

  lemma {:induction false} LemmaBitsShape(n: nat, w: nat)
    ensures |Bits(n, w)| == w && IsBits(Bits(n, w))
  {
    if w > 0 {
      LemmaBitsShape(n / 2, w - 1);
    }
  }

  /** The w-bit string of n reads back as n. */
  lemma {:induction false} LemmaBitsValueOfBits(n: nat, w: nat)
    requires n < Pow2(w)
    ensures |Bits(n, w)| == w && IsBits(Bits(n, w)) && BitsValue(Bits(n, w)) == n
  {
    LemmaBitsShape(n, w);
    if w > 0 {
      LemmaBitsValueOfBits(n / 2, w - 1);
      assert Bits(n, w)[..w - 1] == Bits(n / 2, w - 1);
    }
  }

  /** A bit string is the Bits of its own value: two bit strings of equal
      length and equal value are equal. */
  lemma {:induction false} LemmaBitsOfBitsValue(s: string)
    requires IsBits(s)
    ensures Bits(BitsValue(s), |s|) == s
  {
    if s != [] {
      var p := s[..|s| - 1];
      LemmaBitsOfBitsValue(p);
      assert BitsValue(s) / 2 == BitsValue(p);
      assert s == p + [s[|s| - 1]];
    }
  }

  /** Character 15 - k of a register string is bit k of the word. */
  lemma {:induction false} LemmaBitsAt(n: nat, w: nat, k: nat)
    requires k < w
    ensures |Bits(n, w)| == w && Bits(n, w)[w - 1 - k] == BitChar(BitAt(n, k))
  {
    LemmaBitsShape(n, w);
    if k > 0 {
      LemmaBitsAt(n / 2, w - 1, k - 1);
    }
  }

  lemma {:induction false} LemmaBinary(n: nat)
    ensures |Binary(n)| >= 1 && IsBits(Binary(n)) && BitsValue(Binary(n)) == n
    ensures n > 0 ==> Binary(n)[0] == '1'
  {
    if n >= 2 {
      LemmaBinary(n / 2);
      assert Binary(n)[..|Binary(n)| - 1] == Binary(n / 2);
    }
  }

  /** A number below 2^k has at most k binary digits. */
  lemma {:induction false} LemmaBinaryShort(n: nat, k: nat)
    requires k >= 1 && n < Pow2(k)
    ensures |Binary(n)| <= k
  {
    if n >= 2 {
      LemmaBinaryShort(n / 2, k - 1);
    }
  }

  /** A number at least 2^(k-1) has at least k binary digits. */
  lemma {:induction false} LemmaBinaryLong(n: nat, k: nat)
    requires k >= 1 && n >= Pow2(k - 1)
    ensures |Binary(n)| >= k
  {
    if k > 1 {
      LemmaBinaryLong(n / 2, k - 1);
    }
  }

  /** Zero padding on the left keeps a bit string's value. */
  lemma {:induction false} LemmaZeroPad(b: string, w: nat)
    requires IsBits(b)
    ensures IsBits(LeftPad(b, w, '0'))
    ensures BitsValue(LeftPad(b, w, '0')) == BitsValue(b)
    ensures |b| <= w ==> |LeftPad(b, w, '0')| == w
  {
    if |b| < w {
      var z := seq(w - |b|, _ => '0');
      LemmaBitsValueConcat(z, b);
      LemmaZerosValue(w - |b|);
    }
  }

  /** `bin(n)[2:].zfill(16)` is the 16-bit string of n. */
  lemma {:induction false} LemmaZeroFill16(n: nat)
    requires n < 65536
    ensures LeftPad(Binary(n), 16, '0') == Bits(n, 16)
  {
    LemmaPow2Values();
    LemmaBinary(n);
    LemmaBinaryShort(n, 16);
    LemmaZeroPad(Binary(n), 16);
    LemmaBitsOfBitsValue(LeftPad(Binary(n), 16, '0'));
  }

  lemma {:induction false} LemmaZerosValue(k: nat)
    ensures BitsValue(seq(k, _ => '0')) == 0
  {
    if k > 0 {
      assert seq(k, _ => '0')[..k - 1] == seq(k - 1, _ => '0');
      LemmaZerosValue(k - 1);
    }
  }

  /** Inverting every bit of s gives 2^|s| - 1 - value(s). */
  lemma {:induction false} LemmaInvertValue(s: string)
    requires IsBits(s)
    ensures |Invert(s)| == |s| && IsBits(Invert(s))
    ensures BitsValue(Invert(s)) == Pow2(|s|) - 1 - BitsValue(s)
  {
    if s != [] {
      var p := s[..|s| - 1];
      var last := s[|s| - 1];
      var flipped := if last == '1' then '0' else '1';
      assert IsBits(p);
      LemmaInvertValue(p);
      var t := Invert(s);
      assert t == Invert(p) + [flipped];
      assert t[..|t| - 1] == Invert(p) && t[|t| - 1] == flipped;
      assert BitValue(flipped) == 1 - BitValue(last);
      assert BitsValue(t) == 2 * BitsValue(Invert(p)) + BitValue(flipped);
      assert BitsValue(s) == 2 * BitsValue(p) + BitValue(last);
      assert Pow2(|s|) == 2 * Pow2(|p|);
      assert IsBits(t) by {
        assert forall i :: 0 <= i < |p| ==> t[i] == Invert(p)[i];
      }
    }
  }

  lemma {:induction false} LemmaInvertStep(s: string, i: nat)
    requires i < |s|
    ensures Invert(s[..i + 1]) == Invert(s[..i]) + [if s[i] == '1' then '0' else '1']
  {
    assert s[..i + 1][..i] == s[..i];
  }

  /** The 16-bit two's complement reading is a signed 16-bit number equal
      to the word modulo 2^16. */
  lemma {:induction false} LemmaSigned16(w: nat)
    requires w <= 65535
    ensures -32768 <= Signed16(w) <= 32767
    ensures (w - Signed16(w)) % 65536 == 0
    ensures w <= 32767 <==> Signed16(w) >= 0
  {
  }

  // ---------------------------------------------------------------------
  // The operations of DataHelper
  // ---------------------------------------------------------------------

  /** int_16_unsigned_to_binary: None outside 0..65535, otherwise the
      zero-padded 16-character binary string. */
  function UnsignedToBinary(n: int): (r: Option<string>)
    ensures r.Some? <==> 0 <= n <= 65535
    ensures r.Some? ==> r.value == Bits(n, 16)
  {
    if n < 0 || n > 65535 then None
    else
      LemmaZeroFill16(n);
      Some(LeftPad(Binary(n), 16, '0'))
  }

  /** binary_string_16_bits_to_int_16_unsigned: `int(s, 2)` packed and
      unpacked as an unsigned 16-bit number. None stands for the two
      errors: `int` raises ValueError on an empty or non-binary string, and
      `struct.pack('!H')` raises struct.error on a value above 65535. */
  function BinaryToUnsigned(s: string): (r: Option<nat>)
    ensures r.Some? <==> |s| > 0 && IsBits(s) && BitsValue(s) < 65536
  {
    if |s| > 0 && IsBits(s) && BitsValue(s) < 65536 then Some(BitsValue(s)) else None
  }

  /** Decoding the encoding of any unsigned 16-bit number returns it. */
  lemma {:induction false} LemmaUnsignedRoundTrip(n: int)
    requires 0 <= n <= 65535
    ensures UnsignedToBinary(n).Some?
    ensures var s := UnsignedToBinary(n).value;
      |s| == 16 && IsBits(s) && BitsValue(s) < 65536 && BinaryToUnsigned(s) == Some(n)
  {
    LemmaPow2Values();
    LemmaBitsValueOfBits(n, 16);
  }

  /** Encoding the value of any 16-character bit string returns it. */
  lemma {:induction false} LemmaBinaryRoundTrip(s: string)
    requires |s| == 16 && IsBits(s)
    ensures BitsValue(s) < 65536 && BinaryToUnsigned(s).Some?
    ensures UnsignedToBinary(BinaryToUnsigned(s).value) == Some(s)
  {
    LemmaPow2Values();
    LemmaBitsValueBound(s);
    LemmaBitsOfBitsValue(s);
  }

  /** int_16_unsigned_to_signed. For n > 32767 the source formats n with
      '{0:16b}', inverts every digit in a loop, reads the result back and
      negates it plus one; the error branch (first digit not '1') can never
      be taken, since bin(n) of a positive n starts with '1'. */
  method UnsignedToSigned(n: int) returns (r: int)
    ensures n <= 32767 ==> r == n
    ensures 32768 <= n <= 65535 ==> r == n - 65536 && r == Signed16(n)
    ensures n > 65535 ==> r == n - Pow2(|Binary(n)|)
  {
    if n > 32767 {
      var text := LeftPad(Binary(n), 16, ' ');
      LemmaLongBinary(n);
      if text[0] != '1' {
        // the source prints an error and returns n unchanged
        r := n;
      } else {
        var inverted := InvertBits(text);
        r := -(BitsValue(inverted) + 1);
      }
    } else {
      r := n;
    }
  }

  /** For n >= 2^15 the padded binary string is the plain one, starts with
      '1', and the negated successor of its inverse is n - 2^(bit length),
      which is n - 65536 below 2^16. */
  lemma {:induction false} LemmaLongBinary(n: nat)
    requires n > 32767
    ensures LeftPad(Binary(n), 16, ' ') == Binary(n) && Binary(n)[0] == '1'
    ensures -(BitsValue(Invert(Binary(n))) + 1) == n - Pow2(|Binary(n)|)
    ensures n <= 65535 ==> Pow2(|Binary(n)|) == 65536
  {
    LemmaPow2Values();
    LemmaBinary(n);
    LemmaBinaryLong(n, 16);
    LemmaInvertValue(Binary(n));
    if n <= 65535 {
      LemmaBinaryShort(n, 16);
    }
  }

  /** The character loop that flips every bit of a string. */
  method InvertBits(text: string) returns (inverted: string)
    ensures inverted == Invert(text)
  {
    inverted := "";
    var i := 0;
    while i < |text|
      invariant 0 <= i <= |text|
      invariant inverted == Invert(text[..i])
    {
      LemmaInvertStep(text, i);
      inverted := inverted + [if text[i] == '1' then '0' else '1'];
      i := i + 1;
    }
    assert text[..i] == text;
  }

  /** Possible outcomes of int_16_signed_to_binary as written. */
  datatype SignedBinary =
    | OutOfRange          // the function prints a warning and returns None
    | UnboundLocal        // reading sint_sign_negative raises UnboundLocalError
    | Bits16(bits: string)

  /** bin(s) holds a '-' exactly for negative s, and its digits follow
      the three-character prefix "-0b". */
  lemma {:induction false} LemmaPyBinSign(s: int)
    ensures ('-' in PyBin(s)) <==> s < 0
    ensures s < 0 ==> |PyBin(s)| >= 3 && PyBin(s)[3..] == Binary(-s)
  {
    var m: nat := if s < 0 then -s else s;
    LemmaBinary(m);
    if s < 0 {
      assert PyBin(s)[0] == '-';
    }
  }

  /** The negative path of int_16_signed_to_binary: pad |s| to 16 digits,
      invert them, add one and print in binary without padding. */
  lemma {:induction false} LemmaTwosComplement(s: int)
    requires -32768 <= s < 0
    ensures var digits := LeftPad(Binary(-s), 16, '0');
      IsBits(digits) && |Invert(digits)| == 16 &&
      Binary(BitsValue(Invert(digits)) + 1) == Bits(s + 65536, 16)
  {
    LemmaPow2Values();
    LemmaZeroFill16(-s);
    var digits := LeftPad(Binary(-s), 16, '0');
    LemmaBitsValueOfBits(-s, 16);
    LemmaInvertValue(digits);
    var v := BitsValue(Invert(digits)) + 1;
    assert v == s + 65536;
    LemmaBinaryShort(v, 16);
    LemmaBinaryLong(v, 16);
    LemmaZeroFill16(v);
  }

  /** int_16_signed_to_binary AS WRITTEN: sint_sign_negative is only ever
      assigned when bin(s) holds a '-', so every non-negative input raises. */
  method SignedToBinary(s: int) returns (r: SignedBinary)
    ensures r.OutOfRange? <==> s < -32768 || s > 32767
    ensures -32768 <= s < 0 ==> r == Bits16(Bits(s + 65536, 16))
    ensures 0 <= s <= 32767 ==> r == UnboundLocal
  {
    if s < -32768 || s > 32767 {
      return OutOfRange;
    }
    var text := PyBin(s);
    var offset := 2;
    var negativeAssigned := false;
    LemmaPyBinSign(s);
    if '-' in text {
      negativeAssigned := true;
      offset := 3;
    }
    if !negativeAssigned {
      return UnboundLocal;
    }
    var digits := LeftPad(text[offset..], 16, '0');
    LemmaTwosComplement(s);
    var inverted := InvertBits(digits);
    r := Bits16(Binary(BitsValue(inverted) + 1));
  }

  /** int_16_signed_to_binary as evidently intended: the 16-bit two's
      complement string for every signed 16-bit input, None otherwise. */
  function SignedToBinaryCorrected(s: int): (r: Option<string>)
    ensures r.Some? <==> -32768 <= s <= 32767
    ensures r.Some? ==> |r.value| == 16 && IsBits(r.value) && Signed16(BitsValue(r.value)) == s
  {
    if s < -32768 || s > 32767 then None
    else
      var w := if s < 0 then s + 65536 else s;
      LemmaPow2Values();
      LemmaBitsValueOfBits(w, 16);
      Some(Bits(w, 16))
  }

  /** int_16_swap_bytes: s[8:16] + s[0:8]. */
  function Int16SwapBytes(s: string): string
  {
    Slice(s, 8, 16) + Slice(s, 0, 8)
  }

  /** float32_swap_bytes: [A B C D] -> [B A D C]. */
  function Float32SwapBytes(s: string): string
  {
    Slice(s, 8, 16) + Slice(s, 0, 8) + Slice(s, 24, 32) + Slice(s, 16, 24)
  }

  /** float32_swap_words: [A B C D] -> [C D A B]. */
  function Float32SwapWords(s: string): string
  {
    Slice(s, 16, 32) + Slice(s, 0, 16)
  }

  /** float32_swap_bytes_words: word swap, then byte swap. */
  function Float32SwapBytesWords(s: string): string
  {
    Float32SwapBytes(Float32SwapWords(s))
  }

  /** The k-th byte (8 characters) of a bit string. */
  function Byte(s: string, k: nat): string
    requires 8 * k + 8 <= |s|
  {
    s[8 * k .. 8 * k + 8]
  }

  lemma {:induction false} LemmaInt16SwapBytes(s: string)
    requires |s| == 16
    ensures Int16SwapBytes(s) == Byte(s, 1) + Byte(s, 0)
    ensures Int16SwapBytes(Int16SwapBytes(s)) == s
  {
    var t := Int16SwapBytes(s);
    assert t[8..16] == s[0..8] && t[0..8] == s[8..16];
    assert s == s[0..8] + s[8..16];
  }

  lemma {:induction false} LemmaFloat32SwapBytes(s: string)
    requires |s| == 32
    ensures Float32SwapBytes(s) == Byte(s, 1) + Byte(s, 0) + Byte(s, 3) + Byte(s, 2)
    ensures Float32SwapBytes(Float32SwapBytes(s)) == s
  {
    var t := Float32SwapBytes(s);
    assert |t| == 32;
    assert t[0..8] == s[8..16] && t[8..16] == s[0..8];
    assert t[16..24] == s[24..32] && t[24..32] == s[16..24];
    assert s == s[0..8] + s[8..16] + s[16..24] + s[24..32];
  }

  lemma {:induction false} LemmaFloat32SwapWords(s: string)
    requires |s| == 32
    ensures Float32SwapWords(s) == Byte(s, 2) + Byte(s, 3) + Byte(s, 0) + Byte(s, 1)
    ensures Float32SwapWords(Float32SwapWords(s)) == s
  {
    var t := Float32SwapWords(s);
    assert t[0..16] == s[16..32] && t[16..32] == s[0..16];
    assert s[16..32] == s[16..24] + s[24..32];
    assert s[0..16] == s[0..8] + s[8..16];
    assert s == s[0..16] + s[16..32];
  }

  /** Swapping bytes and words reverses the byte order, in either
      composition order, and undoes itself. */
  lemma {:induction false} LemmaFloat32SwapBytesWords(s: string)
    requires |s| == 32
    ensures Float32SwapBytesWords(s) == Byte(s, 3) + Byte(s, 2) + Byte(s, 1) + Byte(s, 0)
    ensures Float32SwapBytesWords(s) == Float32SwapWords(Float32SwapBytes(s))
    ensures Float32SwapBytesWords(Float32SwapBytesWords(s)) == s
  {
    var w := Float32SwapWords(s);
    LemmaFloat32SwapWords(s);
    assert |w| == 32;
    LemmaFloat32SwapBytes(w);
    assert Byte(w, 0) == Byte(s, 2) && Byte(w, 1) == Byte(s, 3);
    assert Byte(w, 2) == Byte(s, 0) && Byte(w, 3) == Byte(s, 1);
    var b := Float32SwapBytes(s);
    LemmaFloat32SwapBytes(s);
    assert |b| == 32;
    LemmaFloat32SwapWords(b);
    assert Byte(b, 0) == Byte(s, 1) && Byte(b, 1) == Byte(s, 0);
    assert Byte(b, 2) == Byte(s, 3) && Byte(b, 3) == Byte(s, 2);
    var r := Float32SwapBytesWords(s);
    assert |r| == 32;
    LemmaFloat32SwapBytes(Float32SwapWords(r));
    LemmaFloat32SwapWords(r);
    assert Byte(r, 0) == Byte(s, 3) && Byte(r, 1) == Byte(s, 2);
    assert Byte(r, 2) == Byte(s, 1) && Byte(r, 3) == Byte(s, 0);
    assert s == Byte(s, 0) + Byte(s, 1) + Byte(s, 2) + Byte(s, 3);
  }

  /** Swapping the bytes of a register through its string form exchanges
      its high and low bytes. */
  lemma {:induction false} LemmaSwapThroughString(w: int)
    requires 0 <= w <= 65535
    ensures UnsignedToBinary(w).Some?
    ensures var t := Int16SwapBytes(UnsignedToBinary(w).value);
      |t| == 16 && IsBits(t) && BitsValue(t) < 65536 &&
      BinaryToUnsigned(t) == Some((w % 256) * 256 + w / 256)
  {
    LemmaPow2Values();
    var s := UnsignedToBinary(w).value;
    LemmaBitsValueOfBits(w, 16);
    LemmaSwapValue(s);
  }

  /** Swapping the two bytes of a 16-bit string exchanges the high and low
      bytes of its value. */
  lemma {:induction false} LemmaSwapValue(s: string)
    requires |s| == 16 && IsBits(s)
    ensures var t := Int16SwapBytes(s);
      |t| == 16 && IsBits(t) &&
      BitsValue(t) == (BitsValue(s) % 256) * 256 + BitsValue(s) / 256 && BitsValue(t) < 65536
  {
    var hi, lo := s[..8], s[8..];
    LemmaSplitBytes(s);
    LemmaBytes(BitsValue(hi), BitsValue(lo));
    var t := Int16SwapBytes(s);
    assert t == lo + hi;
    assert t[8..] == hi && t[..8] == lo;
    LemmaSplitBytes(t);
  }

  /** The value of a 16-bit string is its high byte times 256 plus its low
      byte. */
  lemma {:induction false} LemmaSplitBytes(s: string)
    requires |s| == 16 && IsBits(s)
    ensures BitsValue(s) == BitsValue(s[..8]) * 256 + BitsValue(s[8..])
    ensures BitsValue(s[..8]) < 256 && BitsValue(s[8..]) < 256
  {
    LemmaPow2Values();
    assert s == s[..8] + s[8..];
    LemmaBitsValueConcat(s[..8], s[8..]);
    LemmaBitsValueBound(s[..8]);
    LemmaBitsValueBound(s[8..]);
  }

  lemma LemmaBytes(h: nat, l: nat)
    requires h < 256 && l < 256
    ensures (h * 256 + l) / 256 == h && (h * 256 + l) % 256 == l
    ensures l * 256 + h < 65536
  {
  }
}
