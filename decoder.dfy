/** The register decoder of ModbusTCPClient: interpret_response turns the
    words one read request returned into tag values, following the
    descriptors the template compiler recorded; combine_tag_responses merges
    the results of all requests of one poll. */
module Decoder {
  import opened Wrappers
  import opened PyNumbers
  import opened Dicts
  import opened Template
  import DataHelper
  import CallGroups

  /** Why decoding stops: a word whose address has no descriptor (Python
      raises KeyError), or a scaling text float() rejects (ValueError). */
  datatype DecodeError = MissingDescriptor(address: int) | BadScaling(text: string)

  /** Register words as the transport delivers them: unsigned 16-bit. */
  predicate Words16(words: seq<int>)
  {
    forall k :: 0 <= k < |words| ==> 0 <= words[k] <= 65535
  }

  const CoilCodes: seq<string> := ["01", "02"]

  const Float32Types: seq<string> := ["float32", "rfloat32_byte_swap", "rfloat32_word_swap", "rfloat32_byte_word_swap"]

  /** The data types the decoder converts; any other descriptor (di or coil
      under a register function code) is passed over. */
  const Supported: seq<string> := ["float32", "sint16", "uint16", "float64", "rsint16", "ruint16",
    "packedbool", "rfloat32_byte_swap", "rfloat32_word_swap", "rfloat32_byte_word_swap"]

  /** The number of words one descriptor consumes. */
  function Width(dataType: string): nat
  {
    if dataType == "float64" then 4 else if dataType in Float32Types then 2 else 1
  }

  function Min(a: int, b: int): int
  {
    if a <= b then a else b
  }

  /** The binary strings of the words, concatenated. */
  function Joined(words: seq<int>): (r: string)
    requires Words16(words)
    ensures |r| == 16 * |words|
  {
    if words == [] then []
    else
      var w := words[|words| - 1];
      DataHelper.LemmaUnsignedRoundTrip(w);
      Joined(words[..|words| - 1]) + DataHelper.UnsignedToBinary(w).value
  }

  /** The word with its two bytes exchanged. */
  function Swap16(w: int): int
  {
    (w % 256) * 256 + w / 256
  }

  /** The value of one descriptor of a convertible, non-packed type, read
      from the words at position i; IEEE 754 reinterpretation is left to
      f32 and f64. */
  function RawValue(dataType: string, words: seq<int>, i: nat,
                    f32: string -> PyFloat, f64: string -> PyFloat): PyFloat
    requires Words16(words) && i < |words|
  {
    var w := words[i];
    var pair := words[i..Min(i + 2, |words|)];
    if dataType == "float32" then f32(Joined(pair))
    else if dataType == "sint16" then FromInt(DataHelper.Signed16(w))
    else if dataType == "uint16" then FromInt(w)
    else if dataType == "float64" then f64(Joined(words[i..Min(i + 4, |words|)]))
    else if dataType == "rsint16" then FromInt(DataHelper.Signed16(Swap16(w)))
    else if dataType == "ruint16" then FromInt(Swap16(w))
    else if dataType == "rfloat32_byte_swap" then f32(DataHelper.Float32SwapBytes(Joined(pair)))
    else if dataType == "rfloat32_word_swap" then f32(DataHelper.Float32SwapWords(Joined(pair)))
    else f32(DataHelper.Float32SwapBytesWords(Joined(pair)))
  }

  // ---------------------------------------------------------------------
  // Scaling
  // ---------------------------------------------------------------------

  /** The scaling a descriptor asks for: none, or value*coeff + offset where
      a missing coefficient means 1 and a missing offset means 0. */
  datatype Scaling = Unscaled | Affine(coeff: Option<string>, offset: Option<string>)

  /** Decide the scaling from the descriptor's texts. A blank text is
      absent; when both are given, both are converted, and a NaN counts as
      absent. */
  function ScalingOf(coeff: string, offset: string, parse: string -> Option<PyFloat>): Result<Scaling, DecodeError>
  {
    if (coeff == "") != (offset == "") then
      Success(if coeff == "" then Affine(None, Some(offset)) else Affine(Some(coeff), None))
    else if coeff == "" then Success(Unscaled)
    else match parse(coeff)
      case None => Failure(BadScaling(coeff))
      case Some(c) =>
        match parse(offset)
        case None => Failure(BadScaling(offset))
        case Some(o) =>
          if c.NaN? && o.NaN? then Success(Unscaled)
          else if c.NaN? then Success(Affine(None, Some(offset)))
          else if o.NaN? then Success(Affine(Some(coeff), None))
          else Success(Affine(Some(coeff), Some(offset)))
  }

  function ParseOr(text: Option<string>, default: PyFloat, parse: string -> Option<PyFloat>): Result<PyFloat, DecodeError>
  {
    match text
    case None => Success(default)
    case Some(t) => if parse(t).Some? then Success(parse(t).value) else Failure(BadScaling(t))
  }

  function ApplyScaling(s: Scaling, rv: PyFloat, parse: string -> Option<PyFloat>): Result<PyFloat, DecodeError>
  {
    match s
    case Unscaled => Success(rv)
    case Affine(c, o) =>
      match ParseOr(c, Num(1.0), parse)
      case Failure(e) => Failure(e)
      case Success(cv) =>
        match ParseOr(o, Num(0.0), parse)
        case Failure(e) => Failure(e)
        case Success(ov) => Success(Add(Mul(rv, cv), ov))
  }

  /** The scaled value of a non-packed descriptor, or the error float()
      raises. */
  function Scale(rv: PyFloat, coeff: string, offset: string, parse: string -> Option<PyFloat>): Result<PyFloat, DecodeError>
  {
    match ScalingOf(coeff, offset, parse)
    case Failure(e) => Failure(e)
    case Success(s) => ApplyScaling(s, rv, parse)
  }

  /** A scaling text that is blank or reads as NaN. */
  predicate Absent(text: string, parse: string -> Option<PyFloat>)
  {
    text == "" || parse(text) == Some(NaN)
  }

  /** A scaling text that reads as a number. */
  predicate Given(text: string, parse: string -> Option<PyFloat>)
  {
    text != "" && parse(text).Some? && parse(text).value.Num?
  }

  /** Blank coefficient and offset, or both NaN, leave the value unchanged;
      a given one paired with an absent one uses the default 1 or 0 for the
      absent one; two given ones apply raw*coeff + offset. A NaN raw value
      stays NaN whenever scaling succeeds. */
  lemma {:induction false} LemmaScaleValues(rv: PyFloat, coeff: string, offset: string, parse: string -> Option<PyFloat>)
    ensures coeff == "" && offset == "" ==> Scale(rv, coeff, offset, parse) == Success(rv)
    ensures coeff != "" && offset != "" && parse(coeff) == Some(NaN) && parse(offset) == Some(NaN) ==>
      Scale(rv, coeff, offset, parse) == Success(rv)
    ensures rv.Num? && Absent(coeff, parse) && Given(offset, parse) ==>
      Scale(rv, coeff, offset, parse) == Success(Num(rv.x + parse(offset).value.x))
    ensures rv.Num? && Given(coeff, parse) && Absent(offset, parse) ==>
      Scale(rv, coeff, offset, parse) == Success(Num(rv.x * parse(coeff).value.x))
    ensures rv.Num? && Given(coeff, parse) && Given(offset, parse) ==>
      Scale(rv, coeff, offset, parse) == Success(Num(rv.x * parse(coeff).value.x + parse(offset).value.x))
    ensures rv.NaN? && Scale(rv, coeff, offset, parse).Success? ==> Scale(rv, coeff, offset, parse).value == NaN
  {
    if rv.Num? && Absent(coeff, parse) && Given(offset, parse) {
      LemmaScaleOffsetOnly(rv, coeff, offset, parse);
    }
    if rv.Num? && Given(coeff, parse) && Absent(offset, parse) {
      LemmaScaleCoeffOnly(rv, coeff, offset, parse);
    }
    if rv.Num? && Given(coeff, parse) && Given(offset, parse) {
      LemmaScaleBoth(rv, coeff, offset, parse);
    }
    if rv.NaN? && Scale(rv, coeff, offset, parse).Success? {
      LemmaScaleNaN(rv, coeff, offset, parse);
    }
  }

  lemma {:induction false} LemmaScaleOffsetOnly(rv: PyFloat, coeff: string, offset: string, parse: string -> Option<PyFloat>)
    requires rv.Num? && Absent(coeff, parse) && Given(offset, parse)
    ensures Scale(rv, coeff, offset, parse) == Success(Num(rv.x + parse(offset).value.x))
  {
    var o := parse(offset).value;
    assert Scale(rv, coeff, offset, parse) == Success(Add(Mul(rv, Num(1.0)), o));
    assert Add(Mul(rv, Num(1.0)), o) == Num(rv.x * 1.0 + o.x);
    assert rv.x * 1.0 == rv.x;
  }

  lemma {:induction false} LemmaScaleCoeffOnly(rv: PyFloat, coeff: string, offset: string, parse: string -> Option<PyFloat>)
    requires rv.Num? && Given(coeff, parse) && Absent(offset, parse)
    ensures Scale(rv, coeff, offset, parse) == Success(Num(rv.x * parse(coeff).value.x))
  {
    var c := parse(coeff).value;
    assert Scale(rv, coeff, offset, parse) == Success(Add(Mul(rv, c), Num(0.0)));
    assert Add(Mul(rv, c), Num(0.0)) == Num(rv.x * c.x + 0.0);
    assert rv.x * c.x + 0.0 == rv.x * c.x;
  }

  lemma {:induction false} LemmaScaleBoth(rv: PyFloat, coeff: string, offset: string, parse: string -> Option<PyFloat>)
    requires rv.Num? && Given(coeff, parse) && Given(offset, parse)
    ensures Scale(rv, coeff, offset, parse) == Success(Num(rv.x * parse(coeff).value.x + parse(offset).value.x))
  {
    var c, o := parse(coeff).value, parse(offset).value;
    assert Scale(rv, coeff, offset, parse) == Success(Add(Mul(rv, c), o));
    assert Add(Mul(rv, c), o) == Num(rv.x * c.x + o.x);
  }

  lemma {:induction false} LemmaScaleNaN(rv: PyFloat, coeff: string, offset: string, parse: string -> Option<PyFloat>)
    requires rv.NaN? && Scale(rv, coeff, offset, parse).Success?
    ensures Scale(rv, coeff, offset, parse).value == NaN
  {
    var sc := ScalingOf(coeff, offset, parse).value;
    if sc.Affine? {
      var cv := ParseOr(sc.coeff, Num(1.0), parse).value;
      var ov := ParseOr(sc.offset, Num(0.0), parse).value;
      assert Scale(rv, coeff, offset, parse) == Success(Add(Mul(rv, cv), ov));
    }
  }

  /** A blank text paired with a NaN one gives NaN, and scaling fails
      exactly when a non-blank text is not a number float() accepts. */
  lemma {:induction false} LemmaScaleNaNAndErrors(rv: PyFloat, coeff: string, offset: string, parse: string -> Option<PyFloat>)
    ensures (coeff == "" && offset != "" && parse(offset) == Some(NaN)) ||
            (offset == "" && coeff != "" && parse(coeff) == Some(NaN)) ==>
      Scale(rv, coeff, offset, parse) == Success(NaN)
    ensures Scale(rv, coeff, offset, parse).Failure? <==>
      (coeff != "" && parse(coeff).None?) || (offset != "" && parse(offset).None?)
  {
  }

  // ---------------------------------------------------------------------
  // Packed booleans
  // ---------------------------------------------------------------------

  /** The entries a packed boolean word emits: its raw value, then its bits
      from bit 15 down to bit 0, as the characters of its binary string. */
  function PackedEntries(tag: string, w: int): seq<Entry>
    requires 0 <= w <= 65535
  {
    DataHelper.LemmaUnsignedRoundTrip(w);
    [Entry(ValueKey(tag), FromInt(w))] + BitEntries(tag, DataHelper.UnsignedToBinary(w).value, 16)
  }

  /** The entries of the first n characters of a 16-character binary
      string: the character at position p is bit 15 - p. */
  function BitEntries(tag: string, bits: string, n: nat): seq<Entry>
    requires n <= |bits| == 16
  {
    if n == 0 then []
    else BitEntries(tag, bits, n - 1) + [Entry(BitKey(tag, 15 - (n - 1)), FromInt(DataHelper.BitValue(bits[n - 1])))]
  }

  /** str(k) tells the bit numbers 0..15 apart. */
  lemma {:induction false} LemmaDecimalInjective(a: nat, b: nat)
    requires a < 16 && b < 16 && Decimal(a) == Decimal(b)
    ensures a == b
  {
    assert |Decimal(a)| == (if a < 10 then 1 else 2);
    assert |Decimal(b)| == (if b < 10 then 1 else 2);
    if a < 10 {
      assert Decimal(b) == [DigitChar(b)];
    } else {
      assert Decimal(a)[1] == DigitChar(a % 10);
      assert Decimal(b)[1] == DigitChar(b % 10);
    }
  }

  lemma {:induction false} LemmaBitKeyInjective(tag: string, a: nat, b: nat)
    requires a < 16 && b < 16 && BitKey(tag, a) == BitKey(tag, b)
    ensures a == b
  {
    LemmaAppendCancel(tag, BitSuffix(a), BitSuffix(b));
    LemmaAppendCancel("_bit", Decimal(a), Decimal(b));
    LemmaDecimalInjective(a, b);
  }

  /** The last write of bit k among the first n entries, for bits the first
      n positions carry. */
  lemma {:induction false} LemmaBitEntriesAt(tag: string, bits: string, n: nat, k: nat)
    requires n <= |bits| == 16 && 16 - n <= k < 16
    ensures LastWrite(BitEntries(tag, bits, n), BitKey(tag, k)) == Some(FromInt(DataHelper.BitValue(bits[15 - k])))
  {
    if 15 - (n - 1) != k {
      if BitKey(tag, 15 - (n - 1)) == BitKey(tag, k) {
        LemmaBitKeyInjective(tag, 15 - (n - 1), k);
      }
      LemmaBitEntriesAt(tag, bits, n - 1, k);
      assert BitEntries(tag, bits, n)[..|BitEntries(tag, bits, n)| - 1] == BitEntries(tag, bits, n - 1);
    }
  }

  lemma {:induction false} LemmaBitEntriesNoValueKey(tag: string, bits: string, n: nat)
    requires n <= |bits| == 16
    ensures LastWrite(BitEntries(tag, bits, n), ValueKey(tag)).None?
  {
    if n > 0 {
      LemmaSubtagNamesDiffer(tag, 15 - (n - 1));
      LemmaBitEntriesNoValueKey(tag, bits, n - 1);
      assert BitEntries(tag, bits, n)[..|BitEntries(tag, bits, n)| - 1] == BitEntries(tag, bits, n - 1);
    }
  }

  lemma {:induction false} LemmaPackedEntries(tag: string, w: int)
    requires 0 <= w <= 65535
    ensures |DataHelper.Bits(w, 16)| == 16
    ensures PackedEntries(tag, w) == [Entry(ValueKey(tag), FromInt(w))] + BitEntries(tag, DataHelper.Bits(w, 16), 16)
  {
    DataHelper.LemmaBitsShape(w, 16);
  }

  /** After a packed boolean word w is emitted, its raw-value sub-tag holds
      w. */
  lemma {:induction false} LemmaPackedValue(d: Dict, tag: string, w: int)
    requires 0 <= w <= 65535
    ensures Get(PutAll(d, PackedEntries(tag, w)), ValueKey(tag)) == Some(FromInt(w))
  {
    var bits := DataHelper.Bits(w, 16);
    DataHelper.LemmaBitsShape(w, 16);
    var head := Entry(ValueKey(tag), FromInt(w));
    var rest := BitEntries(tag, bits, 16);
    LemmaPackedEntries(tag, w);
    LemmaPutAllConcat(d, [head], rest);
    LemmaPutAllLastWriteWins(PutAll(d, [head]), rest, ValueKey(tag));
    LemmaBitEntriesNoValueKey(tag, bits, 16);
    assert [head][..0] == [];
  }

  /** After a packed boolean word w is emitted, its bit k sub-tag holds
      bit k of w, bit 0 being the least significant. */
  lemma {:induction false} LemmaPackedBits(d: Dict, tag: string, w: int, k: nat)
    requires 0 <= w <= 65535 && k < 16
    ensures Get(PutAll(d, PackedEntries(tag, w)), BitKey(tag, k)) == Some(FromInt(DataHelper.BitAt(w, k)))
  {
    var bits := DataHelper.Bits(w, 16);
    LemmaPackedEntries(tag, w);
    var rest := BitEntries(tag, bits, 16);
    var key := BitKey(tag, k);
    LemmaBitEntriesAt(tag, bits, 16, k);
    LemmaPutAllTail(d, Entry(ValueKey(tag), FromInt(w)), rest, key);
    LemmaBitCharAt(w, k);
  }

  /** A key written by the tail of a run of assignments takes its last
      value there. */
  lemma {:induction false} LemmaPutAllTail(d: Dict, head: Entry, rest: seq<Entry>, key: string)
    requires LastWrite(rest, key).Some?
    ensures Get(PutAll(d, [head] + rest), key) == LastWrite(rest, key)
  {
    LemmaPutAllConcat(d, [head], rest);
    LemmaPutAllLastWriteWins(PutAll(d, [head]), rest, key);
  }

  /** The character of the register string holding bit k reads back as
      that bit. */
  lemma {:induction false} LemmaBitCharAt(w: nat, k: nat)
    requires k < 16
    ensures |DataHelper.Bits(w, 16)| == 16
    ensures DataHelper.BitValue(DataHelper.Bits(w, 16)[15 - k]) == DataHelper.BitAt(w, k)
  {
    DataHelper.LemmaBitsAt(w, 16, k);
    LemmaBitAtIsBit(w, k);
  }

  lemma {:induction false} LemmaBitAtIsBit(n: nat, k: nat)
    ensures DataHelper.BitAt(n, k) < 2
  {
    if k > 0 {
      LemmaBitAtIsBit(n / 2, k - 1);
    }
  }

  /** The word 5 sets bits 0 and 2 and clears bit 1. */
  lemma {:induction false} ExamplePacked5(d: Dict, tag: string)
    ensures Get(PutAll(d, PackedEntries(tag, 5)), BitKey(tag, 0)) == Some(FromInt(1))
    ensures Get(PutAll(d, PackedEntries(tag, 5)), BitKey(tag, 1)) == Some(FromInt(0))
    ensures Get(PutAll(d, PackedEntries(tag, 5)), BitKey(tag, 2)) == Some(FromInt(1))
    ensures Get(PutAll(d, PackedEntries(tag, 5)), BitKey(tag, 3)) == Some(FromInt(0))
  {
    LemmaPackedBits(d, tag, 5, 0);
    LemmaPackedBits(d, tag, 5, 1);
    LemmaPackedBits(d, tag, 5, 2);
    LemmaPackedBits(d, tag, 5, 3);
  }

  // ---------------------------------------------------------------------
  // Decoding one response
  // ---------------------------------------------------------------------

  /** Decoding from word pos on, into acc: under the coil and discrete
      input codes every word is the value of the tag at its address;
      otherwise each descriptor consumes Width words, unconvertible types
      one word and nothing emitted. */
  function DecodeAt(maps: map<int, Descriptor>, fc: string, words: seq<int>, start: int, pos: nat, acc: Dict,
                    f32: string -> PyFloat, f64: string -> PyFloat, parse: string -> Option<PyFloat>): Result<Dict, DecodeError>
    requires Words16(words)
    decreases |words| - pos
  {
    if pos >= |words| then Success(acc)
    else if start + pos !in maps then Failure(MissingDescriptor(start + pos))
    else
      var d := maps[start + pos];
      if fc in CoilCodes then
        DecodeAt(maps, fc, words, start, pos + 1, Put(acc, d.tagName, FromInt(words[pos])), f32, f64, parse)
      else if d.dataType !in Supported then
        DecodeAt(maps, fc, words, start, pos + 1, acc, f32, f64, parse)
      else match Emit(d, words, pos, acc, f32, f64, parse)
        case Failure(e) => Failure(e)
        case Success(acc') => DecodeAt(maps, fc, words, start, pos + Width(d.dataType), acc', f32, f64, parse)
  }

  /** What one descriptor of a convertible type adds to the decoded tags:
      the sixteen bits and the raw word of a packed boolean, otherwise the
      scaled value; a rejected scaling text is an error. */
  function Emit(d: Descriptor, words: seq<int>, pos: nat, acc: Dict,
                f32: string -> PyFloat, f64: string -> PyFloat, parse: string -> Option<PyFloat>): Result<Dict, DecodeError>
    requires Words16(words) && pos < |words|
  {
    match ScalingOf(d.scalingCoeff, d.scalingOffset, parse)
    case Failure(e) => Failure(e)
    case Success(s) =>
      if d.dataType == "packedbool" then Success(PutAll(acc, PackedEntries(d.tagName, words[pos])))
      else match ApplyScaling(s, RawValue(d.dataType, words, pos, f32, f64), parse)
        case Failure(e) => Failure(e)
        case Success(v) => Success(Put(acc, d.tagName, v))
  }

  function Decode(maps: map<int, Descriptor>, fc: string, words: seq<int>, start: int,
                  f32: string -> PyFloat, f64: string -> PyFloat, parse: string -> Option<PyFloat>): Result<Dict, DecodeError>
    requires Words16(words)
  {
    DecodeAt(maps, fc, words, start, 0, [], f32, f64, parse)
  }

  /** One step of DecodeAt: a word without a descriptor fails. */
  lemma {:induction false} LemmaDecodeAtMissing(maps: map<int, Descriptor>, fc: string, words: seq<int>, start: int, pos: nat, acc: Dict,
                                                f32: string -> PyFloat, f64: string -> PyFloat, parse: string -> Option<PyFloat>)
    requires Words16(words) && pos < |words| && start + pos !in maps
    ensures DecodeAt(maps, fc, words, start, pos, acc, f32, f64, parse) == Failure(MissingDescriptor(start + pos))
  {
  }

  /** One step of DecodeAt under a coil code: the word becomes the value of
      its tag. */
  lemma {:induction false} LemmaDecodeAtCoil(maps: map<int, Descriptor>, fc: string, words: seq<int>, start: int, pos: nat, acc: Dict,
                                             f32: string -> PyFloat, f64: string -> PyFloat, parse: string -> Option<PyFloat>)
    requires Words16(words) && pos < |words| && start + pos in maps && fc in CoilCodes
    ensures DecodeAt(maps, fc, words, start, pos, acc, f32, f64, parse) ==
      DecodeAt(maps, fc, words, start, pos + 1, Put(acc, maps[start + pos].tagName, FromInt(words[pos])), f32, f64, parse)
  {
  }

  /** One step of DecodeAt over a type that is not converted: one word is
      consumed and nothing is emitted. */
  lemma {:induction false} LemmaDecodeAtUnsupported(maps: map<int, Descriptor>, fc: string, words: seq<int>, start: int, pos: nat, acc: Dict,
                                                    f32: string -> PyFloat, f64: string -> PyFloat, parse: string -> Option<PyFloat>)
    requires Words16(words) && pos < |words| && start + pos in maps && fc !in CoilCodes
    requires maps[start + pos].dataType !in Supported
    ensures DecodeAt(maps, fc, words, start, pos, acc, f32, f64, parse) ==
      DecodeAt(maps, fc, words, start, pos + 1, acc, f32, f64, parse)
  {
  }

  /** One step of DecodeAt over a convertible type: what Emit adds, then
      Width words further on. */
  lemma {:induction false} LemmaDecodeAtEmit(maps: map<int, Descriptor>, fc: string, words: seq<int>, start: int, pos: nat, acc: Dict,
                                             f32: string -> PyFloat, f64: string -> PyFloat, parse: string -> Option<PyFloat>)
    requires Words16(words) && pos < |words| && start + pos in maps && fc !in CoilCodes
    requires maps[start + pos].dataType in Supported
    ensures var d := maps[start + pos];
      DecodeAt(maps, fc, words, start, pos, acc, f32, f64, parse) ==
        match Emit(d, words, pos, acc, f32, f64, parse)
        case Failure(e) => Failure(e)
        case Success(acc') => DecodeAt(maps, fc, words, start, pos + Width(d.dataType), acc', f32, f64, parse)
  {
  }

  /** Every supported type consumes as many words as the template claimed
      for it, so the next descriptor is looked up at address + count. */
  lemma {:induction false} LemmaWidthIsRegisterCount(dataType: string)
    requires dataType in RegisterCount()
    ensures Width(dataType) == RegisterCount()[dataType]
  {
  }

  /** The entries of a coil or discrete-input response: word k is the
      value of the tag at address start + k. */
  function CoilEntries(maps: map<int, Descriptor>, words: seq<int>, start: int, n: nat): (r: seq<Entry>)
    requires n <= |words|
    requires forall a :: start <= a < start + n ==> a in maps
    ensures |r| == n
  {
    if n == 0 then []
    else CoilEntries(maps, words, start, n - 1) + [Entry(maps[start + n - 1].tagName, FromInt(words[n - 1]))]
  }

  lemma {:induction false} LemmaCoilEntriesAt(maps: map<int, Descriptor>, words: seq<int>, start: int, n: nat, k: nat)
    requires n <= |words| && k < n
    requires forall a :: start <= a < start + n ==> a in maps
    ensures |CoilEntries(maps, words, start, n)| == n
    ensures CoilEntries(maps, words, start, n)[k] == Entry(maps[start + k].tagName, FromInt(words[k]))
  {
    if k < n - 1 {
      LemmaCoilEntriesAt(maps, words, start, n - 1, k);
    } else if n > 1 {
      LemmaCoilEntriesAt(maps, words, start, n - 1, 0);
    }
  }

  /** Under the coil and discrete-input codes every word maps straight to
      the tag at its address. */
  lemma {:induction false} LemmaDecodeCoils(maps: map<int, Descriptor>, fc: string, words: seq<int>, start: int, pos: nat, acc: Dict,
                                            f32: string -> PyFloat, f64: string -> PyFloat, parse: string -> Option<PyFloat>)
    requires Words16(words) && fc in CoilCodes && pos <= |words|
    requires forall a :: start <= a < start + |words| ==> a in maps
    ensures DecodeAt(maps, fc, words, start, pos, acc, f32, f64, parse) ==
      Success(PutAll(acc, CoilEntries(maps, words, start, |words|)[pos..]))
    decreases |words| - pos
  {
    var es := CoilEntries(maps, words, start, |words|);
    if pos < |words| {
      var e := Entry(maps[start + pos].tagName, FromInt(words[pos]));
      LemmaCoilEntriesAt(maps, words, start, |words|, pos);
      assert es[pos..] == [e] + es[pos + 1..];
      LemmaDecodeCoils(maps, fc, words, start, pos + 1, Put(acc, e.key, e.value), f32, f64, parse);
      LemmaPutAllConcat(acc, [e], es[pos + 1..]);
      assert [e][..0] == [];
    } else {
      if |words| > 0 {
        LemmaCoilEntriesAt(maps, words, start, |words|, 0);
      }
      assert es[pos..] == [];
    }
  }

  /** A single sint16 register without scaling reads as its two's
      complement value. */
  lemma {:induction false} LemmaDecodeSint16(maps: map<int, Descriptor>, fc: string, start: int, w: int, tag: string,
                          f32: string -> PyFloat, f64: string -> PyFloat, parse: string -> Option<PyFloat>)
    requires 0 <= w <= 65535 && fc !in CoilCodes
    requires start in maps && maps[start] == Descriptor(1, "sint16", tag, "", "")
    ensures Decode(maps, fc, [w], start, f32, f64, parse) ==
      Success([Entry(tag, FromInt(if w <= 32767 then w else w - 65536))])
  {
    var v := FromInt(DataHelper.Signed16(w));
    assert "sint16" in Supported;
    assert ScalingOf("", "", parse) == Success(Unscaled);
    assert RawValue("sint16", [w], 0, f32, f64) == v;
    assert DecodeAt(maps, fc, [w], start, 1, Put([], tag, v), f32, f64, parse) == Success(Put([], tag, v));
  }

  /** A single ruint16 register without scaling reads with its bytes
      exchanged. */
  lemma {:induction false} LemmaDecodeRuint16(maps: map<int, Descriptor>, fc: string, start: int, w: int, tag: string,
                           f32: string -> PyFloat, f64: string -> PyFloat, parse: string -> Option<PyFloat>)
    requires 0 <= w <= 65535 && fc !in CoilCodes
    requires start in maps && maps[start] == Descriptor(1, "ruint16", tag, "", "")
    ensures Decode(maps, fc, [w], start, f32, f64, parse) ==
      Success([Entry(tag, FromInt(256 * (w % 256) + w / 256))])
  {
    var v := FromInt(Swap16(w));
    assert "ruint16" in Supported;
    assert ScalingOf("", "", parse) == Success(Unscaled);
    assert RawValue("ruint16", [w], 0, f32, f64) == v;
    assert DecodeAt(maps, fc, [w], start, 1, Put([], tag, v), f32, f64, parse) == Success(Put([], tag, v));
  }

  lemma {:induction false} LemmaJoinedPair(a: int, b: int)
    requires 0 <= a <= 65535 && 0 <= b <= 65535
    ensures Joined([a, b]) == DataHelper.Bits(a, 16) + DataHelper.Bits(b, 16)
  {
    assert [a, b][..1] == [a];
    assert [a][..0] == [];
  }

  /** Two words at any position read as a float32 feed their binary
      strings, high word first, to the single-precision reinterpretation;
      the three reversed layouts feed the same four bytes in the orders
      2-1-4-3 (bytes swapped), 3-4-1-2 (words swapped) and 4-3-2-1 (both). */
  lemma {:induction false} LemmaFloatFeeding(words: seq<int>, i: nat, f32: string -> PyFloat, f64: string -> PyFloat)
    requires Words16(words) && i + 1 < |words|
    ensures var s := DataHelper.Bits(words[i], 16) + DataHelper.Bits(words[i + 1], 16);
      |s| == 32 && RawValue("float32", words, i, f32, f64) == f32(s)
    ensures var s := DataHelper.Bits(words[i], 16) + DataHelper.Bits(words[i + 1], 16);
      RawValue("rfloat32_byte_swap", words, i, f32, f64) ==
        f32(DataHelper.Byte(s, 1) + DataHelper.Byte(s, 0) + DataHelper.Byte(s, 3) + DataHelper.Byte(s, 2))
    ensures var s := DataHelper.Bits(words[i], 16) + DataHelper.Bits(words[i + 1], 16);
      RawValue("rfloat32_word_swap", words, i, f32, f64) ==
        f32(DataHelper.Byte(s, 2) + DataHelper.Byte(s, 3) + DataHelper.Byte(s, 0) + DataHelper.Byte(s, 1))
    ensures var s := DataHelper.Bits(words[i], 16) + DataHelper.Bits(words[i + 1], 16);
      RawValue("rfloat32_byte_word_swap", words, i, f32, f64) ==
        f32(DataHelper.Byte(s, 3) + DataHelper.Byte(s, 2) + DataHelper.Byte(s, 1) + DataHelper.Byte(s, 0))
  {
    var a, b := words[i], words[i + 1];
    assert words[i..Min(i + 2, |words|)] == [a, b];
    LemmaJoinedPair(a, b);
    var s := Joined([a, b]);
    DataHelper.LemmaFloat32SwapBytes(s);
    DataHelper.LemmaFloat32SwapWords(s);
    DataHelper.LemmaFloat32SwapBytesWords(s);
  }

  // ---------------------------------------------------------------------
  // Combining the responses of one poll
  // ---------------------------------------------------------------------

  /** All entries of the responses, in order. */
  function Flatten(lod: seq<Dict>): seq<Entry>
  {
    if lod == [] then [] else Flatten(lod[..|lod| - 1]) + lod[|lod| - 1]
  }

  /** combine_tag_responses: later responses overwrite earlier ones. */
  function Combine(lod: seq<Dict>): Dict
  {
    PutAll([], Flatten(lod))
  }

  /** A tag in the combined responses holds the value of the last response
      entry that carries it. */
  lemma {:induction false} LemmaCombineLastWins(lod: seq<Dict>, tag: string)
    ensures Get(Combine(lod), tag) == LastWrite(Flatten(lod), tag)
  {
    LemmaPutAllLastWriteWins([], Flatten(lod), tag);
  }

  // ---------------------------------------------------------------------
  // The client
  // ---------------------------------------------------------------------

  /** Where decoding goes on after word i, given the skip flags. */
  function Resume(i: nat, skipNext: bool, skipCount: int): nat
  {
    if !skipNext then i else if skipCount <= 1 then i + 1 else i + skipCount
  }

  class ModbusTcpClient {
    var callGroups: map<string, seq<CallGroups.CallGroup>>
    var tables: map<string, FcTable>
    var policies: map<string, Policy>

    /** A client with no template loaded. */
    constructor ()
      ensures callGroups == map[] && tables == map[] && policies == map[]
    {
      callGroups := map[];
      tables := map[];
      policies := map[];
    }

    /** load_template: compile the template into the client. */
    method LoadTemplate(rows: seq<Row>, parse: string -> Option<PyFloat>)
      modifies this
      ensures Compiled(tables, policies) == Compile(rows, parse)
      ensures callGroups == GroupsOf(tables)
    {
      callGroups, tables, policies := ParseTemplateBuildCalls(rows, parse);
    }

    /** interpret_response: walk the words with the skip flags. */
    method InterpretResponse(response: seq<int>, fc: string, startAddress: int,
                             f32: string -> PyFloat, f64: string -> PyFloat, parse: string -> Option<PyFloat>)
      returns (r: Result<Dict, DecodeError>)
      requires fc in tables && Words16(response)
      ensures r == Decode(tables[fc].maps, fc, response, startAddress, f32, f64, parse)
    {
      var maps := tables[fc].maps;
      var interpreted: Dict := [];
      var skipNext := false;
      var skipCount := 0;
      var i := 0;
      while i < |response|
        invariant 0 <= i <= |response|
        invariant 0 <= skipCount <= 3
        invariant !skipNext ==> skipCount == 0
        invariant fc in CoilCodes ==> !skipNext
        invariant DecodeAt(maps, fc, response, startAddress, Resume(i, skipNext, skipCount), interpreted, f32, f64, parse) ==
          Decode(maps, fc, response, startAddress, f32, f64, parse)
      {
        var address := i + startAddress;
        if fc in CoilCodes {
          if address !in maps {
            LemmaDecodeAtMissing(maps, fc, response, startAddress, i, interpreted, f32, f64, parse);
            return Failure(MissingDescriptor(address));
          }
          LemmaDecodeAtCoil(maps, fc, response, startAddress, i, interpreted, f32, f64, parse);
          interpreted := Put(interpreted, maps[address].tagName, FromInt(response[i]));
          i := i + 1;
          continue;
        }
        var decoded;
        decoded, skipNext, skipCount := DecodeWord(maps, fc, response, startAddress, i, interpreted, skipNext, skipCount, f32, f64, parse);
        if decoded.Failure? {
          return decoded;
        }
        interpreted := decoded.value;
        i := i + 1;
      }
      r := Success(interpreted);
    }

    /** combine_tag_responses. */
    method CombineTagResponses(lod: seq<Dict>) returns (combined: Dict)
      ensures combined == Combine(lod)
    {
      combined := [];
      var i := 0;
      while i < |lod|
        invariant 0 <= i <= |lod|
        invariant combined == PutAll([], Flatten(lod[..i]))
      {
        combined := AssignEntries(combined, lod[i]);
        LemmaPutAllConcat([], Flatten(lod[..i]), lod[i]);
        assert lod[..i + 1][..i] == lod[..i];
        i := i + 1;
      }
      assert lod[..i] == lod;
    }
  }

  /** One word of the decoding loop under a register code: pass it over
      while the skip flags say so, otherwise look up its descriptor and
      convert, scale and store the value. Decoding from the resume point
      before the word gives what decoding from the resume point after it
      gives, or the error the word raises. */
  method DecodeWord(maps: map<int, Descriptor>, fc: string, words: seq<int>, start: int, i: nat, acc: Dict,
                    skipNext: bool, skipCount: int,
                    f32: string -> PyFloat, f64: string -> PyFloat, parse: string -> Option<PyFloat>)
    returns (r: Result<Dict, DecodeError>, skipNext': bool, skipCount': int)
    requires Words16(words) && i < |words| && fc !in CoilCodes
    requires 0 <= skipCount <= 3 && (!skipNext ==> skipCount == 0)
    ensures 0 <= skipCount' <= 3 && (!skipNext' ==> skipCount' == 0)
    ensures r.Failure? ==> r == DecodeAt(maps, fc, words, start, Resume(i, skipNext, skipCount), acc, f32, f64, parse)
    ensures r.Success? ==>
      DecodeAt(maps, fc, words, start, Resume(i + 1, skipNext', skipCount'), r.value, f32, f64, parse) ==
      DecodeAt(maps, fc, words, start, Resume(i, skipNext, skipCount), acc, f32, f64, parse)
  {
    var address := i + start;
    if skipNext {
      r := Success(acc);
      if skipCount == 0 {
        skipNext', skipCount' := false, skipCount;
      } else if skipCount == 1 {
        skipNext', skipCount' := false, skipCount - 1;
      } else {
        skipNext', skipCount' := true, skipCount - 1;
      }
      return;
    }
    if address !in maps {
      LemmaDecodeAtMissing(maps, fc, words, start, i, acc, f32, f64, parse);
      return Failure(MissingDescriptor(address)), false, 0;
    }
    var d := maps[address];
    if d.dataType !in Supported {
      LemmaDecodeAtUnsupported(maps, fc, words, start, i, acc, f32, f64, parse);
      return Success(acc), false, 0;
    }
    LemmaDecodeAtEmit(maps, fc, words, start, i, acc, f32, f64, parse);
    r := EmitWord(d, words, i, acc, f32, f64, parse);
    skipNext', skipCount' := SkipFlags(d.dataType);
    assert Resume(i + 1, skipNext', skipCount') == i + Width(d.dataType);
  }

  /** The skip flags set after a converted word: the words a float64 or a
      float32 spans beyond its first are passed over. */
  method SkipFlags(dataType: string) returns (skipNext: bool, skipCount: int)
    ensures skipNext <==> Width(dataType) > 1
    ensures skipCount == if Width(dataType) == 4 then 3 else 0
  {
    skipNext, skipCount := false, 0;
    if dataType == "float64" {
      skipNext, skipCount := true, 3;
    } else if dataType in Float32Types {
      skipNext := true;
    }
  }

  /** The inner loop of combine_tag_responses: assign every entry of one
      response, in order. */
  method AssignEntries(d: Dict, resp: Dict) returns (r: Dict)
    ensures r == PutAll(d, resp)
  {
    r := d;
    var j := 0;
    while j < |resp|
      invariant 0 <= j <= |resp|
      invariant r == PutAll(d, resp[..j])
    {
      LemmaPutAllStep(d, resp[..j], resp[j]);
      assert resp[..j + 1] == resp[..j] + [resp[j]];
      r := Put(r, resp[j].key, resp[j].value);
      j := j + 1;
    }
    assert resp[..j] == resp;
  }

  /** The conversion branch of the decoding loop for one convertible type,
      through the string helpers the source uses. */
  method ConvertWord(dataType: string, words: seq<int>, i: nat, f32: string -> PyFloat, f64: string -> PyFloat)
    returns (rv: PyFloat)
    requires Words16(words) && i < |words| && dataType in Supported
    ensures dataType != "packedbool" ==> rv == RawValue(dataType, words, i, f32, f64)
  {
    var w := words[i];
    if dataType == "float32" {
      rv := f32(Joined(words[i..Min(i + 2, |words|)]));
    } else if dataType == "sint16" {
      var s := DataHelper.UnsignedToSigned(w);
      rv := FromInt(s);
    } else if dataType == "uint16" {
      rv := FromInt(w);
    } else if dataType == "float64" {
      rv := f64(Joined(words[i..Min(i + 4, |words|)]));
    } else if dataType == "rsint16" {
      DataHelper.LemmaSwapThroughString(w);
      var swapped := DataHelper.BinaryToUnsigned(DataHelper.Int16SwapBytes(DataHelper.UnsignedToBinary(w).value)).value;
      var s := DataHelper.UnsignedToSigned(swapped);
      rv := FromInt(s);
    } else if dataType == "ruint16" {
      DataHelper.LemmaSwapThroughString(w);
      rv := FromInt(DataHelper.BinaryToUnsigned(DataHelper.Int16SwapBytes(DataHelper.UnsignedToBinary(w).value)).value);
    } else if dataType == "packedbool" {
      rv := NaN;
    } else if dataType == "rfloat32_byte_swap" {
      rv := f32(DataHelper.Float32SwapBytes(Joined(words[i..Min(i + 2, |words|)])));
    } else if dataType == "rfloat32_word_swap" {
      rv := f32(DataHelper.Float32SwapWords(Joined(words[i..Min(i + 2, |words|)])));
    } else {
      rv := f32(DataHelper.Float32SwapBytesWords(Joined(words[i..Min(i + 2, |words|)])));
    }
  }

  /** The conversion, scaling and emission of one word whose descriptor
      has a convertible type. */
  method EmitWord(d: Descriptor, words: seq<int>, i: nat, acc: Dict,
                  f32: string -> PyFloat, f64: string -> PyFloat, parse: string -> Option<PyFloat>)
    returns (r: Result<Dict, DecodeError>)
    requires Words16(words) && i < |words| && d.dataType in Supported
    ensures r == Emit(d, words, i, acc, f32, f64, parse)
  {
    var rv := ConvertWord(d.dataType, words, i, f32, f64);
    var scaling := ScalingOf(d.scalingCoeff, d.scalingOffset, parse);
    if scaling.Failure? {
      return Failure(scaling.error);
    }
    if d.dataType == "packedbool" {
      var packed := EmitPackedBool(acc, d.tagName, words[i]);
      return Success(packed);
    }
    var scaled := ApplyScaling(scaling.value, rv, parse);
    if scaled.Failure? {
      return Failure(scaled.error);
    }
    return Success(Put(acc, d.tagName, scaled.value));
  }

  /** The packed boolean branch: the raw word, then one entry per character
      of its binary string. */
  method EmitPackedBool(d: Dict, tag: string, w: int) returns (r: Dict)
    requires 0 <= w <= 65535
    ensures r == PutAll(d, PackedEntries(tag, w))
  {
    DataHelper.LemmaUnsignedRoundTrip(w);
    var bits := DataHelper.UnsignedToBinary(w).value;
    var head := Entry(ValueKey(tag), FromInt(w));
    r := Put(d, head.key, head.value);
    LemmaPutAllStep(d, [], head);
    var pos := 0;
    while pos < 16
      invariant 0 <= pos <= 16
      invariant r == PutAll(d, [head] + BitEntries(tag, bits, pos))
    {
      var e := Entry(BitKey(tag, 15 - pos), FromInt(DataHelper.BitValue(bits[pos])));
      LemmaPutAllStep(d, [head] + BitEntries(tag, bits, pos), e);
      assert [head] + BitEntries(tag, bits, pos + 1) == [head] + BitEntries(tag, bits, pos) + [e];
      r := Put(r, e.key, e.value);
      pos := pos + 1;
    }
  }
}
