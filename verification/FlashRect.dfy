/** The frame size in a SWF header (libweasyl/flash.py, `parse_flash_header`).

    The record is five bits that give a field width, then four fields of that width and padding
    to a whole byte.  The reference here reads fields out of a sequence of bits; the
    program shifts whole bytes into an integer and fields back out of it. */
module FlashRect {

  newtype byte = x: int | 0 <= x < 256

  datatype Rect = Rect(xmin: nat, xmax: nat, ymin: nat, ymax: nat)

  // ---------- Bits ----------

  function Pow2(n: nat): (r: nat)
    ensures r > 0
  {
    if n == 0 then 1 else 2 * Pow2(n - 1)
  }

  /** The number that bits spell, most significant first. */
  function Value(bits: seq<bool>): nat {
    if bits == [] then 0 else 2 * Value(bits[..|bits| - 1]) + (if bits[|bits| - 1] then 1 else 0)
  }

  /** `n` in `width` bits. */
  function ToBits(n: nat, width: nat): (bits: seq<bool>)
    ensures |bits| == width
  {
    if width == 0 then [] else ToBits(n / 2, width - 1) + [n % 2 == 1]
  }

  function BitsOf(bytes: seq<byte>): (bits: seq<bool>)
    ensures |bits| == 8 * |bytes|
  {
    if bytes == [] then [] else BitsOf(bytes[..|bytes| - 1]) + ToBits(bytes[|bytes| - 1] as nat, 8)
  }

  lemma Doubled(v: nat, p: nat)
    ensures v * (2 * p) == 2 * (v * p)
  {}

  lemma {:induction false} ValueConcat(a: seq<bool>, b: seq<bool>)
    ensures Value(a + b) == Value(a) * Pow2(|b|) + Value(b)
  {
    if b == [] {
      assert a + b == a;
    } else {
      var init := b[..|b| - 1];
      assert (a + b)[..|a + b| - 1] == a + init;
      ValueConcat(a, init);
      Doubled(Value(a), Pow2(|init|));
    }
  }

  lemma {:induction false} ValueBound(bits: seq<bool>)
    ensures Value(bits) < Pow2(|bits|)
  {
    if bits != [] {
      ValueBound(bits[..|bits| - 1]);
    }
  }

  lemma {:induction false} ValueOfBits(n: nat, width: nat)
    requires n < Pow2(width)
    ensures Value(ToBits(n, width)) == n
  {
    if width > 0 {
      ValueOfBits(n / 2, width - 1);
      assert ToBits(n, width)[..width - 1] == ToBits(n / 2, width - 1);
    }
  }

  lemma DivMod(q: nat, r: nat, d: nat)
    requires r < d
    ensures (q * d + r) / d == q && (q * d + r) % d == r
  {
    var n := q * d + r;
    assert n == d * (n / d) + n % d;
    assert d * (n / d - q) == r - n % d;
    SmallMultiple(d, n / d - q);
  }

  lemma SmallMultiple(d: int, x: int)
    requires -d < d * x < d
    ensures x == 0
  {}

  /** Shifting right drops the low bits; masking keeps them. */
  lemma ShiftAndMask(a: seq<bool>, b: seq<bool>)
    ensures Value(a + b) / Pow2(|b|) == Value(a) && Value(a + b) % Pow2(|b|) == Value(b)
  {
    ValueConcat(a, b);
    ValueBound(b);
    DivMod(Value(a), Value(b), Pow2(|b|));
  }

  // ---------- The record ----------

  function FieldWidth(bits: seq<bool>): nat
    requires |bits| >= 5
  {
    Value(bits[..5])
  }

  /** Bits of the record without padding, and the bytes that hold them. */
  function RecordBits(width: nat): nat {
    5 + width * 4
  }

  function RecordBytes(width: nat): nat {
    (RecordBits(width) + 7) / 8
  }

  function Field(bits: seq<bool>, width: nat, k: nat): nat
    requires 5 + (k + 1) * width <= |bits|
  {
    Value(bits[5 + k * width..5 + (k + 1) * width])
  }

  /** The fields in the order of `SIZES`. */
  function Reference(bits: seq<bool>, width: nat): Rect
    requires RecordBits(width) <= |bits|
  {
    Rect(Field(bits, width, 0), Field(bits, width, 1), Field(bits, width, 2), Field(bits, width, 3))
  }

  // ---------- The parser ----------

  /** `Exhausted` stands for the exception at the end of the file. */
  datatype Result = Exhausted | Invalid | Dimensions(width: real, height: real)

  function Checked(rect: Rect): Result {
    if rect.xmin != 0 || rect.ymin != 0 then Invalid
    else Dimensions(rect.xmax as real / 20.0, rect.ymax as real / 20.0)
  }

  lemma {:induction false} BitsOfSplit(bytes: seq<byte>, k: nat)
    requires k <= |bytes|
    ensures BitsOf(bytes)[..8 * k] == BitsOf(bytes[..k])
    ensures k < |bytes| ==> BitsOf(bytes)[8 * k..8 * k + 8] == ToBits(bytes[k] as nat, 8)
    decreases |bytes|
  {
    if bytes != [] {
      var init := bytes[..|bytes| - 1];
      if k < |bytes| {
        BitsOfSplit(init, k);
        assert init[..k] == bytes[..k];
      } else {
        assert bytes[..k] == bytes;
      }
    }
  }

  lemma ByteValue(bytes: seq<byte>, k: nat)
    requires k < |bytes|
    ensures Value(BitsOf(bytes)[8 * k..8 * k + 8]) == bytes[k] as nat
  {
    hide BitsOf, ToBits, Value, Pow2;
    BitsOfSplit(bytes, k);
    Pow2Of8();
    ValueOfBits(bytes[k] as nat, 8);
  }

  lemma FirstByte(bytes: seq<byte>)
    requires bytes != []
    ensures FieldWidth(BitsOf(bytes)) == bytes[0] as nat / 8
    ensures Value(BitsOf(bytes)[5..8]) == bytes[0] as nat % 8
  {
    var bits := BitsOf(bytes);
    ByteValue(bytes, 0);
    assert bits[0..8] == bits[..5] + bits[5..8];
    ShiftAndMask(bits[..5], bits[5..8]);
    assert Pow2(3) == 8;
  }

  lemma Pow2Of8()
    ensures Pow2(8) == 256
  {}

  lemma AppendByte(a: seq<bool>, b: seq<bool>)
    requires |b| == 8
    ensures Value(a + b) == Value(a) * 256 + Value(b)
  {
    hide Value, Pow2;
    ValueConcat(a, b);
    Pow2Of8();
  }

  lemma NextByte(bytes: seq<byte>, k: nat)
    requires 1 <= k < |bytes|
    ensures var bits := BitsOf(bytes); Value(bits[5..8 * k + 8]) == Value(bits[5..8 * k]) * 256 + bytes[k] as nat
  {
    hide Value, BitsOf;
    var bits := BitsOf(bytes);
    ByteValue(bytes, k);
    assert bits[5..8 * k + 8] == bits[5..8 * k] + bits[8 * k..8 * k + 8];
    AppendByte(bits[5..8 * k], bits[8 * k..8 * k + 8]);
  }

  lemma LastField(bits: seq<bool>, width: nat, k: nat)
    requires 5 + (k + 1) * width <= |bits| && 5 + k * width <= 5 + (k + 1) * width
    ensures Value(bits[5..5 + (k + 1) * width]) % Pow2(width) == Field(bits, width, k)
    ensures Value(bits[5..5 + (k + 1) * width]) / Pow2(width) == Value(bits[5..5 + k * width])
  {
    var a, b := bits[5..5 + k * width], bits[5 + k * width..5 + (k + 1) * width];
    assert bits[5..5 + (k + 1) * width] == a + b;
    assert |b| == width;
    ShiftAndMask(a, b);
  }

  function Zeros(n: nat): seq<bool> {
    seq(n, _ => false)
  }

  /** A stream that stops too early reads as if the missing bits were zeros right after the width. */
  function Filled(bits: seq<bool>, total: nat): (r: seq<bool>)
    requires |bits| >= 5
    ensures |r| >= total && |r| >= |bits| && r[..5] == bits[..5]
  {
    if |bits| >= total then bits else bits[..5] + Zeros(total - |bits|) + bits[5..]
  }

  lemma {:induction false} ZerosAreZero(n: nat)
    ensures Value(Zeros(n)) == 0
  {
    if n > 0 {
      ZerosAreZero(n - 1);
      assert Zeros(n)[..n - 1] == Zeros(n - 1);
    }
  }

  lemma FilledValue(bits: seq<bool>, total: nat)
    requires 5 <= |bits| && 5 <= total
    ensures Value(Filled(bits, total)[5..total]) == Value(bits[5..if total <= |bits| then total else |bits|])
  {
    hide Value, Zeros;
    if total > |bits| {
      var zeros := Zeros(total - |bits|);
      assert |zeros| == total - |bits| by { ZerosLength(total - |bits|); }
      assert Filled(bits, total)[5..total] == zeros + bits[5..];
      ValueConcat(zeros, bits[5..]);
      ZerosAreZero(total - |bits|);
      assert bits[5..|bits|] == bits[5..];
    }
  }

  lemma ZerosLength(n: nat)
    ensures |Zeros(n)| == n
  {}

  /** `value_buffer` once `count` more bytes, or what there is of them, were shifted in. */
  method ReadBuffer(stream: seq<byte>, count: nat) returns (buffer: nat, complete: bool)
    requires stream != []
    ensures complete <==> 1 + count <= |stream|
    ensures buffer == Value(BitsOf(stream)[5..8 * if complete then 1 + count else |stream|])
  {
    ghost var bits := BitsOf(stream);
    FirstByte(stream);
    buffer := stream[0] as nat % 8;
    var i := 0;
    while i < count && 1 + i < |stream|
      invariant i <= count && 1 + i <= |stream|
      invariant buffer == Value(bits[5..8 * (1 + i)])
    {
      NextByte(stream, 1 + i);
      buffer := buffer * 256 + stream[1 + i] as nat;
      i := i + 1;
    }
    complete := i == count;
  }

  /** The last loop: fields come out of the buffer from the last to the first. */
  method TakeFields(buffer: nat, width: nat, ghost bits: seq<bool>) returns (rect: Rect)
    requires RecordBits(width) <= |bits| && buffer == Value(bits[5..RecordBits(width)])
    ensures rect == Reference(bits, width)
  {
    hide Value, Field, Pow2;
    var rest := buffer;
    var fields: seq<nat> := [];
    for k := 4 downto 0
      invariant |fields| == 4 - k
      invariant rest == Value(bits[5..5 + k * width])
      invariant forall j :: k <= j < 4 ==> fields[j - k] == Field(bits, width, j)
    {
      LastField(bits, width, k);
      fields := [rest % Pow2(width)] + fields;
      rest := rest / Pow2(width);
    }
    rect := Rect(fields[0], fields[1], fields[2], fields[3]);
  }

  lemma DropPadding(bits: seq<bool>, n: nat, stray: nat)
    requires 5 <= n && n + stray <= |bits|
    ensures Value(bits[5..n + stray]) / Pow2(stray) == Value(bits[5..n])
  {
    assert bits[5..n + stray] == bits[5..n] + bits[n..n + stray];
    ShiftAndMask(bits[5..n], bits[n..n + stray]);
  }

  lemma WholeBytes(n: nat)
    ensures 8 * ((n + 7) / 8) == if n % 8 == 0 then n else n + (8 - n % 8)
  {}

  /** The bit-field part of `parse_flash_header`, on the bytes after the fixed header.  An uncompressed stream, or one
      compressed with LZMA, raises at its end; one compressed with zlib just stops. */
  method ParseRect(stream: seq<byte>, endRaises: bool) returns (r: Result)
    ensures r.Exhausted? <==> stream == [] || (endRaises && |stream| < RecordBytes(FieldWidth(BitsOf(stream))))
    ensures stream != [] && |stream| >= RecordBytes(FieldWidth(BitsOf(stream))) ==>
              r == Checked(Reference(BitsOf(stream), FieldWidth(BitsOf(stream))))
    ensures !r.Exhausted? ==>
              var bits, width := BitsOf(stream), FieldWidth(BitsOf(stream));
              r == Checked(Reference(Filled(bits, 8 * RecordBytes(width)), width))
  {
    if stream == [] {
      return Exhausted;
    }
    hide Value, BitsOf, Field, Pow2, Reference, Filled, Checked;
    ghost var bits := BitsOf(stream);
    FirstByte(stream);
    var bitsPerValue := stream[0] as nat / 8;
    var nbits := 5 + bitsPerValue * 4;
    var bytesToRead := (nbits + 7) / 8 - 1;
    var buffer, complete := ReadBuffer(stream, bytesToRead);
    if !complete && endRaises {
      return Exhausted;
    }
    ghost var total := 8 * RecordBytes(bitsPerValue);
    FilledValue(bits, total);
    NothingFilledIf(bits, total);
    var rect := ShiftAndTake(buffer, bitsPerValue, Filled(bits, total));
    r := Checked(rect);
  }

  /** From the buffer to the fields: the stray bits of the last byte are shifted out first. */
  method ShiftAndTake(buffer: nat, width: nat, ghost bits: seq<bool>) returns (rect: Rect)
    requires 8 * RecordBytes(width) <= |bits| && buffer == Value(bits[5..8 * RecordBytes(width)])
    ensures RecordBits(width) <= |bits| && rect == Reference(bits, width)
  {
    hide Value, Field, Pow2, Reference;
    var nbits := 5 + width * 4;
    WholeBytes(nbits);
    var strayBits := 8 - nbits % 8;
    var shifted := buffer;
    if strayBits != 8 {
      DropPadding(bits, nbits, strayBits);
      shifted := buffer / Pow2(strayBits);
    }
    rect := TakeFields(shifted, width, bits);
  }

  lemma NothingFilledIf(bits: seq<bool>, total: nat)
    requires 5 <= |bits|
    ensures total <= |bits| ==> Filled(bits, total) == bits
  {}

  // ---------- Round trip ----------

  function Pack(bits: seq<bool>): (bytes: seq<byte>)
    requires |bits| % 8 == 0
    ensures 8 * |bytes| == |bits|
  {
    if bits == [] then [] else
      ByteBound(bits[|bits| - 8..]);
      Pack(bits[..|bits| - 8]) + [Value(bits[|bits| - 8..]) as byte]
  }

  lemma ByteBound(bits: seq<bool>)
    requires |bits| == 8
    ensures Value(bits) < 256
  {
    ValueBound(bits);
    Pow2Of8();
  }

  lemma {:induction false} BitsOfValue(bits: seq<bool>)
    ensures ToBits(Value(bits), |bits|) == bits
  {
    if bits != [] {
      BitsOfValue(bits[..|bits| - 1]);
    }
  }

  lemma {:induction false} UnpackPack(bits: seq<bool>)
    requires |bits| % 8 == 0
    ensures BitsOf(Pack(bits)) == bits
  {
    if bits != [] {
      var init, last := bits[..|bits| - 8], bits[|bits| - 8..];
      UnpackPack(init);
      BitsOfValue(last);
      PackLast(bits);
      hide Value, ToBits, Pack;
      var bytes := Pack(bits);
      assert bytes[..|bytes| - 1] == Pack(init);
      assert bits == init + last;
    }
  }

  lemma PackLast(bits: seq<bool>)
    requires bits != [] && |bits| % 8 == 0
    ensures Value(bits[|bits| - 8..]) < 256
    ensures Pack(bits) == Pack(bits[..|bits| - 8]) + [Value(bits[|bits| - 8..]) as byte]
  {
    ByteBound(bits[|bits| - 8..]);
    hide Value;
  }

  lemma {:induction false} BitsOfConcat(a: seq<byte>, b: seq<byte>)
    ensures BitsOf(a + b) == BitsOf(a) + BitsOf(b)
  {
    hide ToBits;
    if b == [] {
      assert a + b == a;
    } else {
      assert (a + b)[..|a + b| - 1] == a + b[..|b| - 1];
      BitsOfConcat(a, b[..|b| - 1]);
    }
  }

  /** A record with any padding, as it is written. */
  function Encode(rect: Rect, width: nat, padding: seq<bool>): seq<bool> {
    ToBits(width, 5) + ToBits(rect.xmin, width) + ToBits(rect.xmax, width) + ToBits(rect.ymin, width)
    + ToBits(rect.ymax, width) + padding
  }

  lemma FieldIs(before: seq<bool>, field: seq<bool>, bits: seq<bool>, width: nat, k: nat)
    requires before + field <= bits && |before| == 5 + k * width && |field| == width
    ensures before <= bits && 5 + (k + 1) * width <= |bits| && Field(bits, width, k) == Value(field)
  {
    assert (k + 1) * width == k * width + width;
    assert bits[|before|..|before| + |field|] == (before + field)[|before|..];
  }

  lemma FieldsInPlace(h: seq<bool>, a: seq<bool>, b: seq<bool>, c: seq<bool>, d: seq<bool>, bits: seq<bool>, width: nat)
    requires |h| == 5 && |a| == |b| == |c| == |d| == width && h + a + b + c + d <= bits
    ensures FieldWidth(bits) == Value(h)
    ensures Reference(bits, width) == Rect(Value(a), Value(b), Value(c), Value(d))
  {
    hide Value, Field;
    FieldIs(h + a + b + c, d, bits, width, 3);
    FieldIs(h + a + b, c, bits, width, 2);
    FieldIs(h + a, b, bits, width, 1);
    FieldIs(h, a, bits, width, 0);
    assert bits[..5] == h;
  }

  /** Reading back any four values in any field width, whatever the padding and whatever follows. */
  lemma RoundTrip(rect: Rect, width: nat, padding: seq<bool>, rest: seq<byte>)
    requires width < 32
    requires rect.xmin < Pow2(width) && rect.xmax < Pow2(width) && rect.ymin < Pow2(width) && rect.ymax < Pow2(width)
    requires |padding| < 8 && (RecordBits(width) + |padding|) % 8 == 0
    ensures var bytes := Pack(Encode(rect, width, padding)) + rest;
            && |bytes| >= RecordBytes(width) && FieldWidth(BitsOf(bytes)) == width
            && Reference(BitsOf(bytes), width) == rect
  {
    hide Value, Reference, FieldWidth, Pack, ToBits, Pow2, BitsOf;
    var record := Encode(rect, width, padding);
    BitsOfConcat(Pack(record), rest);
    UnpackPack(record);
    ValuesOfBits(rect, width);
    FieldsInPlace(
      ToBits(width, 5), ToBits(rect.xmin, width), ToBits(rect.xmax, width), ToBits(rect.ymin, width),
      ToBits(rect.ymax, width), BitsOf(Pack(record) + rest), width);
  }

  lemma ValuesOfBits(rect: Rect, width: nat)
    requires width < 32
    requires rect.xmin < Pow2(width) && rect.xmax < Pow2(width) && rect.ymin < Pow2(width) && rect.ymax < Pow2(width)
    ensures Value(ToBits(width, 5)) == width
    ensures Value(ToBits(rect.xmin, width)) == rect.xmin && Value(ToBits(rect.xmax, width)) == rect.xmax
    ensures Value(ToBits(rect.ymin, width)) == rect.ymin && Value(ToBits(rect.ymax, width)) == rect.ymax
  {
    assert Pow2(5) == 32;
    ValueOfBits(width, 5);
    ValueOfBits(rect.xmin, width);
    ValueOfBits(rect.xmax, width);
    ValueOfBits(rect.ymin, width);
    ValueOfBits(rect.ymax, width);
  }

  /** Of what was written the size is read in pixels, which have twenty units each; a rectangle that does not begin at
      the origin is refused. */
  lemma SizeArrives(rect: Rect, width: nat, padding: seq<bool>, rest: seq<byte>)
    requires width < 32
    requires rect.xmin < Pow2(width) && rect.xmax < Pow2(width) && rect.ymin < Pow2(width) && rect.ymax < Pow2(width)
    requires |padding| < 8 && (RecordBits(width) + |padding|) % 8 == 0
    ensures var bits := BitsOf(Pack(Encode(rect, width, padding)) + rest);
            && |bits| >= 5 && |bits| >= RecordBits(FieldWidth(bits))
            && match Checked(Reference(bits, FieldWidth(bits)))
               case Exhausted => false
               case Invalid => rect.xmin != 0 || rect.ymin != 0
               case Dimensions(w, h) =>
                 rect.xmin == rect.ymin == 0 && w * 20.0 == rect.xmax as real && h * 20.0 == rect.ymax as real
  {
    RoundTrip(rect, width, padding, rest);
    hide Reference, FieldWidth, Pack, BitsOf, Encode;
  }
}
