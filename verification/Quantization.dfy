/** The quantizers over real-valued matrices: symmetric int8 per row, and 4-bit
    NormalFloat with two codes to a byte.  Float rounding inside the array library is
    not modelled. */
module Quantization {

  type Row = seq<real>

  function Abs(x: real): (a: real)
    ensures 0.0 <= a && -a <= x <= a
  {
    if x < 0.0 then -x else x
  }

  /** The largest magnitude of a row. */
  function AbsMax(row: Row): (m: real)
    ensures 0.0 <= m
  {
    if row == [] then 0.0
    else
      var rest, last := AbsMax(row[..|row| - 1]), Abs(row[|row| - 1]);
      if rest < last then last else rest
  }

  lemma {:induction false} AbsMaxBounds(row: Row, i: nat)
    requires i < |row|
    ensures Abs(row[i]) <= AbsMax(row)
  {
    if i < |row| - 1 {
      AbsMaxBounds(row[..|row| - 1], i);
    }
  }

  /** A row's scale base: its largest magnitude, or one for a row of zeros. */
  function Peak(row: Row): (p: real)
    ensures 0.0 < p && AbsMax(row) <= p
  {
    if AbsMax(row) == 0.0 then 1.0 else AbsMax(row)
  }

  function Clip(x: real, lo: real, hi: real): real { if x < lo then lo else if hi < x then hi else x }

  /** To the nearest integer, ties to the even one. */
  function Round(x: real): (n: int)
    ensures -0.5 <= x - n as real <= 0.5
    ensures x - n as real == 0.5 || x - n as real == -0.5 ==> n % 2 == 0
  {
    var f := x.Floor;
    var d := x - f as real;
    if d < 0.5 || (d == 0.5 && f % 2 == 0) then f else f + 1
  }

  // --- int8 per row -----------------------------------------------------------------

  function Int8Scale(row: Row): (s: real)
    ensures 0.0 < s && Peak(row) == 127.0 * s
  {
    Peak(row) / 127.0
  }

  function Int8Encode(x: real, scale: real): int
    requires scale != 0.0
  {
    Round(Clip(x / scale, -127.0, 127.0))
  }

  function Int8EncodeRow(row: Row): (codes: seq<int>)
    ensures |codes| == |row|
  {
    seq(|row|, c requires 0 <= c < |row| => Int8Encode(row[c], Int8Scale(row)))
  }

  function Int8DecodeRow(codes: seq<int>, scale: real): (row: Row)
    ensures |row| == |codes|
  {
    seq(|codes|, c requires 0 <= c < |codes| => Decode(codes[c] as real, scale))
  }

  /** The wire content of an int8 tensor: a scale per row, and the codes. */
  datatype Int8Tensor = Int8Tensor(scales: seq<real>, values: seq<seq<int>>)

  function Int8Quantize(m: seq<Row>): (t: Int8Tensor)
    ensures |t.scales| == |m| && |t.values| == |m|
  {
    Int8Tensor(
      seq(|m|, r requires 0 <= r < |m| => Int8Scale(m[r])),
      seq(|m|, r requires 0 <= r < |m| => Int8EncodeRow(m[r])))
  }

  function Int8Dequantize(t: Int8Tensor): (m: seq<Row>)
    requires |t.scales| == |t.values|
    ensures |m| == |t.values|
  {
    seq(|t.values|, r requires 0 <= r < |t.values| => Int8DecodeRow(t.values[r], t.scales[r]))
  }

  lemma Divide(x: real, s: real)
    requires 0.0 < s
    ensures (x / s) * s == x
  {
  }

  lemma Multiply(a: real, b: real, s: real)
    requires 0.0 < s && a < b
    ensures a * s < b * s
  {
  }

  lemma MultiplyUp(a: real, b: real, s: real)
    requires 0.0 < s && a <= b
    ensures a * s <= b * s
  {
    if a < b {
      Multiply(a, b, s);
    }
  }

  lemma DivideAbove(x: real, s: real, k: real)
    requires 0.0 < s && k < x / s
    ensures k * s < x
  {
    Multiply(k, x / s, s);
    Divide(x, s);
  }

  lemma DivideBelow(x: real, s: real, k: real)
    requires 0.0 < s && x / s < k
    ensures x < k * s
  {
    Multiply(x / s, k, s);
    Divide(x, s);
  }

  lemma DivideBounded(x: real, s: real, k: real)
    requires 0.0 < s && -k * s <= x <= k * s
    ensures -k <= x / s <= k
  {
    if k < x / s {
      DivideAbove(x, s, k);
    }
    if x / s < -k {
      DivideBelow(x, s, -k);
    }
  }

  /** A code point scaled back. */
  function Decode(point: real, scale: real): real { point * scale }

  /** How far `x` is from a code point scaled back. */
  function Error(x: real, point: real, scale: real): real { Abs(x - Decode(point, scale)) }

  lemma Distribute(y: real, point: real, s: real)
    ensures Decode(y, s) - Decode(point, s) == Decode(y - point, s)
  {
  }

  lemma AbsScales(d: real, s: real)
    requires 0.0 < s
    ensures Abs(Decode(d, s)) == Decode(Abs(d), s)
  {
    if d < 0.0 {
      Multiply(d, 0.0, s);
    } else if 0.0 < d {
      Multiply(0.0, d, s);
    }
  }

  lemma ErrorScales(x: real, y: real, s: real, point: real)
    requires 0.0 < s && x == Decode(y, s)
    ensures Error(x, point, s) == Decode(Abs(y - point), s)
  {
    Distribute(y, point, s);
    AbsScales(y - point, s);
  }

  lemma DecodeGrows(a: real, b: real, s: real)
    requires 0.0 < s && a <= b
    ensures Decode(a, s) <= Decode(b, s)
  {
    MultiplyUp(a, b, s);
  }

  /** Half a step at most, for the quotient rounded to an integer. */
  lemma RoundedError(x: real, y: real, s: real, n: int)
    requires 0.0 < s && x == Decode(y, s) && -0.5 <= y - n as real <= 0.5
    ensures Error(x, n as real, s) <= Decode(0.5, s)
  {
    ErrorScales(x, y, s, n as real);
    DecodeGrows(Abs(y - n as real), 0.5, s);
  }

  /** One element: its code fits a signed byte and decodes to within half a step. */
  lemma Int8Element(x: real, s: real)
    requires 0.0 < s && -127.0 * s <= x <= 127.0 * s
    ensures -127 <= Int8Encode(x, s) <= 127 && Error(x, Int8Encode(x, s) as real, s) <= Decode(0.5, s)
  {
    DivideBounded(x, s, 127.0);
    Divide(x, s);
    RoundedError(x, x / s, s, Int8Encode(x, s));
  }

  lemma Int8Zero(s: real)
    requires 0.0 < s
    ensures Decode(Int8Encode(0.0, s) as real, s) == 0.0
  {
    assert 0.0 / s == 0.0;
    assert Int8Encode(0.0, s) == 0;
  }

  /** An element of a row whose largest magnitude is `m`, under the scale of that row. */
  lemma Int8Within(x: real, m: real, s: real)
    requires 0.0 < s && Abs(x) <= m && (m == 0.0 || m == 127.0 * s)
    ensures -127 <= Int8Encode(x, s) <= 127
    ensures Error(x, Int8Encode(x, s) as real, s) <= m / 254.0
  {
    Int8Element(x, s);
    if m == 0.0 {
      Int8Zero(s);
    }
  }

  lemma Int8Row(row: Row, c: nat)
    requires c < |row|
    ensures -127 <= Int8EncodeRow(row)[c] <= 127
    ensures Error(row[c], Int8EncodeRow(row)[c] as real, Int8Scale(row)) <= AbsMax(row) / 254.0
  {
    AbsMaxBounds(row, c);
    Int8Within(row[c], AbsMax(row), Int8Scale(row));
  }

  /** Decoding an int8 tensor of any shape gives back every element to within a 254th of
      its row's largest magnitude, from codes that fit a signed byte. */
  lemma Int8RoundTrip(m: seq<Row>, r: nat, c: nat)
    requires r < |m| && c < |m[r]|
    ensures var t := Int8Quantize(m); var d := Int8Dequantize(t);
      && |d| == |m| && |d[r]| == |m[r]| == |t.values[r]|
      && -127 <= t.values[r][c] <= 127
      && Abs(m[r][c] - d[r][c]) <= AbsMax(m[r]) / 254.0
  {
    Int8Row(m[r], c);
  }

  // --- Nearest code points ------------------------------------------------------------

  /** No entry of the table is nearer to `x` than entry `r`. */
  predicate Nearest(table: seq<real>, x: real, r: nat) {
    r < |table| && forall i :: 0 <= i < |table| ==> Abs(x - table[r]) <= Abs(x - table[i])
  }

  lemma CloserBefore(x: real, y: real, s: real, a: real, b: real)
    requires 0.0 < s && x == Decode(y, s) && Abs(y - a) <= Abs(y - b)
    ensures Error(x, a, s) <= Error(x, b, s)
  {
    ErrorScales(x, y, s, a);
    ErrorScales(x, y, s, b);
    DecodeGrows(Abs(y - a), Abs(y - b), s);
  }

  lemma CloserScalesBack(x: real, s: real, a: real, b: real)
    requires 0.0 < s && Abs(x / s - a) <= Abs(x / s - b)
    ensures Error(x, a, s) <= Error(x, b, s)
  {
    Divide(x, s);
    CloserBefore(x, x / s, s, a, b);
  }

  // --- NF4 --------------------------------------------------------------------------

  const NF4_TABLE: seq<real> := [
    -1.0, -0.6961928009986877, -0.5250730514526367, -0.39491748809814453,
    -0.28444138169288635, -0.18477343022823334, -0.09105003625154495, 0.0,
    0.07958029955625534, 0.16093020141124725, 0.2461123002767563, 0.3379152417187691,
    0.4407098295211792, 0.5626170039176941, 0.7229568362236023, 1.0]

  /** The first entry at the least distance. */
  function ArgMin(table: seq<real>, x: real): (r: nat)
    requires table != []
    ensures r < |table|
  {
    if |table| == 1 then 0
    else
      var best := ArgMin(table[..|table| - 1], x);
      if Abs(x - table[|table| - 1]) < Abs(x - table[best]) then |table| - 1 else best
  }

  lemma {:induction false} ArgMinIsNearest(table: seq<real>, x: real)
    requires table != []
    ensures Nearest(table, x, ArgMin(table, x))
    ensures forall i :: 0 <= i < ArgMin(table, x) ==> Abs(x - table[ArgMin(table, x)]) < Abs(x - table[i])
  {
    if |table| > 1 {
      ArgMinIsNearest(table[..|table| - 1], x);
    }
  }

  function Nf4Encode(row: Row, x: real): (code: nat)
    ensures code < 16
  {
    ArgMin(NF4_TABLE, Clip(x / Peak(row), -1.0, 1.0))
  }

  /** An element decodes to a nearest one of the sixteen table entries scaled back by its
      row's largest magnitude. */
  lemma Nf4CodeIsNearest(row: Row, i: nat, k: nat)
    requires i < |row| && k < 16
    ensures Error(row[i], NF4_TABLE[Nf4Encode(row, row[i])], Peak(row)) <= Error(row[i], NF4_TABLE[k], Peak(row))
  {
    AbsMaxBounds(row, i);
    DivideBounded(row[i], Peak(row), 1.0);
    NearestOf(NF4_TABLE, row[i], Peak(row), k);
  }

  lemma NearestOf(table: seq<real>, x: real, s: real, k: nat)
    requires 0.0 < s && k < |table|
    ensures Error(x, table[ArgMin(table, x / s)], s) <= Error(x, table[k], s)
  {
    ArgMinIsNearest(table, x / s);
    CloserScalesBack(x, s, table[ArgMin(table, x / s)], table[k]);
  }

  /** Every value between the ends has a table entry within this distance. */
  const NF4_SLACK := 0.152

  lemma Nf4Covers(y: real) returns (k: nat)
    requires -1.0 <= y <= 1.0
    ensures k < 16 && Abs(y - NF4_TABLE[k]) <= NF4_SLACK
  {
    k := 0;
    while k < 15 && NF4_TABLE[k + 1] <= y
      invariant k < 16 && NF4_TABLE[k] <= y
    {
      k := k + 1;
    }
    if k < 15 && NF4_TABLE[k] + NF4_SLACK < y {
      k := k + 1;
    }
  }

  lemma Nf4ErrorAt(x: real, p: real, k: nat)
    requires 0.0 < p && -p <= x <= p && k < 16 && Abs(x / p - NF4_TABLE[k]) <= NF4_SLACK
    ensures Error(x, NF4_TABLE[k], p) <= Decode(NF4_SLACK, p)
  {
    Divide(x, p);
    ErrorScales(x, x / p, p, NF4_TABLE[k]);
    DecodeGrows(Abs(x / p - NF4_TABLE[k]), NF4_SLACK, p);
  }

  /** Every element decodes to within that fraction of its row's peak. */
  lemma Nf4ErrorIsBounded(row: Row, i: nat)
    requires i < |row|
    ensures Error(row[i], NF4_TABLE[Nf4Encode(row, row[i])], Peak(row)) <= Decode(NF4_SLACK, Peak(row))
  {
    AbsMaxBounds(row, i);
    DivideBounded(row[i], Peak(row), 1.0);
    var k := Nf4Covers(row[i] / Peak(row));
    Nf4ErrorAt(row[i], Peak(row), k);
    Nf4CodeIsNearest(row, i, k);
  }

  /** Zero and the peak, of either sign, decode exactly. */
  lemma Nf4IsExactAt(row: Row, i: nat)
    requires i < |row| && (row[i] == 0.0 || row[i] == Peak(row) || row[i] == -Peak(row))
    ensures Decode(NF4_TABLE[Nf4Encode(row, row[i])], Peak(row)) == row[i]
  {
    var k := if row[i] == 0.0 then 7 else if row[i] == Peak(row) then 15 else 0;
    Nf4CodeIsNearest(row, i, k);
    assert Decode(NF4_TABLE[k], Peak(row)) == row[i];
  }

  /** A code, and a byte of two codes. */
  type Nibble = n: int | 0 <= n < 16
  type Byte = b: int | 0 <= b < 256

  function Join(high: Nibble, low: Nibble): Byte { 16 * high + low }

  function High(b: Byte): Nibble { b / 16 }

  function Low(b: Byte): Nibble { b % 16 }

  /** Shifting by four and masking with fifteen are these functions on bytes. */
  lemma BitsAreDigits(high: bv8, low: bv8, b: bv8)
    requires high < 16 && low < 16
    ensures (high << 4) | low == 16 * high + low
    ensures (b >> 4) & 0xF == b / 16 && b & 0xF == b % 16
  {
  }

  lemma Halves(high: Nibble, low: Nibble)
    ensures High(Join(high, low)) == high && Low(Join(high, low)) == low
  {
  }

  /** Two codes to a byte, the first in the high half; an odd row is padded with a zero. */
  function Pack(codes: seq<Nibble>): (packed: seq<Byte>)
    ensures |packed| == (|codes| + 1) / 2
  {
    seq((|codes| + 1) / 2, i requires 0 <= i < (|codes| + 1) / 2 =>
      Join(codes[2 * i], if 2 * i + 1 < |codes| then codes[2 * i + 1] else 0))
  }

  /** The codes of a row of `width` elements: even positions from the high halves, odd ones
      from the low halves. */
  function Unpacked(packed: seq<Byte>, width: nat): (codes: seq<Nibble>)
    requires |packed| == (width + 1) / 2
    ensures |codes| == width
  {
    seq(width, i requires 0 <= i < width => if i % 2 == 0 then High(packed[i / 2]) else Low(packed[i / 2]))
  }

  /** Where a code is found in the packed bytes: an even position in the upper four bits of
      its byte, an odd one in the lower four, which are zero behind an odd row. */
  lemma PackLayout(codes: seq<Nibble>, i: nat)
    requires i < (|codes| + 1) / 2
    ensures Pack(codes)[i] / 16 == codes[2 * i]
    ensures Pack(codes)[i] % 16 == if 2 * i + 1 < |codes| then codes[2 * i + 1] else 0
  {
    Halves(codes[2 * i], if 2 * i + 1 < |codes| then codes[2 * i + 1] else 0);
  }

  /** Fills the codes in place; the last of an odd row comes from the last high half. */
  method Unpack(packed: seq<Byte>, width: nat) returns (indices: array<Nibble>)
    requires |packed| == (width + 1) / 2
    ensures indices[..] == Unpacked(packed, width)
  {
    indices := new Nibble[width](_ => 0);
    var pairs := width / 2;
    for k := 0 to pairs
      invariant forall i :: 0 <= i < 2 * k ==>
        indices[i] == if i % 2 == 0 then High(packed[i / 2]) else Low(packed[i / 2])
    {
      indices[2 * k] := High(packed[k]);
      indices[2 * k + 1] := Low(packed[k]);
    }
    if width % 2 == 1 {
      indices[width - 1] := High(packed[|packed| - 1]);
    }
  }

  /** Unpacking a packed row gives back its codes, whatever its width. */
  lemma UnpackedPack(codes: seq<Nibble>)
    ensures Unpacked(Pack(codes), |codes|) == codes
  {
    var back := Unpacked(Pack(codes), |codes|);
    forall i | 0 <= i < |codes| ensures back[i] == codes[i] {
      var k := i / 2;
      Halves(codes[2 * k], if 2 * k + 1 < |codes| then codes[2 * k + 1] else 0);
    }
  }

  lemma JoinHalves(b: Byte)
    ensures Join(High(b), Low(b)) == b
    ensures Join(High(b), 0) == b <==> Low(b) == 0
  {
  }

  lemma RepackedByte(packed: seq<Byte>, width: nat, k: nat)
    requires |packed| == (width + 1) / 2 && k < |packed|
    ensures Pack(Unpacked(packed, width))[k] == packed[k] <==> 2 * k + 1 < width || Low(packed[k]) == 0
  {
    var codes := Unpacked(packed, width);
    assert codes[2 * k] == High(packed[k]);
    if 2 * k + 1 < width {
      assert codes[2 * k + 1] == Low(packed[k]);
    }
    JoinHalves(packed[k]);
  }

  lemma SameBytesIff(again: seq<Byte>, packed: seq<Byte>, width: nat)
    requires |again| == |packed| == (width + 1) / 2
    requires forall k :: 0 <= k < |packed| ==> (again[k] == packed[k] <==> 2 * k + 1 < width || Low(packed[k]) == 0)
    ensures again == packed <==> width % 2 == 0 || Low(packed[|packed| - 1]) == 0
  {
    if width % 2 == 0 || Low(packed[|packed| - 1]) == 0 {
      assert again == packed;
    } else {
      assert again[|packed| - 1] != packed[|packed| - 1];
    }
  }

  /** Packing what was unpacked gives back the bytes exactly when an odd row's last low
      half is the zero padding. */
  lemma PackUnpackedIff(packed: seq<Byte>, width: nat)
    requires |packed| == (width + 1) / 2
    ensures Pack(Unpacked(packed, width)) == packed <==> width % 2 == 0 || Low(packed[|packed| - 1]) == 0
  {
    var again := Pack(Unpacked(packed, width));
    forall k | 0 <= k < |packed| ensures again[k] == packed[k] <==> 2 * k + 1 < width || Low(packed[k]) == 0 {
      RepackedByte(packed, width, k);
    }
    SameBytesIff(again, packed, width);
  }

  // --- NF4 rows and matrices ----------------------------------------------------------

  function Nf4Codes(row: Row): (codes: seq<Nibble>)
    ensures |codes| == |row|
  {
    seq(|row|, c requires 0 <= c < |row| => Nf4Encode(row, row[c]))
  }

  function Nf4DecodeRow(packed: seq<Byte>, width: nat, peak: real): (row: Row)
    requires |packed| == (width + 1) / 2
    ensures |row| == width
  {
    seq(width, c requires 0 <= c < width => Decode(NF4_TABLE[Unpacked(packed, width)[c]], peak))
  }

  /** The wire content of an NF4 tensor: the width, a peak per row, and the packed codes. */
  datatype Nf4Tensor = Nf4Tensor(width: nat, peaks: seq<real>, packed: seq<seq<Byte>>)

  predicate Rectangular(m: seq<Row>, width: nat) { forall r :: 0 <= r < |m| ==> |m[r]| == width }

  function Nf4Quantize(m: seq<Row>, width: nat): (t: Nf4Tensor)
    requires Rectangular(m, width)
    ensures |t.peaks| == |t.packed| == |m| && t.width == width
    ensures forall r :: 0 <= r < |m| ==> t.peaks[r] == Peak(m[r]) && t.packed[r] == Pack(Nf4Codes(m[r]))
  {
    Nf4Tensor(width,
      seq(|m|, r requires 0 <= r < |m| => Peak(m[r])),
      seq(|m|, r requires 0 <= r < |m| => Pack(Nf4Codes(m[r]))))
  }

  /** Through packing and unpacking, every element of a matrix of any width decodes to a
      nearest table entry scaled back by its row's peak. */
  lemma Nf4RoundTrip(m: seq<Row>, width: nat, r: nat, c: nat, k: nat)
    requires Rectangular(m, width) && r < |m| && c < width && k < 16
    ensures var t := Nf4Quantize(m, width); var d := Nf4DecodeRow(t.packed[r], width, t.peaks[r]);
      Abs(m[r][c] - d[c]) <= Error(m[r][c], NF4_TABLE[k], t.peaks[r])
  {
    UnpackedPack(Nf4Codes(m[r]));
    Nf4CodeIsNearest(m[r], c, k);
  }
}
