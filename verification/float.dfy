/** The word codec of templates/src/types/Float.ts: six byte values are packed
    into one integer "word", most significant byte first, and a word is
    unpacked again by digit extraction (two floor divisions and a product, no
    bit operations).

    Every value the generator packs stays below 256^6 = 2^48 and every divisor
    is a power of two, so the JavaScript doubles of the source are exact here;
    the model uses unbounded integers. */
module Float {

  /** `BYTES_PER_FLOAT`: the number of bytes one word holds. */
  const BytesPerFloat: nat := 6

  /** 256^6: every word built from bytes in [0, 255] lies below this. */
  const WordLimit: nat := 0x1_0000_0000_0000

  function Pow(base: nat, exp: nat): (r: nat)
    ensures base > 0 ==> r > 0
  {
    if exp == 0 then 1 else base * Pow(base, exp - 1)
  }

  /** `Math.ceil(n / d)` for a positive divisor. */
  function CeilDiv(n: int, d: nat): (r: int)
    requires d > 0
    ensures n >= 0 ==> r >= 0
  {
    -((-n) / d)
  }

  /** `Math.ceil(n / d)` is the least r with n <= r * d. */
  lemma CeilDivBounds(n: int, d: nat)
    requires d > 0
    ensures (CeilDiv(n, d) - 1) * d < n <= CeilDiv(n, d) * d
  {
  }

  /** Every entry of a buffer is a byte value. */
  predicate AllBytes(buf: seq<int>)
  {
    forall i :: 0 <= i < |buf| ==> 0 <= buf[i] < 256
  }

  /** `buffer[k] || 0`: an entry past either end of the buffer reads as 0. */
  function ByteAt(buf: seq<int>, k: int): int
  {
    if 0 <= k < |buf| then buf[k] else 0
  }

  /** What `fromBytes` has accumulated after `n` rounds of its loop: the byte
      at position i of the six-byte window weighs 256^(5 - i). */
  function PartialWord(buf: seq<int>, off: int, n: nat): int
    requires n <= BytesPerFloat
  {
    if n == 0 then 0
    else PartialWord(buf, off, n - 1) + ByteAt(buf, off + n - 1) * Pow(256, BytesPerFloat - n)
  }

  /** The word `fromBytes(buffer, off)` returns. */
  function WordAt(buf: seq<int>, off: int): int
  {
    PartialWord(buf, off, BytesPerFloat)
  }

  /** Six values in big-endian base-256 positional notation. */
  function Pack(b0: int, b1: int, b2: int, b3: int, b4: int, b5: int): int
  {
    b0 * 0x100_0000_0000 + b1 * 0x1_0000_0000 + b2 * 0x100_0000 + b3 * 0x1_0000 + b4 * 0x100 + b5
  }

  /** The words `fromManyBytes(buffer, off)` returns: ceil(|buffer| / 6) of
      them (the count ignores the offset), word i read at off + 6i. */
  function EncodeFrom(buf: seq<int>, off: int): (ws: seq<int>)
    ensures |ws| == CeilDiv(|buf|, BytesPerFloat)
  {
    seq(CeilDiv(|buf|, BytesPerFloat), i => WordAt(buf, off + BytesPerFloat * i))
  }

  /** `fromManyBytes(buffer, 0)`, the form every caller uses. */
  function Encode(buf: seq<int>): (ws: seq<int>)
    ensures |ws| == CeilDiv(|buf|, BytesPerFloat)
  {
    EncodeFrom(buf, 0)
  }

  /** `getDigitBase(num, digit, base)`: `floor(num / base^(5-digit)) -
      floor(num / base^(6-digit)) * base`, which is digit `digit` of `num`
      counted from the most significant of six. */
  function GetDigitBase(num: int, digit: nat, base: nat): (r: int)
    requires digit < BytesPerFloat && base > 0
    ensures r == (num / Pow(base, BytesPerFloat - digit - 1)) % base
    ensures 0 <= r < base
  {
    var p := Pow(base, BytesPerFloat - digit - 1);
    DivDiv(num, p, base);
    num / p - (num / Pow(base, BytesPerFloat - digit)) * base
  }

  /** The six values `toBytes(v, buffer)` appends. */
  function WordBytes(v: int): (bs: seq<int>)
    ensures |bs| == BytesPerFloat && AllBytes(bs)
  {
    seq(BytesPerFloat, j requires 0 <= j < BytesPerFloat => GetDigitBase(v, j, 256))
  }

  /** The values `toManyBytes(words, buffer)` appends: six per word, in order. */
  function Decode(ws: seq<int>): (bs: seq<int>)
    ensures |bs| == BytesPerFloat * |ws| && AllBytes(bs)
  {
    if ws == [] then [] else Decode(ws[..|ws| - 1]) + WordBytes(ws[|ws| - 1])
  }

  /** The caller-supplied `number[]` that `toBytes` and `toManyBytes` push into. */
  class Buffer {
    var items: seq<int>

    constructor (items: seq<int>)
      ensures this.items == items
    {
      this.items := items;
    }
  }

  /** `toBytes(float, buffer)`: appends the six digits of `v`. */
  method ToBytes(v: int, buffer: Buffer)
    modifies buffer
    ensures buffer.items == old(buffer.items) + WordBytes(v)
  {
    var i := 0;
    while i < BytesPerFloat
      invariant 0 <= i <= BytesPerFloat
      invariant buffer.items == old(buffer.items) + WordBytes(v)[..i]
    {
      buffer.items := buffer.items + [GetDigitBase(v, i, 256)];
      i := i + 1;
    }
  }

  /** `toManyBytes(floats, buffer)`: appends six digits per word, in input order. */
  method ToManyBytes(floats: seq<int>, buffer: Buffer)
    modifies buffer
    ensures buffer.items == old(buffer.items) + Decode(floats)
  {
    var i := 0;
    while i < |floats|
      invariant 0 <= i <= |floats|
      invariant buffer.items == old(buffer.items) + Decode(floats[..i])
    {
      assert floats[..i + 1][..i] == floats[..i];
      ToBytes(floats[i], buffer);
      i := i + 1;
    }
    assert floats[..i] == floats;
  }

  /** `fromBytes(buffer, readOffset)`. */
  method FromBytes(buffer: seq<int>, readOffset: int) returns (num: int)
    ensures num == WordAt(buffer, readOffset)
  {
    num := 0;
    var i := 0;
    while i < BytesPerFloat
      invariant 0 <= i <= BytesPerFloat
      invariant num == PartialWord(buffer, readOffset, i)
    {
      num := num + ByteAt(buffer, readOffset + i) * Pow(256, BytesPerFloat - i - 1);
      i := i + 1;
    }
  }

  /** `fromManyBytes(buffer, readOffset)`. */
  method FromManyBytes(buffer: seq<int>, readOffset: int) returns (out: seq<int>)
    ensures out == EncodeFrom(buffer, readOffset)
  {
    var numFloats := CeilDiv(|buffer|, BytesPerFloat);
    out := [];
    var i := 0;
    while i < numFloats
      invariant 0 <= i <= numFloats
      invariant out == EncodeFrom(buffer, readOffset)[..i]
    {
      var w := FromBytes(buffer, readOffset + i * BytesPerFloat);
      out := out + [w];
      i := i + 1;
    }
  }

  // ---------------------------------------------------------------------
  // Arithmetic facts

  lemma DivUnique(a: int, d: int, q: int, r: int)
    requires d > 0 && 0 <= r < d && a == q * d + r
    ensures a / d == q && a % d == r
  {
    var q0 := a / d;
    assert (q - q0) * d == a % d - r;
    if q0 < q {
      MulAtLeast(q - q0, d);
    } else if q0 > q {
      MulAtLeast(q0 - q, d);
    }
  }

  lemma {:induction false} MulAtLeast(k: int, d: int)
    requires k >= 1 && d > 0
    ensures k * d >= d
    decreases k
  {
    if k > 1 {
      MulAtLeast(k - 1, d);
      assert k * d == (k - 1) * d + d;
    }
  }

  lemma DivDiv(a: int, b: nat, c: nat)
    requires b > 0 && c > 0
    ensures a / (b * c) == (a / b) / c
  {
    var q, r := a / b, a % b;
    var q2, r2 := q / c, q % c;
    MulSplit(q2, c, r2, b);
    assert a == q2 * (b * c) + (r2 * b + r);
    MulBelow(r2, c, b);
    DivUnique(a, b * c, q2, r2 * b + r);
  }

  /** (q·c + r)·b == q·(b·c) + r·b. */
  lemma MulSplit(q: int, c: int, r: int, b: int)
    ensures (q * c + r) * b == q * (b * c) + r * b
  {
  }

  /** r < c gives r·b + b <= c·b, so r·b + s < b·c for s < b. */
  lemma MulBelow(r: int, c: int, b: int)
    requires 0 <= r < c && b > 0
    ensures 0 <= r * b && r * b + b <= b * c
  {
    MulAtLeast(c - r, b);
    assert (c - r) * b == c * b - r * b;
  }

  lemma PowersOf256()
    ensures Pow(256, 0) == 1 && Pow(256, 1) == 0x100 && Pow(256, 2) == 0x1_0000
    ensures Pow(256, 3) == 0x100_0000 && Pow(256, 4) == 0x1_0000_0000
    ensures Pow(256, 5) == 0x100_0000_0000 && Pow(256, 6) == WordLimit
  {
    assert Pow(256, 1) == 0x100;
    assert Pow(256, 2) == 0x1_0000;
    assert Pow(256, 3) == 0x100_0000;
    assert Pow(256, 4) == 0x1_0000_0000;
    assert Pow(256, 5) == 0x100_0000_0000;
  }

  /** A value written as (hi·256 + b)·p + lo with lo < p has digit b at place p. */
  lemma DigitOfPositional(v: int, hi: int, b: int, lo: int, p: int)
    requires p > 0 && 0 <= b < 256 && 0 <= lo < p
    requires v == (hi * 256 + b) * p + lo
    ensures (v / p) % 256 == b
  {
    DivUnique(v, p, hi * 256 + b, lo);
    DivUnique(hi * 256 + b, 256, hi, b);
  }

  // ---------------------------------------------------------------------
  // Properties of the codec

  /** `fromBytes(buf, off)` is Σ_{i<6} b_i·256^(5-i) with b_i = buf[off+i],
      or 0 where that entry is missing. */
  lemma WordAtIsPositional(buf: seq<int>, off: int)
    ensures WordAt(buf, off) == Pack(ByteAt(buf, off), ByteAt(buf, off + 1), ByteAt(buf, off + 2),
                                     ByteAt(buf, off + 3), ByteAt(buf, off + 4), ByteAt(buf, off + 5))
  {
    PowersOf256();
    assert PartialWord(buf, off, 1) == ByteAt(buf, off) * 0x100_0000_0000;
    assert PartialWord(buf, off, 2) == PartialWord(buf, off, 1) + ByteAt(buf, off + 1) * 0x1_0000_0000;
    assert PartialWord(buf, off, 3) == PartialWord(buf, off, 2) + ByteAt(buf, off + 2) * 0x100_0000;
    assert PartialWord(buf, off, 4) == PartialWord(buf, off, 3) + ByteAt(buf, off + 3) * 0x1_0000;
    assert PartialWord(buf, off, 5) == PartialWord(buf, off, 4) + ByteAt(buf, off + 4) * 0x100;
    assert PartialWord(buf, off, 6) == PartialWord(buf, off, 5) + ByteAt(buf, off + 5);
  }

  /** Bytes in [0, 255] give a word in [0, 256^6). */
  lemma WordInRange(buf: seq<int>, off: int)
    requires AllBytes(buf)
    ensures 0 <= WordAt(buf, off) < WordLimit
  {
    WordAtIsPositional(buf, off);
  }

  /** Every word `fromManyBytes` produces from byte values lies in [0, 256^6). */
  lemma EncodeInRange(buf: seq<int>, off: int)
    requires AllBytes(buf)
    ensures forall i :: 0 <= i < |EncodeFrom(buf, off)| ==> 0 <= EncodeFrom(buf, off)[i] < WordLimit
  {
    forall i | 0 <= i < |EncodeFrom(buf, off)|
      ensures 0 <= EncodeFrom(buf, off)[i] < WordLimit
    {
      WordInRange(buf, off + BytesPerFloat * i);
    }
  }

  /** Word round trip: packing the six digits of a word gives the word back. */
  lemma WordRoundTrip(v: int)
    requires 0 <= v < WordLimit
    ensures WordAt(WordBytes(v), 0) == v
  {
    PowersOf256();
    var bs := WordBytes(v);
    WordAtIsPositional(bs, 0);
    var q1, q2, q3, q4, q5 := v / 0x100, v / 0x1_0000, v / 0x100_0000, v / 0x1_0000_0000, v / 0x100_0000_0000;
    DivDiv(v, 0x100, 0x100);
    DivDiv(v, 0x1_0000, 0x100);
    DivDiv(v, 0x100_0000, 0x100);
    DivDiv(v, 0x1_0000_0000, 0x100);
    DivDiv(v, 0x100_0000_0000, 0x100);
    DivUnique(v, WordLimit, 0, v);
    assert bs[0] == q5 % 256 && bs[1] == q4 % 256 && bs[2] == q3 % 256;
    assert bs[3] == q2 % 256 && bs[4] == q1 % 256 && bs[5] == v % 256;
    assert q5 / 256 == 0;
  }

  /** Byte round trip for one word: the digits of a packed window are the
      window's bytes. */
  lemma BytesRoundTrip(buf: seq<int>, off: int)
    requires AllBytes(buf)
    ensures WordBytes(WordAt(buf, off)) == seq(BytesPerFloat, j => ByteAt(buf, off + j))
  {
    forall j | 0 <= j < BytesPerFloat
      ensures WordBytes(WordAt(buf, off))[j] == ByteAt(buf, off + j)
    {
      DigitOfWord(buf, off, j);
    }
  }

  /** Digit j of a packed window is the window's byte j. */
  lemma DigitOfWord(buf: seq<int>, off: int, j: nat)
    requires AllBytes(buf) && j < BytesPerFloat
    ensures GetDigitBase(WordAt(buf, off), j, 256) == ByteAt(buf, off + j)
  {
    PowersOf256();
    WordAtIsPositional(buf, off);
    var b0, b1, b2 := ByteAt(buf, off), ByteAt(buf, off + 1), ByteAt(buf, off + 2);
    var b3, b4, b5 := ByteAt(buf, off + 3), ByteAt(buf, off + 4), ByteAt(buf, off + 5);
    var v := WordAt(buf, off);
    if j == 0 {
      DigitOfPositional(v, 0, b0, Pack(0, b1, b2, b3, b4, b5), 0x100_0000_0000);
    } else if j == 1 {
      DigitOfPositional(v, b0, b1, Pack(0, 0, b2, b3, b4, b5), 0x1_0000_0000);
    } else if j == 2 {
      DigitOfPositional(v, b0 * 0x100 + b1, b2, Pack(0, 0, 0, b3, b4, b5), 0x100_0000);
    } else if j == 3 {
      DigitOfPositional(v, b0 * 0x1_0000 + b1 * 0x100 + b2, b3, Pack(0, 0, 0, 0, b4, b5), 0x1_0000);
    } else if j == 4 {
      DigitOfPositional(v, b0 * 0x100_0000 + b1 * 0x1_0000 + b2 * 0x100 + b3, b4, b5, 0x100);
    } else {
      DigitOfPositional(v, b0 * 0x1_0000_0000 + b1 * 0x100_0000 + b2 * 0x1_0000 + b3 * 0x100 + b4, b5, 0, 1);
    }
  }

  lemma {:induction false} DecodeAt(ws: seq<int>, i: nat, j: nat)
    requires i < |ws| && j < BytesPerFloat
    ensures Decode(ws)[BytesPerFloat * i + j] == WordBytes(ws[i])[j]
    decreases |ws|
  {
    var n := |ws| - 1;
    if i < n {
      assert ws[..n][i] == ws[i];
      DecodeAt(ws[..n], i, j);
    }
  }

  /** Byte round trip: unpacking the packed buffer gives the buffer followed
      by zeros up to the next multiple of six. */
  lemma DecodeEncode(buf: seq<int>)
    requires AllBytes(buf)
    ensures BytesPerFloat * CeilDiv(|buf|, BytesPerFloat) >= |buf|
    ensures Decode(Encode(buf)) == buf + seq(BytesPerFloat * CeilDiv(|buf|, BytesPerFloat) - |buf|, _ => 0)
  {
    var ws := Encode(buf);
    var d := Decode(ws);
    var padded := buf + seq(BytesPerFloat * CeilDiv(|buf|, BytesPerFloat) - |buf|, _ => 0);
    forall k | 0 <= k < |d|
      ensures d[k] == padded[k]
    {
      var i, j := k / BytesPerFloat, k % BytesPerFloat;
      assert BytesPerFloat * i + j == k;
      DecodeAt(ws, i, j);
      BytesRoundTrip(buf, BytesPerFloat * i);
      assert d[k] == WordBytes(WordAt(buf, BytesPerFloat * i))[j] == ByteAt(buf, k);
    }
  }

  /** The byte round trip is exact precisely when the length is a multiple of six. */
  lemma DecodeEncodeExact(buf: seq<int>)
    requires AllBytes(buf)
    ensures Decode(Encode(buf)) == buf <==> |buf| % BytesPerFloat == 0
  {
    DecodeEncode(buf);
    var c := CeilDiv(|buf|, BytesPerFloat);
    if |buf| % BytesPerFloat == 0 {
      assert BytesPerFloat * c == |buf|;
    } else {
      assert |Decode(Encode(buf))| != |buf|;
    }
  }

  /** Word round trip for a list: packing the unpacked words gives them back. */
  lemma EncodeDecode(ws: seq<int>)
    requires forall i :: 0 <= i < |ws| ==> 0 <= ws[i] < WordLimit
    ensures Encode(Decode(ws)) == ws
  {
    var d := Decode(ws);
    var e := Encode(d);
    var n := CeilDiv(|d|, BytesPerFloat);
    assert |d| == BytesPerFloat * |ws|;
    assert n == |ws|;
    forall i | 0 <= i < |ws|
      ensures e[i] == ws[i]
    {
      EncodeDecodeAt(ws, i);
    }
  }

  lemma EncodeDecodeAt(ws: seq<int>, i: nat)
    requires i < |ws| && 0 <= ws[i] < WordLimit
    ensures WordAt(Decode(ws), BytesPerFloat * i) == ws[i]
  {
    DecodeWindow(ws, i);
    WindowOfWord(Decode(ws), BytesPerFloat * i, ws[i]);
  }

  /** The six entries from `off` on are the digits of v. */
  predicate HoldsWord(buf: seq<int>, off: int, v: int)
  {
    forall j :: 0 <= j < BytesPerFloat ==> ByteAt(buf, off + j) == ByteAt(WordBytes(v), j)
  }

  /** Six entries holding the digits of v, read back by `fromBytes`, give v. */
  lemma WindowOfWord(buf: seq<int>, off: int, v: int)
    requires 0 <= v < WordLimit
    requires HoldsWord(buf, off, v)
    ensures WordAt(buf, off) == v
  {
    SameWindowSameWord(buf, off, WordBytes(v));
    WordRoundTrip(v);
  }

  /** The six bytes of word i sit at 6i .. 6i + 5 of the unpacked list. */
  lemma DecodeWindow(ws: seq<int>, i: nat)
    requires i < |ws|
    ensures HoldsWord(Decode(ws), BytesPerFloat * i, ws[i])
  {
    forall j | 0 <= j < BytesPerFloat
      ensures ByteAt(Decode(ws), BytesPerFloat * i + j) == ByteAt(WordBytes(ws[i]), j)
    {
      DecodeAt(ws, i, j);
    }
  }

  /** `fromBytes` depends only on the six entries it reads. */
  lemma SameWindowSameWord(a: seq<int>, off: int, b: seq<int>)
    requires forall j :: 0 <= j < BytesPerFloat ==> ByteAt(a, off + j) == ByteAt(b, j)
    ensures WordAt(a, off) == WordAt(b, 0)
  {
    var z := 0;
    assert ByteAt(a, off + z) == ByteAt(b, z);
    WordAtIsPositional(a, off);
    WordAtIsPositional(b, 0);
  }
}
