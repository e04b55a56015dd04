/**
 * The two OSC 1.0 atomic types the listener reads from a datagram: the
 * OSC-string (bytes up to a NUL, padded with NULs to a multiple of four) and
 * the int32 (four big-endian two's-complement bytes).  Both readers take the
 * buffer and the read offset and give back the value and the new offset, as
 * `MainForm.ReadOscString` and `MainForm.ReadOscInt` do through `ref int index`.
 */
module OscDecode {
  import opened Wrappers

  type byte = x: int | 0 <= x < 256

  /** The largest byte array .NET allocates; it keeps `index + 4` inside a C# int. */
  const MaxArrayLength: nat := 0x7FFF_FFC7

  /** The exceptions the two readers can raise. */
  datatype DecodeError =
    | IndexOutOfRange   // data[index] with index at or past the end of the buffer
    | ShortBuffer       // BitConverter.ToInt32 with fewer than four bytes left

  /** A decoded value and the offset just past it. */
  datatype Read<+T> = Read(value: T, next: nat)

  // ---------------------------------------------------------------------------
  // Alignment: `(index + 4) & ~3`
  // ---------------------------------------------------------------------------

  /** The smallest multiple of four strictly greater than `z`. */
  function AlignAfter(z: nat): (r: nat)
    ensures r % 4 == 0
    ensures z < r <= z + 4
    ensures forall m: nat :: z < m && m % 4 == 0 ==> r <= m
  {
    z + 4 - z % 4
  }

  function Pow2(k: nat): (r: nat)
    ensures r >= 1
  {
    if k == 0 then 1 else 2 * Pow2(k - 1)
  }

  /** Bitwise AND of two non-negative bit patterns. */
  function BitAnd(a: nat, b: nat): nat
    decreases a
  {
    if a == 0 || b == 0 then 0 else 2 * BitAnd(a / 2, b / 2) + (a % 2) * (b % 2)
  }

  /** The 32-bit pattern of `~x` for a non-negative C# int `x`. */
  function Complement32(x: nat): nat
    requires x < 0x1_0000_0000
  {
    0xFFFF_FFFF - x
  }

  /** `(i + 4) & ~3` evaluated on 32-bit patterns, as line 249 of the source does. */
  function AlignBitwise(i: nat): nat
    requires i <= MaxArrayLength
  {
    BitAnd(i + 4, Complement32(3))
  }

  /** A mask of the low `k` bits keeps every value below 2^k. */
  lemma {:induction false} BitAndLowMask(y: nat, k: nat)
    requires y < Pow2(k)
    ensures BitAnd(y, Pow2(k) - 1) == y
  {
    if k > 0 && y > 0 {
      var m := Pow2(k) - 1;
      assert Pow2(k) == 2 * Pow2(k - 1);
      assert m / 2 == Pow2(k - 1) - 1 && m % 2 == 1;
      assert y / 2 < Pow2(k - 1);
      BitAndLowMask(y / 2, k - 1);
      assert BitAnd(y, m) == 2 * BitAnd(y / 2, m / 2) + (y % 2) * 1;
    }
  }

  lemma {:induction false} Pow2Add(a: nat, b: nat)
    ensures Pow2(a + b) == Pow2(a) * Pow2(b)
  {
    if a > 0 {
      Pow2Add(a - 1, b);
    }
  }

  lemma Pow2Of30()
    ensures Pow2(30) == 0x4000_0000
  {
    assert Pow2(5) == 32 by {
      assert Pow2(1) == 2;
      assert Pow2(3) == 8;
    }
    Pow2Add(5, 5);
    Pow2Add(10, 10);
    Pow2Add(20, 10);
  }

  /** A zero low bit in the mask clears the low bit of the result. */
  lemma BitAndEvenMask(a: nat, b: nat)
    requires b % 2 == 0
    ensures BitAnd(a, b) == 2 * BitAnd(a / 2, b / 2)
  {
    if a == 0 || b == 0 {
      assert a / 2 == 0 || b / 2 == 0;
    }
  }

  /** `~3` clears the two low bits of a non-negative C# int and keeps the others. */
  lemma ClearLowTwo(x: nat)
    requires x < 0x8000_0000
    ensures BitAnd(x, Complement32(3)) == 4 * (x / 4)
  {
    var m := Complement32(3);
    assert m / 2 / 2 == Pow2(30) - 1 by {
      Pow2Of30();
    }
    BitAndEvenMask(x, m);
    BitAndEvenMask(x / 2, m / 2);
    BitAndLowMask(x / 2 / 2, 30);
    assert x / 2 / 2 == x / 4;
  }

  /** The C# expression on line 249 is the smallest multiple of four past the terminator. */
  lemma AlignBitwiseIsAlignAfter(i: nat)
    requires i <= MaxArrayLength
    ensures AlignBitwise(i) == AlignAfter(i)
  {
    ClearLowTwo(i + 4);
    assert i + 4 == 4 * ((i + 4) / 4) + i % 4;
  }

  // ---------------------------------------------------------------------------
  // OSC-string
  // ---------------------------------------------------------------------------

  /** The position of the first zero byte at or after `from`, if there is one. */
  function FirstZero(s: seq<byte>, from: nat): (r: Option<nat>)
    ensures r.Some? ==> from <= r.value < |s| && s[r.value] == 0
    ensures r.Some? ==> forall k :: from <= k < r.value ==> s[k] != 0
    ensures r.None? ==> forall k :: from <= k < |s| ==> s[k] != 0
    decreases |s| - from
  {
    if from >= |s| then None
    else if s[from] == 0 then Some(from)
    else FirstZero(s, from + 1)
  }

  /**
   * What `ReadOscString` yields for buffer `s` read at `index`: the bytes from
   * `index` up to the first zero at or after it, and the offset moved to the
   * next four-byte boundary past that zero; `IndexOutOfRange` when the buffer
   * ends before a zero is found.
   */
  function OscStringAt(s: seq<byte>, index: nat): (r: Result<Read<seq<byte>>, DecodeError>)
    ensures r.Err? <==> forall k :: index <= k < |s| ==> s[k] != 0
    ensures r.Err? ==> r.error == IndexOutOfRange
    ensures r.Ok? ==> var z := index + |r.value.value|;
      && z < |s| && s[z] == 0
      && r.value.value == s[index..z]
      && 0 !in r.value.value
      && r.value.next % 4 == 0
      && z < r.value.next <= z + 4
      && r.value.next <= |s| + 3
  {
    match FirstZero(s, index)
    case None => Err(IndexOutOfRange)
    case Some(z) =>
      assert forall k :: 0 <= k < z - index ==> s[index..z][k] == s[index + k];
      Ok(Read(s[index..z], AlignAfter(z)))
  }

  /**
   * `MainForm.ReadOscString`: scan forward from `index` to the first zero byte,
   * take the bytes before it, and move the offset with `(index + 4) & ~3`.
   */
  method ReadOscString(data: array<byte>, index: nat) returns (r: Result<Read<seq<byte>>, DecodeError>)
    requires data.Length <= MaxArrayLength
    ensures r == OscStringAt(data[..], index)
  {
    var i := index;
    while i < data.Length && data[i] != 0
      invariant index <= i
      invariant i == index || i <= data.Length
      invariant forall k :: index <= k < i ==> data[k] != 0
      decreases data.Length - i
    {
      i := i + 1;
    }
    if i >= data.Length {
      // data[i] throws IndexOutOfRangeException
      return Err(IndexOutOfRange);
    }
    assert FirstZero(data[..], index) == Some(i);
    var result := data[index..i];
    AlignBitwiseIsAlignAfter(i);
    var next := AlignBitwise(i);
    r := Ok(Read(result, next));
  }

  /** NULs that bring a string of length `n` to the next multiple of four, at least one. */
  function Padding(n: nat): (r: seq<byte>)
    ensures 1 <= |r| <= 4
    ensures (n + |r|) % 4 == 0
    ensures forall k :: 0 <= k < |r| ==> r[k] == 0
  {
    seq(4 - n % 4, _ => 0)
  }

  /** The OSC-string encoding of a NUL-free byte string: the bytes, then one to four NULs. */
  function EncodeOscString(s: seq<byte>): (r: seq<byte>)
    ensures |r| % 4 == 0
    ensures |s| < |r| <= |s| + 4
    ensures r[..|s|] == s
    ensures forall k :: |s| <= k < |r| ==> r[k] == 0
  {
    s + Padding(|s|)
  }

  /** If the first zero at or after `from` is at `z`, FirstZero finds it. */
  lemma FirstZeroAt(s: seq<byte>, from: nat, z: nat)
    requires from <= z < |s| && s[z] == 0
    requires forall k :: from <= k < z ==> s[k] != 0
    ensures FirstZero(s, from) == Some(z)
  {
  }

  /** Where an encoded string lies in a buffer: its bytes from `|p|` on, then a NUL. */
  lemma EncodedLayout(p: seq<byte>, s: seq<byte>, rest: seq<byte>)
    ensures var buf := p + EncodeOscString(s) + rest;
      && |p| + |s| < |buf| && buf[|p| + |s|] == 0
      && forall k :: 0 <= k < |s| ==> buf[|p| + k] == s[k]
  {
    var e := EncodeOscString(s);
    assert forall k :: 0 <= k < |s| ==> e[k] == e[..|s|][k];
  }

  /** Alignment after an encoded string placed at a four-aligned offset is its end. */
  lemma AlignAfterEncoded(p: nat, s: nat)
    requires p % 4 == 0
    ensures AlignAfter(p + s) == p + s + 4 - s % 4
  {
    assert (p + s) % 4 == s % 4;
  }

  /**
   * Round trip: an encoded NUL-free string placed at a four-aligned offset,
   * whatever precedes and follows it, reads back as the string, and the offset
   * advances by exactly the encoded length.
   */
  lemma ReadEncodedString(p: seq<byte>, s: seq<byte>, rest: seq<byte>)
    requires |p| % 4 == 0
    requires 0 !in s
    ensures OscStringAt(p + EncodeOscString(s) + rest, |p|)
         == Ok(Read(s, |p| + |EncodeOscString(s)|))
  {
    var buf := p + EncodeOscString(s) + rest;
    var z := |p| + |s|;
    EncodedLayout(p, s, rest);
    forall k | |p| <= k < z
      ensures buf[k] != 0
    {
      assert buf[|p| + (k - |p|)] == s[k - |p|];
    }
    FirstZeroAt(buf, |p|, z);
    assert buf[|p|..z] == s;
    AlignAfterEncoded(|p|, |s|);
  }

  // ---------------------------------------------------------------------------
  // int32
  // ---------------------------------------------------------------------------

  predicate IsInt32(v: int) {
    -0x8000_0000 <= v < 0x8000_0000
  }

  /** Reads a 32-bit pattern as a two's-complement C# int. */
  function Signed32(u: nat): (v: int)
    requires u < 0x1_0000_0000
    ensures IsInt32(v)
    ensures v % 0x1_0000_0000 == u
  {
    if u < 0x8000_0000 then u else u - 0x1_0000_0000
  }

  /** The 32-bit pattern of a C# int. */
  function Unsigned32(v: int): (u: nat)
    requires IsInt32(v)
    ensures u < 0x1_0000_0000
    ensures Signed32(u) == v
  {
    if v < 0 then v + 0x1_0000_0000 else v
  }

  /** The 32-bit pattern whose bytes, most significant first, are `c3 c2 c1 c0`. */
  function Join(c3: byte, c2: byte, c1: byte, c0: byte): (u: nat)
    ensures u < 0x1_0000_0000
  {
    ((c3 as int * 256 + c2) * 256 + c1) * 256 + c0
  }

  /** Four bytes, most significant first, as a two's-complement int32 (OSC's int32). */
  function FromBigEndian(b: seq<byte>): int
    requires |b| == 4
  {
    Signed32(Join(b[0], b[1], b[2], b[3]))
  }

  /** Four bytes, least significant first: what BitConverter.ToInt32 reads on a little-endian host. */
  function FromLittleEndian(b: seq<byte>): int
    requires |b| == 4
  {
    Signed32(Join(b[3], b[2], b[1], b[0]))
  }

  /** The OSC int32 encoding: four bytes, most significant first. */
  function ToBigEndian(v: int): (b: seq<byte>)
    requires IsInt32(v)
    ensures |b| == 4
  {
    var u := Unsigned32(v);
    [u / 0x100_0000, u / 0x1_0000 % 256, u / 0x100 % 256, u % 256]
  }

  /**
   * IPAddress.NetworkToHostOrder on a little-endian host: the int's bytes in
   * memory (least significant first) are reversed, which is reading its
   * big-endian bytes back least significant first.
   */
  function NetworkToHostOrder(v: int): int
    requires IsInt32(v)
  {
    FromLittleEndian(ToBigEndian(v))
  }

  /** Splitting a 32-bit pattern into bytes and joining them again gives it back. */
  lemma BytesOfPattern(u: nat, c0: byte, c1: byte, c2: byte, c3: byte)
    requires u == Join(c3, c2, c1, c0)
    ensures u / 0x100_0000 == c3 && u / 0x1_0000 % 256 == c2
    ensures u / 0x100 % 256 == c1 && u % 256 == c0
  {
    var h := (c3 as int * 256 + c2) * 256 + c1;
    assert u == h * 256 + c0;
    assert u % 256 == c0 && u / 256 == h;
    var g := c3 as int * 256 + c2;
    assert h % 256 == c1 && h / 256 == g;
    assert u / 0x1_0000 == g by {
      assert u == g * 0x1_0000 + (c1 * 256 + c0);
    }
    assert u / 0x100_0000 == c3 by {
      assert u == c3 as int * 0x100_0000 + ((c2 as int * 256 + c1) * 256 + c0);
    }
  }

  lemma ToBigEndianOfPattern(b: seq<byte>, u: nat)
    requires |b| == 4
    requires u == Join(b[0], b[1], b[2], b[3])
    ensures ToBigEndian(Signed32(u)) == b
  {
    BytesOfPattern(u, b[3], b[2], b[1], b[0]);
    assert Unsigned32(Signed32(u)) == u;
  }

  /** Encoding then decoding an int32 gives it back. */
  lemma FromToBigEndian(v: int)
    requires IsInt32(v)
    ensures FromBigEndian(ToBigEndian(v)) == v
  {
    var u := Unsigned32(v);
    var b := ToBigEndian(v);
    assert u == Join(b[0], b[1], b[2], b[3]) by {
      assert u == (u / 0x100_0000) * 0x100_0000 + u % 0x100_0000;
      assert u % 0x100_0000 == (u / 0x1_0000 % 256) * 0x1_0000 + u % 0x1_0000;
      assert u % 0x1_0000 == (u / 0x100 % 256) * 0x100 + u % 256;
    }
  }

  /** Decoding then encoding four bytes gives them back. */
  lemma ToFromBigEndian(b: seq<byte>)
    requires |b| == 4
    ensures ToBigEndian(FromBigEndian(b)) == b
  {
    ToBigEndianOfPattern(b, Join(b[0], b[1], b[2], b[3]));
  }

  /** A little-endian read followed by NetworkToHostOrder is a big-endian read. */
  lemma SwappedLittleEndianIsBigEndian(b: seq<byte>)
    requires |b| == 4
    ensures NetworkToHostOrder(FromLittleEndian(b)) == FromBigEndian(b)
  {
    var r := [b[3], b[2], b[1], b[0]];
    ToBigEndianOfPattern(r, Join(b[3], b[2], b[1], b[0]));
  }

  /**
   * `MainForm.ReadOscInt`: BitConverter.ToInt32 at `index`, then
   * NetworkToHostOrder, then `index += 4`.  Fails when fewer than four bytes
   * remain.
   */
  method ReadOscInt(data: array<byte>, index: nat) returns (r: Result<Read<int>, DecodeError>)
    ensures r.Ok? <==> index + 4 <= data.Length
    ensures r.Err? ==> r.error == ShortBuffer
    ensures r.Ok? ==> r.value == Read(FromBigEndian(data[index..index + 4]), index + 4)
    ensures r.Ok? ==> IsInt32(r.value.value)
  {
    if index + 4 > data.Length {
      // ArgumentOutOfRangeException or ArgumentException from BitConverter
      return Err(ShortBuffer);
    }
    var host := FromLittleEndian(data[index..index + 4]);
    var value := NetworkToHostOrder(host);
    SwappedLittleEndianIsBigEndian(data[index..index + 4]);
    r := Ok(Read(value, index + 4));
  }
}
