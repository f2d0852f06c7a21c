/** Byte-level vocabulary shared by the whole model: bytes and fixed-width
    unsigned integers, big-endian encoding, the SHA-256 oracle, ASCII text,
    decimal and hexadecimal rendering. Go strings are byte sequences, so
    names and paths are `seq<byte>` throughout. */
module Bytes {

  type byte = x: int | 0 <= x < 0x100
  type uint16 = x: int | 0 <= x < 0x1_0000
  type uint32 = x: int | 0 <= x < 0x1_0000_0000

  datatype Option<+T> = None | Some(value: T)

  /** Size of a SHA-256 digest. */
  const HashSize: nat := 32

  /** SHA-256 is kept uninterpreted: the model is parameterised by an
      arbitrary function on byte strings. */
  type Hasher = seq<byte> -> seq<byte>

  /** The 32-byte digest of `m` under the oracle. An oracle result of any
      other length is read as 32 zero bytes, so that every digest has the
      size SHA-256 gives it. */
  function Digest(sha: Hasher, m: seq<byte>): (d: seq<byte>)
    ensures |d| == HashSize
  {
    var h := sha(m);
    if |h| == HashSize then h else Zeros(HashSize)
  }

  /** Go's `uint16(n)`: the low 16 bits of `n` (Dafny's `%` is Euclidean,
      which is the two's-complement truncation for negative `n` too). */
  function ToUint16(n: int): uint16 {
    n % 0x1_0000
  }

  /** Go's `uint32(n)`. */
  function ToUint32(n: int): uint32 {
    n % 0x1_0000_0000
  }

  /** `messCounter++` on a `uint32`. */
  function Increment(c: uint32): uint32 {
    ToUint32(c + 1)
  }

  /** Big-endian 16-bit value stored at `s[i..i+2]`. */
  function U16(s: seq<byte>, i: nat): uint16
    requires i + 2 <= |s|
  {
    (s[i] as int) * 0x100 + s[i + 1]
  }

  /** Big-endian 32-bit value stored at `s[i..i+4]`. */
  function U32(s: seq<byte>, i: nat): uint32
    requires i + 4 <= |s|
  {
    (s[i] as int) * 0x100_0000 + (s[i + 1] as int) * 0x1_0000 + (s[i + 2] as int) * 0x100 + s[i + 3]
  }

  /** `binary.BigEndian.PutUint16(b, uint16(n))`. */
  function BE16(n: int): (r: seq<byte>)
    ensures |r| == 2
    ensures U16(r, 0) == ToUint16(n)
  {
    var v := ToUint16(n);
    [v / 0x100, v % 0x100]
  }

  /** `binary.BigEndian.PutUint32(b, uint32(n))`. */
  function BE32(n: int): (r: seq<byte>)
    ensures |r| == 4
    ensures U32(r, 0) == ToUint32(n)
  {
    var v := ToUint32(n);
    var low24 := v % 0x100_0000;
    var low16 := low24 % 0x1_0000;
    assert v == (v / 0x100_0000) * 0x100_0000 + low24;
    assert low24 == (low24 / 0x1_0000) * 0x1_0000 + low16;
    assert low16 == (low16 / 0x100) * 0x100 + low16 % 0x100;
    [v / 0x100_0000, low24 / 0x1_0000, low16 / 0x100, low16 % 0x100]
  }

  /** Encoding is also a left inverse of decoding: the two bytes read as a
      16-bit value encode back to themselves. */
  lemma BE16OfU16(s: seq<byte>, i: nat)
    requires i + 2 <= |s|
    ensures BE16(U16(s, i)) == s[i..i + 2]
  {
  }

  /** All-zero byte string of length `n`. */
  function Zeros(n: nat): (r: seq<byte>)
    ensures |r| == n
    ensures forall i | 0 <= i < n :: r[i] == 0
  {
    seq(n, i => 0)
  }

  /** Concatenation of a sequence of sequences, in order. */
  function Flatten<T>(ss: seq<seq<T>>): seq<T>
  {
    if |ss| == 0 then [] else ss[0] + Flatten(ss[1..])
  }

  lemma {:induction false} FlattenAppend<T>(a: seq<seq<T>>, b: seq<seq<T>>)
    ensures Flatten(a + b) == Flatten(a) + Flatten(b)
  {
    if |a| == 0 {
      assert a + b == b;
    } else {
      assert (a + b)[1..] == a[1..] + b;
      FlattenAppend(a[1..], b);
    }
  }

  /** When every piece has `w` bytes, the concatenation has `w * |ss|`. */
  lemma {:induction false} FlattenUniformLength<T>(ss: seq<seq<T>>, w: nat)
    requires forall k | 0 <= k < |ss| :: |ss[k]| == w
    ensures |Flatten(ss)| == w * |ss|
  {
    if |ss| > 0 {
      FlattenUniformLength(ss[1..], w);
      assert w * |ss| == w + w * (|ss| - 1);
    }
  }

  /** When every piece has `w` bytes, piece `k` sits at `[w*k, w*k + w)`. */
  lemma {:induction false} FlattenUniformAt<T>(ss: seq<seq<T>>, w: nat, k: nat)
    requires forall j | 0 <= j < |ss| :: |ss[j]| == w
    requires k < |ss|
    ensures w * k + w <= |Flatten(ss)|
    ensures Flatten(ss)[w * k .. w * k + w] == ss[k]
  {
    FlattenUniformLength(ss, w);
    var f := Flatten(ss);
    assert f == ss[0] + Flatten(ss[1..]);
    if k > 0 {
      FlattenUniformAt(ss[1..], w, k - 1);
      assert w * k == w + w * (k - 1);
    }
  }

  /** ASCII text as bytes (for the string literals of the source). */
  function Str(s: string): (r: seq<byte>)
    requires forall i | 0 <= i < |s| :: s[i] as int < 0x100
    ensures |r| == |s|
    ensures forall i | 0 <= i < |s| :: r[i] == s[i] as int
  {
    seq(|s|, i requires 0 <= i < |s| => s[i] as int)
  }

  const Slash: byte := 47
  const Colon: byte := 58

  /** Decimal digits of `n`, as `fmt.Sprintf("%d", n)` writes them. */
  function Decimal(n: nat): (r: seq<byte>)
    ensures 1 <= |r|
    ensures forall i | 0 <= i < |r| :: 48 <= r[i] <= 57
  {
    if n < 10 then [48 + n] else Decimal(n / 10) + [48 + n % 10]
  }

  /** Lower-case hexadecimal digit, as `fmt.Sprintf("%x")` writes it. */
  function HexDigit(d: int): char
    requires 0 <= d < 16
  {
    if d < 10 then ('0' as int + d) as char else ('a' as int + d - 10) as char
  }

  /** `fmt.Sprintf("%x", b)`: two lower-case digits per byte. */
  function Hex(b: seq<byte>): (r: string)
    ensures |r| == 2 * |b|
  {
    if |b| == 0 then [] else [HexDigit(b[0] / 16), HexDigit(b[0] % 16)] + Hex(b[1..])
  }

  /** Hexadecimal rendering is injective, so comparing the renderings is
      comparing the bytes. */
  lemma {:induction false} HexInjective(a: seq<byte>, b: seq<byte>)
    ensures Hex(a) == Hex(b) <==> a == b
  {
    if Hex(a) == Hex(b) && |a| > 0 {
      assert |a| == |b|;
      var ha, hb := Hex(a), Hex(b);
      assert ha[0] == hb[0] && ha[1] == hb[1];
      assert a[0] / 16 == b[0] / 16;
      assert a[0] % 16 == b[0] % 16;
      assert ha[2..] == Hex(a[1..]) && hb[2..] == Hex(b[1..]);
      HexInjective(a[1..], b[1..]);
      assert a == [a[0]] + a[1..] && b == [b[0]] + b[1..];
    }
  }
}
