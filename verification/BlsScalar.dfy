/** Reduction of an arbitrary big-endian byte string to a BLS12-381 scalar. */
module BlsScalar {
  import opened Bytes
  import opened Division

  /** The order of the BLS12-381 scalar field. */
  const ORDER: nat := 0x73eda753299d7d483339d80809a1d80553bda402fffe5bfeffffffff00000001

  /** It is z^4 - z^2 + 1 for the parameter z of the curve. */
  lemma OrderOfCurve()
    ensures var z := 0xd201000000010000;
            ORDER == z * z * z * z - z * z + 1
  {
  }

  type Scalar = x: nat | x < ORDER

  function Residue(n: nat): Scalar { n % ORDER }

  /** The library's reduction of 64 little-endian bytes. */
  function FromBytesWide(le: seq<byte>): Scalar
    requires |le| == 64
  {
    Residue(LittleEndian(le))
  }

  function Mul(x: Scalar, y: Scalar): Scalar { Residue(x * y) }

  function Add(x: Scalar, y: Scalar): Scalar { Residue(x + y) }

  /** Places a chunk right-aligned in a zero buffer, then reverses the buffer. */
  method PadAndReverse(bytes: seq<byte>) returns (le: seq<byte>)
    requires |bytes| <= 64
    ensures |le| == 64 && LittleEndian(le) == BigEndian(bytes)
  {
    var padded := new byte[64](_ => 0);
    var start := 64 - |bytes|;
    for i := 0 to |bytes|
      invariant forall k :: 0 <= k < 64 ==> padded[k] == if start <= k < start + i then bytes[k - start] else 0
    {
      padded[start + i] := bytes[i];
    }
    le := Reverse(padded[..]);
    Padded(bytes, le);
  }

  /** Writes a chunk in reverse order into the low end of a zero buffer. */
  method ReverseIntoLow(chunk: seq<byte>) returns (le: seq<byte>)
    requires |chunk| <= 64
    ensures |le| == 64 && LittleEndian(le) == BigEndian(chunk)
  {
    var padded := new byte[64](_ => 0);
    for i := 0 to |chunk|
      invariant forall k :: 0 <= k < 64 ==> padded[k] == if k < i then chunk[|chunk| - 1 - k] else 0
    {
      padded[i] := chunk[|chunk| - 1 - i];
    }
    le := padded[..];
    Padded(chunk, le);
  }

  lemma Padded(bytes: seq<byte>, le: seq<byte>)
    requires |bytes| <= |le|
    requires forall k :: 0 <= k < |le| ==> le[k] == if k < |bytes| then bytes[|bytes| - 1 - k] else 0
    ensures LittleEndian(le) == BigEndian(bytes)
  {
    assert le == Reverse(bytes) + le[|bytes|..];
    LittleEndianPadded(Reverse(bytes), le[|bytes|..]);
    ReverseValue(bytes);
  }

  /** 2^256 as a scalar: byte 32 of the little-endian buffer is one. */
  method Radix() returns (r: Scalar)
    ensures r == Residue(Pow256(32))
  {
    hide Pow256, LittleEndian, Residue;
    var le := new byte[64](_ => 0);
    LittleEndianZeros(le[..]);
    LittleEndianUpdate(le[..], 32, 1);
    ghost var zeros := le[..];
    le[32] := 1;
    assert le[..] == zeros[32 := 1];
    r := FromBytesWide(le[..]);
  }

  /** One Horner step on residues is the step on the numbers, reduced once. */
  lemma ScalarStep(x: nat, p: nat, c: nat)
    ensures Add(Mul(Residue(x), Residue(p)), Residue(c)) == Residue(x * p + c)
  {
    HornerStep(x, p, c, ORDER);
  }

  lemma HornerStep(x: nat, p: nat, c: nat, m: nat)
    requires m > 0
    ensures (((x % m) * (p % m)) % m + c % m) % m == (x * p + c) % m
  {
    var a, b := x % m, p % m;
    ProductResidue(x, p, m);
    var xp := x * p;
    SameResidue(xp + c, xp % m + c % m, xp / m + c / m, m)
      by { SplitSum(xp, c, m); }
  }

  lemma SplitSum(x: nat, c: nat, m: nat)
    requires m > 0
    ensures x + c == x % m + c % m + (x / m + c / m) * m
  {
    assert x == m * (x / m) + x % m;
    assert c == m * (c / m) + c % m;
    assert (x / m + c / m) * m == m * (x / m) + m * (c / m);
  }

  lemma ProductResidue(x: nat, p: nat, m: nat)
    requires m > 0
    ensures (x * p) % m == ((x % m) * (p % m)) % m
  {
    var a, i, b, j := x % m, x / m, p % m, p / m;
    assert x == m * i + a && p == m * j + b;
    Product(m, i, a, j, b);
    SameResidue(x * p, a * b, m * i * j + i * b + j * a, m);
  }

  lemma Product(m: nat, i: nat, a: nat, j: nat, b: nat)
    ensures (m * i + a) * (m * j + b) == a * b + (m * i * j + i * b + j * a) * m
  {
    assert (m * i + a) * (m * j + b) == (m * i) * (m * j) + (m * i) * b + a * (m * j) + a * b;
    assert (m * i) * (m * j) == (m * i * j) * m;
    assert (m * i) * b == (i * b) * m;
    assert a * (m * j) == (j * a) * m;
    assert (m * i * j + i * b + j * a) * m == (m * i * j) * m + (i * b) * m + (j * a) * m;
  }

  lemma ResidueZero()
    ensures Residue(0) == 0 && BigEndian([]) == 0
  {
  }

  lemma ChunkStep(done: seq<byte>, chunk: seq<byte>)
    requires |chunk| == 32
    ensures Add(Mul(Residue(BigEndian(done)), Residue(Pow256(32))), Residue(BigEndian(chunk)))
         == Residue(BigEndian(done + chunk))
  {
    hide Pow256, Residue, Mul, Add, BigEndian;
    BigEndianConcat(done, chunk);
    ScalarStep(BigEndian(done), Pow256(32), BigEndian(chunk));
  }

  /** Every byte string, of any length, maps to its big-endian value modulo the group order. */
  method BytesToScalar(bytes: seq<byte>) returns (result: Scalar)
    ensures result == Residue(BigEndian(bytes))
  {
    hide Pow256, LittleEndian, Residue, Mul, Add;
    ResidueZero();
    if bytes == [] {
      return 0;
    }
    if |bytes| <= 64 {
      var le := PadAndReverse(bytes);
      return FromBytesWide(le);
    }
    var radix := Radix();
    result := 0;
    var fullChunks, remainder := |bytes| / 32, |bytes| % 32;
    var offset := 0;
    assert bytes[..0] == [];
    if remainder > 0 {
      var le := ReverseIntoLow(bytes[..remainder]);
      result := FromBytesWide(le);
      offset := remainder;
    }
    for n := 0 to fullChunks
      invariant offset == remainder + 32 * n
      invariant result == Residue(BigEndian(bytes[..offset]))
    {
      result := Mul(result, radix);
      var chunk := bytes[offset..offset + 32];
      var le := ReverseIntoLow(chunk);
      result := Add(result, FromBytesWide(le));
      ChunkStep(bytes[..offset], chunk);
      assert bytes[..offset + 32] == bytes[..offset] + chunk;
      offset := offset + 32;
    }
    assert bytes[..offset] == bytes;
  }
}
