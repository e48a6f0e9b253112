/** Unsigned integers stored in a run of bytes, in either byte order.
    Ruby's `S`, `L` and `Q` unpack directives use the host's native order,
    so the order is a parameter rather than fixed to network order. */
module Bytes {
  import opened Bits

  type byte = x: int | 0 <= x < 256

  datatype ByteOrder = BigEndian | LittleEndian

  /** Most significant byte first. */
  function FromBigEndian(s: seq<byte>): nat
  {
    if |s| == 0 then 0 else FromBigEndian(s[..|s| - 1]) * 256 + s[|s| - 1]
  }

  /** Least significant byte first. */
  function FromLittleEndian(s: seq<byte>): nat
  {
    if |s| == 0 then 0 else s[0] + 256 * FromLittleEndian(s[1..])
  }

  /** The unsigned integer that the bytes `s` hold in byte order `order`. */
  function ReadUint(s: seq<byte>, order: ByteOrder): nat
  {
    match order
    case BigEndian => FromBigEndian(s)
    case LittleEndian => FromLittleEndian(s)
  }

  lemma {:induction false} BigEndianBound(s: seq<byte>)
    ensures FromBigEndian(s) < Pow2(8 * |s|)
  {
    if |s| > 0 {
      BigEndianBound(s[..|s| - 1]);
      ByteScale(|s|);
    }
  }

  lemma {:induction false} LittleEndianBound(s: seq<byte>)
    ensures FromLittleEndian(s) < Pow2(8 * |s|)
  {
    if |s| > 0 {
      LittleEndianBound(s[1..]);
      ByteScale(|s|);
    }
  }

  /** A single byte reads as itself in either byte order. */
  lemma ReadUintByte(s: seq<byte>, order: ByteOrder)
    requires |s| == 1
    ensures ReadUint(s, order) == s[0]
  {
    assert FromBigEndian(s[..0]) == 0 && FromLittleEndian(s[1..]) == 0;
    assert s[|s| - 1] == s[0];
  }

  /** `n` bytes hold a value below `2^(8n)`. */
  lemma ReadUintBound(s: seq<byte>, order: ByteOrder)
    ensures ReadUint(s, order) < Pow2(8 * |s|)
  {
    match order
    case BigEndian => BigEndianBound(s);
    case LittleEndian => LittleEndianBound(s);
  }

  /** The bounds of the 16-, 32- and 64-bit fields. */
  lemma ReadUintFits(s: seq<byte>, order: ByteOrder)
    ensures |s| == 2 ==> ReadUint(s, order) < 0x1_0000
    ensures |s| == 4 ==> ReadUint(s, order) < 0x1_0000_0000
    ensures |s| == 8 ==> ReadUint(s, order) < 0x1_0000_0000_0000_0000
  {
    var v := ReadUint(s, order);
    ReadUintBound(s, order);
    if |s| == 2 {
      Pow2Small();
      assert v < Pow2(16);
    } else if |s| == 4 {
      Pow2Of32();
      assert v < Pow2(32);
    } else if |s| == 8 {
      Pow2Of64();
      assert v < Pow2(64);
    }
  }

  function ToBigEndian(v: nat, n: nat): (s: seq<byte>)
    ensures |s| == n
  {
    if n == 0 then [] else ToBigEndian(v / 256, n - 1) + [v % 256]
  }

  function ToLittleEndian(v: nat, n: nat): (s: seq<byte>)
    ensures |s| == n
  {
    if n == 0 then [] else [v % 256] + ToLittleEndian(v / 256, n - 1)
  }

  /** The low `n` bytes of `v`, in byte order `order`. */
  function WriteUint(v: nat, n: nat, order: ByteOrder): (s: seq<byte>)
    ensures |s| == n
  {
    match order
    case BigEndian => ToBigEndian(v, n)
    case LittleEndian => ToLittleEndian(v, n)
  }

  lemma ByteScale(n: nat)
    requires n >= 1
    ensures Pow2(8 * n) == 256 * Pow2(8 * (n - 1))
  {
    assert 8 * n == 8 + 8 * (n - 1);
    Pow2Add(8, 8 * (n - 1));
    assert Pow2(8) == 256;
  }

  /** Writing a value that fits in `n` bytes and reading it back gives the value. */
  lemma {:induction false} ReadWrite(v: nat, n: nat, order: ByteOrder)
    requires v < Pow2(8 * n)
    ensures ReadUint(WriteUint(v, n, order), order) == v
  {
    if n > 0 {
      ByteScale(n);
      ReadWrite(v / 256, n - 1, order);
      match order
      case BigEndian =>
        var s := ToBigEndian(v, n);
        assert s[..n - 1] == ToBigEndian(v / 256, n - 1);
      case LittleEndian =>
        var s := ToLittleEndian(v, n);
        assert s[1..] == ToLittleEndian(v / 256, n - 1);
    }
  }

  lemma {:induction false} BigEndianWriteRead(s: seq<byte>)
    ensures ToBigEndian(FromBigEndian(s), |s|) == s
  {
    if |s| > 0 {
      var p := s[..|s| - 1];
      BigEndianWriteRead(p);
      var v := FromBigEndian(s);
      assert v / 256 == FromBigEndian(p) && v % 256 == s[|s| - 1];
      assert s == p + [s[|s| - 1]];
    }
  }

  lemma {:induction false} LittleEndianWriteRead(s: seq<byte>)
    ensures ToLittleEndian(FromLittleEndian(s), |s|) == s
  {
    if |s| > 0 {
      var p := s[1..];
      LittleEndianWriteRead(p);
      var v := FromLittleEndian(s);
      assert v / 256 == FromLittleEndian(p) && v % 256 == s[0];
      assert s == [s[0]] + p;
    }
  }

  /** Reading bytes and writing the value back at the same width gives the bytes. */
  lemma WriteRead(s: seq<byte>, order: ByteOrder)
    ensures WriteUint(ReadUint(s, order), |s|, order) == s
  {
    match order
    case BigEndian => BigEndianWriteRead(s);
    case LittleEndian => LittleEndianWriteRead(s);
  }

  /** Two byte runs of one width read as the same integer only if they are equal. */
  lemma ReadInjective(s: seq<byte>, t: seq<byte>, order: ByteOrder)
    requires |s| == |t| && ReadUint(s, order) == ReadUint(t, order)
    ensures s == t
  {
    WriteRead(s, order);
    WriteRead(t, order);
  }

  /** A run of bytes reads as zero exactly when every byte is zero. */
  lemma {:induction false} ReadZero(s: seq<byte>, order: ByteOrder)
    ensures ReadUint(s, order) == 0 <==> forall i :: 0 <= i < |s| ==> s[i] == 0
  {
    if |s| > 0 {
      match order
      case BigEndian =>
        var p := s[..|s| - 1];
        ReadZero(p, order);
        assert forall i :: 0 <= i < |p| ==> p[i] == s[i];
      case LittleEndian =>
        var p := s[1..];
        ReadZero(p, order);
        assert forall i :: 0 <= i < |p| ==> p[i] == s[i + 1];
    }
  }
}
