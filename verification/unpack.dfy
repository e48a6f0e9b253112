/** The part of Ruby's `String#unpack` the parser uses: a format string made of
    the directives `C` (8-bit), `S` (16-bit), `L` (32-bit) and `Q` (64-bit),
    all unsigned and in native byte order, read left to right from the start
    of the string; bytes beyond the format are ignored.  `Pack` writes values
    back in the same layout and is the inverse of `Unpack`. */
module UnpackFormat {
  import opened Bits
  import opened Bytes

  /** One unpack directive: `C`, `S`, `L` or `Q`. */
  datatype Directive = C | S | L | Q

  /** Number of bytes one directive consumes. */
  function Width(d: Directive): nat
  {
    match d
    case C => 1
    case S => 2
    case L => 4
    case Q => 8
  }

  /** Number of bytes a whole format consumes. */
  function FormatWidth(fmt: seq<Directive>): nat
  {
    if |fmt| == 0 then 0 else Width(fmt[0]) + FormatWidth(fmt[1..])
  }

  /** Byte offset at which the `i`-th field of `fmt` starts: the width of
      the fields before it. */
  function FieldOffset(fmt: seq<Directive>, i: nat): nat
    requires i <= |fmt|
  {
    if i == 0 then 0 else FieldOffset(fmt, i - 1) + Width(fmt[i - 1])
  }

  /** After the first field, offsets are those of the rest of the format,
      moved by the first field's width. */
  lemma {:induction false} FieldOffsetTail(fmt: seq<Directive>, i: nat)
    requires 0 < i <= |fmt|
    ensures FieldOffset(fmt, i) == Width(fmt[0]) + FieldOffset(fmt[1..], i - 1)
  {
    if i > 1 {
      FieldOffsetTail(fmt, i - 1);
      assert fmt[1..][i - 2] == fmt[i - 1];
    }
  }

  /** The format ends where its last field ends. */
  lemma {:induction false} FormatEnd(fmt: seq<Directive>)
    ensures FormatWidth(fmt) == FieldOffset(fmt, |fmt|)
  {
    if |fmt| > 0 {
      FormatEnd(fmt[1..]);
      FieldOffsetTail(fmt, |fmt|);
    }
  }

  lemma {:induction false} FieldOffsetMonotone(fmt: seq<Directive>, i: nat, j: nat)
    requires i <= j <= |fmt|
    ensures FieldOffset(fmt, i) <= FieldOffset(fmt, j)
  {
    if i < j {
      FieldOffsetMonotone(fmt, i, j - 1);
    }
  }

  /** Every field ends within the format. */
  lemma FieldWithin(fmt: seq<Directive>, i: nat)
    requires i < |fmt|
    ensures FieldOffset(fmt, i) + Width(fmt[i]) <= FormatWidth(fmt)
  {
    FieldOffsetMonotone(fmt, i + 1, |fmt|);
    FormatEnd(fmt);
  }

  /** The bytes the `i`-th field of `fmt` occupies in `data`. */
  function FieldBytes(fmt: seq<Directive>, data: seq<byte>, i: nat): (s: seq<byte>)
    requires i < |fmt| && FormatWidth(fmt) <= |data|
    ensures |s| == Width(fmt[i])
  {
    FieldWithin(fmt, i);
    data[FieldOffset(fmt, i) .. FieldOffset(fmt, i) + Width(fmt[i])]
  }

  /** Every value fits the width of its directive. */
  predicate FitsFormat(fmt: seq<Directive>, vs: seq<nat>)
  {
    |vs| == |fmt| && forall i :: 0 <= i < |fmt| ==> vs[i] < Pow2(8 * Width(fmt[i]))
  }

  /** `data.unpack(fmt)`: field `i` is read from the bytes at its offset. */
  function Unpack(fmt: seq<Directive>, data: seq<byte>, order: ByteOrder): (vs: seq<nat>)
    requires FormatWidth(fmt) <= |data|
  {
    seq(|fmt|, i requires 0 <= i < |fmt| => ReadUint(FieldBytes(fmt, data, i), order))
  }

  /** Unpacking reads the first field off the front of the data, then
      unpacks the rest of the format from the bytes after it. */
  lemma UnpackCons(fmt: seq<Directive>, data: seq<byte>, order: ByteOrder)
    requires |fmt| > 0 && FormatWidth(fmt) <= |data|
    ensures Unpack(fmt, data, order) ==
      [ReadUint(data[..Width(fmt[0])], order)] + Unpack(fmt[1..], data[Width(fmt[0])..], order)
  {
    var w := Width(fmt[0]);
    var vs := Unpack(fmt, data, order);
    var rest := Unpack(fmt[1..], data[w..], order);
    assert vs[0] == ReadUint(data[..w], order) by {
      assert FieldBytes(fmt, data, 0) == data[..w];
    }
    FieldBytesTail(fmt, data);
    assert vs[1..] == rest by {
      assert forall j :: 0 <= j < |rest| ==> vs[1..][j] == vs[j + 1];
    }
    assert vs == [vs[0]] + vs[1..];
  }

  /** Every unpacked value fits the width of its directive. */
  lemma UnpackFits(fmt: seq<Directive>, data: seq<byte>, order: ByteOrder)
    requires FormatWidth(fmt) <= |data|
    ensures FitsFormat(fmt, Unpack(fmt, data, order))
  {
    var vs := Unpack(fmt, data, order);
    forall i | 0 <= i < |fmt|
      ensures vs[i] < Pow2(8 * Width(fmt[i]))
    {
      ReadUintBound(FieldBytes(fmt, data, i), order);
    }
  }

  lemma SliceOfSuffix(data: seq<byte>, w: nat, lo: nat, hi: nat)
    requires w + hi <= |data| && lo <= hi
    ensures data[w..][lo..hi] == data[w + lo .. w + hi]
  {
    var a, b := data[w..][lo..hi], data[w + lo .. w + hi];
    assert |a| == |b|;
    forall j | 0 <= j < |a|
      ensures a[j] == b[j]
    {
    }
  }

  /** The fields after the first sit one leading field further into the data. */
  lemma FieldBytesTail(fmt: seq<Directive>, data: seq<byte>)
    requires |fmt| > 0 && FormatWidth(fmt) <= |data|
    ensures forall i :: 1 <= i < |fmt| ==>
      FieldBytes(fmt, data, i) == FieldBytes(fmt[1..], data[Width(fmt[0])..], i - 1)
  {
    var w := Width(fmt[0]);
    forall i | 1 <= i < |fmt|
      ensures FieldBytes(fmt, data, i) == FieldBytes(fmt[1..], data[w..], i - 1)
    {
      var off := FieldOffset(fmt[1..], i - 1);
      FieldOffsetTail(fmt, i);
      assert fmt[1..][i - 1] == fmt[i];
      FieldWithin(fmt[1..], i - 1);
      SliceOfSuffix(data, w, off, off + Width(fmt[i]));
    }
  }

  /** The `i`-th unpacked value, given where its field starts. */
  lemma FieldAt(fmt: seq<Directive>, data: seq<byte>, order: ByteOrder, i: nat, off: nat)
    requires i < |fmt| && FormatWidth(fmt) <= |data| && FieldOffset(fmt, i) == off
    ensures off + Width(fmt[i]) <= |data|
    ensures Unpack(fmt, data, order)[i] == ReadUint(data[off .. off + Width(fmt[i])], order)
    ensures fmt[i] == C ==> Unpack(fmt, data, order)[i] == data[off]
  {
    FieldWithin(fmt, i);
    if fmt[i] == C {
      ReadUintByte(data[off .. off + 1], order);
    }
  }

  /** Only the bytes the format covers are read. */
  lemma UnpackTake(fmt: seq<Directive>, data: seq<byte>, n: nat, order: ByteOrder)
    requires FormatWidth(fmt) <= n <= |data|
    ensures Unpack(fmt, data[..n], order) == Unpack(fmt, data, order)
  {
    var a, b := Unpack(fmt, data[..n], order), Unpack(fmt, data, order);
    forall i | 0 <= i < |fmt|
      ensures a[i] == b[i]
    {
      FieldWithin(fmt, i);
      assert FieldBytes(fmt, data[..n], i) == FieldBytes(fmt, data, i);
    }
  }

  /** Offsets within a format do not depend on what follows it. */
  lemma {:induction false} FieldOffsetPrefix(fmt: seq<Directive>, more: seq<Directive>, i: nat)
    requires i <= |fmt|
    ensures FieldOffset(fmt + more, i) == FieldOffset(fmt, i)
  {
    if i > 0 {
      FieldOffsetPrefix(fmt, more, i - 1);
      assert (fmt + more)[i - 1] == fmt[i - 1];
    }
  }

  /** Unpacking with a longer format reads the shorter format's fields first,
      with the same values. */
  lemma UnpackPrefix(fmt: seq<Directive>, more: seq<Directive>, data: seq<byte>, order: ByteOrder)
    requires FormatWidth(fmt + more) <= |data|
    ensures FormatWidth(fmt) <= |data|
    ensures Unpack(fmt + more, data, order)[..|fmt|] == Unpack(fmt, data, order)
  {
    FormatEnd(fmt);
    FormatEnd(fmt + more);
    FieldOffsetPrefix(fmt, more, |fmt|);
    FieldOffsetMonotone(fmt + more, |fmt|, |fmt + more|);
    var a, b := Unpack(fmt + more, data, order)[..|fmt|], Unpack(fmt, data, order);
    forall i | 0 <= i < |fmt|
      ensures a[i] == b[i]
    {
      FieldOffsetPrefix(fmt, more, i);
      assert (fmt + more)[i] == fmt[i];
    }
  }

  function Pack(fmt: seq<Directive>, vs: seq<nat>, order: ByteOrder): (data: seq<byte>)
    requires |vs| == |fmt|
    ensures |data| == FormatWidth(fmt)
  {
    if |fmt| == 0 then []
    else WriteUint(vs[0], Width(fmt[0]), order) + Pack(fmt[1..], vs[1..], order)
  }

  lemma FitsTail(fmt: seq<Directive>, vs: seq<nat>)
    requires |fmt| > 0 && FitsFormat(fmt, vs)
    ensures FitsFormat(fmt[1..], vs[1..])
  {
    forall i | 0 <= i < |fmt| - 1
      ensures vs[1..][i] < Pow2(8 * Width(fmt[1..][i]))
    {
      assert vs[1..][i] == vs[i + 1] && fmt[1..][i] == fmt[i + 1];
    }
  }

  /** Unpacking what `Pack` wrote, with anything appended, returns the values. */
  lemma {:induction false} UnpackPack(fmt: seq<Directive>, vs: seq<nat>, rest: seq<byte>, order: ByteOrder)
    requires FitsFormat(fmt, vs)
    ensures Unpack(fmt, Pack(fmt, vs, order) + rest, order) == vs
  {
    if |fmt| > 0 {
      var w := Width(fmt[0]);
      var head := WriteUint(vs[0], w, order);
      var tail := Pack(fmt[1..], vs[1..], order) + rest;
      var data := Pack(fmt, vs, order) + rest;
      assert data == head + tail;
      assert data[..w] == head && data[w..] == tail;
      FitsTail(fmt, vs);
      UnpackCons(fmt, data, order);
      UnpackPack(fmt[1..], vs[1..], rest, order);
      ReadWrite(vs[0], w, order);
      assert vs == [vs[0]] + vs[1..];
    }
  }

  /** Packing what `Unpack` read gives back exactly the bytes the format covers. */
  lemma {:induction false} PackUnpack(fmt: seq<Directive>, data: seq<byte>, order: ByteOrder)
    requires FormatWidth(fmt) <= |data|
    ensures Pack(fmt, Unpack(fmt, data, order), order) == data[..FormatWidth(fmt)]
  {
    if |fmt| > 0 {
      var w := Width(fmt[0]);
      var vs := Unpack(fmt, data, order);
      UnpackCons(fmt, data, order);
      PackUnpack(fmt[1..], data[w..], order);
      WriteRead(data[..w], order);
      assert vs[1..] == Unpack(fmt[1..], data[w..], order);
      assert data[..FormatWidth(fmt)] == data[..w] + data[w..][..FormatWidth(fmt[1..])];
    }
  }
}
