/** Numbers on the wire (rns_icn/packet.py): big-endian integers, varints and flag bits. */
module Wire {
  import opened Base

  /** One constructor for each exception the parsers raise. */
  datatype Error =
    | NameError | InterestError | DataError | SubscribeError | InvalidateError | NackError
    | DiscoveryError | CapabilityError | ValueError | UnsupportedVersion | StructError | IndexError

  datatype Result<+T> = Ok(value: T) | Err(error: Error) {
    predicate IsFailure() { Err? }

    function PropagateFailure<U>(): Result<U>
      requires Err?
    {
      Err(error)
    }

    function Extract(): T
      requires Ok?
    {
      value
    }
  }

  function Check(ok: bool, error: Error): Result<()> {
    if ok then Ok(()) else Err(error)
  }

  // ----- integers -----

  function Pow256(width: nat): (r: nat)
    ensures r >= 1
  {
    if width == 0 then 1 else 256 * Pow256(width - 1)
  }

  /** `n` in `width` octets, most significant first. */
  function BigEndian(n: nat, width: nat): (r: bytes)
    requires n < Pow256(width)
    ensures |r| == width
  {
    if width == 0 then [] else BigEndian(n / 256, width - 1) + [n % 256]
  }

  function Number(bs: bytes): nat {
    if bs == [] then 0 else 256 * Number(bs[..|bs| - 1]) + bs[|bs| - 1]
  }

  lemma {:induction false} NumberOfBigEndian(n: nat, width: nat)
    requires n < Pow256(width)
    ensures Number(BigEndian(n, width)) == n
  {
    if width > 0 {
      NumberOfBigEndian(n / 256, width - 1);
      var r := BigEndian(n, width);
      assert r[..|r| - 1] == BigEndian(n / 256, width - 1);
    }
  }

  lemma {:induction false} BigEndianOfNumber(bs: bytes)
    ensures Number(bs) < Pow256(|bs|)
    ensures BigEndian(Number(bs), |bs|) == bs
  {
    if bs != [] {
      var init, last := bs[..|bs| - 1], bs[|bs| - 1];
      BigEndianOfNumber(init);
      assert Number(bs) / 256 == Number(init) && Number(bs) % 256 == last;
      assert bs == init + [last];
    }
  }

  const U32_LIMIT: nat := 0x1_0000_0000
  const U64_LIMIT: nat := 0x1_0000_0000_0000_0000

  lemma Widths()
    ensures Pow256(2) == 0x1_0000 && Pow256(4) == U32_LIMIT && Pow256(8) == U64_LIMIT
  {
    assert Pow256(1) == 256 && Pow256(2) == 0x1_0000 && Pow256(3) == 0x100_0000 && Pow256(4) == U32_LIMIT;
    assert Pow256(5) == 0x100_0000_0000 && Pow256(6) == 0x1_0000_0000_0000 && Pow256(7) == 0x100_0000_0000_0000;
  }

  /** Unsigned 32-bit and 64-bit fields. */
  function U32(n: nat): (r: bytes)
    requires n < U32_LIMIT
    ensures |r| == 4 && Number(r) == n
  {
    Widths();
    NumberOfBigEndian(n, 4);
    BigEndian(n, 4)
  }

  function U64(n: nat): (r: bytes)
    requires n < U64_LIMIT
    ensures |r| == 8 && Number(r) == n
  {
    Widths();
    NumberOfBigEndian(n, 8);
    BigEndian(n, 8)
  }

  lemma U64Injective(a: nat, b: nat)
    requires a < U64_LIMIT && b < U64_LIMIT && U64(a) == U64(b)
    ensures a == b
  {
  }

  /** `Number` of eight octets fits the field it was read from. */
  lemma NumberFits(bs: bytes)
    requires |bs| == 4 || |bs| == 8
    ensures Number(bs) < (if |bs| == 4 then U32_LIMIT else U64_LIMIT)
  {
    BigEndianOfNumber(bs);
    Widths();
  }

  // ----- varints -----

  function WriteVarint(v: nat): (r: bytes)
    requires v < U64_LIMIT
  {
    Widths();
    if v < 0xFD then [v]
    else if v <= 0xFFFF then [0xFD] + BigEndian(v, 2)
    else if v <= 0xFFFF_FFFF then [0xFE] + BigEndian(v, 4)
    else [0xFF] + BigEndian(v, 8)
  }

  function VarintWidth(first: byte): nat {
    if first < 0xFD then 0 else if first == 0xFD then 2 else if first == 0xFE then 4 else 8
  }

  /** The value and the octets it took.  A cut-off varint fails inside the unpacking. */
  function ReadVarint(data: bytes): Result<(nat, nat)> {
    if data == [] then Err(InterestError)
    else
      var width := VarintWidth(data[0]);
      if width == 0 then Ok((data[0], 1))
      else if |data| < 1 + width then Err(StructError)
      else Ok((Number(data[1..1 + width]), 1 + width))
  }

  /** Reading undoes writing, whatever follows. */
  lemma VarintRoundTrip(v: nat, rest: bytes)
    requires v < U64_LIMIT
    ensures ReadVarint(WriteVarint(v) + rest) == Ok((v, |WriteVarint(v)|))
  {
    Widths();
    var w := WriteVarint(v);
    var width := VarintWidth(w[0]);
    assert (w + rest)[0] == w[0];
    assert width > 0 ==> (w + rest)[1..1 + width] == w[1..] == BigEndian(v, width);
    if width > 0 {
      NumberOfBigEndian(v, width);
    }
  }

  /** Writing a read value reproduces the octets read exactly when they were the shortest form. */
  lemma VarintCanonical(data: bytes)
    requires ReadVarint(data).Ok?
    ensures var (v, used) := ReadVarint(data).value;
      && used <= |data| && v < U64_LIMIT
      && (WriteVarint(v) == data[..used] <==> |WriteVarint(v)| == used)
  {
    Widths();
    var (v, used) := ReadVarint(data).value;
    if used > 1 {
      BigEndianOfNumber(data[1..used]);
      assert data[..used] == [data[0]] + data[1..used];
    }
  }

  // ----- flags -----

  function Bit(on: bool, value: nat): nat { if on then value else 0 }

  predicate HasBit(flags: byte, value: nat)
    requires value > 0
  {
    flags / value % 2 == 1
  }

  /** Six flags in one octet can be read back one by one. */
  lemma FlagBits(a: bool, b: bool, c: bool, d: bool, e: bool, f: bool)
    ensures var flags := Bit(a, 1) + Bit(b, 2) + Bit(c, 4) + Bit(d, 8) + Bit(e, 16) + Bit(f, 32);
      && flags < 64
      && HasBit(flags, 1) == a && HasBit(flags, 2) == b && HasBit(flags, 4) == c
      && HasBit(flags, 8) == d && HasBit(flags, 16) == e && HasBit(flags, 32) == f
  {
  }
}
