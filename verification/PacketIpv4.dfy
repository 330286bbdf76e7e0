/** IPv4 header normalisation and its checksum (section 3.1 of RFC 791, RFC 1071). */
module PacketIpv4 {
  import opened Bytes

  datatype Ipv4Error = PacketTooShort | NotIpv4 | BadHeaderLength

  const ONES := 0xffff

  function Destination(packet: bytes): Option<bytes> {
    if |packet| < 20 || packet[0] / 16 != 4 then None else Some(packet[16..20])
  }

  // ----------------------------------------------------------------- checksum

  function Word(high: byte, low: byte): nat {
    high as int * 256 + low as int
  }

  /** The sum of the header's 16-bit words, before folding; an odd last byte does not take part. */
  function WordSum(header: bytes): nat {
    if |header| < 2 then 0 else Word(header[0], header[1]) + WordSum(header[2..])
  }

  /** Carries above 16 bits are added back until none is left. */
  function Fold(sum: nat): (r: nat)
    ensures r <= ONES
    ensures r % ONES == sum % ONES
    ensures r == 0 <==> sum == 0
  {
    if sum / U16 == 0 then sum
    else
      assert sum == sum / U16 * ONES + (sum % U16 + sum / U16);
      ModuloOnes(sum / U16, sum % U16 + sum / U16);
      Fold(sum % U16 + sum / U16)
  }

  lemma {:induction false} ModuloOnes(k: nat, rest: nat)
    ensures (k * ONES + rest) % ONES == rest % ONES
  {
    if k > 0 {
      ModuloOnes(k - 1, rest);
      assert k * ONES + rest == (k - 1) * ONES + rest + ONES;
      assert ((k - 1) * ONES + rest + ONES) % ONES == ((k - 1) * ONES + rest) % ONES;
    }
  }

  function Checksum(header: bytes): (c: nat)
    ensures c <= ONES
  {
    ONES - Fold(WordSum(header))
  }

  /** Filling a zero word adds its value to the sum. */
  lemma {:induction false} WordSumFill(header: bytes, at: nat, high: byte, low: byte)
    requires at % 2 == 0 && at + 1 < |header| && header[at] == 0 && header[at + 1] == 0
    ensures WordSum(header[at := high][at + 1 := low]) == WordSum(header) + Word(high, low)
    decreases at
  {
    var filled := header[at := high][at + 1 := low];
    if at == 0 {
      assert filled[2..] == header[2..];
    } else {
      WordSumFill(header[2..], at - 2, high, low);
      assert filled[2..] == header[2..][at - 2 := high][at - 1 := low];
    }
  }

  /** The folded sum of a header that carries its own checksum is all ones. */
  lemma ChecksumVerifies(header: bytes, at: nat)
    requires at % 2 == 0 && at + 1 < |header| && header[at] == 0 && header[at + 1] == 0
    ensures var c := Checksum(header);
            Checksum(header[at := c / 256][at + 1 := c % 256]) == 0
  {
    var c, sum := Checksum(header), WordSum(header);
    WordSumFill(header, at, c / 256, c % 256);
    assert Word(c / 256, c % 256) == c;
    var total := sum + c;
    assert total % ONES == 0 by {
      ComplementIsZero(sum, Fold(sum));
    }
    FullFold(total);
  }

  lemma ComplementIsZero(sum: nat, folded: nat)
    requires folded <= ONES && folded % ONES == sum % ONES
    ensures (sum + (ONES - folded)) % ONES == 0
  {
    var q := sum / ONES;
    assert sum == q * ONES + sum % ONES;
    if folded == ONES {
      assert sum + (ONES - folded) == sum;
    } else {
      assert folded == sum % ONES;
      assert sum + (ONES - folded) == q * ONES + ONES;
      ModuloOnes(q, ONES);
    }
  }

  lemma FullFold(total: nat)
    requires total > 0 && total % ONES == 0
    ensures Fold(total) == ONES
  {
  }

  // ------------------------------------------------------------ normalisation

  function HeaderLen(packet: bytes): nat
    requires |packet| > 0
  {
    packet[0] as int % 16 * 4
  }

  function Ipv4Fault(packet: bytes): Option<Ipv4Error> {
    if |packet| < 20 then Some(PacketTooShort)
    else if packet[0] / 16 != 4 then Some(NotIpv4)
    else if HeaderLen(packet) < 20 || |packet| < HeaderLen(packet) then Some(BadHeaderLength)
    else None
  }

  /** Neither a fragment nor the first of several. */
  predicate Unfragmented(packet: bytes)
    requires |packet| >= 20
  {
    Word(packet[6], packet[7]) % 0x4000 == 0
  }

  /** The packet with its mutable fields reset and a zero checksum. */
  function Cleared(packet: bytes): (r: bytes)
    requires |packet| >= 20
    ensures |r| == |packet|
  {
    var untagged := packet[1 := 0];
    var anonymous := if Unfragmented(packet) then untagged[4 := 0][5 := 0] else untagged;
    anonymous[8 := 64][10 := 0][11 := 0]
  }

  function WithChecksum(packet: bytes, headerLen: nat): (r: bytes)
    requires 20 <= headerLen <= |packet|
    ensures |r| == |packet|
  {
    var c := Checksum(packet[..headerLen]);
    packet[10 := c / 256][11 := c % 256]
  }

  function Normalize(packet: bytes): Result<bytes, Ipv4Error> {
    if Ipv4Fault(packet).Some? then Err(Ipv4Fault(packet).value)
    else Ok(WithChecksum(Cleared(packet), HeaderLen(packet)))
  }

  /** The header of a normalised packet sums to zero. */
  lemma NormalizedChecksum(packet: bytes)
    requires Normalize(packet).Ok?
    ensures Checksum(Normalize(packet).value[..HeaderLen(packet)]) == 0
  {
    var cleared, n := Cleared(packet), HeaderLen(packet);
    var header: bytes := cleared[..n];
    var c := Checksum(header);
    ChecksumVerifies(header, 10);
    assert WithChecksum(cleared, n)[..n] == header[10 := c / 256][11 := c % 256];
  }

  lemma LowBits(high: nat, low: nat)
    requires low < 256
    ensures (high * 256 + low) % 0x4000 == 0 <==> high % 64 == 0 && low == 0
  {
    var q, r := high / 64, high % 64;
    assert high == 64 * q + r;
    assert high * 256 + low == 0x4000 * q + (r * 256 + low);
  }

  /** Of the flags and offset, the "more fragments" bit and the 13 offset bits count; the other two flags do not. */
  lemma UnfragmentedMeans(packet: bytes)
    requires |packet| >= 20
    ensures Unfragmented(packet) <==> packet[6] % 64 == 0 && packet[7] == 0
  {
    LowBits(packet[6] as int, packet[7] as int);
  }

  /** Exactly which packets are refused, and why. */
  lemma NormalizeRefuses(packet: bytes)
    ensures Normalize(packet) == Err(PacketTooShort) <==> |packet| < 20
    ensures Normalize(packet) == Err(NotIpv4) <==> |packet| >= 20 && !(0x40 <= packet[0] < 0x50)
    ensures Normalize(packet) == Err(BadHeaderLength)
            <==> |packet| >= 20 && 0x40 <= packet[0] < 0x50 && !(20 <= (packet[0] - 0x40) as int * 4 <= |packet|)
  {
  }

  /** Only the type of service, identification, time to live and checksum may change. */
  lemma NormalizedFields(packet: bytes)
    requires Normalize(packet).Ok?
    ensures var q := Normalize(packet).value;
            && |q| == |packet|
            && q[1] == 0 && q[8] == 64
            && (if packet[6] % 64 == 0 && packet[7] == 0 then q[4] == 0 && q[5] == 0 else q[4..6] == packet[4..6])
            && (forall i :: 0 <= i < |q| && i !in {1, 4, 5, 8, 10, 11} ==> q[i] == packet[i])
            && Destination(q) == Destination(packet)
            && q[HeaderLen(packet)..] == packet[HeaderLen(packet)..]
  {
    UnfragmentedMeans(packet);
  }

  /** Normalising a normalised packet changes nothing. */
  lemma NormalizeIdempotent(packet: bytes)
    requires Normalize(packet).Ok?
    ensures Normalize(Normalize(packet).value) == Normalize(packet)
  {
    var q, n := Normalize(packet).value, HeaderLen(packet);
    NormalizedFields(packet);
    assert Ipv4Fault(q) == None && HeaderLen(q) == n;
    assert Cleared(q) == Cleared(packet);
  }

  // ------------------------------------------------------------------ in place

  /** `ipv4_header_checksum`: a running sum over the words, then the folding loop. */
  method ComputeChecksum(header: bytes) returns (checksum: nat)
    ensures checksum == Checksum(header)
  {
    var sum: nat, i: nat := 0, 0;
    while i + 1 < |header|
      invariant i <= |header|
      invariant sum + WordSum(header[i..]) == WordSum(header)
    {
      assert header[i..][2..] == header[i + 2..];
      sum := sum + Word(header[i], header[i + 1]);
      i := i + 2;
    }
    ghost var total := sum;
    while sum / U16 != 0
      invariant Fold(sum) == Fold(total)
      decreases sum
    {
      sum := sum % U16 + sum / U16;
    }
    checksum := ONES - sum;
  }

  /** `normalize_ipv4_packet`: rewrites the packet in its buffer. */
  method NormalizeInPlace(packet: array<byte>) returns (fault: Option<Ipv4Error>)
    modifies packet
    ensures fault == Ipv4Fault(old(packet[..]))
    ensures fault.None? ==> Normalize(old(packet[..])) == Ok(packet[..])
    ensures fault.Some? ==> packet[..] == old(packet[..])
  {
    if packet.Length < 20 {
      return Some(PacketTooShort);
    }
    if packet[0] / 16 != 4 {
      return Some(NotIpv4);
    }
    var headerLen := packet[0] as int % 16 * 4;
    if headerLen < 20 || packet.Length < headerLen {
      return Some(BadHeaderLength);
    }
    ghost var start := packet[..];
    packet[1] := 0;
    if Word(packet[6], packet[7]) % 0x4000 == 0 {
      packet[4], packet[5] := 0, 0;
    }
    packet[8] := 64;
    packet[10], packet[11] := 0, 0;
    assert packet[..] == Cleared(start);
    var checksum := ComputeChecksum(packet[..headerLen]);
    assert packet[..headerLen] == packet[..][..headerLen];
    packet[10], packet[11] := checksum / 256, checksum % 256;
    assert packet[..] == WithChecksum(Cleared(start), headerLen);
    fault := None;
  }

  /** Normalises a copy, as the tunnel core does with a submitted packet. */
  method NormalizeCopy(packet: bytes) returns (result: Result<bytes, Ipv4Error>)
    ensures result == Normalize(packet)
  {
    var copy := new byte[|packet|](i requires 0 <= i < |packet| => packet[i]);
    assert copy[..] == packet;
    var fault := NormalizeInPlace(copy);
    result := if fault.Some? then Err(fault.value) else Ok(copy[..]);
  }
}
