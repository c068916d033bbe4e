/** Addresses in plain arithmetic: what the masks, the hash and the search come to in a subnet with
    a given number of host bits. */
module SubnetLaws {
  import opened Words
  import opened NodeIdentity
  import opened Subnet

  /** The least address of the block of `size` addresses that ip lies in. */
  ghost function Block(ip: Word32, size: nat): int
    requires size > 0
  {
    ip - ip % size
  }

  lemma {:induction false} LowIsRemainder(x: nat, n: nat)
    ensures Low(x, n) == x % Pow2(n)
  {
    if n > 0 {
      LowIsRemainder(x / 2, n - 1);
      HalfRemainder(x, Pow2(n - 1), x / 2 / Pow2(n - 1), x / 2 % Pow2(n - 1));
    }
  }

  lemma HalfRemainder(x: nat, half: nat, q: int, r: int)
    requires 0 <= r < half && x / 2 == half * q + r
    ensures x % (2 * half) == 2 * r + x % 2
  {
    assert x == 2 * (half * q) + 2 * r + x % 2;
    assert 2 * (half * q) == (2 * half) * q;
    DivisionUnique(x, 2 * half, q, 2 * r + x % 2);
  }

  lemma PrefixIsBlock(net: Network, hostBits: nat)
    requires net.Contiguous(hostBits)
    ensures net.Prefix() == Block(net.baseIP, Pow2(hostBits))
  {
    MaskClearsHostBits(net, hostBits, net.baseIP);
    LowIsRemainder(net.baseIP, hostBits);
  }

  /** An address belongs to the subnet if it lies in the same block of 2^hostBits addresses as the
      network address. */
  lemma ContainsExactly(net: Network, hostBits: nat, ip: Word32)
    requires net.Contiguous(hostBits)
    ensures net.Contains(ip) <==> ip / Pow2(hostBits) == net.baseIP / Pow2(hostBits)
  {
    PrefixIsBlock(net, hostBits);
    MaskClearsHostBits(net, hostBits, ip);
    LowIsRemainder(ip, hostBits);
    SameBlock(ip, net.baseIP, Pow2(hostBits));
  }

  lemma SameBlock(x: Word32, y: Word32, size: nat)
    requires size > 0
    ensures Block(x, size) == Block(y, size) <==> x / size == y / size
  {
    var a, b := x / size, y / size;
    assert Block(x, size) == size * a && Block(y, size) == size * b;
    if a < b {
      assert size * a <= size * (b - 1) < size * b;
    } else if b < a {
      assert size * b <= size * (a - 1) < size * a;
    }
  }

  /** What is flooded: all ones, the last address of the subnet's block, and 224.0.0.0/4. */
  lemma IsBroadcastExactly(net: Network, hostBits: nat, ip: Word32)
    requires net.Contiguous(hostBits) && 2 <= hostBits
    ensures net.IsBroadcast(ip) <==>
              || ip == 0xFFFF_FFFF
              || ip == Block(net.baseIP, Pow2(hostBits)) + Pow2(hostBits) - 1
              || 0xE000_0000 <= ip < 0xF000_0000
  {
    ContiguousFacts(net, hostBits);
    AddressParts(net, hostBits, net.HostMask());
    PrefixIsBlock(net, hostBits);
    TopByte(ip);
  }

  /** The hash is the identity's number modulo 2^24. */
  lemma HashIsLow24(id: NodeID)
    ensures Hash(id) == ReadBigEndian(id) % TWO_24
  {
    assert id[..31][..30] == id[..30] && id[..30][..29] == id[..29];
    assert ReadBigEndian(id) == 256 * ReadBigEndian(id[..31]) + id[31];
    assert ReadBigEndian(id[..31]) == 256 * ReadBigEndian(id[..30]) + id[30];
    assert ReadBigEndian(id[..30]) == 256 * ReadBigEndian(id[..29]) + id[29];
    DivisionUnique(ReadBigEndian(id), TWO_24, ReadBigEndian(id[..29]), Hash(id));
  }

  /** The candidate for an offset: the identity's number plus the offset, reduced to 24 bits and then
      to the number of hosts, counted from the first host of the subnet. */
  lemma CandidateExactly(net: Network, hostBits: nat, id: NodeID, offset: Word32)
    requires net.Contiguous(hostBits) && 2 <= hostBits
    ensures Pow2(hostBits) >= 4
    ensures GenerateCandidate(net, id, offset) ==
              Block(net.baseIP, Pow2(hostBits)) + (ReadBigEndian(id) + offset) % TWO_24 % (Pow2(hostBits) - 2) + 1
  {
    ContiguousFacts(net, hostBits);
    CandidateHost(net, hostBits, id, offset);
    PrefixIsBlock(net, hostBits);
    LowHashIsSum(id, offset);
    HashIsLow24(id);
    SameLow24(ReadBigEndian(id) + offset, Hash(id) + offset, ReadBigEndian(id) / TWO_24);
  }

  /** The host of the start address, or the first host if it is none. */
  ghost function StartHost(startIP: Word32, size: nat): int
    requires size > 0
  {
    if 1 <= startIP % size <= size - 2 then startIP % size else 1
  }

  /** The address `steps` hosts after the start, going round the hosts 1 to size - 2 of the block. */
  ghost function Around(net: Network, startIP: Word32, size: nat, steps: nat): int
    requires size >= 3
  {
    Block(net.baseIP, size) + (StartHost(startIP, size) - 1 + steps) % (size - 2) + 1
  }

  /** The search returns the first free address at or after the start, going round the hosts once;
      if none is free it ends where it began. */
  lemma NextAvailableIsFirstFree(net: Network, hostBits: nat, used: set<Word32>, startIP: Word32) returns (steps: nat)
    requires net.Contiguous(hostBits) && 2 <= hostBits
    ensures Pow2(hostBits) >= 4 && steps <= Pow2(hostBits) - 2
    ensures NextAvailable(net, used, startIP) == Around(net, startIP, Pow2(hostBits), steps)
    ensures forall k: nat | k < steps :: Around(net, startIP, Pow2(hostBits), k) in used
    ensures Around(net, startIP, Pow2(hostBits), steps) !in used || steps == Pow2(hostBits) - 2
  {
    ContiguousFacts(net, hostBits);
    FirstHostIsHost(net, hostBits, startIP);
    var first, m := FirstHost(net, startIP), net.MaxHosts();
    steps := ScanStops(net, hostBits, used, first, 0);
    AroundIsAdvance(net, hostBits, startIP, steps);
    forall k: nat | k < steps ensures Around(net, startIP, Pow2(hostBits), k) in used {
      assert net.Address(Advance(m, first, k)) in used;
      AroundIsAdvance(net, hostBits, startIP, k);
    }
  }

  lemma AroundIsAdvance(net: Network, hostBits: nat, startIP: Word32, k: nat)
    requires net.Contiguous(hostBits) && 2 <= hostBits && Pow2(hostBits) >= 4
    ensures var host := Advance(net.MaxHosts(), FirstHost(net, startIP), k);
            1 <= host <= net.MaxHosts() && Around(net, startIP, Pow2(hostBits), k) == net.Address(host)
  {
    FirstHostIsHost(net, hostBits, startIP);
    AdvanceStep(net.MaxHosts(), FirstHost(net, startIP), k);
    FirstIsStart(net, hostBits, startIP);
    PrefixIsBlock(net, hostBits);
    AddressParts(net, hostBits, Advance(net.MaxHosts(), FirstHost(net, startIP), k));
  }

  lemma FirstIsStart(net: Network, hostBits: nat, startIP: Word32)
    requires net.Contiguous(hostBits) && 2 <= hostBits && Pow2(hostBits) >= 4
    ensures net.MaxHosts() == Pow2(hostBits) - 2 && Pow2(hostBits) <= TWO_32
    ensures FirstHost(net, startIP) == StartHost(startIP, Pow2(hostBits))
  {
    ContiguousFacts(net, hostBits);
    HostPartIsLow(net, hostBits, startIP);
    LowIsRemainder(startIP, hostBits);
  }

  /** With one host bit or none the search has a single address to offer, free or not. */
  lemma TinySubnets(net: Network, hostBits: nat, used: set<Word32>, startIP: Word32)
    requires net.Contiguous(hostBits) && hostBits < 2
    ensures NextAvailable(net, used, startIP) == BitOr(Block(net.baseIP, Pow2(hostBits)), 1)
  {
    assert Pow2(1) == 2;
    PrefixIsBlock(net, hostBits);
    assert And32(startIP, net.HostMask()) <= net.HostMask() <= 1;
    OnlyHost(net, used, 0);
  }

  lemma {:induction false} OnlyHost(net: Network, used: set<Word32>, attempts: nat)
    requires net.HostMask() <= 1 && attempts <= net.MaxHosts()
    ensures Scan(net, used, 1, attempts) == net.Address(1)
    decreases net.MaxHosts() - attempts
  {
    if net.Address(1) in used && attempts < net.MaxHosts() {
      OnlyHost(net, used, attempts + 1);
    }
  }
}
