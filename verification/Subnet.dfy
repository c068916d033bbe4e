/** Choosing host addresses inside the virtual subnet: the hash-derived candidate
    and the cyclic search for an address not known to be in use. */
module Subnet {
  import opened Words
  import opened NodeIdentity

  /** What the negotiator is initialised with. */
  datatype Network = Network(baseIP: Word32, mask: Word32) {
    function HostMask(): Word32 {
      Not32(mask)
    }

    /** `hostMask - 1` in 32-bit arithmetic, with zero replaced by one. */
    function MaxHosts(): (m: Word32)
      ensures m >= 1
    {
      var m := (HostMask() - 1) % TWO_32;
      if m == 0 then 1 else m
    }

    function Prefix(): Word32 {
      And32(baseIP, mask)
    }

    function Address(hostPart: Word32): Word32 {
      Or32(Prefix(), hostPart)
    }

    predicate Contains(ip: Word32) {
      And32(ip, mask) == Prefix()
    }

    function HostPart(ip: Word32): Word32 {
      And32(ip, HostMask())
    }

    /** The mask leaves exactly the low `hostBits` bits to hosts. */
    ghost predicate Contiguous(hostBits: nat) {
      hostBits <= 32 && mask == TWO_32 - Pow2(hostBits)
    }

    /** Addresses the bridge floods to every peer instead of routing. */
    predicate IsBroadcast(ip: Word32) {
      || ip == 0xFFFF_FFFF
      || ip == Or32(Prefix(), HostMask())
      || 224 <= (ip / TWO_24) % 256 <= 239
    }
  }

  /** The last three identity bytes, least significant last. */
  function Hash(id: NodeID): (h: Word32)
    ensures h < TWO_24
  {
    (id[31] as int) + 0x100 * (id[30] as int) + 0x1_0000 * (id[29] as int)
  }

  /** The candidate for a probe offset. Adding wraps at 32 bits; the mask
      0x00FFFFFF keeps the low 24. */
  function GenerateCandidate(net: Network, id: NodeID, offset: Word32): Word32 {
    var hash := ((Hash(id) + offset) % TWO_32) % TWO_24;
    net.Address(hash % net.MaxHosts() + 1)
  }

  function NextHost(net: Network, host: Word32): Word32 {
    if host + 1 >= net.HostMask() then 1 else host + 1
  }

  function FirstHost(net: Network, startIP: Word32): Word32 {
    var host := net.HostPart(startIP);
    if host == 0 || host >= net.HostMask() then 1 else host
  }

  /** The search from `host` on, `attempts` steps having been made. */
  function Scan(net: Network, used: set<Word32>, host: Word32, attempts: nat): Word32
    requires attempts <= net.MaxHosts()
    decreases net.MaxHosts() - attempts
  {
    var ip := net.Address(host);
    if ip in used && attempts < net.MaxHosts() then
      Scan(net, used, NextHost(net, host), attempts + 1)
    else
      ip
  }

  function NextAvailable(net: Network, used: set<Word32>, startIP: Word32): Word32 {
    Scan(net, used, FirstHost(net, startIP), 0)
  }

  // ----- the arithmetic of contiguous masks -----

  ghost predicate IsHost(hostBits: nat, host: int) {
    1 <= host < Pow2(hostBits) - 1
  }

  lemma MaskFacts(net: Network, hosts: nat)
    requires 4 <= hosts <= TWO_32 && net.mask == TWO_32 - hosts
    ensures net.HostMask() == hosts - 1 && net.MaxHosts() == hosts - 2
  {}

  lemma ContiguousFacts(net: Network, hostBits: nat)
    requires net.Contiguous(hostBits) && 2 <= hostBits
    ensures net.HostMask() == Pow2(hostBits) - 1
    ensures net.MaxHosts() == Pow2(hostBits) - 2 >= 2
  {
    Pow2Values();
    Pow2Monotonic(2, hostBits);
    Pow2Monotonic(hostBits, 32);
    MaskFacts(net, Pow2(hostBits));
  }

  lemma MaskClearsHostBits(net: Network, hostBits: nat, ip: Word32)
    requires net.Contiguous(hostBits)
    ensures And32(ip, net.mask) == High(ip, hostBits)
  {
    Pow2Values();
    AndHighMask(ip, 32, hostBits, net.mask);
  }

  lemma HostPartIsLow(net: Network, hostBits: nat, ip: Word32)
    requires net.Contiguous(hostBits) && 2 <= hostBits
    ensures net.HostPart(ip) == Low(ip, hostBits)
  {
    ContiguousFacts(net, hostBits);
    AndLowMask(ip, hostBits, net.HostMask());
  }

  lemma AddressParts(net: Network, hostBits: nat, host: Word32)
    requires net.Contiguous(hostBits) && 2 <= hostBits && host < Pow2(hostBits)
    ensures net.Address(host) == net.Prefix() + host
    ensures net.Contains(net.Address(host)) && net.HostPart(net.Address(host)) == host
  {
    MaskClearsHostBits(net, hostBits, net.baseIP);
    LowOfSum(net.baseIP, host, hostBits);
    OrBelow(net.Prefix(), host, hostBits);
    var ip := net.Address(host);
    MaskClearsHostBits(net, hostBits, ip);
    HostPartIsLow(net, hostBits, ip);
  }

  // ----- the search -----

  /** The host reached from `host` after k steps of the cyclic search. */
  ghost function Advance(m: nat, host: nat, k: nat): nat
    requires m > 0 && host >= 1
  {
    (host - 1 + k) % m + 1
  }

  lemma AdvanceStep(m: nat, host: nat, k: nat)
    requires m > 0 && 1 <= host <= m
    ensures 1 <= Advance(m, host, k) <= m
    ensures Advance(m, host, k + 1) == if Advance(m, host, k) == m then 1 else Advance(m, host, k) + 1
  {
    ModuloSuccessor(host - 1 + k, m);
  }

  /** Every host is met within one turn. */
  lemma AdvanceReaches(m: nat, host: nat, target: nat) returns (k: nat)
    requires m > 0 && 1 <= host <= m && 1 <= target <= m
    ensures k < m && Advance(m, host, k) == target
  {
    k := if target >= host then target - host else target - host + m;
    if target >= host {
      DivisionUnique(host - 1 + k, m, 0, target - 1);
    } else {
      DivisionUnique(host - 1 + k, m, 1, target - 1);
    }
  }

  lemma {:induction false} ScanStops(net: Network, hostBits: nat, used: set<Word32>, first: Word32, attempts: nat)
    returns (stop: nat)
    requires net.Contiguous(hostBits) && 2 <= hostBits
    requires 1 <= first <= net.MaxHosts() && attempts <= net.MaxHosts()
    requires net.MaxHosts() == Pow2(hostBits) - 2
    ensures var m := net.MaxHosts();
            && 1 <= Advance(m, first, attempts) <= m
            && attempts <= stop <= m
            && 1 <= Advance(m, first, stop) <= m
            && Scan(net, used, Advance(m, first, attempts), attempts) == net.Address(Advance(m, first, stop))
            && (forall k | attempts <= k < stop ::
                  1 <= Advance(m, first, k) <= m && net.Address(Advance(m, first, k)) in used)
            && (stop < m ==> net.Address(Advance(m, first, stop)) !in used)
    decreases net.MaxHosts() - attempts
  {
    ContiguousFacts(net, hostBits);
    var m := net.MaxHosts();
    AdvanceStep(m, first, attempts);
    var host := Advance(m, first, attempts);
    if net.Address(host) in used && attempts < m {
      stop := ScanStops(net, hostBits, used, first, attempts + 1);
    } else {
      stop := attempts;
    }
  }

  lemma FirstHostIsHost(net: Network, hostBits: nat, startIP: Word32)
    requires net.Contiguous(hostBits) && 2 <= hostBits
    ensures var first := FirstHost(net, startIP);
            1 <= first <= net.MaxHosts() && Advance(net.MaxHosts(), first, 0) == first
  {
    ContiguousFacts(net, hostBits);
    HostPartIsLow(net, hostBits, startIP);
    var first, m := FirstHost(net, startIP), net.MaxHosts();
    DivisionUnique(first - 1, m, 0, first - 1);
  }

  /** The search ends inside the subnet on a proper host address, and that address
      is in use exactly when every host address is. */
  lemma NextAvailableComplete(net: Network, hostBits: nat, used: set<Word32>, startIP: Word32)
    requires net.Contiguous(hostBits) && 2 <= hostBits
    ensures var ip := NextAvailable(net, used, startIP);
            && net.Contains(ip)
            && IsHost(hostBits, net.HostPart(ip))
            && (ip in used <==> forall host: Word32 | IsHost(hostBits, host) :: net.Address(host) in used)
  {
    ContiguousFacts(net, hostBits);
    FirstHostIsHost(net, hostBits, startIP);
    var m, first := net.MaxHosts(), FirstHost(net, startIP);
    var stop := ScanStops(net, hostBits, used, first, 0);
    var host := Advance(m, first, stop);
    AddressParts(net, hostBits, host);
    if NextAvailable(net, used, startIP) in used {
      forall other: Word32 | IsHost(hostBits, other) ensures net.Address(other) in used {
        var k := AdvanceReaches(m, first, other);
      }
    }
  }

  /** With at least eight prefix bits and a network outside 224/4, what the search
      returns is never an address the bridge would flood. */
  lemma NextAvailableNeverBroadcast(net: Network, hostBits: nat, used: set<Word32>, startIP: Word32)
    requires net.Contiguous(hostBits) && 2 <= hostBits <= 24
    requires !(224 <= net.baseIP / TWO_24 <= 239)
    ensures !net.IsBroadcast(NextAvailable(net, used, startIP))
  {
    var ip := NextAvailable(net, used, startIP);
    NextAvailableComplete(net, hostBits, used, startIP);
    ProperHostIsNotAllOnes(net, hostBits, ip);
    MaskClearsHostBits(net, hostBits, net.baseIP);
    MaskClearsHostBits(net, hostBits, ip);
    ShiftIgnoresLow(net.baseIP, ip, hostBits, 24);
    ShiftIsDivision(net.baseIP, 24);
    ShiftIsDivision(ip, 24);
    Pow2Values();
    TopByte(ip);
  }

  lemma TopByte(ip: Word32)
    ensures (ip / TWO_24) % 256 == ip / TWO_24
  {
    assert ip / TWO_24 < 256;
    DivisionUnique(ip / TWO_24, 256, 0, ip / TWO_24);
  }

  lemma ProperHostIsNotAllOnes(net: Network, hostBits: nat, ip: Word32)
    requires net.Contiguous(hostBits) && 2 <= hostBits
    requires IsHost(hostBits, net.HostPart(ip))
    ensures ip != 0xFFFF_FFFF && ip != net.Address(net.HostMask())
  {
    ContiguousFacts(net, hostBits);
    HostPartIsLow(net, hostBits, ip);
    Pow2Values();
    LowOfAllOnes(hostBits, 32);
    AddressParts(net, hostBits, net.HostMask());
  }

  // ----- the candidates -----

  ghost function LowHash(id: NodeID, offset: Word32): nat {
    ((Hash(id) + offset) % TWO_32) % TWO_24
  }

  /** Numbers a multiple of 2^24 apart have the same low 24 bits. */
  lemma SameLow24(x: nat, y: nat, k: int)
    requires x == y + k * TWO_24
    ensures x % TWO_24 == y % TWO_24
  {
    DivisionUnique(x, TWO_24, y / TWO_24 + k, y % TWO_24);
  }

  lemma LowHashIsSum(id: NodeID, offset: Word32)
    ensures LowHash(id, offset) == (Hash(id) + offset) % TWO_24
  {
    var x := Hash(id) + offset;
    SameLow24(x, x % TWO_32, 256 * (x / TWO_32));
  }

  lemma LowHashStep(id: NodeID, offset: Word32)
    ensures var x := LowHash(id, offset);
            LowHash(id, Increment32(offset)) == if x == TWO_24 - 1 then 0 else x + 1
  {
    LowHashIsSum(id, offset);
    LowHashIsSum(id, Increment32(offset));
    var x := Hash(id) + offset;
    ModuloSuccessor(x, TWO_24);
    if offset == TWO_32 - 1 {
      SameLow24(x + 1, Hash(id), 256);
    }
  }

  /** Only the low 24 bits of the offset matter, so its 32-bit wrap is harmless. */
  lemma CandidateIgnoresHighBits(net: Network, id: NodeID, a: Word32, b: Word32)
    requires a % TWO_24 == b % TWO_24
    ensures GenerateCandidate(net, id, a) == GenerateCandidate(net, id, b)
  {
    LowHashIsSum(id, a);
    LowHashIsSum(id, b);
    var k := a / TWO_24 - b / TWO_24;
    assert a == b + k * TWO_24;
    SameLow24(Hash(id) + a, Hash(id) + b, k);
    assert LowHash(id, a) == LowHash(id, b);
  }

  lemma CandidateHost(net: Network, hostBits: nat, id: NodeID, offset: Word32)
    requires net.Contiguous(hostBits) && 2 <= hostBits
    ensures GenerateCandidate(net, id, offset) == net.Prefix() + LowHash(id, offset) % net.MaxHosts() + 1
  {
    ContiguousFacts(net, hostBits);
    AddressParts(net, hostBits, LowHash(id, offset) % net.MaxHosts() + 1);
  }

  /** Reselecting always moves to a different candidate, at the wrap too. */
  lemma ConsecutiveCandidatesDiffer(net: Network, hostBits: nat, id: NodeID, offset: Word32)
    requires net.Contiguous(hostBits) && 2 <= hostBits
    ensures GenerateCandidate(net, id, offset) != GenerateCandidate(net, id, Increment32(offset))
  {
    CandidateHost(net, hostBits, id, offset);
    CandidateHost(net, hostBits, id, Increment32(offset));
    LowHashStep(id, offset);
    ContiguousFacts(net, hostBits);
    ResiduesDiffer(LowHash(id, offset), Pow2(hostBits - 1) - 1);
  }

  lemma ResiduesDiffer(x: nat, half: nat)
    requires x < TWO_24 && half > 0
    ensures x % (2 * half) != (if x == TWO_24 - 1 then 0 else x + 1) % (2 * half)
  {
    var m := 2 * half;
    ModuloSuccessor(x, m);
    if x == TWO_24 - 1 {
      OddNotMultiple(x, half);
      DivisionUnique(0, m, 0, 0);
    }
  }

  lemma OddNotMultiple(x: nat, half: nat)
    requires x % 2 == 1 && half > 0
    ensures x % (2 * half) != 0
  {
    var q := x / (2 * half);
    assert x == 2 * (half * q) + x % (2 * half);
  }

  ghost predicate Reachable(net: Network, id: NodeID, host: Word32) {
    exists offset: Word32 :: offset < TWO_24 && GenerateCandidate(net, id, offset) == net.Address(host)
  }

  /** The offset that makes the low hash come out as x. */
  lemma OffsetFor(id: NodeID, x: nat) returns (offset: Word32)
    requires x < TWO_24
    ensures offset < TWO_24 && LowHash(id, offset) == x
  {
    var h := Hash(id);
    var k := if x >= h then 0 else 1;
    offset := x - h + k * TWO_24;
    LowHashIsSum(id, offset);
    SameLow24(h + offset, x, k);
    DivisionUnique(x, TWO_24, 0, x);
  }

  lemma SmallSubnetHostReachable(net: Network, hostBits: nat, id: NodeID, host: Word32)
    requires net.Contiguous(hostBits) && 2 <= hostBits <= 24 && IsHost(hostBits, host)
    ensures Reachable(net, id, host)
  {
    Pow2Values();
    Pow2Monotonic(hostBits, 24);
    ContiguousFacts(net, hostBits);
    var offset := OffsetFor(id, host - 1);
    DivisionUnique(host - 1, net.MaxHosts(), 0, host - 1);
    CandidateHost(net, hostBits, id, offset);
    AddressParts(net, hostBits, host);
  }

  lemma LargeSubnetHostMissed(net: Network, hostBits: nat, id: NodeID)
    requires net.Contiguous(hostBits) && 25 <= hostBits
    ensures IsHost(hostBits, TWO_24 + 1) && !Reachable(net, id, TWO_24 + 1)
  {
    Pow2Values();
    Pow2Monotonic(25, hostBits);
    ContiguousFacts(net, hostBits);
    AddressParts(net, hostBits, TWO_24 + 1);
    forall offset: Word32 ensures GenerateCandidate(net, id, offset) != net.Address(TWO_24 + 1) {
      var x := LowHash(id, offset);
      DivisionUnique(x, net.MaxHosts(), 0, x);
      CandidateHost(net, hostBits, id, offset);
    }
  }

  /** The offsets below 2^24 sweep every host address exactly when the subnet has
      at most 24 host bits; a larger one keeps addresses no offset produces. */
  lemma CandidatesSweepSubnet(net: Network, hostBits: nat, id: NodeID)
    requires net.Contiguous(hostBits) && 2 <= hostBits
    ensures (forall host: Word32 | IsHost(hostBits, host) :: Reachable(net, id, host)) <==> hostBits <= 24
  {
    if hostBits <= 24 {
      forall host: Word32 | IsHost(hostBits, host) ensures Reachable(net, id, host) {
        SmallSubnetHostReachable(net, hostBits, id, host);
      }
    } else {
      LargeSubnetHostMissed(net, hostBits, id);
      Pow2Values();
      Pow2Monotonic(hostBits, 32);
    }
  }
}
