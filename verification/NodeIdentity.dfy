/** Node identities: 32-byte digests ordered lexicographically. The order decides
    every address conflict. */
module NodeIdentity {
  import opened Words

  const NODE_ID_SIZE: nat := 32

  type NodeID = s: seq<Byte> | |s| == 32 witness seq(32, _ => 0)

  /** The identity that is the larger number, read with its first byte most significant. */
  ghost predicate HasPriority(a: NodeID, b: NodeID) {
    ReadBigEndian(a) > ReadBigEndian(b)
  }

  /** Three-way comparison: the sign of the difference of the two numbers. */
  method Compare(a: NodeID, b: NodeID) returns (r: int)
    ensures r == if ReadBigEndian(a) < ReadBigEndian(b) then -1 else if ReadBigEndian(a) > ReadBigEndian(b) then 1 else 0
    ensures r == 0 <==> a == b
  {
    for i := 0 to NODE_ID_SIZE
      invariant a[..i] == b[..i]
    {
      if a[i] < b[i] {
        FirstDifferenceDecides(a, b, i);
        return -1;
      }
      if a[i] > b[i] {
        FirstDifferenceDecides(b, a, i);
        return 1;
      }
    }
    assert a[..NODE_ID_SIZE] == a && b[..NODE_ID_SIZE] == b;
    return 0;
  }

  method CheckPriority(a: NodeID, b: NodeID) returns (r: bool)
    ensures r == HasPriority(a, b)
  {
    var c := Compare(a, b);
    r := c > 0;
  }

  lemma {:induction false} FirstDifferenceDecides(a: seq<Byte>, b: seq<Byte>, i: nat)
    requires |a| == |b| && i < |a|
    requires a[..i] == b[..i] && a[i] < b[i]
    ensures ReadBigEndian(a) < ReadBigEndian(b)
  {
    var n := |a| - 1;
    if i < n {
      assert a[..n][..i] == a[..i] == b[..i] == b[..n][..i];
      FirstDifferenceDecides(a[..n], b[..n], i);
    }
  }

  /** Different identities stand for different numbers, so priority is total on them. */
  lemma {:induction false} ValueInjective(a: NodeID, b: NodeID)
    requires ReadBigEndian(a) == ReadBigEndian(b)
    ensures a == b
  {
    if a != b {
      var i := FirstDifference(a, b);
      if a[i] < b[i] {
        FirstDifferenceDecides(a, b, i);
      } else {
        FirstDifferenceDecides(b, a, i);
      }
    }
  }

  lemma FirstDifference(a: seq<Byte>, b: seq<Byte>) returns (i: nat)
    requires |a| == |b| && a != b
    ensures i < |a| && a[..i] == b[..i] && a[i] != b[i]
  {
    i := 0;
    while a[i] == b[i]
      invariant i < |a| && a[..i] == b[..i]
      invariant exists k :: i <= k < |a| && a[k] != b[k]
      decreases |a| - i
    {
      i := i + 1;
    }
  }

  lemma PriorityIsStrictTotalOrder(a: NodeID, b: NodeID, c: NodeID)
    ensures !HasPriority(a, a)
    ensures HasPriority(a, b) && HasPriority(b, c) ==> HasPriority(a, c)
    ensures a != b <==> HasPriority(a, b) || HasPriority(b, a)
  {
    if ReadBigEndian(a) == ReadBigEndian(b) {
      ValueInjective(a, b);
    }
  }

  /** The first byte that differs decides: the identity with the larger one has priority. */
  lemma PriorityByFirstDifference(a: NodeID, b: NodeID, i: nat)
    requires i < 32 && a[..i] == b[..i] && a[i] != b[i]
    ensures HasPriority(a, b) <==> a[i] > b[i]
  {
    if a[i] < b[i] {
      FirstDifferenceDecides(a, b, i);
    } else {
      FirstDifferenceDecides(b, a, i);
    }
  }
}
