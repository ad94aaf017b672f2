/** Two worked examples of the inventory: three O_NEG packets A (expiry 10),
    B (expiry 20) and C (expiry 15) deposited in that order. */
module Scenarios {
  import opened Ordered
  import opened Packets
  import opened Stock

  const O_NEG: int := 0

  /** Builds the inventory of the examples; it lists A, C, B. */
  method ThreePackets() returns (inv: Inventory, a: BloodPacket, b: BloodPacket, c: BloodPacket)
    ensures fresh(inv) && fresh(a) && fresh(b) && fresh(c)
    ensures inv.Valid() && inv.packets == [a, c, b]
    ensures a.bloodType == O_NEG && b.bloodType == O_NEG && c.bloodType == O_NEG
    ensures a.expiryDate == 10 && b.expiryDate == 20 && c.expiryDate == 15
    ensures a.status == CLEAN && b.status == CLEAN && c.status == CLEAN
    ensures a.location == VAMPIRE && b.location == VAMPIRE && c.location == VAMPIRE
  {
    inv := new Inventory();
    a := new BloodPacket(O_NEG, 10, 0);
    b := new BloodPacket(O_NEG, 20, 1);
    c := new BloodPacket(O_NEG, 15, 2);
    inv.AddPacketID(a);
    assert inv.packets == [a];
    inv.AddPacketID(b);
    assert InsertPos([a], ExpiryOf, IntLess, b) == 1;
    assert inv.packets == [a, b];
    inv.AddPacketID(c);
    assert InsertPos([a, b], ExpiryOf, IntLess, c) == 1;
    assert inv.packets == [a, c, b];
  }

  /** A request for two O_NEG packets usable on day 12 takes C and B (A
      expires on day 10) and leaves only A. */
  method AllocationExample(dest: int) returns (accepted: bool, left: seq<BloodPacket>, sent: seq<BloodPacket>)
    ensures accepted
    ensures |left| == 1 && left[0].expiryDate == 10 && left[0].location == VAMPIRE
    ensures |sent| == 2 && sent[0].expiryDate == 15 && sent[1].expiryDate == 20
    ensures forall j :: 0 <= j < |sent| ==> sent[j].location == dest && sent[j].status == CLEAN
  {
    var inv, a, b, c := ThreePackets();
    SliceSteps(a, c, b);
    assert Eligible([b], O_NEG, 12) == [b];
    assert Eligible([c, b], O_NEG, 12) == [c, b];
    assert Eligible([a, c, b], O_NEG, 12) == [c, b];
    assert Allocation([a, c, b], O_NEG, 12, 2) == [c, b];
    accepted := inv.DoRequest(O_NEG, 2, 12, dest);
    assert a != c && a != b && a !in [c, b];
    assert Without([b], [c, b]) == [];
    assert Without([c, b], [c, b]) == [];
    assert Without([a, c, b], [c, b]) == [a];
    left := inv.packets;
    sent := [c, b];
  }

  /** Cleanup on day 16 dumps A and C and leaves B. */
  method CleanUpExample() returns (left: seq<BloodPacket>, dumped: seq<BloodPacket>)
    ensures |left| == 1 && left[0].expiryDate == 20 && left[0].status == CLEAN && left[0].location == VAMPIRE
    ensures |dumped| == 2 && dumped[0].expiryDate == 10 && dumped[1].expiryDate == 15
    ensures forall j :: 0 <= j < |dumped| ==> dumped[j].status == UNCLEAN && dumped[j].location == DUMP
  {
    var inv, a, b, c := ThreePackets();
    SliceSteps(a, c, b);
    assert Unexpired([b], 16) == [b];
    assert Unexpired([c, b], 16) == [b];
    assert Unexpired([a, c, b], 16) == [b];
    inv.CleanUp(16);
    left := inv.packets;
    dumped := [a, c];
  }

  lemma SliceSteps<T>(x: T, y: T, z: T)
    ensures [x, y, z][1..] == [y, z] && [y, z][1..] == [z] && [z][1..] == []
  {
  }
}
