/** The inventory: the live, allocatable packets, kept ascending by expiry day.
    Packets leave it when they expire (cleanup) or when a request takes them. */
module Stock {
  import opened Ordered
  import opened Packets

  /** A packet expired before `day`. */
  function ExpiredBy(day: int): BloodPacket -> bool {
    (p: BloodPacket) => p.expiryDate < day
  }

  /** The live packets that cleanup on `day` throws away, in inventory order. */
  function Expired(s: seq<BloodPacket>, day: int): (r: seq<BloodPacket>)
    ensures forall p :: p in r ==> p in s && p.expiryDate < day
    ensures forall p :: p in s && p.expiryDate < day ==> p in r
  {
    FilterMembers(s, ExpiredBy(day));
    Filter(s, ExpiredBy(day))
  }

  /** The live packets that survive cleanup on `day`, in inventory order. */
  function Unexpired(s: seq<BloodPacket>, day: int): (r: seq<BloodPacket>)
    ensures forall p :: p in r ==> p in s && day <= p.expiryDate
    ensures forall p :: p in s && day <= p.expiryDate ==> p in r
  {
    FilterMembers(s, Complement(ExpiredBy(day)));
    Filter(s, Complement(ExpiredBy(day)))
  }

  /** A packet can serve a request for `bloodType` to be used by day `useBy`. */
  function Serves(bloodType: int, useBy: int): BloodPacket -> bool {
    (p: BloodPacket) => p.bloodType == bloodType && useBy <= p.expiryDate
  }

  /** The packets that could serve the request, in inventory (expiry) order. */
  function Eligible(s: seq<BloodPacket>, bloodType: int, useBy: int): (r: seq<BloodPacket>)
    ensures forall p :: p in r ==> p in s && p.bloodType == bloodType && useBy <= p.expiryDate
    ensures forall p :: p in s && p.bloodType == bloodType && useBy <= p.expiryDate ==> p in r
  {
    FilterMembers(s, Serves(bloodType, useBy));
    Filter(s, Serves(bloodType, useBy))
  }

  /** What a satisfiable request takes: the first `n` eligible packets. */
  function Allocation(s: seq<BloodPacket>, bloodType: int, useBy: int, n: int): (r: seq<BloodPacket>)
    requires n <= |Eligible(s, bloodType, useBy)|
    ensures |r| == if n < 0 then 0 else n
    ensures forall i :: 0 <= i < |r| ==>
              r[i] in s && r[i].bloodType == bloodType && useBy <= r[i].expiryDate
  {
    var e := Eligible(s, bloodType, useBy);
    FilterAt(s, Serves(bloodType, useBy));
    if n <= 0 then [] else e[..n]
  }

  class Inventory {
    var packets: seq<BloodPacket>

    ghost predicate Valid()
      reads this
    {
      ExpiryOrdered(packets) && Distinct(packets)
    }

    constructor ()
      ensures Valid() && packets == []
    {
      packets := [];
    }

    /** Sorted insertion by expiry; equal expiry days go in front of older packets. */
    method AddPacketID(p: BloodPacket)
      requires Valid()
      requires p !in packets
      modifies this
      ensures Valid()
      ensures packets == SortedInsert(old(packets), ExpiryOf, IntLess, p)
    {
      IntLessIsStrictWeakOrder();
      SortedInsertKeepsOrder(packets, ExpiryOf, IntLess, p);
      SortedInsertDistinct(packets, ExpiryOf, IntLess, p);
      packets := SortedInsert(packets, ExpiryOf, IntLess, p);
    }

    /** Dumps and removes every packet that expired before `currDay`. */
    method CleanUp(currDay: int)
      requires Valid()
      modifies this, packets
      ensures Valid()
      ensures packets == Unexpired(old(packets), currDay)
      ensures forall p :: p in old(packets) && p.expiryDate < currDay ==>
                p.status == UNCLEAN && p.location == DUMP
      ensures forall p :: p in old(packets) && currDay <= p.expiryDate ==>
                p.status == old(p.status) && p.location == old(p.location)
    {
      var trash: seq<BloodPacket> := ExpiredPackets(currDay);
      ghost var live: seq<BloodPacket> := packets;
      FilterDistinct(live, ExpiredBy(currDay));
      FilterAt(live, ExpiredBy(currDay));
      FilterMembers(live, ExpiredBy(currDay));
      DumpEach(trash);
      forall p | p in live && p.expiryDate < currDay ensures p.status == UNCLEAN && p.location == DUMP {
        var j :| 0 <= j < |trash| && trash[j] == p;
      }
      WithoutFilter(live, ExpiredBy(currDay));
      WithoutSorted(live, trash, ExpiryOf, IntLess);
      WithoutDistinct(live, trash);
    }

    /** The first loop of cleanup: collects, in order, the packets expired before `currDay`. */
    method ExpiredPackets(currDay: int) returns (trash: seq<BloodPacket>)
      ensures trash == Expired(packets, currDay)
    {
      trash := [];
      for i := 0 to |packets|
        invariant trash == Expired(packets[..i], currDay)
      {
        FilterStep(packets, i, ExpiredBy(currDay));
        if packets[i].expiryDate < currDay {
          trash := trash + [packets[i]];
        }
      }
      assert packets[..|packets|] == packets;
    }

    /** The second loop of cleanup: dumps each packet of `trash` and removes it. */
    method DumpEach(trash: seq<BloodPacket>)
      requires Distinct(packets) && Distinct(trash)
      requires forall j :: 0 <= j < |trash| ==> trash[j] in packets
      modifies this, trash
      ensures packets == Without(old(packets), trash)
      ensures forall j :: 0 <= j < |trash| ==> trash[j].status == UNCLEAN && trash[j].location == DUMP
    {
      ghost var live: seq<BloodPacket> := packets;
      WithoutNothing(live);
      for k := 0 to |trash|
        invariant packets == Without(live, trash[..k])
        invariant forall j :: 0 <= j < k ==> trash[j].status == UNCLEAN && trash[j].location == DUMP
      {
        var p := trash[k];
        assert p in packets && RemoveFirst(packets, p) == Without(live, trash[..k + 1]) by {
          RemoveNext(live, trash, k);
        }
        DistinctBefore(trash, k);
        p.Dump();
        packets := RemoveFirst(packets, p);
      }
      assert trash[..|trash|] == trash;
    }

    /** Greedy, all-or-nothing allocation: the first `nPackets` packets in expiry
        order that have the type and do not expire before `useBy` are sent to
        `dest`, or, if there are fewer than that, nothing happens. */
    method DoRequest(bloodType: int, nPackets: int, useBy: int, dest: int) returns (accepted: bool)
      requires Valid()
      modifies this, packets
      ensures Valid()
      ensures accepted <==> nPackets <= |Eligible(old(packets), bloodType, useBy)|
      ensures !accepted ==> packets == old(packets)
      ensures accepted ==>
                packets == Without(old(packets), Allocation(old(packets), bloodType, useBy, nPackets))
      ensures forall p :: p in old(packets) ==> p.status == old(p.status)
      ensures forall p :: p in old(packets) ==>
                p.location == if accepted && p in Allocation(old(packets), bloodType, useBy, nPackets)
                              then dest else old(p.location)
    {
      ExpiryOrderedIsFieldOrdered(packets);
      packets := SortByField(packets, "EXPIRY_DATE");
      var sendPackets: seq<BloodPacket> := SelectPackets(bloodType, nPackets, useBy);
      if |sendPackets| < nPackets {
        return false;
      }
      ghost var live: seq<BloodPacket> := packets;
      AllocationDistinct(live, bloodType, useBy, nPackets);
      SendEach(sendPackets, dest);
      forall p | p in live && p in sendPackets ensures p.location == dest {
        var j :| 0 <= j < |sendPackets| && sendPackets[j] == p;
      }
      WithoutSorted(live, sendPackets, ExpiryOf, IntLess);
      WithoutDistinct(live, sendPackets);
      return true;
    }

    /** The while loop of the request: scans in order, collecting matching
        packets until `nPackets` are found or the inventory is exhausted. */
    method SelectPackets(bloodType: int, nPackets: int, useBy: int) returns (sendPackets: seq<BloodPacket>)
      ensures (|sendPackets| < nPackets) <==> (|Eligible(packets, bloodType, useBy)| < nPackets)
      ensures nPackets <= |sendPackets| ==> sendPackets == Allocation(packets, bloodType, useBy, nPackets)
    {
      sendPackets := [];
      var i := 0;
      while i < |packets| && |sendPackets| < nPackets
        invariant 0 <= i <= |packets|
        invariant sendPackets == Eligible(packets[..i], bloodType, useBy)
        invariant sendPackets == [] || |sendPackets| <= nPackets
      {
        FilterStep(packets, i, Serves(bloodType, useBy));
        if packets[i].bloodType == bloodType && useBy <= packets[i].expiryDate {
          sendPackets := sendPackets + [packets[i]];
        }
        i := i + 1;
      }
      FilterPrefix(packets, i, Serves(bloodType, useBy));
      if |sendPackets| < nPackets {
        assert packets[..i] == packets;
      }
    }

    /** The removal loop of the request: removes each packet of `sendPackets`
        from the inventory and sends it to `dest`. */
    method SendEach(sendPackets: seq<BloodPacket>, dest: int)
      requires Distinct(packets) && Distinct(sendPackets)
      requires forall j :: 0 <= j < |sendPackets| ==> sendPackets[j] in packets
      modifies this`packets, sendPackets`location
      ensures packets == Without(old(packets), sendPackets)
      ensures forall j :: 0 <= j < |sendPackets| ==> sendPackets[j].location == dest
    {
      ghost var live: seq<BloodPacket> := packets;
      WithoutNothing(live);
      for k := 0 to |sendPackets|
        invariant packets == Without(live, sendPackets[..k])
        invariant forall j :: 0 <= j < k ==> sendPackets[j].location == dest
      {
        var p := sendPackets[k];
        assert p in packets && RemoveFirst(packets, p) == Without(live, sendPackets[..k + 1]) by {
          RemoveNext(live, sendPackets, k);
        }
        DistinctBefore(sendPackets, k);
        packets := RemoveFirst(packets, p);
        p.SendTo(dest);
      }
      assert sendPackets[..|sendPackets|] == sendPackets;
    }

    /** The diagnostic listing sorts by `field` and then back by expiry; the
        listing itself is not modelled, the re-sorting of the list is. */
    method PrintInventory(field: string)
      requires Valid()
      modifies this
      ensures Valid()
      ensures multiset(packets) == multiset(old(packets))
    {
      packets := SortByField(packets, field);
      packets := SortByField(packets, "EXPIRY_DATE");
      ExpiryOrderedIsFieldOrdered(packets);
      PermutationDistinct(old(packets), packets);
    }
  }

  // ---------------------------------------------------------------------------
  // Lemmas

  lemma AllocationDistinct(s: seq<BloodPacket>, bloodType: int, useBy: int, n: int)
    requires Distinct(s)
    requires n <= |Eligible(s, bloodType, useBy)|
    ensures Distinct(Allocation(s, bloodType, useBy, n))
  {
    FilterDistinct(s, Serves(bloodType, useBy));
  }

  /** What cleanup removes and what it keeps make up the old inventory. */
  lemma CleanUpPartition(s: seq<BloodPacket>, day: int)
    requires Distinct(s)
    ensures multiset(s) == multiset(Unexpired(s, day)) + multiset(Expired(s, day))
  {
    FilterDistinct(s, ExpiredBy(day));
    FilterMembers(s, ExpiredBy(day));
    WithoutPartition(s, Expired(s, day));
    WithoutFilter(s, ExpiredBy(day));
  }

  /** Cleanup is idempotent: on the same day a second cleanup finds nothing
      expired and keeps everything. */
  lemma CleanUpIdempotent(s: seq<BloodPacket>, day: int)
    ensures Expired(Unexpired(s, day), day) == []
    ensures Unexpired(Unexpired(s, day), day) == Unexpired(s, day)
  {
    FilterComplementEmpty(s, ExpiredBy(day));
    FilterIdempotent(s, Complement(ExpiredBy(day)));
  }

  /** In an expiry-ordered inventory the expired packets are a prefix. */
  lemma {:induction false} ExpiredArePrefix(s: seq<BloodPacket>, day: int)
    requires ExpiryOrdered(s)
    ensures s == Expired(s, day) + Unexpired(s, day)
  {
    if s != [] && s[0].expiryDate < day {
      SortedTail(s, ExpiryOf, IntLess);
      ExpiredArePrefix(s[1..], day);
      assert s == [s[0]] + s[1..];
    } else if s != [] {
      LaterNotExpired(s, day);
      NoneExpired(s, day);
    }
  }

  lemma LaterNotExpired(s: seq<BloodPacket>, day: int)
    requires ExpiryOrdered(s) && s != [] && day <= s[0].expiryDate
    ensures forall i :: 0 <= i < |s| ==> day <= s[i].expiryDate
  {
    forall i | 0 < i < |s| ensures day <= s[i].expiryDate {
      assert !IntLess(ExpiryOf(s[i]), ExpiryOf(s[0]));
    }
  }

  lemma {:induction false} NoneExpired(s: seq<BloodPacket>, day: int)
    requires forall i :: 0 <= i < |s| ==> day <= s[i].expiryDate
    ensures Expired(s, day) == [] && Unexpired(s, day) == s
  {
    if s != [] {
      NoneExpired(s[1..], day);
    }
  }

  /** The request takes the earliest-expiring eligible packets: no eligible
      packet left behind expires before one that was taken. */
  lemma AllocationIsEarliest(s: seq<BloodPacket>, bloodType: int, useBy: int, n: int)
    requires ExpiryOrdered(s)
    requires n <= |Eligible(s, bloodType, useBy)|
    ensures forall p, q ::
              (p in Allocation(s, bloodType, useBy, n) && q in Eligible(s, bloodType, useBy)
               && q !in Allocation(s, bloodType, useBy, n)) ==> p.expiryDate <= q.expiryDate
  {
    var e := Eligible(s, bloodType, useBy);
    var a := Allocation(s, bloodType, useBy, n);
    FilterSorted(s, ExpiryOf, IntLess, Serves(bloodType, useBy));
    forall p, q | p in a && q in e && q !in a ensures p.expiryDate <= q.expiryDate {
      var i :| 0 <= i < |a| && a[i] == p;
      var j :| 0 <= j < |e| && e[j] == q;
      assert a == e[..n];
      assert !IntLess(ExpiryOf(e[j]), ExpiryOf(e[i]));
    }
  }

  /** A satisfied request splits the inventory into what it took and what is left. */
  lemma AllocationPartition(s: seq<BloodPacket>, bloodType: int, useBy: int, n: int)
    requires Distinct(s)
    requires n <= |Eligible(s, bloodType, useBy)|
    ensures multiset(s) == multiset(Without(s, Allocation(s, bloodType, useBy, n)))
                           + multiset(Allocation(s, bloodType, useBy, n))
  {
    var e := Eligible(s, bloodType, useBy);
    var a := Allocation(s, bloodType, useBy, n);
    AllocationDistinct(s, bloodType, useBy, n);
    WithoutPartition(s, a);
  }
}
