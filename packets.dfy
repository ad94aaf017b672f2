/** One unit of blood. Type, expiry day and donor are fixed at intake; status
    and location change as the packet is dumped or sent away. The inventory and
    the ledger hold references to the same packet objects. */
module Packets {
  import opened Ordered

  const UNCLEAN: int := 0
  const CLEAN: int := 1

  /** Reserved location indices: 0 is the dump, 1 the blood bank itself. */
  const DUMP: int := 0
  const VAMPIRE: int := 1

  /** The field names `GetField` recognises. */
  predicate IsFieldName(field: string) {
    field == "TYPE" || field == "EXPIRY_DATE" || field == "DONOR_ID" || field == "STATUS"
  }

  class BloodPacket {
    const bloodType: int
    const expiryDate: int
    const donorId: int
    var status: int
    var location: int

    /** A new packet is clean and held at the blood bank. */
    constructor (bloodType: int, expiryDate: int, donorId: int)
      ensures this.bloodType == bloodType && this.expiryDate == expiryDate && this.donorId == donorId
      ensures status == CLEAN && location == VAMPIRE
    {
      this.bloodType := bloodType;
      this.expiryDate := expiryDate;
      this.donorId := donorId;
      status := CLEAN;
      location := VAMPIRE;
    }

    /** Field lookup by name; an unrecognised name reads as -1. */
    function GetField(field: string): (v: int)
      reads this
      ensures !IsFieldName(field) ==> v == -1
      ensures field == "TYPE" ==> v == bloodType
      ensures field == "EXPIRY_DATE" ==> v == expiryDate
      ensures field == "DONOR_ID" ==> v == donorId
      ensures field == "STATUS" ==> v == status
    {
      if field == "TYPE" then bloodType
      else if field == "EXPIRY_DATE" then expiryDate
      else if field == "DONOR_ID" then donorId
      else if field == "STATUS" then status
      else -1
    }

    /** Disposal forces both status and location to their terminal value 0. */
    method Dump()
      modifies this
      ensures status == UNCLEAN && location == DUMP
    {
      status := UNCLEAN;
      location := DUMP;
    }

    /** Moves the packet; status is left as it was. */
    method SendTo(dest: int)
      modifies this`location
      ensures location == dest
      ensures status == old(status)
    {
      location := dest;
    }
  }

  /** The sort key of the inventory and the ledger. */
  function ExpiryOf(p: BloodPacket): int {
    p.expiryDate
  }

  /** Ascending by expiry day, the canonical order of both packet lists. */
  predicate ExpiryOrdered(s: seq<BloodPacket>) {
    SortedBy(s, ExpiryOf, IntLess)
  }

  /** Ascending by the named field's current value. */
  predicate FieldOrdered(s: seq<BloodPacket>, field: string)
    reads s
  {
    forall i, j :: 0 <= i < j < |s| ==> s[i].GetField(field) <= s[j].GetField(field)
  }

  /** The packets of `s` whose named field currently reads `value`, in order.
      This is `Filter` with a test that reads the packets' mutable fields,
      which a `T -> bool` argument of `Filter` cannot do. */
  function Matching(s: seq<BloodPacket>, field: string, value: int): (r: seq<BloodPacket>)
    reads s
    ensures |r| <= |s|
  {
    if s == [] then []
    else if s[0].GetField(field) == value then [s[0]] + Matching(s[1..], field, value)
    else Matching(s[1..], field, value)
  }

  /** Stable re-sort of a packet list by a field read at the time of the call:
      the packets sharing a field value keep their relative order. */
  method SortByField(s: seq<BloodPacket>, field: string) returns (r: seq<BloodPacket>)
    ensures multiset(r) == multiset(s)
    ensures FieldOrdered(r, field)
    ensures FieldOrdered(s, field) ==> r == s
    ensures forall c :: Matching(r, field, c) == Matching(s, field, c)
  {
    var snapshot := map p | p in s :: p.GetField(field);
    var key := (p: BloodPacket) => if p in snapshot then snapshot[p] else -1;
    r := SortBy(s, key, IntLess);
    IntLessIsStrictWeakOrder();
    SortBySorted(s, key, IntLess);
    SortByMultiset(s, key, IntLess);
    forall p | p in r ensures key(p) == p.GetField(field) {
      assert p in multiset(s);
    }
    KeyAgreesWithField(r, key, field);
    forall c ensures Matching(r, field, c) == Matching(s, field, c) {
      SortByStable(s, key, IntLess, c);
      MatchingIsKeyClass(r, key, field, c);
      MatchingIsKeyClass(s, key, field, c);
    }
    if FieldOrdered(s, field) {
      KeyAgreesWithField(s, key, field);
      SortByIdentityOnSorted(s, key, IntLess);
    }
  }

  /** When `key` reads the field, the packets whose field reads `c` are the
      equal-key class of `c`. */
  lemma {:induction false} MatchingIsKeyClass(s: seq<BloodPacket>, key: BloodPacket -> int, field: string, c: int)
    requires forall p :: p in s ==> key(p) == p.GetField(field)
    ensures Matching(s, field, c) == Filter(s, SameKey(key, IntLess, c))
  {
    if s != [] {
      MatchingIsKeyClass(s[1..], key, field, c);
    }
  }

  lemma KeyAgreesWithField(s: seq<BloodPacket>, key: BloodPacket -> int, field: string)
    requires forall p :: p in s ==> key(p) == p.GetField(field)
    ensures SortedBy(s, key, IntLess) <==> FieldOrdered(s, field)
  {
    if SortedBy(s, key, IntLess) {
      forall i, j | 0 <= i < j < |s| ensures s[i].GetField(field) <= s[j].GetField(field) {
        assert !IntLess(key(s[j]), key(s[i]));
      }
    }
    if FieldOrdered(s, field) {
      forall i, j | 0 <= i < j < |s| ensures !IntLess(key(s[j]), key(s[i])) {
        assert s[i].GetField(field) <= s[j].GetField(field);
      }
    }
  }

  /** Ordered by expiry is the same as ordered by the field "EXPIRY_DATE". */
  lemma ExpiryOrderedIsFieldOrdered(s: seq<BloodPacket>)
    ensures ExpiryOrdered(s) <==> FieldOrdered(s, "EXPIRY_DATE")
  {
    KeyAgreesWithField(s, ExpiryOf, "EXPIRY_DATE");
  }

  lemma {:induction false} MatchingAppend(s: seq<BloodPacket>, t: seq<BloodPacket>, field: string, value: int)
    ensures Matching(s + t, field, value) == Matching(s, field, value) + Matching(t, field, value)
  {
    if s == [] {
      assert s + t == t;
    } else {
      assert (s + t)[1..] == s[1..] + t;
      MatchingAppend(s[1..], t, field, value);
    }
  }

  /** One step of the search loop. */
  lemma MatchingStep(s: seq<BloodPacket>, i: nat, field: string, value: int)
    requires i < |s|
    ensures Matching(s[..i + 1], field, value)
            == Matching(s[..i], field, value) + (if s[i].GetField(field) == value then [s[i]] else [])
  {
    assert s[..i + 1] == s[..i] + [s[i]];
    MatchingAppend(s[..i], [s[i]], field, value);
  }

  /** The search finds exactly the packets whose field reads `value`. */
  lemma {:induction false} MatchingMembers(s: seq<BloodPacket>, field: string, value: int)
    ensures forall p :: p in Matching(s, field, value) ==> p in s && p.GetField(field) == value
    ensures forall p :: p in s && p.GetField(field) == value ==> p in Matching(s, field, value)
  {
    if s != [] {
      MatchingMembers(s[1..], field, value);
      assert s == [s[0]] + s[1..];
    }
  }

  /** Search results come in ledger order, so they are ascending by expiry. */
  lemma {:induction false} MatchingOrdered(s: seq<BloodPacket>, field: string, value: int)
    requires ExpiryOrdered(s)
    ensures ExpiryOrdered(Matching(s, field, value))
  {
    if s != [] {
      SortedTail(s, ExpiryOf, IntLess);
      MatchingOrdered(s[1..], field, value);
      MatchingMembers(s[1..], field, value);
      var r := Matching(s[1..], field, value);
      forall p | p in r ensures s[0].expiryDate <= p.expiryDate {
        var j :| 0 <= j < |s[1..]| && s[1..][j] == p;
        assert s[j + 1] == p;
      }
    }
  }

  /** Every unknown field name reads as -1: searching it for -1 returns the
      whole ledger, searching it for anything else returns nothing. */
  lemma {:induction false} MatchingUnknownField(s: seq<BloodPacket>, field: string, value: int)
    requires !IsFieldName(field)
    ensures Matching(s, field, value) == if value == -1 then s else []
  {
    if s != [] {
      MatchingUnknownField(s[1..], field, value);
      assert s == [s[0]] + s[1..];
    }
  }
}
