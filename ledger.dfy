/** The blood database: the append-only ledger of every packet ever deposited,
    kept ascending by expiry day. It shares its packet objects with the
    inventory, so a dump or a dispatch is visible here too. */
module Ledger {
  import opened Ordered
  import opened Packets

  class BloodDatabase {
    var entries: seq<BloodPacket>

    ghost predicate Valid()
      reads this
    {
      ExpiryOrdered(entries) && Distinct(entries)
    }

    constructor ()
      ensures Valid() && entries == []
    {
      entries := [];
    }

    /** Creates a clean packet held at the bank and files it by expiry day. */
    method AddPacket(bloodType: int, expiryDate: int, donorId: int) returns (p: BloodPacket)
      requires Valid()
      modifies this
      ensures Valid()
      ensures fresh(p)
      ensures p.bloodType == bloodType && p.expiryDate == expiryDate && p.donorId == donorId
      ensures p.status == CLEAN && p.location == VAMPIRE
      ensures entries == SortedInsert(old(entries), ExpiryOf, IntLess, p)
    {
      p := new BloodPacket(bloodType, expiryDate, donorId);
      IntLessIsStrictWeakOrder();
      SortedInsertKeepsOrder(entries, ExpiryOf, IntLess, p);
      SortedInsertDistinct(entries, ExpiryOf, IntLess, p);
      entries := SortedInsert(entries, ExpiryOf, IntLess, p);
    }

    /** Linear search of the ledger; the ledger itself is left as it is. */
    method SearchBlood(field: string, value: int) returns (found: seq<BloodPacket>)
      ensures found == Matching(entries, field, value)
    {
      found := [];
      for i := 0 to |entries|
        invariant found == Matching(entries[..i], field, value)
      {
        MatchingStep(entries, i, field, value);
        if entries[i].GetField(field) == value {
          found := found + [entries[i]];
        }
      }
      assert entries[..|entries|] == entries;
    }

    /** The diagnostic listing sorts by `field` and then back by expiry; the
        listing itself is not modelled, the re-sorting of the list is. */
    method PrintBlood(field: string)
      requires Valid()
      modifies this
      ensures Valid()
      ensures multiset(entries) == multiset(old(entries))
    {
      entries := SortByField(entries, field);
      entries := SortByField(entries, "EXPIRY_DATE");
      ExpiryOrderedIsFieldOrdered(entries);
      PermutationDistinct(old(entries), entries);
    }
  }
}
