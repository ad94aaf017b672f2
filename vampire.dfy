/** The facade of the blood bank: a fixed blood-type table, a growable table
    of location names, a day counter, and the inventory, the ledger and the
    donor registry it drives. */
module Bank {
  import opened Ordered
  import opened Packets
  import opened Stock
  import opened Ledger
  import opened Donors

  /** The eight blood-type names and their indices. */
  const BloodTypeTable: map<string, int> := map[
    "O_NEG" := 0, "O_POS" := 1, "A_NEG" := 2, "A_POS" := 3,
    "B_NEG" := 4, "B_POS" := 5, "AB_NEG" := 6, "AB_POS" := 7]

  /** The locations known from the start. */
  const InitialLocations: map<string, int> := map["DUMP" := DUMP, "VAMPIRE" := VAMPIRE]

  /** Each location name has its own index, the indices are 0 .. |table|-1,
      and the two reserved names hold 0 and 1. */
  ghost predicate LocationsNumbered(table: map<string, int>) {
    && (forall n :: n in table ==> 0 <= table[n] < |table|)
    && (forall n, m :: n in table && m in table && n != m ==> table[n] != table[m])
    && "DUMP" in table && table["DUMP"] == DUMP
    && "VAMPIRE" in table && table["VAMPIRE"] == VAMPIRE
  }

  /** Location registration: an unseen name gets the next free index, a known
      name keeps the index it has. */
  function WithLocation(table: map<string, int>, loc: string): (r: map<string, int>)
    ensures loc in r
    ensures forall n :: n in table ==> n in r && r[n] == table[n]
    ensures forall n :: n in r ==> n in table || n == loc
    ensures loc !in table ==> r[loc] == |table| && |r| == |table| + 1
  {
    if loc in table then table else table[loc := |table|]
  }

  /** The location registration of the source: the name is (re)assigned the
      table's current size whether or not it is already there. */
  function WithLocationAsWritten(table: map<string, int>, loc: string): (r: map<string, int>)
    ensures loc in r && r[loc] == |table|
    ensures forall n :: n in table && n != loc ==> n in r && r[n] == table[n]
    ensures forall n :: n in r ==> n in table || n == loc
  {
    table[loc := |table|]
  }

  class Vampire {
    var locationTable: map<string, int>
    var day: int
    const inventory: Inventory
    const bloodDatabase: BloodDatabase
    const donorDatabase: DonorDatabase

    /** Besides the parts' own invariants: every live packet is also in the
        ledger, and a packet is live only while it is clean and at the bank. */
    ghost predicate Valid()
      reads this, inventory, bloodDatabase, donorDatabase, inventory.packets
    {
      && inventory.Valid() && bloodDatabase.Valid() && donorDatabase.Valid()
      && LocationsNumbered(locationTable)
      && (forall p :: p in inventory.packets ==> p in bloodDatabase.entries)
      && (forall p :: p in inventory.packets ==> p.status == CLEAN && p.location == VAMPIRE)
    }

    constructor ()
      ensures Valid()
      ensures locationTable == InitialLocations && day == 0
      ensures inventory.packets == [] && bloodDatabase.entries == [] && donorDatabase.entries == []
    {
      locationTable := InitialLocations;
      day := 0;
      inventory := new Inventory();
      bloodDatabase := new BloodDatabase();
      donorDatabase := new DonorDatabase();
      InitialLocationsNumbered();
    }

    method AddDonor(firstName: string, lastName: string)
      requires Valid()
      modifies donorDatabase
      ensures Valid()
      ensures donorDatabase.entries
              == SortedInsert(old(donorDatabase.entries), LastNameOf, LexLess,
                              Donor(|old(donorDatabase.entries)|, firstName, lastName))
    {
      donorDatabase.AddDonor(firstName, lastName);
    }

    /** Registers `loc` unless it is known already (see the findings for the
        source's unconditional version). */
    method AddLocation(loc: string)
      requires Valid()
      modifies this`locationTable
      ensures Valid()
      ensures locationTable == WithLocation(old(locationTable), loc)
    {
      WithLocationNumbered(locationTable, loc);
      if loc !in locationTable {
        locationTable := locationTable[loc := |locationTable|];
      }
    }

    /** Accepts a packet: an unknown blood-type name is refused and nothing
        changes; otherwise the same new packet is filed in the ledger and in
        the inventory. */
    method MakeDeposit(bloodTypeStr: string, expiryDate: int, donorId: int)
      returns (ok: bool, ghost newPacket: BloodPacket?)
      requires Valid()
      modifies inventory, bloodDatabase
      ensures Valid()
      ensures ok <==> bloodTypeStr in BloodTypeTable
      ensures !ok ==> inventory.packets == old(inventory.packets) && bloodDatabase.entries == old(bloodDatabase.entries)
      ensures ok ==> newPacket != null && fresh(newPacket)
      ensures ok ==>
                var p := newPacket as BloodPacket;
                && p.bloodType == BloodTypeTable[bloodTypeStr] && p.expiryDate == expiryDate && p.donorId == donorId
                && bloodDatabase.entries == SortedInsert(old(bloodDatabase.entries), ExpiryOf, IntLess, p)
                && inventory.packets == SortedInsert(old(inventory.packets), ExpiryOf, IntLess, p)
    {
      newPacket := null;
      if bloodTypeStr !in BloodTypeTable {
        return false, newPacket;
      }
      var bloodIndex := BloodTypeTable[bloodTypeStr];
      ghost var live := inventory.packets;
      ghost var filed := bloodDatabase.entries;
      var p := bloodDatabase.AddPacket(bloodIndex, expiryDate, donorId);
      assert p !in inventory.packets;
      inventory.AddPacketID(p);
      SortedInsertMembers(live, ExpiryOf, IntLess, p);
      SortedInsertMembers(filed, ExpiryOf, IntLess, p);
      newPacket := p;
      return true, newPacket;
    }

    /** Gives blood: an unknown blood-type name is refused before anything
        changes; otherwise an unseen destination is registered first, even if
        the request then fails, and the inventory serves the request. */
    method MakeRequest(bloodTypeStr: string, nPackets: int, useBy: int, dest: string) returns (accepted: bool)
      requires Valid()
      modifies this, inventory, inventory.packets
      ensures Valid()
      ensures day == old(day)
      ensures bloodTypeStr !in BloodTypeTable ==>
                !accepted && locationTable == old(locationTable) && inventory.packets == old(inventory.packets)
      ensures bloodTypeStr in BloodTypeTable ==> locationTable == WithLocation(old(locationTable), dest)
      ensures accepted ==> bloodTypeStr in BloodTypeTable
      ensures bloodTypeStr in BloodTypeTable ==>
                var t := BloodTypeTable[bloodTypeStr];
                && (accepted <==> nPackets <= |Eligible(old(inventory.packets), t, useBy)|)
                && (!accepted ==> inventory.packets == old(inventory.packets))
                && (accepted ==> inventory.packets
                                 == Without(old(inventory.packets), Allocation(old(inventory.packets), t, useBy, nPackets)))
      ensures forall p :: p in old(inventory.packets) ==> p.status == old(p.status)
      ensures forall p :: p in old(inventory.packets) ==>
                p.location == if accepted && p in Allocation(old(inventory.packets), BloodTypeTable[bloodTypeStr], useBy, nPackets)
                              then locationTable[dest] else old(p.location)
    {
      if bloodTypeStr !in BloodTypeTable {
        return false;
      }
      if dest !in locationTable {
        AddLocation(dest);
      }
      var destIndex := locationTable[dest];
      var bloodIndex := BloodTypeTable[bloodTypeStr];
      ghost var live := inventory.packets;
      accepted := inventory.DoRequest(bloodIndex, nPackets, useBy, destIndex);
      if accepted {
        WithoutMembers(live, Allocation(live, bloodIndex, useBy, nPackets));
      }
    }

    /** Advances the day by one and cleans the inventory with the new day. */
    method CleanUp()
      requires Valid()
      modifies this`day, inventory, inventory.packets
      ensures Valid()
      ensures day == old(day) + 1
      ensures inventory.packets == Unexpired(old(inventory.packets), day)
      ensures forall p :: p in old(inventory.packets) && p.expiryDate < day ==>
                p.status == UNCLEAN && p.location == DUMP
      ensures forall p :: p in old(inventory.packets) && day <= p.expiryDate ==>
                p.status == old(p.status) && p.location == old(p.location)
    {
      day := day + 1;
      ghost var live := inventory.packets;
      inventory.CleanUp(day);
      FilterMembers(live, Complement(ExpiredBy(day)));
    }

    /** The packets of the ledger whose field reads `value`, which the source
        then prints. */
    method SearchBlood(field: string, value: int) returns (found: seq<BloodPacket>)
      ensures found == Matching(bloodDatabase.entries, field, value)
    {
      found := bloodDatabase.SearchBlood(field, value);
    }

    method PrintInventory(field: string)
      requires Valid()
      modifies inventory
      ensures Valid()
      ensures multiset(inventory.packets) == multiset(old(inventory.packets))
    {
      inventory.PrintInventory(field);
      forall p | p in inventory.packets ensures p in old(inventory.packets) {
        assert p in multiset(inventory.packets);
      }
    }

    method PrintBlood(field: string)
      requires Valid()
      modifies bloodDatabase
      ensures Valid()
      ensures multiset(bloodDatabase.entries) == multiset(old(bloodDatabase.entries))
    {
      bloodDatabase.PrintBlood(field);
      forall p | p in old(bloodDatabase.entries) ensures p in bloodDatabase.entries {
        assert p in multiset(old(bloodDatabase.entries));
      }
    }
  }

  // ---------------------------------------------------------------------------
  // Lemmas

  lemma InitialLocationsNumbered()
    ensures LocationsNumbered(InitialLocations)
  {
    assert InitialLocations.Keys == {"DUMP", "VAMPIRE"};
  }

  /** Registration keeps the location indices distinct and contiguous, and
      never changes an existing index. */
  lemma WithLocationNumbered(table: map<string, int>, loc: string)
    requires LocationsNumbered(table)
    ensures LocationsNumbered(WithLocation(table, loc))
  {
  }

  /** The source's version breaks the numbering: registering "DUMP" again moves
      it from 0 to 2, and the next new name is given 2 as well. */
  lemma AsWrittenRenumbers()
    ensures var t := WithLocationAsWritten(InitialLocations, "DUMP");
      && t["DUMP"] == 2
      && !LocationsNumbered(t)
      && WithLocationAsWritten(t, "HOSPITAL")["HOSPITAL"] == WithLocationAsWritten(t, "HOSPITAL")["DUMP"]
  {
    assert InitialLocations.Keys == {"DUMP", "VAMPIRE"};
    var t := WithLocationAsWritten(InitialLocations, "DUMP");
    assert t.Keys == {"DUMP", "VAMPIRE"};
  }

  /** On a name that is not yet known both versions agree, which is the only
      way the request path uses it. */
  lemma AsWrittenAgreesOnNewNames(table: map<string, int>, loc: string)
    requires loc !in table
    ensures WithLocationAsWritten(table, loc) == WithLocation(table, loc)
  {
  }
}
