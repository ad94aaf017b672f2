# Blood bank inventory engine, modelled in Dafny

This project models the blood-bank engine of `newEmulator/classes.py` and
proves properties of the model. The engine has these parts:

- **Vampire**, the facade. It holds a fixed table of the eight blood-type
  names, a growable table of location names (0 = DUMP, 1 = VAMPIRE), a day
  counter, and one inventory, one blood database and one donor database.
- **Inventory**, the live, allocatable stock. It is kept ascending by expiry
  day. `cleanUp` dumps expired packets. `doRequest` allocates greedily, earliest
  expiry first, and either serves the whole request or does nothing.
- **BloodDatabase**, the ledger of every packet ever deposited, also kept
  ascending by expiry. It offers a linear search by field.
- **BloodPacket**, a record. Its type, expiry and donor are fixed at intake.
  Its status and location change through `dump` and `sendTo`.
- **DonorDatabase**, which gives donors sequential ids and keeps them
  ascending by last name.

## How it is modelled

- A packet is a Dafny `class BloodPacket`. Its fixed fields are `const`; its
  status and location are `var`.
- The inventory (`Stock.Inventory.packets`) and the ledger
  (`Ledger.BloodDatabase.entries`) are `seq<BloodPacket>`. They hold
  references to the same packet objects, so a dump or a dispatch is visible
  through both.
- Python's `list.remove(p)` removes that exact object, because the classes
  define no equality. The model writes it as `Ordered.RemoveFirst` on
  references.
- The source imports two list helpers from a module `algos`; algos is not part
  of this model. Their behaviour is taken as follows:
  - `objectSortedInsert` inserts at the first position whose key is not less
    than the new key (`Ordered.SortedInsert`).
  - `objectBubbleSort` is a stable ascending sort (`Ordered.SortBy`, an
    insertion sort that places each element before the equal-keyed ones that
    follow it; `Ordered.SortByStable` proves it stable).
- Field names are kept only where the source passes them through: sorting by
  a named field and searching by a named field. Both use
  `Packets.BloodPacket.GetField`, which reads -1 for an unknown name. The
  donor registry sorts by the field name "LAST_NAME"; there the sort key
  `Donors.LastNameOf` is proved to be what `Donors.Donor.GetField` reads for
  that name.
- Each loop of the source that does not print is a method with a loop and
  its invariants, proved against a specification function:
  - the expiry scan of `cleanUp` is `ExpiredPackets`, against `Stock.Expired`;
  - its dump-and-remove loop is `DumpEach`;
  - the `while` scan of `doRequest` is `SelectPackets`, against
    `Stock.Allocation` and `Stock.Eligible`;
  - its remove-and-send loop is `SendEach`;
  - the search loop is `Ledger.BloodDatabase.SearchBlood`, against
    `Packets.Matching`. `Matching` is a second filter beside `Ordered.Filter`
    because its test reads the packets' mutable status, which a plain
    `T -> bool` test cannot.
- String order for last names is Python's: lexicographic by code point
  (`Ordered.LexLess`).

The diagnostic printers re-sort the list by a field and then by expiry
(`newEmulator/classes.py:117/120` and `152/155`). This can reorder packets
with equal expiry days. The model states only that the list keeps the same
packets and is ordered by expiry again. It does not claim that the order is
untouched.

## Model

| member | source | states |
|---|---|---|
| Ordered.InsertPos | newEmulator/classes.py:103 | the insertion point: every element before it has a smaller key, the element at it does not |
| Ordered.SortedInsertKeepsOrder | newEmulator/classes.py:103 | sorted insertion keeps an ascending list ascending, for any strict weak order |
| Ordered.SortedInsertBeforeEqual | newEmulator/classes.py:103 | a new element goes in front of every existing element with an equal key |
| Ordered.SortedInsertMultiset | newEmulator/classes.py:103 | sorted insertion adds exactly one occurrence of the new element and keeps all others |
| Ordered.SortedInsertMembers | newEmulator/classes.py:103 | after insertion the list holds the old elements and the new one, and nothing else |
| Ordered.SortedInsertDistinct | newEmulator/classes.py:103 | inserting an element not yet present keeps the list free of repeats |
| Ordered.SortedInsertAt | newEmulator/classes.py:103 | where every old element and the new one end up after an insertion |
| Ordered.SortedInsert | newEmulator/classes.py:103 | the sorted insertion adds exactly one element; where it goes is stated by `InsertPos` and the lemmas below |
| Ordered.SortBy | newEmulator/classes.py:124 | the sort keeps the length; order, permutation and stability are stated by the lemmas below |
| Ordered.SortByStable | newEmulator/classes.py:117 | the sort is stable: for any key value, the elements with an equivalent key come out in their original relative order |
| Ordered.SortBySorted | newEmulator/classes.py:124 | the stable sort yields an ascending list |
| Ordered.SortByMultiset | newEmulator/classes.py:124 | the stable sort is a permutation of its input |
| Ordered.SortByIdentityOnSorted | newEmulator/classes.py:124 | sorting a list that is already ascending leaves it exactly as it was |
| Ordered.SortByDistinct | newEmulator/classes.py:117 | sorting keeps a list free of repeats |
| Ordered.PermutationDistinct | newEmulator/classes.py:120 | any rearrangement of a list without repeats has none either |
| Ordered.LexLessIsStrictWeakOrder | newEmulator/classes.py:200 | Python's string order on last names is a strict weak order, so sorting by it is well defined |
| Ordered.RemoveFirst | newEmulator/classes.py:113 | `remove` needs the packet present and shortens the list by exactly one |
| Ordered.RemoveFirstMultiset | newEmulator/classes.py:113 | `remove` takes out exactly one occurrence of the packet |
| Ordered.RemoveFirstWithout | newEmulator/classes.py:113 | on a list without repeats, removing one more packet by identity extends the set of removed packets by it |
| Ordered.RemoveNext | newEmulator/classes.py:111-113 | step k of a removal loop: the next packet is still present and removing it gives the list without the first k+1 packets |
| Ordered.WithoutPartition | newEmulator/classes.py:111-113 | what the loop removed and what is left together are exactly the original list |
| Ordered.WithoutMembers | newEmulator/classes.py:111-113 | after removal, the list holds exactly the old packets that were not removed |
| Ordered.WithoutSorted | newEmulator/classes.py:111-113 | removing packets keeps an ascending list ascending |
| Ordered.WithoutDistinct | newEmulator/classes.py:111-113 | removing packets keeps a list free of repeats |
| Ordered.WithoutFilter | newEmulator/classes.py:107-113 | removing the packets a scan selected leaves exactly the packets the scan did not select, in order |
| Ordered.FilterMembers | newEmulator/classes.py:108-110 | a scan selects exactly the elements satisfying its test |
| Ordered.FilterSorted | newEmulator/classes.py:127-130 | the selected elements of an ascending list are ascending |
| Ordered.FilterDistinct | newEmulator/classes.py:108-110 | the selected elements of a list without repeats have none either |
| Ordered.FilterIdempotent | newEmulator/classes.py:108-110 | scanning the selected elements again with the same test selects all of them |
| Ordered.FilterComplementEmpty | newEmulator/classes.py:108-110 | among the elements a test rejects, the test selects nothing |
| Ordered.FilterStep | newEmulator/classes.py:108-110 | one scan step appends the current element exactly when it passes the test |
| Ordered.FilterPrefix | newEmulator/classes.py:127-132 | scanning a prefix yields a prefix of the full scan's selection |
| Packets.BloodPacket.constructor | newEmulator/classes.py:165-170 | a new packet carries the given type, expiry and donor, is CLEAN (1) and is at VAMPIRE (1) |
| Packets.BloodPacket.GetField | newEmulator/classes.py:175-184 | TYPE, EXPIRY_DATE, DONOR_ID and STATUS read their fields, an unrecognised name reads -1 |
| Packets.BloodPacket.Dump | newEmulator/classes.py:186-188 | disposal sets both status and location to 0 |
| Packets.BloodPacket.SendTo | newEmulator/classes.py:190-191 | sending sets the location to the destination and leaves the status as it was |
| Packets.SortByField | newEmulator/classes.py:117 | the re-sort by a named field is a permutation, ascending by that field, stable (for every value, the packets whose field reads it keep their relative order), and leaves an already ordered list unchanged |
| Packets.ExpiryOrderedIsFieldOrdered | newEmulator/classes.py:124 | ordered by the expiry key if and only if ordered by the field name "EXPIRY_DATE" |
| Stock.Expired | newEmulator/classes.py:107-110 | holds exactly the inventory packets whose expiry day is before the day, in both directions |
| Stock.Unexpired | newEmulator/classes.py:106-113 | holds exactly the inventory packets whose expiry day is on or after the day, in both directions |
| Stock.Eligible | newEmulator/classes.py:127-130 | holds exactly the inventory packets of the requested type that expire on or after the use-by day, in both directions |
| Stock.Allocation | newEmulator/classes.py:125-133 | a satisfiable request takes exactly n packets, each in the inventory, of the requested type and expiring no earlier than the use-by day |
| Stock.Inventory.constructor | newEmulator/classes.py:96-99 | the inventory starts empty |
| Stock.Inventory.AddPacketID | newEmulator/classes.py:102-103 | the packet is inserted at its expiry position; the inventory stays ascending and free of repeats |
| Stock.Inventory.CleanUp | newEmulator/classes.py:106-113 | exactly the packets expiring before the day are removed, each with status 0 and location 0; the rest stay, in order and untouched |
| Stock.Inventory.ExpiredPackets | newEmulator/classes.py:107-110 | the first loop collects exactly the packets expiring before the day, in inventory order |
| Stock.Inventory.DumpEach | newEmulator/classes.py:111-113 | the second loop leaves the inventory without the collected packets, and every collected packet is dumped |
| Stock.Inventory.DoRequest | newEmulator/classes.py:123-139 | succeeds if and only if enough eligible packets exist; on failure nothing changes; on success exactly the first n eligible packets in expiry order leave, each sent to the destination with its status kept, and all others stay untouched |
| Stock.Inventory.SelectPackets | newEmulator/classes.py:125-133 | the scan falls short exactly when fewer than n packets are eligible, and otherwise collects the first n eligible packets |
| Stock.Inventory.SendEach | newEmulator/classes.py:135-137 | the removal loop leaves the inventory without the chosen packets and moves each of them to the destination |
| Stock.Inventory.PrintInventory | newEmulator/classes.py:116-120 | after the two re-sorts the inventory holds the same packets and is ascending by expiry again |
| Stock.CleanUpPartition | newEmulator/classes.py:106-113 | the removed and the kept packets together are exactly the old inventory |
| Stock.CleanUpIdempotent | newEmulator/classes.py:106-113 | a second cleanup on the same day finds nothing expired and keeps everything |
| Stock.ExpiredArePrefix | newEmulator/classes.py:106-113 | in an inventory ascending by expiry, the expired packets come first and the rest follow |
| Stock.NoneExpired | newEmulator/classes.py:106-113 | when no packet expires before the day, cleanup removes nothing |
| Stock.AllocationIsEarliest | newEmulator/classes.py:124-133 | no eligible packet left behind expires before a packet that was taken |
| Stock.AllocationPartition | newEmulator/classes.py:135-137 | the packets sent and the packets kept together are exactly the old inventory |
| Stock.AllocationDistinct | newEmulator/classes.py:125-133 | a request never takes the same packet twice |
| Ledger.BloodDatabase.constructor | newEmulator/classes.py:142-144 | the ledger starts empty |
| Ledger.BloodDatabase.AddPacket | newEmulator/classes.py:146-149 | a new, clean packet at VAMPIRE is created and filed at its expiry position; the ledger stays ascending and free of repeats |
| Ledger.BloodDatabase.SearchBlood | newEmulator/classes.py:157-162 | the search returns exactly the ledger packets whose named field equals the value, in ledger order, and changes nothing |
| Ledger.BloodDatabase.PrintBlood | newEmulator/classes.py:151-155 | after the two re-sorts the ledger holds the same packets and is ascending by expiry again |
| Packets.Matching | newEmulator/classes.py:157-162 | the search result is never longer than the ledger; its contents are stated by the lemmas below |
| Packets.MatchingMembers | newEmulator/classes.py:157-162 | a packet is found if and only if it is in the ledger and its field equals the value |
| Packets.MatchingOrdered | newEmulator/classes.py:157-162 | search results from an ascending ledger are ascending by expiry |
| Packets.MatchingUnknownField | newEmulator/classes.py:175-184 | for an unknown field name the search returns the whole ledger when the value is -1 and nothing otherwise |
| Packets.MatchingStep | newEmulator/classes.py:159-161 | one step of the search loop appends the current packet exactly when its field matches |
| Packets.MatchingAppend | newEmulator/classes.py:159-161 | searching two lists one after the other gives the two results one after the other |
| Donors.Donor.GetField | newEmulator/classes.py:206-222 | a donor built from id, first and last name reads them back as ID, FIRST_NAME and LAST_NAME, and any other name reads -1 |
| Donors.LastNameOf | newEmulator/classes.py:196-200 | the registry's sort key is exactly what the field "LAST_NAME", which the registry sorts by, reads |
| Donors.DonorDatabase.constructor | newEmulator/classes.py:194-196 | the donor registry starts empty |
| Donors.DonorDatabase.AddDonor | newEmulator/classes.py:198-200 | the new donor gets id equal to the number of earlier donors; the registry stays ascending by last name with ids 0..n-1, each used once |
| Donors.NextIdKeepsIds | newEmulator/classes.py:199 | giving the next donor id n keeps the ids below the registry size and pairwise different |
| Donors.AddDonorContents | newEmulator/classes.py:198-200 | a registration adds exactly the new donor and keeps every earlier donor with its id |
| Bank.WithLocation | newEmulator/classes.py:64-65 | registering a name keeps every known index, and an unseen name gets the table's previous size |
| Bank.WithLocationNumbered | newEmulator/classes.py:44-45 | registration keeps location indices contiguous from 0 and distinct, with DUMP at 0 and VAMPIRE at 1 |
| Bank.WithLocationAsWritten | newEmulator/classes.py:44-45 | the name gets the table's current size whether or not it is known; every other name keeps its index |
| Bank.AsWrittenRenumbers | newEmulator/classes.py:44-45 | the unconditional assignment renumbers a known name: DUMP moves to 2, and the next new name also gets 2 |
| Bank.AsWrittenAgreesOnNewNames | newEmulator/classes.py:64-65 | for a name not yet in the table, the unconditional assignment and the corrected registration agree |
| Bank.InitialLocationsNumbered | newEmulator/classes.py:22-25 | the initial location table is numbered correctly |
| Bank.Vampire.constructor | newEmulator/classes.py:5-32 | starts on day 0 with the initial location table and an empty inventory, ledger and donor registry |
| Bank.Vampire.AddDonor | newEmulator/classes.py:41-42 | delegates to the registry, keeping the facade's invariant |
| Bank.Vampire.AddLocation | newEmulator/classes.py:44-45 | registers an unseen name under the next index and keeps all existing indices |
| Bank.Vampire.MakeDeposit | newEmulator/classes.py:52-58 | an unknown blood-type name is refused with no change; otherwise the same new packet is filed in the ledger and in the inventory, both staying ascending |
| Bank.Vampire.MakeRequest | newEmulator/classes.py:61-69 | an unknown type is refused before the location table is touched; otherwise an unseen destination is registered even if the request then fails, and the inventory serves the request as in doRequest |
| Bank.Vampire.CleanUp | newEmulator/classes.py:72-74 | the day goes up by exactly one, and the inventory is cleaned with the new day |
| Bank.Vampire.SearchBlood | newEmulator/classes.py:90-93 | returns the ledger packets whose field equals the value, which the source then prints |
| Bank.Vampire.PrintInventory | newEmulator/classes.py:77-79 | the inventory keeps the same packets and the facade's invariant |
| Bank.Vampire.PrintBlood | newEmulator/classes.py:86-87 | the ledger keeps the same packets and the facade's invariant |
| Scenarios.ThreePackets | newEmulator/classes.py:102-103 | depositing A (expiry 10), B (20) and C (15) lists them as A, C, B |
| Scenarios.AllocationExample | newEmulator/classes.py:123-139 | a request for two O_NEG packets usable on day 12 takes C and B and leaves only A |
| Scenarios.CleanUpExample | newEmulator/classes.py:106-113 | cleanup on day 16 dumps A and C and leaves B |

The facade's invariant (`Bank.Vampire.Valid`) says four things:

- the inventory, the ledger and the registry each keep their own order and
  are free of repeats;
- the location table is numbered 0..n-1 without clashes, with DUMP at 0 and
  VAMPIRE at 1;
- every live packet is also in the ledger;
- a packet is live only while it is clean and at VAMPIRE.

Every facade method preserves it.

## Left out

- Printing: `toString`, and the listing side of `printInventory`,
  `printBlood`, `printDonors` and `printLocations`. They are output only. Of
  the printers, only the re-sorting of the lists is modelled.
- `emulator.py` as a whole, which is interactive command-line plumbing. The
  packet-by-id operations `markPacket`, `disposePacket` and `sendPacketByID`
  belong to the `MainSystem` class that emulator.py imports; that class is not
  part of this model.
- The `algos` and `enums` modules. The two list helpers are modelled by the
  behaviour described above, which is not checked against their code.
- The status table (`newEmulator/classes.py:17-20`), which is never read.
- The low and high blood levels (`newEmulator/classes.py:97-98`), which are
  never read. `Stock.Inventory.constructor` therefore takes no
  blood-type count.
- `Donor.toString`, which is output only. Of `Donor.getField`, the core only
  reads the "LAST_NAME" case, through the registry's sorted insertion
  (`newEmulator/classes.py:196, 200`); `Donors.Donor.GetField` still models
  every case, but no operation of the model reads the FIRST_NAME and ID cases
  or the -1 fallback.
- The iteration order of the Python dictionaries, which only the location
  printer would show.
- Stock.Inventory.AddPacketID: requires that the packet is not already in the
  inventory. The source does not check this, but the facade only ever inserts
  a packet it has just created.
- Bank.Vampire.SearchBlood: returns the matching packets instead of printing
  them.
- Bank.Vampire.AddLocation: models the corrected registration, which keeps a
  known name's index. The source's unconditional version is
  `Bank.WithLocationAsWritten` (see Findings). Its only caller in the source
  checks first that the name is new, and there the two agree.
- Stock.Inventory.PrintInventory: states that the same packets are kept,
  ascending by expiry, but not that their order is unchanged, because the code
  can reorder packets with equal expiry. Ledger.BloodDatabase.PrintBlood is
  stated the same way.
- Python's `remove` raises an error when the packet is absent. In every
  removal loop the packet is provably present, so the model has no error
  path.

## Findings

| source | as written | input that shows it | evidently intended | confidence | as-written member | corrected member |
|---|---|---|---|---|---|---|
| newEmulator/classes.py:44-45 | `addLocation` assigns the name the table's current size even if the name is already registered | on the initial table, `addLocation("DUMP")` moves DUMP from 0 to 2 and leaves no name at 0. A following `addLocation("HOSPITAL")` also gets 2, so two names share an index | register only unseen names, and never change an existing index | not executed; the request path only calls it for unseen names | Bank.AsWrittenRenumbers | Bank.WithLocation |
