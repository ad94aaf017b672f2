/** The donor registry: donors get sequential ids in registration order and
    the list is kept ascending by last name. */
module Donors {
  import opened Ordered

  /** A field of a donor: the names are text, the id and the fallback a number. */
  datatype FieldValue = Text(text: string) | Number(number: int)

  /** A donor never changes after registration, so it is a value. */
  datatype Donor = Donor(id: nat, firstName: string, lastName: string)
  {
    /** Field lookup by name; an unrecognised name reads as -1. */
    function GetField(field: string): (v: FieldValue)
      ensures field == "FIRST_NAME" ==> v == Text(firstName)
      ensures field == "LAST_NAME" ==> v == Text(lastName)
      ensures field == "ID" ==> v == Number(id)
      ensures field != "FIRST_NAME" && field != "LAST_NAME" && field != "ID" ==> v == Number(-1)
    {
      if field == "FIRST_NAME" then Text(firstName)
      else if field == "LAST_NAME" then Text(lastName)
      else if field == "ID" then Number(id)
      else Number(-1)
    }
  }

  /** The sort key of the registry: the text of the field "LAST_NAME", which
      is the field name the registry sorts by. */
  function LastNameOf(d: Donor): (name: string)
    ensures d.GetField("LAST_NAME") == Text(name)
  {
    d.lastName
  }

  /** Every id is below the number of donors and no two donors share one, so
      the ids are 0 .. |s|-1, each exactly once. */
  predicate SequentialIds(s: seq<Donor>) {
    && (forall i :: 0 <= i < |s| ==> s[i].id < |s|)
    && (forall i, j :: 0 <= i < j < |s| ==> s[i].id != s[j].id)
  }

  class DonorDatabase {
    var entries: seq<Donor>

    /** Sorted by last name, and the ids are exactly 0 .. |entries|-1, each once. */
    ghost predicate Valid()
      reads this
    {
      SortedBy(entries, LastNameOf, LexLess) && SequentialIds(entries)
    }

    constructor ()
      ensures Valid() && entries == []
    {
      entries := [];
    }

    /** Registers a donor under the next id, in last-name order; a donor whose
        last name equals an existing one goes in front of it. */
    method AddDonor(firstName: string, lastName: string)
      requires Valid()
      modifies this
      ensures Valid()
      ensures entries == SortedInsert(old(entries), LastNameOf, LexLess, Donor(|old(entries)|, firstName, lastName))
    {
      var d := Donor(|entries|, firstName, lastName);
      LexLessIsStrictWeakOrder();
      SortedInsertKeepsOrder(entries, LastNameOf, LexLess, d);
      NextIdKeepsIds(entries, firstName, lastName);
      entries := SortedInsert(entries, LastNameOf, LexLess, d);
    }
  }

  // ---------------------------------------------------------------------------
  // Lemmas

  /** Registering under id |s| keeps the ids exactly 0 .. |s| and unique. */
  lemma NextIdKeepsIds(s: seq<Donor>, firstName: string, lastName: string)
    requires SequentialIds(s)
    ensures SequentialIds(SortedInsert(s, LastNameOf, LexLess, Donor(|s|, firstName, lastName)))
  {
    var d := Donor(|s|, firstName, lastName);
    var r := SortedInsert(s, LastNameOf, LexLess, d);
    var k := InsertPos(s, LastNameOf, LexLess, d);
    forall i | 0 <= i < |r| ensures r[i].id < |r| {
      SortedInsertAt(s, LastNameOf, LexLess, d, i);
    }
    forall i, j | 0 <= i < j < |r| ensures r[i].id != r[j].id {
      SortedInsertAt(s, LastNameOf, LexLess, d, i);
      SortedInsertAt(s, LastNameOf, LexLess, d, j);
      if i == k {
        assert r[j] == s[j - 1];
      } else if j == k {
        assert r[i] == s[i];
      } else {
        var i' := if i < k then i else i - 1;
        var j' := if j < k then j else j - 1;
        assert r[i] == s[i'] && r[j] == s[j'] && i' < j';
      }
    }
  }

  /** A registration adds exactly the new donor, with the next id, and keeps
      every earlier donor with its id. */
  lemma AddDonorContents(s: seq<Donor>, firstName: string, lastName: string)
    ensures var r := SortedInsert(s, LastNameOf, LexLess, Donor(|s|, firstName, lastName));
      |r| == |s| + 1 && multiset(r) == multiset(s) + multiset{Donor(|s|, firstName, lastName)}
  {
    SortedInsertMultiset(s, LastNameOf, LexLess, Donor(|s|, firstName, lastName));
  }
}
