/**
 * Sessions driven through the registry's operations only: what a caller
 * can conclude from their contracts.
 */
module Session {
  import opened Wrappers
  import Age
  import opened Census
  import opened Registry
  import opened Aggregates

  /** Head "A" then member "B" of A's household, queried on 2025-01-01. */
  method TwoPersonSession() {
    var today := Age.Date(2025, 1, 1);
    var pa := Person(0, "A", Male, Age.Date(1990, 1, 1));
    var pb := Person(1, "B", Female, Age.Date(2023, 1, 1));
    var head := Household(0, "A", Male, Age.Date(1990, 1, 1), []);
    var r := new HouseholdRegistry();
    var a := r.AddHead("A", Male, Age.Date(1990, 1, 1));
    assert a == 0 && r.nextId == 1 && r.households == [head];
    JoinOnly(head, pb);
    label beforeMember:
    var b := r.AddMember(a, "B", Female, Age.Date(2023, 1, 1));
    assert HasHousehold(old@beforeMember(r.households), a) && old@beforeMember(r.nextId) == 1;
    assert b == Some(1);
    assert r.households == [head.(members := [pb])];
    TwoPersonCensus();
    var c := CountsOf(r.households, today);
    assert c == Counts([pa], [pb], [pb], [pa], [pa, pb]);
  }

  /** A member for the only household joins it. */
  lemma JoinOnly(h: Household, p: Person)
    requires h.members == []
    ensures HasHousehold([h], h.id)
    ensures AppendMember([h], h.id, p) == [h.(members := [p])]
  {
    assert [h][0].id == h.id;
    assert h.members + [p] == [p];
  }

  /** A member for a household id nobody has changes nothing. */
  method UnknownHouseholdSession() {
    var r := new HouseholdRegistry();
    var a := r.AddHead("A", Male, Age.Date(1990, 1, 1));
    ghost var before := r.households;
    assert !HasHousehold(r.households, a + 1);
    var missing := r.AddMember(a + 1, "C", Female, Age.Date(2024, 1, 1));
    assert missing == None && r.households == before;
  }
}
