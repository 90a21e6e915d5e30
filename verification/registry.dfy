/**
 * The household registry: the `households` state of the census screen and
 * the two branches of its form handler, adding a head of household or a
 * member of an existing household.  Ids come from a counter instead of the
 * wall clock, so no two records can share one.
 */
module Registry {
  import opened Wrappers
  import Age
  import opened Census

  /** All ids among the heads and members of `hs`, with multiplicity. */
  ghost function IdBag(hs: seq<Household>): multiset<nat> {
    multiset(Ids(Flatten(hs)))
  }

  /** What the entry form guarantees of every record: a name and a real date. */
  predicate WellFormed(p: Person) {
    |p.name| > 0 && Age.ValidDate(p.dob)
  }

  /**
   * No two records anywhere in `hs` share an id, every id is below the
   * counter `next`, and every record passed the entry form.
   */
  ghost predicate ValidState(hs: seq<Household>, next: nat) {
    (forall id :: IdBag(hs)[id] <= 1) &&
    (forall id :: IdBag(hs)[id] > 0 ==> id < next) &&
    (forall p :: p in Flatten(hs) ==> WellFormed(p))
  }

  /** Adding a head with the counter's id keeps the registry valid; the id was unused. */
  lemma AddHeadKeepsValid(hs: seq<Household>, next: nat, h: Household)
    requires ValidState(hs, next)
    requires h.id == next && h.members == [] && WellFormed(HeadOf(h))
    ensures IdBag(hs)[next] == 0
    ensures ValidState(hs + [h], next + 1)
  {
    AddHeadPopulation(hs, h);
    IdsConcat(Flatten(hs), [HeadOf(h)]);
    assert IdBag(hs + [h]) == IdBag(hs) + multiset{next};
    GrowKeepsValid(hs, hs + [h], next, HeadOf(h));
  }

  /**
   * Adding a member with the counter's id to an existing household keeps the
   * registry valid; the id was unused and the new person is the only new record.
   */
  lemma AddMemberKeepsValid(hs: seq<Household>, next: nat, headId: nat, p: Person)
    requires ValidState(hs, next)
    requires HasHousehold(hs, headId) && p.id == next && WellFormed(p)
    ensures IdBag(hs)[next] == 0
    ensures IdBag(AppendMember(hs, headId, p)) == IdBag(hs) + multiset{next}
    ensures multiset(Flatten(AppendMember(hs, headId, p))) == multiset(Flatten(hs)) + multiset{p}
    ensures ValidState(AppendMember(hs, headId, p), next + 1)
  {
    UniqueHead(hs, next, headId);
    AppendMemberIds(hs, headId, p);
    AppendMemberPopulation(hs, headId, p);
    assert Copies(p, 1) == multiset{p};
    assert Copies(p.id, 1) == multiset{p.id};
    GrowKeepsValid(hs, AppendMember(hs, headId, p), next, p);
  }

  /** In a valid registry a household id that is present belongs to exactly one household. */
  lemma UniqueHead(hs: seq<Household>, next: nat, headId: nat)
    requires ValidState(hs, next) && HasHousehold(hs, headId)
    ensures HeadCount(hs, headId) == 1
  {
    var i :| 0 <= i < |hs| && hs[i].id == headId;
    HeadCountPositive(hs, headId, i);
    HeadCountBound(hs, headId);
    assert IdBag(hs)[headId] <= 1;
  }

  /**
   * A registry that gains exactly one record, carrying the counter's id and
   * passing the entry form, stays valid once the counter moves on.
   */
  lemma GrowKeepsValid(hs: seq<Household>, r: seq<Household>, next: nat, p: Person)
    requires ValidState(hs, next) && p.id == next && WellFormed(p)
    requires IdBag(r) == IdBag(hs) + multiset{next}
    requires multiset(Flatten(r)) == multiset(Flatten(hs)) + multiset{p}
    ensures IdBag(hs)[next] == 0
    ensures ValidState(r, next + 1)
  {
    GrowIds(IdBag(hs), IdBag(r), next);
    GrowWellFormed(Flatten(hs), Flatten(r), p);
  }

  /** One new id, the counter's, keeps the ids distinct and below the advanced counter. */
  lemma GrowIds(before: multiset<nat>, after: multiset<nat>, next: nat)
    requires forall id :: before[id] <= 1
    requires forall id :: before[id] > 0 ==> id < next
    requires after == before + multiset{next}
    ensures before[next] == 0
    ensures forall id :: after[id] <= 1
    ensures forall id :: after[id] > 0 ==> id < next + 1
  {
    assert before[next] == 0;
    forall id ensures after[id] <= 1 && (after[id] > 0 ==> id < next + 1) {
      assert after[id] == before[id] + multiset{next}[id];
    }
  }

  /** One new well-formed record keeps every record well formed. */
  lemma GrowWellFormed(before: seq<Person>, after: seq<Person>, p: Person)
    requires forall q :: q in before ==> WellFormed(q)
    requires WellFormed(p) && multiset(after) == multiset(before) + multiset{p}
    ensures forall q :: q in after ==> WellFormed(q)
  {
    forall q | q in after ensures WellFormed(q) {
      assert q in multiset(after);
    }
  }

  /** The clock reading (in milliseconds) that the form handler uses as an id. */
  const SameTick: nat := 1700000000000

  /** Adding a head whose id is the clock reading `clockMs`, as the form handler does. */
  function AddHeadAtClock(hs: seq<Household>, clockMs: nat, name: string, gender: Gender, dob: Age.Date)
    : (r: seq<Household>)
    ensures |r| == |hs| + 1 && r[..|hs|] == hs && r[|hs|] == Household(clockMs, name, gender, dob, [])
  {
    hs + [Household(clockMs, name, gender, dob, [])]
  }

  /**
   * Two heads submitted within the same millisecond get the same id: the
   * registry then holds that id twice, and a member added to "that"
   * household is added to both.
   */
  lemma SameTickCollision(dob: Age.Date, p: Person)
    ensures var hs := AddHeadAtClock(AddHeadAtClock([], SameTick, "A", Male, dob), SameTick, "B", Female, dob);
            IdBag(hs)[SameTick] == 2 && !ValidState(hs, SameTick + 1) &&
            multiset(Flatten(AppendMember(hs, SameTick, p))) == multiset(Flatten(hs)) + multiset{p, p}
  {
    var h0 := Household(SameTick, "A", Male, dob, []);
    var h1 := Household(SameTick, "B", Female, dob, []);
    assert AddHeadAtClock(AddHeadAtClock([], SameTick, "A", Male, dob), SameTick, "B", Female, dob) == [h0, h1];
    SharedId(h0, h1, p);
  }

  /** Two memberless households with one id: the id is held twice and a member lands in both. */
  lemma SharedId(h0: Household, h1: Household, p: Person)
    requires h0.members == [] && h1.members == [] && h0.id == h1.id
    ensures IdBag([h0, h1])[h0.id] == 2 && !ValidState([h0, h1], h0.id + 1)
    ensures multiset(Flatten(AppendMember([h0, h1], h0.id, p))) == multiset(Flatten([h0, h1])) + multiset{p, p}
  {
    SharedIdBag(h0, h1);
    SharedIdMember(h0, h1, p);
  }

  /** Two heads with one id put that id into the registry twice. */
  lemma SharedIdBag(h0: Household, h1: Household)
    requires h0.members == [] && h1.members == [] && h0.id == h1.id
    ensures IdBag([h0, h1])[h0.id] == 2
  {
    TwoHeads(h0, h1);
    assert Ids([HeadOf(h0), HeadOf(h1)]) == [h0.id, h0.id];
  }

  /** A member added to an id two heads share is added to both households. */
  lemma SharedIdMember(h0: Household, h1: Household, p: Person)
    requires h0.members == [] && h1.members == [] && h0.id == h1.id
    ensures multiset(Flatten(AppendMember([h0, h1], h0.id, p))) == multiset(Flatten([h0, h1])) + multiset{p, p}
  {
    TwoHeads(h0, h1);
    AppendMemberPopulation([h0, h1], h0.id, p);
    assert Copies(p, 2) == multiset{p, p};
  }

  /** Two memberless households contribute just their heads, in order, and each counts once. */
  lemma TwoHeads(h0: Household, h1: Household)
    requires h0.members == [] && h1.members == []
    ensures Flatten([h0, h1]) == [HeadOf(h0), HeadOf(h1)]
    ensures HeadCount([h0, h1], h0.id) == 1 + (if h1.id == h0.id then 1 else 0)
  {
    assert [h0, h1][1..] == [h1] && [h1][1..] == [];
    assert HeadCount([h1], h0.id) == (if h1.id == h0.id then 1 else 0) + HeadCount([], h0.id);
  }

  class HouseholdRegistry {
    /** The households in the order their heads were added. */
    var households: seq<Household>
    /** The id the next record receives. */
    var nextId: nat

    /** The registry's invariant, on its two fields. */
    ghost predicate Valid()
      reads this
    {
      ValidState(households, nextId)
    }

    /** An empty registry, as at the start of a session. */
    constructor ()
      ensures Valid()
      ensures households == [] && nextId == 0
    {
      households := [];
      nextId := 0;
    }

    /**
     * Adds a head of household: a new household with no members goes at the
     * end and every earlier household is left as it was.
     */
    method AddHead(name: string, gender: Gender, dob: Age.Date) returns (id: nat)
      requires Valid()
      requires |name| > 0 && Age.ValidDate(dob)
      modifies this
      ensures Valid()
      ensures id == old(nextId) && nextId == old(nextId) + 1
      ensures IdBag(old(households))[id] == 0
      ensures households == old(households) + [Household(id, name, gender, dob, [])]
    {
      id := nextId;
      var h := Household(id, name, gender, dob, []);
      AddHeadKeepsValid(households, nextId, h);
      households := households + [h];
      nextId := nextId + 1;
    }

    /**
     * Adds a member to the household whose id is `headId`: that household's
     * members gain the new person at the end, every other household is left
     * as it was, and when no household has that id nothing changes and the
     * outcome is None.
     */
    method AddMember(headId: nat, name: string, gender: Gender, dob: Age.Date)
      returns (added: Option<nat>)
      requires Valid()
      requires |name| > 0 && Age.ValidDate(dob)
      modifies this
      ensures Valid()
      ensures HasHousehold(old(households), headId) ==>
                added == Some(old(nextId)) && nextId == old(nextId) + 1 &&
                IdBag(old(households))[old(nextId)] == 0 &&
                households == AppendMember(old(households), headId, Person(old(nextId), name, gender, dob))
      ensures !HasHousehold(old(households), headId) ==>
                added == None && nextId == old(nextId) && households == old(households)
    {
      var p := Person(nextId, name, gender, dob);
      if HasHousehold(households, headId) {
        AddMemberKeepsValid(households, nextId, headId, p);
        households := AppendMember(households, headId, p);
        nextId := nextId + 1;
        added := Some(p.id);
      } else {
        AppendMemberNoMatch(households, headId, p);
        added := None;
      }
    }

    /**
     * The form handler: with no household being edited it adds a head,
     * otherwise a member of the edited household.
     */
    method Finish(editingHeadId: Option<nat>, name: string, gender: Gender, dob: Age.Date)
      returns (created: Option<nat>)
      requires Valid()
      requires |name| > 0 && Age.ValidDate(dob)
      modifies this
      ensures Valid()
      ensures editingHeadId.None? ==>
                created == Some(old(nextId)) &&
                households == old(households) + [Household(old(nextId), name, gender, dob, [])]
      ensures editingHeadId.Some? ==>
                if HasHousehold(old(households), editingHeadId.value) then
                  created == Some(old(nextId)) &&
                  households == AppendMember(old(households), editingHeadId.value, Person(old(nextId), name, gender, dob))
                else
                  created == None && households == old(households)
    {
      match editingHeadId {
        case None =>
          var id := AddHead(name, gender, dob);
          created := Some(id);
        case Some(headId) =>
          created := AddMember(headId, name, gender, dob);
      }
    }
  }
}
