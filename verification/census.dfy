/**
 * The census records: a person, a household (its head's own record plus the
 * ordered members), and the flattening of the registry into one population
 * list, heads first and each followed by its members.
 */
module Census {
  import Age

  /** The two values the gender selector offers. */
  datatype Gender = Male | Female

  datatype Person = Person(id: nat, name: string, gender: Gender, dob: Age.Date)

  /** A household is identified by its head's id and carries the head's fields inline. */
  datatype Household = Household(id: nat, name: string, gender: Gender, dob: Age.Date, members: seq<Person>)

  /** The head of a household as a person of the population. */
  function HeadOf(h: Household): Person {
    Person(h.id, h.name, h.gender, h.dob)
  }

  /**
   * Everyone in the registry: each household's head followed by its members;
   * one entry per household plus one per member.
   */
  function Flatten(hs: seq<Household>): (r: seq<Person>)
    ensures |r| == |hs| + MemberCount(hs)
  {
    if hs == [] then [] else [HeadOf(hs[0])] + hs[0].members + Flatten(hs[1..])
  }

  /** The number of members over all households. */
  function MemberCount(hs: seq<Household>): nat {
    if hs == [] then 0 else |hs[0].members| + MemberCount(hs[1..])
  }

  /** The ids of a list of people, in order. */
  function Ids(ps: seq<Person>): (r: seq<nat>)
    ensures |r| == |ps| && forall i :: 0 <= i < |ps| ==> r[i] == ps[i].id
  {
    if ps == [] then [] else [ps[0].id] + Ids(ps[1..])
  }

  /** The household list after appending `p` to the members of every household with id `headId`. */
  function AppendMember(hs: seq<Household>, headId: nat, p: Person): (r: seq<Household>)
    ensures |r| == |hs|
    ensures forall i :: 0 <= i < |hs| && hs[i].id != headId ==> r[i] == hs[i]
    ensures forall i :: 0 <= i < |hs| && hs[i].id == headId ==>
              r[i] == hs[i].(members := hs[i].members + [p])
  {
    if hs == [] then []
    else
      [if hs[0].id == headId then hs[0].(members := hs[0].members + [p]) else hs[0]]
        + AppendMember(hs[1..], headId, p)
  }

  /** Whether some household has id `headId`. */
  function HasHousehold(hs: seq<Household>, headId: nat): (b: bool)
    ensures b <==> exists i :: 0 <= i < |hs| && hs[i].id == headId
  {
    if hs == [] then false else hs[0].id == headId || HasHousehold(hs[1..], headId)
  }

  /** When no household has id `headId`, appending a member leaves the list as it was. */
  lemma AppendMemberNoMatch(hs: seq<Household>, headId: nat, p: Person)
    requires !HasHousehold(hs, headId)
    ensures AppendMember(hs, headId, p) == hs
  {
  }

  /** How many households have id `headId`. */
  function HeadCount(hs: seq<Household>, headId: nat): nat {
    if hs == [] then 0 else (if hs[0].id == headId then 1 else 0) + HeadCount(hs[1..], headId)
  }

  /** Flattening distributes over concatenation of household lists. */
  lemma {:induction false} FlattenConcat(a: seq<Household>, b: seq<Household>)
    ensures Flatten(a + b) == Flatten(a) + Flatten(b)
  {
    if a == [] {
      assert a + b == b;
    } else {
      assert (a + b)[0] == a[0] && (a + b)[1..] == a[1..] + b;
      FlattenConcat(a[1..], b);
    }
  }

  /**
   * The population lists household `i`'s head and then its members, right
   * after everyone of the households before it and before everyone after it.
   */
  lemma {:induction false} FlattenAt(hs: seq<Household>, i: nat)
    requires i < |hs|
    ensures Flatten(hs) == Flatten(hs[..i]) + [HeadOf(hs[i])] + hs[i].members + Flatten(hs[i + 1..])
  {
    var rest := [hs[i]] + hs[i + 1..];
    assert hs == hs[..i] + rest;
    FlattenConcat(hs[..i], rest);
    assert rest[0] == hs[i] && rest[1..] == hs[i + 1..];
    var x, y, z := Flatten(hs[..i]), [HeadOf(hs[i])] + hs[i].members, Flatten(hs[i + 1..]);
    assert x + (y + z) == x + y + z;
  }

  lemma {:induction false} IdsConcat(a: seq<Person>, b: seq<Person>)
    ensures Ids(a + b) == Ids(a) + Ids(b)
  {
  }

  /** Appending a household adds its head to the end of the population. */
  lemma AddHeadPopulation(hs: seq<Household>, h: Household)
    requires h.members == []
    ensures Flatten(hs + [h]) == Flatten(hs) + [HeadOf(h)]
  {
    FlattenConcat(hs, [h]);
    assert [h][1..] == [];
  }

  /** Appending a member adds one copy of it to the population for each household with that id. */
  lemma {:induction false} AppendMemberPopulation(hs: seq<Household>, headId: nat, p: Person)
    ensures multiset(Flatten(AppendMember(hs, headId, p)))
            == multiset(Flatten(hs)) + Copies(p, HeadCount(hs, headId))
  {
    if hs != [] {
      AppendMemberPopulation(hs[1..], headId, p);
      AppendMemberFirst(hs, headId, p);
      AppendMemberMultiset(hs, headId, p);
    }
  }

  lemma AppendMemberMultiset(hs: seq<Household>, headId: nat, p: Person)
    requires hs != []
    requires multiset(Flatten(AppendMember(hs[1..], headId, p)))
             == multiset(Flatten(hs[1..])) + Copies(p, HeadCount(hs[1..], headId))
    requires Flatten(AppendMember(hs, headId, p))
             == [HeadOf(hs[0])] + hs[0].members + (if hs[0].id == headId then [p] else [])
                + Flatten(AppendMember(hs[1..], headId, p))
    ensures multiset(Flatten(AppendMember(hs, headId, p)))
            == multiset(Flatten(hs)) + Copies(p, HeadCount(hs, headId))
  {
    var own := [HeadOf(hs[0])] + hs[0].members;
    var extra: seq<Person> := if hs[0].id == headId then [p] else [];
    assert Flatten(hs) == own + Flatten(hs[1..]);
    CopiesStep(p, hs, headId);
    MultisetShare(own, extra, Flatten(hs[1..]), Flatten(AppendMember(hs[1..], headId, p)),
                  Copies(p, HeadCount(hs[1..], headId)));
  }

  lemma MultisetShare<T>(own: seq<T>, extra: seq<T>, before: seq<T>, after: seq<T>, added: multiset<T>)
    requires multiset(after) == multiset(before) + added
    ensures multiset(own + extra + after) == multiset(own + before) + (multiset(extra) + added)
  {
  }

  /** Appending a member adds its id to the population's ids once for each household with that id. */
  lemma {:induction false} AppendMemberIds(hs: seq<Household>, headId: nat, p: Person)
    ensures multiset(Ids(Flatten(AppendMember(hs, headId, p))))
            == multiset(Ids(Flatten(hs))) + Copies(p.id, HeadCount(hs, headId))
  {
    if hs != [] {
      AppendMemberIds(hs[1..], headId, p);
      AppendMemberFirst(hs, headId, p);
      AppendMemberIdsStep(hs, headId, p);
    }
  }

  lemma AppendMemberIdsStep(hs: seq<Household>, headId: nat, p: Person)
    requires hs != []
    requires multiset(Ids(Flatten(AppendMember(hs[1..], headId, p))))
             == multiset(Ids(Flatten(hs[1..]))) + Copies(p.id, HeadCount(hs[1..], headId))
    requires Flatten(AppendMember(hs, headId, p))
             == [HeadOf(hs[0])] + hs[0].members + (if hs[0].id == headId then [p] else [])
                + Flatten(AppendMember(hs[1..], headId, p))
    ensures multiset(Ids(Flatten(AppendMember(hs, headId, p))))
            == multiset(Ids(Flatten(hs))) + Copies(p.id, HeadCount(hs, headId))
  {
    var own := [HeadOf(hs[0])] + hs[0].members;
    var extra: seq<Person> := if hs[0].id == headId then [p] else [];
    var rest := Flatten(AppendMember(hs[1..], headId, p));
    assert Flatten(hs) == own + Flatten(hs[1..]);
    assert Ids(extra) == if hs[0].id == headId then [p.id] else [];
    CopiesStep(p.id, hs, headId);
    IdsShare(own, extra, Flatten(hs[1..]), rest, Copies(p.id, HeadCount(hs[1..], headId)));
  }

  lemma IdsShare(own: seq<Person>, extra: seq<Person>, before: seq<Person>, after: seq<Person>, added: multiset<nat>)
    requires multiset(Ids(after)) == multiset(Ids(before)) + added
    ensures multiset(Ids(own + extra + after)) == multiset(Ids(own + before)) + (multiset(Ids(extra)) + added)
  {
    IdsConcat(own + extra, after);
    IdsConcat(own, extra);
    IdsConcat(own, before);
    MultisetShare(Ids(own), Ids(extra), Ids(before), Ids(after), added);
  }

  /** How appending a member changes the first household's share of the population. */
  lemma AppendMemberFirst(hs: seq<Household>, headId: nat, p: Person)
    requires hs != []
    ensures Flatten(AppendMember(hs, headId, p))
            == [HeadOf(hs[0])] + hs[0].members + (if hs[0].id == headId then [p] else [])
               + Flatten(AppendMember(hs[1..], headId, p))
  {
    var r := AppendMember(hs, headId, p);
    assert r[1..] == AppendMember(hs[1..], headId, p);
    assert HeadOf(r[0]) == HeadOf(hs[0]);
  }

  /** `n` copies of `x`. */
  function Copies<T(!new)>(x: T, n: nat): (m: multiset<T>)
    ensures m[x] == n && forall y :: y != x ==> m[y] == 0
  {
    if n == 0 then multiset{} else multiset{x} + Copies(x, n - 1)
  }

  /** The first household contributes one copy exactly when its id is `headId`. */
  lemma CopiesStep<T(!new)>(x: T, hs: seq<Household>, headId: nat)
    requires hs != []
    ensures Copies(x, HeadCount(hs, headId))
            == multiset(if hs[0].id == headId then [x] else []) + Copies(x, HeadCount(hs[1..], headId))
  {
  }

  /** Each household with id `headId` puts that id once into the population's ids. */
  lemma {:induction false} HeadCountBound(hs: seq<Household>, headId: nat)
    ensures HeadCount(hs, headId) <= multiset(Ids(Flatten(hs)))[headId]
  {
    if hs != [] {
      HeadCountBound(hs[1..], headId);
      IdsConcat([HeadOf(hs[0])] + hs[0].members, Flatten(hs[1..]));
      IdsConcat([HeadOf(hs[0])], hs[0].members);
    }
  }

  /** A household whose id is `headId` is counted. */
  lemma {:induction false} HeadCountPositive(hs: seq<Household>, headId: nat, i: nat)
    requires i < |hs| && hs[i].id == headId
    ensures HeadCount(hs, headId) >= 1
  {
    if i > 0 {
      HeadCountPositive(hs[1..], headId, i - 1);
    }
  }
}
