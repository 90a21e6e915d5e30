/**
 * The aggregation query behind the census summary: everyone in the registry
 * (heads, each followed by its members) and the four overlapping buckets
 * filtered from that list, by gender and by whole-year age at `now`.
 */
module Aggregates {
  import opened Seqs
  import Age
  import opened Census

  /** The result of the query: four buckets and the whole population. */
  datatype Counts = Counts(males: seq<Person>, females: seq<Person>,
                           age0to5: seq<Person>, ageAbove30: seq<Person>, total: seq<Person>)

  function IsMale(p: Person): bool { p.gender == Male }

  function IsFemale(p: Person): bool { p.gender == Female }

  /** Whole-year age at `now` is at most five. */
  function AtMostFive(now: Age.Date): Person -> bool {
    (p: Person) => Age.WholeYears(p.dob, now) <= 5
  }

  /** Whole-year age at `now` is above thirty. */
  function OverThirty(now: Age.Date): Person -> bool {
    (p: Person) => Age.WholeYears(p.dob, now) > 30
  }

  /**
   * The query over the households `hs` with the clock reading `now`. The
   * population has one entry per household plus one per member, and the
   * male and female buckets together hold each of its entries exactly once.
   */
  function CountsOf(hs: seq<Household>, now: Age.Date): (c: Counts)
    ensures |c.total| == |hs| + MemberCount(hs)
    ensures |c.males| + |c.females| == |c.total|
    ensures multiset(c.males) + multiset(c.females) == multiset(c.total)
  {
    var all := Flatten(hs);
    FilterSplit(all, IsMale, IsFemale);
    Counts(Filter(all, IsMale), Filter(all, IsFemale),
           Filter(all, AtMostFive(now)), Filter(all, OverThirty(now)), all)
  }

  /**
   * Males and females split the population: both keep its order, no one is
   * in both, and together they hold everyone exactly once.
   */
  lemma GenderPartition(hs: seq<Household>, now: Age.Date)
    ensures var c := CountsOf(hs, now);
            Subseq(c.males, c.total) && Subseq(c.females, c.total) &&
            |c.males| + |c.females| == |c.total| &&
            multiset(c.males) + multiset(c.females) == multiset(c.total) &&
            (forall p :: p in c.males <==> p in c.total && p.gender == Male) &&
            (forall p :: p in c.females <==> p in c.total && p.gender == Female) &&
            (forall p :: !(p in c.males && p in c.females))
  {
    var all := Flatten(hs);
    FilterSubseq(all, IsMale);
    FilterSubseq(all, IsFemale);
    FilterSplit(all, IsMale, IsFemale);
    FilterMembers(all, IsMale);
    FilterMembers(all, IsFemale);
  }

  /**
   * The age buckets hold exactly the people whose whole-year age is at most
   * five, respectively above thirty; both keep the population's order and
   * no one is in both.
   */
  lemma AgeBuckets(hs: seq<Household>, now: Age.Date)
    ensures var c := CountsOf(hs, now);
            Subseq(c.age0to5, c.total) && Subseq(c.ageAbove30, c.total) &&
            (forall p :: p in c.age0to5 <==> p in c.total && Age.WholeYears(p.dob, now) <= 5) &&
            (forall p :: p in c.ageAbove30 <==> p in c.total && Age.WholeYears(p.dob, now) > 30) &&
            (forall p :: !(p in c.age0to5 && p in c.ageAbove30))
  {
    var all := Flatten(hs);
    FilterSubseq(all, AtMostFive(now));
    FilterSubseq(all, OverThirty(now));
    FilterMembers(all, AtMostFive(now));
    FilterMembers(all, OverThirty(now));
  }

  /**
   * In calendar terms: someone is in `age0to5` exactly when their sixth
   * birthday is still ahead, and in `ageAbove30` exactly when their
   * thirty-first birthday has come.
   */
  lemma AgeBucketsByBirthday(hs: seq<Household>, now: Age.Date)
    requires Age.ValidDate(now)
    requires forall p :: p in Flatten(hs) ==> Age.ValidDate(p.dob)
    ensures var c := CountsOf(hs, now);
            (forall p :: p in c.age0to5 <==> p in c.total && !Age.DateLe(Age.AddYears(p.dob, 6), now)) &&
            (forall p :: p in c.ageAbove30 <==> p in c.total && Age.DateLe(Age.AddYears(p.dob, 31), now))
  {
    AgeBuckets(hs, now);
    forall p | p in Flatten(hs)
      ensures Age.WholeYears(p.dob, now) >= 6 <==> Age.DateLe(Age.AddYears(p.dob, 6), now)
      ensures Age.WholeYears(p.dob, now) >= 31 <==> Age.DateLe(Age.AddYears(p.dob, 31), now)
    {
      Age.WholeYearsBirthday(p.dob, now, 6);
      Age.WholeYearsBirthday(p.dob, now, 31);
    }
  }

  /** Whoever was born exactly `n` years before `now` is `n` years old. */
  lemma ExactBirthday(now: Age.Date, n: nat)
    requires Age.ValidDate(now) && Age.ValidDate(Age.AddYears(now, -(n as int)))
    ensures Age.WholeYears(Age.AddYears(now, -(n as int)), now) == n
  {
    var dob := Age.AddYears(now, -(n as int));
    assert Age.AddYears(dob, n) == now;
    Age.WholeYearsBirthday(dob, now, n + 1);
    if n >= 1 {
      Age.WholeYearsBirthday(dob, now, n);
    }
  }

  /** Someone whose fifth birthday is today is counted in `age0to5`. */
  lemma FifthBirthdayToday(hs: seq<Household>, now: Age.Date, p: Person)
    requires Age.ValidDate(now) && p.dob == Age.AddYears(now, -5) && Age.ValidDate(p.dob)
    requires p in Flatten(hs)
    ensures p in CountsOf(hs, now).age0to5
  {
    ExactBirthday(now, 5);
    AgeBuckets(hs, now);
  }

  /** A new head is counted last in the population and in every bucket it belongs to. */
  lemma CountsAfterAddHead(hs: seq<Household>, h: Household, now: Age.Date)
    requires h.members == []
    ensures var before, after, p := CountsOf(hs, now), CountsOf(hs + [h], now), HeadOf(h);
            after.total == before.total + [p] &&
            after.males == before.males + (if p.gender == Male then [p] else []) &&
            after.females == before.females + (if p.gender == Female then [p] else []) &&
            after.age0to5 == before.age0to5 + (if Age.WholeYears(p.dob, now) <= 5 then [p] else []) &&
            after.ageAbove30 == before.ageAbove30 + (if Age.WholeYears(p.dob, now) > 30 then [p] else [])
  {
    var p, all := HeadOf(h), Flatten(hs);
    AddHeadPopulation(hs, h);
    assert Flatten(hs + [h]) == all + [p];
    FilterSnoc(all, p, IsMale);
    FilterSnoc(all, p, IsFemale);
    FilterSnoc(all, p, AtMostFive(now));
    FilterSnoc(all, p, OverThirty(now));
  }

  /**
   * Head "A" (male, born 1990-01-01) with member "B" (female, born
   * 2023-01-01), read on 2025-01-01: two people, A the only male and the only
   * one above thirty, B the only female and the only one up to five.
   */
  lemma TwoPersonCensus()
    ensures var a := Person(0, "A", Male, Age.Date(1990, 1, 1));
            var b := Person(1, "B", Female, Age.Date(2023, 1, 1));
            var hs := [Household(0, "A", Male, Age.Date(1990, 1, 1), [b])];
            CountsOf(hs, Age.Date(2025, 1, 1)) == Counts([a], [b], [b], [a], [a, b])
  {
    var now := Age.Date(2025, 1, 1);
    var a := Person(0, "A", Male, Age.Date(1990, 1, 1));
    var b := Person(1, "B", Female, Age.Date(2023, 1, 1));
    var hs := [Household(0, "A", Male, Age.Date(1990, 1, 1), [b])];
    assert Flatten(hs) == [a, b];
    assert Age.WholeYears(a.dob, now) == 35;
    assert Age.WholeYears(b.dob, now) == 2;
    FilterSnoc([a], b, IsMale);
    FilterSnoc([a], b, IsFemale);
    FilterSnoc([a], b, AtMostFive(now));
    FilterSnoc([a], b, OverThirty(now));
    assert [a] + [b] == [a, b];
  }

  /**
   * Read on 2025-06-01: born thirty years and a day earlier (1995-05-31) is
   * thirty and not above thirty; born thirty-one years earlier (1994-06-01) is.
   */
  lemma AboveThirtyBoundary()
    ensures var now := Age.Date(2025, 6, 1);
            Age.WholeYears(Age.Date(1995, 5, 31), now) == 30 &&
            !OverThirty(now)(Person(1, "C", Male, Age.Date(1995, 5, 31))) &&
            OverThirty(now)(Person(2, "D", Female, Age.Date(1994, 6, 1)))
  {
  }
}
