# Household census core

The household census screen keeps a list of households. Each household has a head and an ordered list of members, and each person has a name, a gender and a date of birth. The screen shows live counts over everyone it knows about. This project models the three pieces of logic behind it:

- **Age calculator** (`age.dfy`, module `Age`). Given a birth date and the date "now", it computes the completed whole years and the completed months left over. It also builds the Marathi label `"<years> वर्ष[े][, <months> महिने]"`. The label parser `ParseLabel` is its partner: every label reads back as the years and months it was built from. `digits.dfy` (module `Digits`) renders numbers in decimal and reads them back.
- **Household registry** (`census.dfy`, `registry.dfy`; modules `Census` and `Registry`). The class `HouseholdRegistry` holds the `households` list and an id counter. `AddHead` appends a household with no members. `AddMember` appends a person to the members of the household with the given id. `Finish` is the form handler: it picks between the two depending on whether a household is being edited. The invariant `ValidState` says that every id among heads and members occurs at most once, that every id is below the counter, and that every record has a name and a real calendar date.
- **Aggregation query** (`aggregates.dfy`, module `Aggregates`, using the order-preserving `Filter` of `seqs.dfy`). It flattens the registry into heads, each followed by its members. It then filters that list into four overlapping buckets: males, females, age 0 to 5 and age above 30.

`session.dfy` drives the class through its contracts only, as a caller would.

Modelling choices:
- A date is an integer triple (year, month, day), and "now" is always a parameter.
- Completed months from `a` to `b` are `12·(b.year − a.year) + (b.month − a.month)`, minus one when `b.day < a.day`.
- Whole years are that number divided by 12, rounded toward zero, as the date library rounds a difference.
- The month remainder is the number of completed months from the birth date moved on by those years. This is the source's second difference.
- Gender is the closed enum `Male | Female`, because the form's selector offers only those two values.
- Ids come from a counter instead of the millisecond clock (see Findings).
- A caller might expect a not-found error when a member is added to a household id nobody has. The code instead maps over the list, changes nothing and still shows a success message. The model follows the code: the list and the counter are unchanged, and `AddMember` reports this case as `None`.

## Model

| member | source | states |
|---|---|---|
| `Age.MonthsBetween` | src/App.jsx:28-29 | for valid months, the completed months are non-negative exactly when the first date is on or before the second |
| `Age.TruncDiv` | src/App.jsx:28 | the year difference is the quotient rounded toward zero: for a ≥ 0, 0 ≤ q and q·b ≤ a < q·b + b; for a < 0, q ≤ 0 and q·b − b < a ≤ q·b |
| `Age.WholeYears` | src/App.jsx:28 | for valid dates with the birth date not after now: y ≥ 0 and y whole twelve-month spans fit in the completed months but y + 1 do not; for a birth date after now: y ≤ 0 |
| `Age.RemainderMonths` | src/App.jsx:29 | for a birth date not after now: 0 to 11 months, and 12·years + months equals the completed months |
| `Age.WholeYearsBirthday` | src/App.jsx:28 | whole-year age ≥ n (n ≥ 1) exactly when the n-th birthday is on or before now |
| `Digits.Show` | src/App.jsx:31-32 | the decimal rendering is a numeral (digits, no leading zero) and has more than one digit exactly when the number is ≥ 10 |
| `Digits.ReadShow` | src/App.jsx:31-32 | the decimal rendering of a number reads back as that number |
| `Digits.ShowRead` | src/App.jsx:31-32 | every numeral is the rendering of its value, so rendering is onto the numerals |
| `Age.Label` | src/App.jsx:31-33 | the label opens with the years and " वर्ष"; the plural mark follows exactly when years ≠ 1; a comma (the month clause) appears exactly when months > 0 |
| `Age.LabelRoundTrip` | src/App.jsx:31-33 | the label of (years, months) parses back to exactly (years, months), so it determines both |
| `Age.ParseLabelSound` | src/App.jsx:31-33 | every string the parser accepts is exactly the label of what it reads, so the parser recognises labels and nothing else |
| `Age.AgeLabel` | src/App.jsx:24-34 | the label shown for a birth date not after now reads back as its whole years and remaining months |
| `Age.BornToday` | src/App.jsx:24-34 | born on the reference date: the label is "0 वर्षे" with no month clause |
| `Age.FiveYearsFiveMonths` | src/App.jsx:24-34 | born 2020-01-01, read on 2025-06-01: 5 years, 5 months, label "5 वर्षे, 5 महिने" |
| `Census.Flatten` | src/App.jsx:92 | the population has one entry per household plus one per member |
| `Census.FlattenAt` | src/App.jsx:92 | household i contributes its head and then its members, after all earlier households and before all later ones |
| `Census.FlattenConcat` | src/App.jsx:92 | flattening two household lists one after the other gives the two populations one after the other |
| `Census.AppendMember` | src/App.jsx:67-84 | same length; a household whose id differs is unchanged; a matching one keeps its head fields and earlier members and gains the person last |
| `Census.HasHousehold` | src/App.jsx:68-69 | true exactly when some household has the given id |
| `Census.AppendMemberNoMatch` | src/App.jsx:68-83 | with no matching household the list is returned unchanged |
| `Census.AddHeadPopulation` | src/App.jsx:64 | appending a household with no members adds only its head, at the end of the population |
| `Census.AppendMemberPopulation` | src/App.jsx:67-84 | adding a member adds that person to the population once per household with the id, and nothing else |
| `Census.AppendMemberIds` | src/App.jsx:75 | adding a member adds its id to the population's ids once per household with the id |
| `Registry.AddHeadKeepsValid` | src/App.jsx:55-64 | a head with the counter's id keeps ids unique and below the counter and every record well formed; that id was unused |
| `Registry.AddMemberKeepsValid` | src/App.jsx:67-84 | a member with the counter's id for an existing household keeps the invariant, adds exactly that person and that id, and the id was unused |
| `Registry.AddHeadAtClock` | src/App.jsx:55-64 | adding a head with a clock id keeps the earlier households as a prefix and puts one household with that id and no members after them |
| `Registry.SameTickCollision` | src/App.jsx:56 | two heads in the same millisecond share an id, which breaks uniqueness; a member then lands in both households |
| `Registry.HouseholdRegistry.constructor` | src/App.jsx:37 | a session starts with no households and a valid registry |
| `Registry.HouseholdRegistry.AddHead` | src/App.jsx:55-64 | the list becomes the old list plus one household (given fields, no members, a fresh id); the invariant is kept |
| `Registry.HouseholdRegistry.AddMember` | src/App.jsx:67-84 | a matching id: the list becomes `AppendMember` of the old one with a fresh id; no match: nothing changes, outcome None |
| `Registry.HouseholdRegistry.Finish` | src/App.jsx:53-90 | with no household being edited it adds a head, otherwise a member of the edited household |
| `Seqs.Filter` | src/App.jsx:96-105 | a filter is never longer than its input |
| `Seqs.FilterMembers` | src/App.jsx:96-105 | a filter keeps exactly the elements satisfying its predicate |
| `Seqs.FilterSubseq` | src/App.jsx:96-105 | a filter's result is a subsequence of its input (order preserved) |
| `Seqs.FilterSplit` | src/App.jsx:96-97 | filters by complementary predicates split the input: the two multisets add up to it and the two lengths add up to its length |
| `Seqs.FilterConcat` | src/App.jsx:96-105 | filtering distributes over concatenation |
| `Seqs.FilterSnoc` | src/App.jsx:96-105 | filtering a list with one more element at the end adds that element at the end exactly when it satisfies the predicate |
| `Aggregates.CountsOf` | src/App.jsx:94-107 | `total` has one entry per household plus one per member; males and females together are as long as `total` and make it up as multisets |
| `Aggregates.GenderPartition` | src/App.jsx:96-97 | males and females are order-preserving subsequences of total; each holds exactly its gender; they are disjoint; their lengths add up to that of total, and as multisets they make up total |
| `Aggregates.AgeBuckets` | src/App.jsx:98-105 | `age0to5` holds exactly those with whole-year age ≤ 5 and `ageAbove30` those with age > 30; both preserve order; disjoint |
| `Aggregates.AgeBucketsByBirthday` | src/App.jsx:98-105 | in `age0to5` exactly when the 6th birthday is still ahead; in `ageAbove30` exactly when the 31st birthday has come |
| `Aggregates.ExactBirthday` | src/App.jsx:99 | born exactly n years before now gives whole-year age n |
| `Aggregates.FifthBirthdayToday` | src/App.jsx:98-101 | someone whose 5th birthday is today is in `age0to5` |
| `Aggregates.CountsAfterAddHead` | src/App.jsx:92-106 | after adding a head, total and each bucket are the old ones plus the head at the end if it qualifies |
| `Aggregates.TwoPersonCensus` | src/App.jsx:94-107 | head A (male, 1990) with member B (female, 2023) on 2025-01-01: total [A, B], males [A], females [B], age0to5 [B], ageAbove30 [A] |
| `Aggregates.AboveThirtyBoundary` | src/App.jsx:102-105 | on 2025-06-01, born 1995-05-31 is 30 and not above thirty; born 1994-06-01 is above thirty |

## Findings

| source | as written | input that shows it | evidently intended | confidence | as-written member | corrected member |
|---|---|---|---|---|---|---|
| src/App.jsx:56 | a new record's id is `Date.now()`, the clock in milliseconds | two heads submitted within the same millisecond (e.g. both at 1700000000000) | ids unique across all heads and members | not executed; the collision needs two submissions in one millisecond | `Registry.SameTickCollision` | `Registry.AddHeadKeepsValid` |

With clock ids, the registry then holds the same id twice. A member added to "that" household is appended to both, because the update matches on id. The model takes ids from a counter instead. `AddHeadKeepsValid` and `AddMemberKeepsValid` prove that every id stays unique.

## Left out

- Rendering is not modelled: the table columns, the expanded rows, the person lists, the cards and collapses, and the styling. It is presentation only.
- Modal and form state is not modelled: `isModalVisible`, `showModal`, `handleCancel` and the form resets. The required-field rules appear only as preconditions: a non-empty name and a valid calendar date of birth.
- The date picker's rule that a date of birth is not in the future is not modelled. The registry stores no creation date, so no invariant can refer to one.
- The success toasts are not modelled. They are user-interface side effects. One of them is shown even when no household matched.
- The date library is not modelled. Whole years and months are defined on integer dates, and time of day is ignored.
- Age.WholeYears, Age.RemainderMonths: moving a date by years or months keeps its day, with no end-of-month or 29 February clamping as the date library does. The results differ only when the birth day does not exist in the target month. Born 2020-02-29 and read on 2026-02-28, the model counts 71 completed months, so 5 years and `age0to5`; the library counts 6 years. Born 2020-01-31 and read on 2025-02-28, the model's label is "5 वर्षे" with no month clause; the library shows ", 1 महिने".
- Age.WholeYears: for a birth date after `now`, only the sign is claimed (the value is ≤ 0), not the library's exact value. The date picker rules such dates out, and every value ≤ 0 falls into the same buckets.
- Age.AgeLabel: requires a birth date not after `now`. The label for a future birth date is not modelled.
- The clock as id source is replaced by the counter `nextId` (see Findings).
- React's `useState` and batched updates are not modelled. Each operation is one atomic replacement of the state.
- Recomputing the aggregates twice with the same `now` and no change in between gives identical results. This holds because `CountsOf` is a function; no separate lemma states it.
