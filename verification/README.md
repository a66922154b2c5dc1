# Student–supervisor matching engine, modelled in Dafny

This project models the pure core of a student–supervisor matching engine
written in JavaScript. The engine's pipeline has five steps:

1. **Parse the fetched tables** (`src/parse_methods.js`).
   - Students with an unanswered choice are dropped.
   - Every choice of the remaining students is expanded through the topic-to-ACM
     map into keywords with priority `index + 1`.
   - Supervisor ACM rows are merged by supervisor id, and then given the
     capacity from the supervisor response table.
2. **Find overlaps** (`findMatchingStudents`, `findMatches` and
   `getUnmatchedStudents` in `src/match.js`).
   - For every supervisor, each student who shares at least one ACM keyword
     gets one record.
   - That record collects the shared keywords in the student's own order.
3. **Order** (`orderMatches`): each supervisor's list is sorted by the
   priority of its first shared keyword.
4. **Allocate by quota** (`reviewMatches`, `removeUnmatchedSupervisors` and
   the quota arithmetic of `main`).
   - Supervisors are visited in order.
   - Each one confirms a prefix of its candidates that nobody has confirmed
     yet. The prefix is `floor(N/S) + (index < N mod S ? 1 : 0)` long.
   - Supervisors with no candidate left are reported and dropped.
5. **Project the result** (`formatMatches` in `src/write_methods.js`).

The earlier standalone version in the root `match.js` is modelled where it
differs from the `src/` version:
- its unguarded capacity step;
- its slimmer match records (keyword ids without priorities), kept alongside a
  list of bins.

Its student parsing (`match.js:15-49`) and supervisor-row merge
(`match.js:59-82`) are textually the same as in `src/parse_methods.js`. They are
covered by the `ParseMethods` members.

## Module layout

| file | module | models |
|---|---|---|
| `seqs.dfy` | `Seqs` | generic sequence helpers: `Filter`, `Distinct`, `Dedup`, `FirstIndex` (JavaScript `filter`, `new Set`, `findIndex`) |
| `types.dfy` | `Types` | the record shapes (rows, parsed students and supervisors, match records, entries) |
| `parse_methods.dfy` | `ParseMethods` | `getParsedStudentResponses`, `getParsedSupervisorResponses` with the tables as parameters |
| `matching.dfy` | `Matching` | `findMatchingStudents`, `getUnmatchedStudents`, `findMatches` |
| `ordering.dfy` | `Ordering` | `orderMatches`: the comparator as written, and a stable sort by the intended key |
| `review.dfy` | `Review` | quota arithmetic, `reviewMatches` as a left fold, `removeUnmatchedSupervisors` |
| `write_methods.dfy` | `WriteMethods` | `formatMatches` |
| `legacy_match.dfy` | `LegacyMatch` | the root `match.js`: capacity step and matching loop |
| `allocation.dfy` | `Allocation` | the computation in `main` from parsed inputs to the four results |

### Modelling decisions

- **Ids and `undefined`.**
  - Ids are strings.
  - A keyword id that does not resolve against the ACM table is JavaScript
    `undefined`, which the model writes as `None`.
  - `Array.prototype.includes` compares with SameValueZero. So an unresolved
    student keyword *does* match a supervisor's unresolved keyword
    (`Matching.IsShared`). The model keeps this.
- **Loops are folds.**
  - The `forEach` loops with mutable accumulators are written as folds over
    immutable sequences:
    - `Matching.VisitStudents`;
    - `ParseMethods.GroupSupervisorRows`, a left fold by prefix recursion;
    - `Review.ReviewPrefix`, the state after the first `n` iterations of
      `reviewMatches`.
  - In-place updates of shared objects become sequence updates:
    - `match.commonAcmKeyword.push` becomes `AppendCommon`;
    - `match.matchedStudentResponses = chosenStudents` becomes
      `Review.Reviewed`.
- **Reviewing an entry.**
  - An entry visited by `reviewMatches` with no candidate left keeps its
    original list.
  - Its supervisor is pushed onto `supervisorsWithNoMatches`.
  - `removeUnmatchedSupervisors` then drops the entry by supervisor id.
- **Integer division.** `Math.floor(N / S)` and `N % S` agree with Dafny's `/`
  and `%` because both operands are non-negative (`Review.SplitQuota`).
- **What the code does not do, and the model does not add.**
  - There is one allocation pass and no rebalancing.
  - `reviewMatches` never reads `capacity`, so nothing bounds the number of
    students a supervisor gets by its capacity.
  - `unmatchedStudents` is computed before the review, so the assigned and
    unmatched students do not partition the input.
  - Merged keyword lists are appended row by row and keep duplicates
    (`ParseMethods.GroupKeywords`).
  - An entry with no candidate left is not kept with an empty list: its
    supervisor is reported and the entry removed.
- **Behaviour of the code that the model keeps: a supervisor can be returned
  with an empty list.**
  - When there are fewer students than supervisors, `studentsPerSupervisor`
    is 0.
  - A supervisor at a position `>= remainder` then has quota 0.
  - If that supervisor still has a candidate left, it confirms nobody. It is
    not reported, and it is returned with an empty list.
  - A student cut by the quotas from every list is neither assigned nor
    listed as unmatched (`Allocation.UnmatchedStudentsNotAssigned` states the
    half that does hold).

## Model

| member | source | states |
|---|---|---|
| ParseMethods.ResolveAcmId | src/parse_methods.js:57-59 | the lookup yields the id exactly when the ACM table contains it, and `undefined` otherwise |
| ParseMethods.ChoiceKeywords | src/parse_methods.js:52-63 | a choice yields one keyword per topic-map row of that topic, in map order, each with the choice's priority and the row's id resolved against the ACM table (kept even when it does not resolve) |
| ParseMethods.RankKeywords | src/parse_methods.js:51-64 | every keyword's priority lies in `1..|choices|`, and priorities never decrease along the list |
| ParseMethods.RankKeywordsByChoice | src/parse_methods.js:51-64 | the keywords of priority `p` are exactly those the `p`-th choice maps to, so their number is the number of map rows of that topic, and a topic without rows contributes nothing |
| ParseMethods.ParseStudentResponses | src/parse_methods.js:47-72 | at most one student per response, and every parsed student has all its choices answered |
| ParseMethods.ParsedFromRows | src/parse_methods.js:47-72 | every parsed student comes from an input response with the same id and choices, all answered, and carries that response's ranked keywords |
| ParseMethods.RowsAreParsed | src/parse_methods.js:49-70 | every response with all choices answered is parsed into a student |
| ParseMethods.ParseStudentResponsesAppend | src/parse_methods.js:47-72 | parsing is row by row (parse of `a + b` is parse of `a` then parse of `b`), so survivors keep input order |
| ParseMethods.MergeRow | src/parse_methods.js:97-118 | a row of a known supervisor leaves the id list unchanged and a row of a new one appends its id; no capacity is set and a new supervisor has none |
| ParseMethods.GroupSupervisorRows | src/parse_methods.js:96-119 | the merged supervisors have exactly the distinct row ids, in order of first appearance, and no capacity yet |
| ParseMethods.MergeRowStep | src/parse_methods.js:97-118 | merging one more row into the merge of the rows before it gives one supervisor per distinct row id, in order of first row, and sets no capacity |
| ParseMethods.KeywordsOfSnoc | src/parse_methods.js:107-117 | one more row extends only its own supervisor's keyword list, by its resolved id |
| ParseMethods.GroupKeywords | src/parse_methods.js:103-118 | each merged supervisor's keywords are the resolved ids of all its rows in row order, duplicates kept (a list append, not a union) |
| ParseMethods.LastCapacity | src/parse_methods.js:122-129 | a capacity is found exactly when some row names the supervisor, and then it is the capacity of the last such row |
| ParseMethods.SetCapacity | src/parse_methods.js:123-128 | a capacity row changes no supervisor id and no keyword list |
| ParseMethods.ApplyCapacitiesLastWins | src/parse_methods.js:122-129 | with distinct supervisor ids, the last row naming a supervisor sets its capacity, rows naming nobody change nothing, and a supervisor without a row keeps what it had |
| ParseMethods.ParseSupervisorResponses | src/parse_methods.js:96-131 | one supervisor per distinct row id in first-appearance order, carrying all its rows' resolved ids and the capacity of the last capacity row naming it (none if there is none) |
| Matching.VisitKeywordFacts | src/match.js:25-54 | one keyword keeps one record per student and an exact counter, keeps every earlier record in place, and adds the student's id exactly when the keyword is shared |
| Matching.VisitKeywordsFacts | src/match.js:25-55 | a student's keywords add the student's id exactly when one of them is shared, and disturb no earlier record |
| Matching.VisitStudentsFacts | src/match.js:24-56 | after all students, an id has a record exactly when some student with that id shares a keyword; earlier records stay in place |
| Matching.FindMatchingStudents | src/match.js:21-58 | `takenSpaces` equals the number of records; at most one record per student id; each record holds at least one shared keyword, the student's own choices and a student from the input; an id has a record exactly when a student with it shares a keyword |
| Matching.KeywordsExtendRecord | src/match.js:38-45 | once a student has a record, its later shared keywords are appended to that record in keyword order |
| Matching.KeywordsFromFresh | src/match.js:32-53 | a student not seen before gets a record exactly when it shares a keyword, holding all its shared keywords in its own order |
| Matching.StudentsFollowReference | src/match.js:24-56 | with distinct student ids, the loop appends exactly the reference records of the students, in input order |
| Matching.FindMatchingStudentsIsReference | src/match.js:21-58 | with distinct student ids, the result equals the reference definition: the students that share a keyword, in input order, each with exactly its shared keywords in its own order |
| Matching.UnmatchedIdsAgree | src/match.js:68-87 | de-duplicating the matched ids, filtering the student ids against them and keeping students whose id survives is the same as keeping students whose id appears in no list |
| Matching.GetUnmatchedStudents | src/match.js:67-89 | the result is the students, in input order, whose id appears in no supervisor's list |
| Matching.FindMatches | src/match.js:99-118 | one entry per supervisor in input order, carrying that supervisor, its capacity, its `findMatchingStudents` list and a count equal to that list's length; the unmatched students are those in no list |
| Matching.UnmatchedMeansNoOverlap | src/match.js:99-118 | with distinct student ids, a student is reported unmatched exactly when it is an input student sharing no keyword with any supervisor |
| Ordering.IntendedComparator | src/match.js:129-134 | with the property spelt `priority`, the comparator is positive exactly when the first record's key is larger |
| Ordering.InsertSorted | src/match.js:129-134 | inserting before the first record whose key is not smaller keeps a sorted list sorted |
| Ordering.InsertStep | src/match.js:129-134 | one insertion step gives a sorted permutation of head plus tail on which the intended comparator never asks for a swap |
| Ordering.SortedMeansComparatorAgrees | src/match.js:129-134 | in a list sorted by key the intended comparator orders every pair as listed |
| Ordering.SortByPriority | src/match.js:127-135 | the sorted list is a permutation of the input, ascending in the priority of the first shared keyword, and agrees with the intended comparator on every pair |
| Ordering.InsertWithKey | src/match.js:129-134 | insertion places the new record after every record of equal key |
| Ordering.SortByPriorityIsStable | src/match.js:127-135 | records with the same key keep their relative (discovery) order |
| Ordering.InsertKeepsDistinct | src/match.js:129-134 | inserting a record of a new student keeps student ids distinct |
| Ordering.SortKeepsDistinct | src/match.js:127-135 | sorting never makes a student appear twice in one list |
| Ordering.OrderMatches | src/match.js:126-137 | supervisors, their order, capacities and counts are unchanged; each list becomes a sorted permutation of itself |
| Review.SplitQuota | src/match.js:224-228 | `studentsPerSupervisor * S + remainder == N` and `remainder < S` |
| Review.QuotaSumClosed | src/match.js:181-182 | the quotas of the first `n` positions add up to `studentsPerSupervisor * n + min(remainder, n)` |
| Review.QuotasShareStudents | src/match.js:213-228 | over the `S` positions the quotas add up to exactly `N`, never differ by more than one, and the larger ones come first |
| Review.UnconsumedIsFilter | src/match.js:173-176 | the candidates left are exactly those the filter on "not yet confirmed" keeps, in order |
| Review.ChosenFacts | src/match.js:173-183 | the chosen records are a prefix of the unconfirmed candidates, `min(quota, left)` long, none confirmed before, none twice |
| Review.RemoveUnmatchedSupervisors | src/match.js:146-156 | every kept entry comes from the input and has an unreported supervisor, and every entry with an unreported supervisor is kept |
| Review.RemoveUnmatchedAppend | src/match.js:146-156 | removal works entry by entry, so the kept entries stay in input order |
| Review.ReviewPrefixEntries | src/match.js:171-193 | after `n` iterations there are `n` entries, each at its input position, modified as reviewing prescribes |
| Review.ReviewPrefixReportsEmpty | src/match.js:190-192 | every visited entry without candidates has its supervisor reported |
| Review.ReviewPrefixReportsEntries | src/match.js:190-192 | only supervisors of entries are reported |
| Review.LaterNotReported | src/match.js:171-193 | with distinct supervisor ids, no supervisor the loop has not reached is reported yet |
| Review.CandidatesNotReported | src/match.js:180-192 | with distinct supervisor ids, a supervisor whose entry had a candidate left is never reported |
| Review.ReviewPrefixDistinct | src/match.js:184-187 | the confirmed ids never repeat |
| Review.ReportedIffNoCandidates | src/match.js:180-192 | with distinct supervisor ids, a supervisor's id is reported exactly when its entry had no candidate left |
| Review.KeptStep | src/match.js:180-196 | each iteration adds to the kept entries exactly the students it confirms |
| Review.KeptCarryStep | src/match.js:171-196 | if the entries kept before an iteration carry the students confirmed before it, those kept after it carry the students confirmed after it |
| Review.KeptCarryConfirmed | src/match.js:171-196 | the entries kept after `n` iterations carry exactly the confirmed students, in confirmation order |
| Review.EntrySupervisorsFilter | src/match.js:146-156 | the supervisors of the entries removal keeps are the supervisors filtered by the same test |
| Review.NoDoubleAssignment | src/match.js:167-198 | given lists that each name a student at most once and distinct supervisor ids, no student id appears twice across the returned lists |
| Review.ReturnedEntries | src/match.js:171-196 | the returned entries are exactly the reviewed entries that had a candidate left |
| Review.ReturnedEntryOrigin | src/match.js:180-196 | each returned entry is the reviewed entry, with candidates left, at some input position |
| Review.CandidateEntryReturned | src/match.js:180-196 | every reviewed entry with a candidate left is returned |
| Review.ReviewedEntry | src/match.js:180-189 | a reviewed entry with candidates keeps its supervisor, capacity and count; its list is a prefix of the unconfirmed candidates, `min(quota, left)` long, drawn from its own list, and names no student confirmed earlier |
| Review.ReturnedRecordOrigin | src/match.js:180-196 | every returned record was in the list given for the same supervisor |
| Review.AssignedIdOrigin | src/match.js:180-196 | every assigned student was in the list given for the supervisor it is assigned to |
| Review.ReportedExactlyEmpty | src/match.js:180-192 | a supervisor is reported exactly when its entry had no candidate left |
| Review.ReportedAreEntries | src/match.js:190-192 | every reported supervisor is the supervisor of an entry |
| Review.KeptSupervisors | src/match.js:195-197 | the returned entries belong, in input order, to exactly the supervisors that were not reported |
| Review.ReportedSupervisors | src/match.js:167-198 | reported is equivalent to "had no candidate left"; reports name only entries' supervisors; the returned entries are those of the unreported supervisors, in order |
| WriteMethods.FormatMatches | src/write_methods.js:28-46 | one formatted entry per entry in the same order, with the supervisor's id and the capacity read from the supervisor response; each match list has the same length and order, the student ids and unchanged shared keywords |
| WriteMethods.FormattedIdsAreMatchedIds | src/write_methods.js:31-44 | the formatted output names exactly the students of the entries, in the same order |
| LegacyMatch.ApplyCapacitiesStrictAgrees | match.js:85-89 | the unguarded capacity step fails exactly when some row names an unknown supervisor, and then on the first such row; otherwise it gives the guarded result |
| LegacyMatch.ParseSupervisorResponsesStrictAgrees | match.js:59-91 | supervisor parsing succeeds exactly when every capacity row names a supervisor with an ACM row, and then agrees with `src/parse_methods.js` |
| LegacyMatch.VisitKeywordProjects | match.js:118-143 | one keyword step of the old loop is the new step with priorities dropped |
| LegacyMatch.VisitKeywordsProjects | match.js:118-143 | the same for all keywords of one student |
| LegacyMatch.VisitStudentsProjects | match.js:117-144 | the same for all students |
| LegacyMatch.LegacyMatchesForAgrees | match.js:114-144 | per supervisor: the new records with priorities dropped, at most one per student, a counter equal to their number, and only shared keyword ids |
| LegacyMatch.LegacyCommonIds | match.js:118-137 | with distinct student ids, each record lists the ids of exactly the student's shared keywords, in the student's order |
| LegacyMatch.LegacyRunFacts | match.js:113-154 | `allMatches` and `bins` have one entry per supervisor in supervisor order; each bin carries the supervisor's capacity and counts its entry's records; no entry names a student twice |
| Allocation.OrderedReady | src/match.js:205-211 | the ordered lists name each student at most once, keep one entry per supervisor in order, and have distinct supervisor ids when the input does |
| Allocation.NoStudentAssignedTwice | src/match.js:205-243 | with distinct supervisor ids, no student is assigned twice, in the returned matches or in what is posted |
| Allocation.OrderedRecordOk | src/match.js:205-211 | a record in an ordered list shares a keyword with its supervisor and is an input student's |
| Allocation.AssignmentsAreCompatible | src/match.js:205-231 | every assignment pairs an input supervisor with an input student who shares a keyword with it, carrying the student's own choices |
| Allocation.AssignedWasFound | src/match.js:205-231 | every assigned student was found for some supervisor before the review |
| Allocation.OrderedIdFound | src/match.js:205-211 | ordering neither adds nor loses students in a list |
| Allocation.UnmatchedStudentsNotAssigned | src/match.js:205-235 | the unmatched students are those in no list before the review, and none of them is assigned after it |

## Left out

- **Fetchers, posting and file writes.** This covers `get_methods.js`, `http_methods.js`, `postToDataverse`, `writeToJson`/`writetoJSON` and `formatAndWriteToJson`. The tables they fetch are parameters. The availability filters they apply are assumed already applied.
- **`async` sequencing and logging in `main` and in the `match` function of `match.js`.** Only the computation between the parse results and the written results is modelled (`Allocation.Allocate`).
- **`S = 0`.** With no supervisor the JavaScript divides by zero: `studentsPerSupervisor` is `Infinity` or `NaN`, and `remainder` is `NaN`. `Allocation.Share` and `Allocation.Allocate` require at least one supervisor.
- **The engine's `Array.prototype.sort` algorithm.** The comparator as written returns -1 for every pair. Such a comparator is inconsistent, and the order it produces depends on the engine. The model records the written comparator (`Ordering.WrittenComparator`) and sorts by the intended key with an insertion sort (see Findings).
- Ordering.SortByPriorityIsStable: keeping records of equal priority in discovery order is the model's choice, not a promise of the source. Even with `priority` spelt correctly, the comparator never returns 0 and answers -1 both ways round on a tie (`Ordering.IntendedComparatorTies`), so the engine decides the order of ties.
- **JavaScript `==` against `===` and object-against-string comparisons.** Ids are strings compared with Dafny `==`. `find(x => x == id)` is modelled as membership.
- **The import of `formatMatches` in `src/match.js`.** `src/write_methods.js` does not export it, and `match.js` imports `getSupervisorResponseTableRecords`, which its `get_methods.js` does not export. Module linking is outside the model. Both functions are modelled on their intended inputs.
- **A capacity check or a second allocation pass.** The code has neither, so no `taken ≤ capacity` or assigned/unmatched partition is stated.
- **Exact capacity semantics of a missing `capacity` field.** An absent capacity is `None`; no arithmetic is done on it.
- **`Allocation.UnmatchedStudentsNotAssigned` states only one direction.** A student cut from every list by the quotas is neither assigned nor reported, so the converse does not hold of the code.
- **`Review.NoDoubleAssignment`, `Review.ReturnedEntries`, `Review.ReportedSupervisors` and `Allocation.NoStudentAssignedTwice` assume distinct supervisor ids and lists that name each student once.**
  - `removeUnmatchedSupervisors` works by supervisor id. With a repeated supervisor id, one report removes every entry of that id.
  - The lists `findMatches` builds satisfy the second condition (`Allocation.OrderedReady`).
- **`Matching.FindMatchingStudentsIsReference` and `Matching.UnmatchedMeansNoOverlap` assume distinct student ids.** With repeated ids, the later student's keywords go to the first student's record; `Matching.FindMatchingStudents` states what holds in general.

## Findings

| source | as written | input that shows it | evidently intended | confidence | as-written member | corrected member |
|---|---|---|---|---|---|---|
| src/match.js:130-131 | the comparator compares `student1.commonAcmKeyword[0].priority` with `student2.commonAcmKeyword[0].pririty`, which is `undefined`, so `>` is false and the comparator returns -1 for every pair | a record whose first shared keyword has priority 3, passed first, against one with priority 1: the written comparator answers -1, which puts the priority-3 record first, where the intended comparator answers 1; it also answers -1 with the arguments swapped | sort each list ascending by the priority of the first shared keyword | not executed | Ordering.WrittenComparatorCounterexample | Ordering.SortByPriority |
