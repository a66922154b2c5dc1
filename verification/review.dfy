/** Quota allocation (src/match.js `reviewMatches`,
    `removeUnmatchedSupervisors` and the quota arithmetic of `main`).

    Supervisors are visited in order.  Each one confirms a prefix of its
    candidates whose students no earlier supervisor confirmed, as many as
    its quota allows; a supervisor left with no such candidate is reported
    and dropped from the result.  Nothing here reads a supervisor's
    capacity. */
module Review {
  import opened Types
  import opened Seqs

  // ---------------------------------------------------------------------
  // Quotas
  // ---------------------------------------------------------------------

  /** The number of students the supervisor at position `index` may take:
      the even share, plus one for the first `remainder` positions. */
  function Quota(studentsPerSupervisor: nat, remainder: nat, index: nat): nat {
    studentsPerSupervisor + (if index < remainder then 1 else 0)
  }

  /** The quotas of positions `0 .. n-1` added up. */
  function QuotaSum(studentsPerSupervisor: nat, remainder: nat, n: nat): nat {
    if n == 0 then 0 else QuotaSum(studentsPerSupervisor, remainder, n - 1) + Quota(studentsPerSupervisor, remainder, n - 1)
  }

  lemma {:induction false} QuotaSumClosed(studentsPerSupervisor: nat, remainder: nat, n: nat)
    ensures QuotaSum(studentsPerSupervisor, remainder, n) == studentsPerSupervisor * n + Min(remainder, n)
  {
    if n > 0 {
      QuotaSumClosed(studentsPerSupervisor, remainder, n - 1);
    }
  }

  /** The share computed in `main` from the number of distinct students and
      distinct supervisors. */
  datatype Split = Split(studentsPerSupervisor: nat, remainder: nat)

  /** `Math.floor(N / S)` and `N % S`; for non-negative operands these agree
      with Dafny's division and remainder. */
  function SplitQuota(numStudents: nat, numSupervisors: nat): (q: Split)
    requires numSupervisors > 0
    ensures q.studentsPerSupervisor * numSupervisors + q.remainder == numStudents
    ensures q.remainder < numSupervisors
  {
    Split(numStudents / numSupervisors, numStudents % numSupervisors)
  }

  /** Over the `S` supervisor positions the quotas add up to exactly the
      number of students, and no two quotas differ by more than one, the
      larger ones coming first. */
  lemma QuotasShareStudents(numStudents: nat, numSupervisors: nat)
    requires numSupervisors > 0
    ensures var q := SplitQuota(numStudents, numSupervisors);
      && QuotaSum(q.studentsPerSupervisor, q.remainder, numSupervisors) == numStudents
      && (forall i, j :: 0 <= i <= j < numSupervisors ==>
            Quota(q.studentsPerSupervisor, q.remainder, j) <= Quota(q.studentsPerSupervisor, q.remainder, i) <= Quota(q.studentsPerSupervisor, q.remainder, j) + 1)
  {
    var q := SplitQuota(numStudents, numSupervisors);
    QuotaSumClosed(q.studentsPerSupervisor, q.remainder, numSupervisors);
  }

  // ---------------------------------------------------------------------
  // reviewMatches
  // ---------------------------------------------------------------------

  /** The candidates whose student has not been confirmed yet. */
  function Unconsumed(ms: seq<MatchRecord>, consumed: seq<Id>): seq<MatchRecord> {
    if |ms| == 0 then []
    else (if StudentId(ms[0]) !in consumed then [ms[0]] else []) + Unconsumed(ms[1..], consumed)
  }

  /** The candidates left are those the filter on "not confirmed" keeps. */
  lemma {:induction false} UnconsumedIsFilter(ms: seq<MatchRecord>, consumed: seq<Id>)
    ensures Unconsumed(ms, consumed) == Filter(ms, (m: MatchRecord) => StudentId(m) !in consumed)
  {
    if |ms| > 0 {
      UnconsumedIsFilter(ms[1..], consumed);
    }
  }

  /** `unmatchedStudents.slice(0, amountOfMatches)`. */
  function Chosen(ms: seq<MatchRecord>, consumed: seq<Id>, quota: nat): seq<MatchRecord> {
    var u := Unconsumed(ms, consumed);
    u[..Min(quota, |u|)]
  }

  /** What the `forEach` of `reviewMatches` carries from one supervisor to
      the next: the entries visited so far (as modified), the confirmed
      student ids and the supervisors found to have nothing left. */
  datatype ReviewState = ReviewState(
    matches: seq<SupervisorMatches>,
    matchedStudents: seq<Id>,
    supervisorsWithNoMatches: seq<Supervisor>)

  /** One iteration, for the entry `m` at position `index`.  An entry that
      has candidates left gets its list replaced by the chosen ones; an
      entry that has none keeps its list unchanged and is reported. */
  function ReviewOne(st: ReviewState, m: SupervisorMatches, index: nat, studentsPerSupervisor: nat, remainder: nat): ReviewState {
    if |Unconsumed(m.matchedStudentResponses, st.matchedStudents)| > 0 then
      var chosen := Chosen(m.matchedStudentResponses, st.matchedStudents, Quota(studentsPerSupervisor, remainder, index));
      ReviewState(st.matches + [m.(matchedStudentResponses := chosen)], st.matchedStudents + RecordIds(chosen), st.supervisorsWithNoMatches)
    else
      ReviewState(st.matches + [m], st.matchedStudents, st.supervisorsWithNoMatches + [m.supervisorResponse])
  }

  /** The state after the first `n` iterations. */
  function ReviewPrefix(matches: seq<SupervisorMatches>, studentsPerSupervisor: nat, remainder: nat, n: nat): ReviewState
    requires n <= |matches|
  {
    if n == 0 then ReviewState([], [], [])
    else ReviewOne(ReviewPrefix(matches, studentsPerSupervisor, remainder, n - 1), matches[n - 1], n - 1, studentsPerSupervisor, remainder)
  }

  /** The students confirmed before the entry at position `i` is visited. */
  function ConsumedBefore(matches: seq<SupervisorMatches>, studentsPerSupervisor: nat, remainder: nat, i: nat): seq<Id>
    requires i <= |matches|
  {
    ReviewPrefix(matches, studentsPerSupervisor, remainder, i).matchedStudents
  }

  /** The entry at position `i` still had a candidate nobody had taken. */
  predicate HasCandidates(matches: seq<SupervisorMatches>, studentsPerSupervisor: nat, remainder: nat, i: nat)
    requires i < |matches|
  {
    |Unconsumed(matches[i].matchedStudentResponses, ConsumedBefore(matches, studentsPerSupervisor, remainder, i))| > 0
  }

  /** The entry at position `i` as the loop leaves it. */
  function Reviewed(matches: seq<SupervisorMatches>, studentsPerSupervisor: nat, remainder: nat, i: nat): SupervisorMatches
    requires i < |matches|
  {
    if HasCandidates(matches, studentsPerSupervisor, remainder, i) then
      matches[i].(matchedStudentResponses := Chosen(matches[i].matchedStudentResponses,
        ConsumedBefore(matches, studentsPerSupervisor, remainder, i), Quota(studentsPerSupervisor, remainder, i)))
    else matches[i]
  }

  /** The supervisor of an entry is not among the reported ones. */
  predicate NotReported(noMatches: seq<Supervisor>, e: SupervisorMatches) {
    e.supervisorResponse.responseId !in SupervisorIds(noMatches)
  }

  /** `removeUnmatchedSupervisors`: the entries whose supervisor id is not
      reported, in their order. */
  function RemoveUnmatchedSupervisors(matches: seq<SupervisorMatches>, supervisorsWithNoMatches: seq<Supervisor>): (r: seq<SupervisorMatches>)
    ensures forall k :: 0 <= k < |r| ==> r[k] in matches && NotReported(supervisorsWithNoMatches, r[k])
    ensures forall i :: 0 <= i < |matches| && NotReported(supervisorsWithNoMatches, matches[i]) ==> matches[i] in r
  {
    Filter(matches, (e: SupervisorMatches) => NotReported(supervisorsWithNoMatches, e))
  }

  lemma RemoveUnmatchedAppend(a: seq<SupervisorMatches>, b: seq<SupervisorMatches>, supervisorsWithNoMatches: seq<Supervisor>)
    ensures RemoveUnmatchedSupervisors(a + b, supervisorsWithNoMatches)
         == RemoveUnmatchedSupervisors(a, supervisorsWithNoMatches) + RemoveUnmatchedSupervisors(b, supervisorsWithNoMatches)
  {
    FilterAppend(a, b, (e: SupervisorMatches) => NotReported(supervisorsWithNoMatches, e));
  }

  lemma RemoveUnmatchedSingleton(e: SupervisorMatches, supervisorsWithNoMatches: seq<Supervisor>)
    ensures RemoveUnmatchedSupervisors([e], supervisorsWithNoMatches)
         == if NotReported(supervisorsWithNoMatches, e) then [e] else []
  {
    FilterSingleton(e, (e: SupervisorMatches) => NotReported(supervisorsWithNoMatches, e));
  }

  /** The result of `reviewMatches`. */
  datatype Review = Review(matches: seq<SupervisorMatches>, supervisorsWithNoMatches: seq<Supervisor>)

  /** The entries as the whole loop leaves them. */
  function FinalEntries(matches: seq<SupervisorMatches>, studentsPerSupervisor: nat, remainder: nat): seq<SupervisorMatches> {
    ReviewPrefix(matches, studentsPerSupervisor, remainder, |matches|).matches
  }

  /** The supervisors reported by the whole loop. */
  function FinalReported(matches: seq<SupervisorMatches>, studentsPerSupervisor: nat, remainder: nat): seq<Supervisor> {
    ReviewPrefix(matches, studentsPerSupervisor, remainder, |matches|).supervisorsWithNoMatches
  }

  /** `reviewMatches`: the loop, then `removeUnmatchedSupervisors` on its
      result. */
  function ReviewMatches(matches: seq<SupervisorMatches>, studentsPerSupervisor: nat, remainder: nat): Review {
    var reported := FinalReported(matches, studentsPerSupervisor, remainder);
    Review(RemoveUnmatchedSupervisors(FinalEntries(matches, studentsPerSupervisor, remainder), reported), reported)
  }

  // ---------------------------------------------------------------------
  // Properties of one iteration
  // ---------------------------------------------------------------------

  /** Each candidate list names a student at most once. */
  predicate ListsDistinct(matches: seq<SupervisorMatches>) {
    forall i :: 0 <= i < |matches| ==> Distinct(RecordIds(matches[i].matchedStudentResponses))
  }

  /** No two entries belong to the same supervisor id. */
  predicate SupervisorsDistinct(matches: seq<SupervisorMatches>) {
    forall i, j :: 0 <= i < j < |matches| ==>
      matches[i].supervisorResponse.responseId != matches[j].supervisorResponse.responseId
  }

  lemma {:induction false} FilterKeepsIdsDistinct(ms: seq<MatchRecord>, p: MatchRecord -> bool)
    requires Distinct(RecordIds(ms))
    ensures Distinct(RecordIds(Filter(ms, p)))
  {
    if |ms| > 0 {
      var rest := Filter(ms[1..], p);
      TailKeepsDistinct(ms);
      FilterKeepsIdsDistinct(ms[1..], p);
      if p(ms[0]) {
        assert StudentId(ms[0]) !in RecordIds(rest) by {
          forall k | 0 <= k < |rest|
            ensures RecordIds(rest)[k] != StudentId(ms[0])
          {
            assert rest[k] in ms[1..];
          }
        }
        assert Filter(ms, p) == [ms[0]] + rest;
        ConsKeepsDistinct(ms[0], rest);
      } else {
        assert Filter(ms, p) == rest;
      }
    }
  }

  /** The chosen students are the first candidates not yet confirmed, as
      many as the quota allows and at least one when any is left; none of
      them was confirmed before, and none is chosen twice. */
  lemma ChosenFacts(ms: seq<MatchRecord>, consumed: seq<Id>, quota: nat)
    requires Distinct(RecordIds(ms))
    ensures var u := Unconsumed(ms, consumed);
      var c := Chosen(ms, consumed, quota);
      && c <= u
      && |c| == Min(quota, |u|) <= quota
      && (forall k :: 0 <= k < |c| ==> c[k] in ms && StudentId(c[k]) !in consumed)
      && Distinct(RecordIds(c))
  {
    var u := Unconsumed(ms, consumed);
    UnconsumedIsFilter(ms, consumed);
    FilterKeepsIdsDistinct(ms, (m: MatchRecord) => StudentId(m) !in consumed);
    var c := Chosen(ms, consumed, quota);
    assert forall k :: 0 <= k < |c| ==> c[k] == u[k];
    assert RecordIds(c) == RecordIds(u)[..|c|];
  }

  // ---------------------------------------------------------------------
  // Properties of the loop
  // ---------------------------------------------------------------------

  /** One iteration, in terms of `Reviewed` and `HasCandidates`. */
  lemma ReviewStep(matches: seq<SupervisorMatches>, studentsPerSupervisor: nat, remainder: nat, n: nat)
    requires 0 < n <= |matches|
    ensures var prev := ReviewPrefix(matches, studentsPerSupervisor, remainder, n - 1);
      var st := ReviewPrefix(matches, studentsPerSupervisor, remainder, n);
      var m := matches[n - 1];
      && st.matches == prev.matches + [Reviewed(matches, studentsPerSupervisor, remainder, n - 1)]
      && (HasCandidates(matches, studentsPerSupervisor, remainder, n - 1) ==>
            && st.matchedStudents == prev.matchedStudents
                 + RecordIds(Chosen(m.matchedStudentResponses, prev.matchedStudents, Quota(studentsPerSupervisor, remainder, n - 1)))
            && st.supervisorsWithNoMatches == prev.supervisorsWithNoMatches)
      && (!HasCandidates(matches, studentsPerSupervisor, remainder, n - 1) ==>
            && st.matchedStudents == prev.matchedStudents
            && st.supervisorsWithNoMatches == prev.supervisorsWithNoMatches + [m.supervisorResponse])
  {
    assert ConsumedBefore(matches, studentsPerSupervisor, remainder, n - 1)
        == ReviewPrefix(matches, studentsPerSupervisor, remainder, n - 1).matchedStudents;
  }

  /** One iteration appends the entry as `Reviewed` leaves it. */
  lemma ReviewStepEntries(matches: seq<SupervisorMatches>, studentsPerSupervisor: nat, remainder: nat, n: nat)
    requires 0 < n <= |matches|
    ensures ReviewPrefix(matches, studentsPerSupervisor, remainder, n).matches
         == ReviewPrefix(matches, studentsPerSupervisor, remainder, n - 1).matches + [Reviewed(matches, studentsPerSupervisor, remainder, n - 1)]
  {
    ReviewStep(matches, studentsPerSupervisor, remainder, n);
  }

  /** One iteration reports the entry's supervisor exactly when the entry
      has no candidate left. */
  lemma ReviewStepReported(matches: seq<SupervisorMatches>, studentsPerSupervisor: nat, remainder: nat, n: nat)
    requires 0 < n <= |matches|
    ensures ReviewPrefix(matches, studentsPerSupervisor, remainder, n).supervisorsWithNoMatches
         == ReviewPrefix(matches, studentsPerSupervisor, remainder, n - 1).supervisorsWithNoMatches
          + (if HasCandidates(matches, studentsPerSupervisor, remainder, n - 1) then [] else [matches[n - 1].supervisorResponse])
  {
    ReviewStep(matches, studentsPerSupervisor, remainder, n);
    if HasCandidates(matches, studentsPerSupervisor, remainder, n - 1) {
      assert ReviewPrefix(matches, studentsPerSupervisor, remainder, n - 1).supervisorsWithNoMatches + []
          == ReviewPrefix(matches, studentsPerSupervisor, remainder, n - 1).supervisorsWithNoMatches;
    }
  }

  /** The loop leaves each entry where it found it, modified as `Reviewed`
      says. */
  lemma {:induction false} ReviewPrefixEntries(matches: seq<SupervisorMatches>, studentsPerSupervisor: nat, remainder: nat, n: nat)
    requires n <= |matches|
    ensures var st := ReviewPrefix(matches, studentsPerSupervisor, remainder, n);
      && |st.matches| == n
      && (forall i :: 0 <= i < n ==> st.matches[i] == Reviewed(matches, studentsPerSupervisor, remainder, i))
  {
    if n > 0 {
      var prev := ReviewPrefix(matches, studentsPerSupervisor, remainder, n - 1).matches;
      var st := ReviewPrefix(matches, studentsPerSupervisor, remainder, n).matches;
      ReviewPrefixEntries(matches, studentsPerSupervisor, remainder, n - 1);
      ReviewStepEntries(matches, studentsPerSupervisor, remainder, n);
      assert st == prev + [Reviewed(matches, studentsPerSupervisor, remainder, n - 1)];
      forall i | 0 <= i < n
        ensures st[i] == Reviewed(matches, studentsPerSupervisor, remainder, i)
      {
        if i < n - 1 {
          assert st[i] == prev[i];
        }
      }
    }
  }

  /** The loop reports the supervisor of every entry without candidates. */
  lemma {:induction false} ReviewPrefixReportsEmpty(matches: seq<SupervisorMatches>, studentsPerSupervisor: nat, remainder: nat, n: nat)
    requires n <= |matches|
    ensures forall i {:trigger HasCandidates(matches, studentsPerSupervisor, remainder, i)} ::
      0 <= i < n && !HasCandidates(matches, studentsPerSupervisor, remainder, i) ==>
        matches[i].supervisorResponse in ReviewPrefix(matches, studentsPerSupervisor, remainder, n).supervisorsWithNoMatches
  {
    if n > 0 {
      var prev := ReviewPrefix(matches, studentsPerSupervisor, remainder, n - 1).supervisorsWithNoMatches;
      var nm := ReviewPrefix(matches, studentsPerSupervisor, remainder, n).supervisorsWithNoMatches;
      ReviewPrefixReportsEmpty(matches, studentsPerSupervisor, remainder, n - 1);
      ReviewStepReported(matches, studentsPerSupervisor, remainder, n);
      assert prev <= nm;
      forall i | 0 <= i < n && !HasCandidates(matches, studentsPerSupervisor, remainder, i)
        ensures matches[i].supervisorResponse in nm
      {
        if i < n - 1 {
          assert matches[i].supervisorResponse in prev;
        } else {
          assert nm == prev + [matches[n - 1].supervisorResponse];
        }
      }
    }
  }

  /** The loop reports nothing but supervisors of entries. */
  lemma {:induction false} ReviewPrefixReportsEntries(matches: seq<SupervisorMatches>, studentsPerSupervisor: nat, remainder: nat, n: nat)
    requires n <= |matches|
    ensures forall k :: 0 <= k < |ReviewPrefix(matches, studentsPerSupervisor, remainder, n).supervisorsWithNoMatches| ==>
      ReviewPrefix(matches, studentsPerSupervisor, remainder, n).supervisorsWithNoMatches[k] in EntrySupervisors(matches)
  {
    if n > 0 {
      var prev := ReviewPrefix(matches, studentsPerSupervisor, remainder, n - 1).supervisorsWithNoMatches;
      var nm := ReviewPrefix(matches, studentsPerSupervisor, remainder, n).supervisorsWithNoMatches;
      ReviewPrefixReportsEntries(matches, studentsPerSupervisor, remainder, n - 1);
      ReviewStepReported(matches, studentsPerSupervisor, remainder, n);
      assert EntrySupervisors(matches)[n - 1] == matches[n - 1].supervisorResponse;
      forall k | 0 <= k < |nm|
        ensures nm[k] in EntrySupervisors(matches)
      {
        if k < |prev| {
          assert nm[k] == prev[k];
        }
      }
    }
  }

  /** With distinct supervisor ids, no entry the loop has not reached yet
      has its supervisor reported. */
  lemma {:induction false} LaterNotReported(matches: seq<SupervisorMatches>, studentsPerSupervisor: nat, remainder: nat, n: nat)
    requires SupervisorsDistinct(matches)
    requires n <= |matches|
    ensures forall j :: n <= j < |matches| ==>
      matches[j].supervisorResponse.responseId !in SupervisorIds(ReviewPrefix(matches, studentsPerSupervisor, remainder, n).supervisorsWithNoMatches)
  {
    if n > 0 {
      var prev := ReviewPrefix(matches, studentsPerSupervisor, remainder, n - 1).supervisorsWithNoMatches;
      var nm := ReviewPrefix(matches, studentsPerSupervisor, remainder, n).supervisorsWithNoMatches;
      LaterNotReported(matches, studentsPerSupervisor, remainder, n - 1);
      ReviewStepReported(matches, studentsPerSupervisor, remainder, n);
      forall j | n <= j < |matches|
        ensures matches[j].supervisorResponse.responseId !in SupervisorIds(nm)
      {
        var id := matches[j].supervisorResponse.responseId;
        assert id !in SupervisorIds(prev);
        if HasCandidates(matches, studentsPerSupervisor, remainder, n - 1) {
          assert nm == prev;
        } else {
          assert SupervisorIds(nm) == SupervisorIds(prev) + [matches[n - 1].supervisorResponse.responseId];
        }
      }
    }
  }

  /** With distinct supervisor ids, an entry that had a candidate left does
      not have its supervisor reported. */
  lemma {:induction false} CandidatesNotReported(matches: seq<SupervisorMatches>, studentsPerSupervisor: nat, remainder: nat, n: nat)
    requires SupervisorsDistinct(matches)
    requires n <= |matches|
    ensures forall i {:trigger HasCandidates(matches, studentsPerSupervisor, remainder, i)} ::
      0 <= i < n && HasCandidates(matches, studentsPerSupervisor, remainder, i) ==>
        matches[i].supervisorResponse.responseId !in SupervisorIds(ReviewPrefix(matches, studentsPerSupervisor, remainder, n).supervisorsWithNoMatches)
  {
    if n > 0 {
      var prev := ReviewPrefix(matches, studentsPerSupervisor, remainder, n - 1).supervisorsWithNoMatches;
      var nm := ReviewPrefix(matches, studentsPerSupervisor, remainder, n).supervisorsWithNoMatches;
      CandidatesNotReported(matches, studentsPerSupervisor, remainder, n - 1);
      LaterNotReported(matches, studentsPerSupervisor, remainder, n - 1);
      ReviewStepReported(matches, studentsPerSupervisor, remainder, n);
      forall i | 0 <= i < n && HasCandidates(matches, studentsPerSupervisor, remainder, i)
        ensures matches[i].supervisorResponse.responseId !in SupervisorIds(nm)
      {
        var id := matches[i].supervisorResponse.responseId;
        assert id !in SupervisorIds(prev);
        if HasCandidates(matches, studentsPerSupervisor, remainder, n - 1) {
          assert nm == prev;
        } else {
          assert i != n - 1;
          assert SupervisorIds(nm) == SupervisorIds(prev) + [matches[n - 1].supervisorResponse.responseId];
        }
      }
    }
  }

  /** The loop never confirms a student twice. */
  lemma {:induction false} ReviewPrefixDistinct(matches: seq<SupervisorMatches>, studentsPerSupervisor: nat, remainder: nat, n: nat)
    requires n <= |matches|
    requires ListsDistinct(matches)
    ensures Distinct(ReviewPrefix(matches, studentsPerSupervisor, remainder, n).matchedStudents)
  {
    if n > 0 {
      var prev := ReviewPrefix(matches, studentsPerSupervisor, remainder, n - 1);
      ReviewPrefixDistinct(matches, studentsPerSupervisor, remainder, n - 1);
      ReviewStep(matches, studentsPerSupervisor, remainder, n);
      if HasCandidates(matches, studentsPerSupervisor, remainder, n - 1) {
        var m := matches[n - 1];
        var q := Quota(studentsPerSupervisor, remainder, n - 1);
        var chosen := Chosen(m.matchedStudentResponses, prev.matchedStudents, q);
        ChosenFacts(m.matchedStudentResponses, prev.matchedStudents, q);
        DistinctAppend(prev.matchedStudents, RecordIds(chosen));
      }
    }
  }

  /** With distinct supervisor ids, an entry's supervisor is reported
      exactly when the entry had no candidate left. */
  lemma ReportedIffNoCandidates(matches: seq<SupervisorMatches>, studentsPerSupervisor: nat, remainder: nat, i: nat)
    requires SupervisorsDistinct(matches)
    requires i < |matches|
    ensures (matches[i].supervisorResponse.responseId in SupervisorIds(FinalReported(matches, studentsPerSupervisor, remainder)))
        <==> !HasCandidates(matches, studentsPerSupervisor, remainder, i)
  {
    var nm := FinalReported(matches, studentsPerSupervisor, remainder);
    ReviewPrefixReportsEmpty(matches, studentsPerSupervisor, remainder, |matches|);
    CandidatesNotReported(matches, studentsPerSupervisor, remainder, |matches|);
    if !HasCandidates(matches, studentsPerSupervisor, remainder, i) {
      var k :| 0 <= k < |nm| && nm[k] == matches[i].supervisorResponse;
      assert SupervisorIds(nm)[k] == matches[i].supervisorResponse.responseId;
    }
  }

  /** What iteration `n - 1` adds to the kept entries' students: the chosen
      ones when it had candidates, nothing otherwise. */
  lemma KeptStep(matches: seq<SupervisorMatches>, studentsPerSupervisor: nat, remainder: nat, n: nat)
    requires ListsDistinct(matches) && SupervisorsDistinct(matches)
    requires 0 < n <= |matches|
    ensures ConsumedBefore(matches, studentsPerSupervisor, remainder, n - 1) <= ConsumedBefore(matches, studentsPerSupervisor, remainder, n)
    ensures MatchedIds(RemoveUnmatchedSupervisors([Reviewed(matches, studentsPerSupervisor, remainder, n - 1)], FinalReported(matches, studentsPerSupervisor, remainder)))
         == ConsumedBefore(matches, studentsPerSupervisor, remainder, n)[|ConsumedBefore(matches, studentsPerSupervisor, remainder, n - 1)|..]
  {
    var nm := FinalReported(matches, studentsPerSupervisor, remainder);
    var e := Reviewed(matches, studentsPerSupervisor, remainder, n - 1);
    var prevIds := ConsumedBefore(matches, studentsPerSupervisor, remainder, n - 1);
    var ids := ConsumedBefore(matches, studentsPerSupervisor, remainder, n);
    ReviewStep(matches, studentsPerSupervisor, remainder, n);
    ReportedIffNoCandidates(matches, studentsPerSupervisor, remainder, n - 1);
    assert e.supervisorResponse == matches[n - 1].supervisorResponse;
    if HasCandidates(matches, studentsPerSupervisor, remainder, n - 1) {
      var chosen := Chosen(matches[n - 1].matchedStudentResponses, prevIds, Quota(studentsPerSupervisor, remainder, n - 1));
      assert e.matchedStudentResponses == chosen;
      assert ids == prevIds + RecordIds(chosen);
      assert NotReported(nm, e);
      KeptOne(e, nm, prevIds, ids, RecordIds(chosen));
    } else {
      assert ids == prevIds + [];
      assert !NotReported(nm, e);
      KeptOne(e, nm, prevIds, ids, []);
    }
  }

  /** An entry adds its students to the kept ones when it is not reported,
      and nothing when it is. */
  lemma KeptOne(e: SupervisorMatches, nm: seq<Supervisor>, prevIds: seq<Id>, ids: seq<Id>, added: seq<Id>)
    requires ids == prevIds + added
    requires NotReported(nm, e) ==> added == RecordIds(e.matchedStudentResponses)
    requires !NotReported(nm, e) ==> added == []
    ensures prevIds <= ids
    ensures MatchedIds(RemoveUnmatchedSupervisors([e], nm)) == ids[|prevIds|..]
  {
    RemoveUnmatchedSingleton(e, nm);
    MatchedIdsSingleton(e);
    assert ids[|prevIds|..] == added;
  }

  /** Entries whose students extend a prefix of ids by the rest of the ids
      carry all of them. */
  lemma MatchedIdsExtend(before: seq<SupervisorMatches>, now: seq<SupervisorMatches>, prefix: seq<Id>, ids: seq<Id>)
    requires prefix <= ids
    requires MatchedIds(before) == prefix && MatchedIds(now) == ids[|prefix|..]
    ensures MatchedIds(before + now) == ids
  {
    MatchedIdsAppend(before, now);
    PrefixThenRest(prefix, ids);
  }

  /** The first `n` entries as the loop leaves them, less those whose
      supervisor the whole loop reports. */
  function Kept(matches: seq<SupervisorMatches>, studentsPerSupervisor: nat, remainder: nat, n: nat): seq<SupervisorMatches>
    requires n <= |matches|
  {
    RemoveUnmatchedSupervisors(ReviewPrefix(matches, studentsPerSupervisor, remainder, n).matches,
      FinalReported(matches, studentsPerSupervisor, remainder))
  }

  /** The entries kept after the first `n` iterations carry exactly the
      students confirmed by then, in the order they were confirmed. */
  lemma {:induction false} KeptCarryConfirmed(matches: seq<SupervisorMatches>, studentsPerSupervisor: nat, remainder: nat, n: nat)
    requires ListsDistinct(matches) && SupervisorsDistinct(matches)
    requires n <= |matches|
    ensures MatchedIds(Kept(matches, studentsPerSupervisor, remainder, n)) == ConsumedBefore(matches, studentsPerSupervisor, remainder, n)
  {
    if n > 0 {
      KeptCarryConfirmed(matches, studentsPerSupervisor, remainder, n - 1);
      KeptCarryStep(matches, studentsPerSupervisor, remainder, n);
    } else {
      assert ReviewPrefix(matches, studentsPerSupervisor, remainder, 0).matches == [];
      assert Kept(matches, studentsPerSupervisor, remainder, 0) == [];
    }
  }

  /** If the entries kept before iteration `n - 1` carry the students
      confirmed before it, the entries kept after it carry those confirmed
      after it. */
  lemma KeptCarryStep(matches: seq<SupervisorMatches>, studentsPerSupervisor: nat, remainder: nat, n: nat)
    requires ListsDistinct(matches) && SupervisorsDistinct(matches)
    requires 0 < n <= |matches|
    requires MatchedIds(Kept(matches, studentsPerSupervisor, remainder, n - 1)) == ConsumedBefore(matches, studentsPerSupervisor, remainder, n - 1)
    ensures MatchedIds(Kept(matches, studentsPerSupervisor, remainder, n)) == ConsumedBefore(matches, studentsPerSupervisor, remainder, n)
  {
    var before := Kept(matches, studentsPerSupervisor, remainder, n - 1);
    var now := RemoveUnmatchedSupervisors([Reviewed(matches, studentsPerSupervisor, remainder, n - 1)], FinalReported(matches, studentsPerSupervisor, remainder));
    var prefix := ConsumedBefore(matches, studentsPerSupervisor, remainder, n - 1);
    var ids := ConsumedBefore(matches, studentsPerSupervisor, remainder, n);
    KeptStep(matches, studentsPerSupervisor, remainder, n);
    KeptAppend(matches, studentsPerSupervisor, remainder, n);
    assert prefix <= ids;
    assert MatchedIds(before) == prefix;
    assert MatchedIds(now) == ids[|prefix|..];
    MatchedIdsExtend(before, now, prefix, ids);
    assert Kept(matches, studentsPerSupervisor, remainder, n) == before + now;
  }

  /** Iteration `n - 1` adds its entry, when kept, after the ones kept
      before. */
  lemma KeptAppend(matches: seq<SupervisorMatches>, studentsPerSupervisor: nat, remainder: nat, n: nat)
    requires 0 < n <= |matches|
    ensures Kept(matches, studentsPerSupervisor, remainder, n)
         == Kept(matches, studentsPerSupervisor, remainder, n - 1)
          + RemoveUnmatchedSupervisors([Reviewed(matches, studentsPerSupervisor, remainder, n - 1)], FinalReported(matches, studentsPerSupervisor, remainder))
  {
    var nm := FinalReported(matches, studentsPerSupervisor, remainder);
    var prev := ReviewPrefix(matches, studentsPerSupervisor, remainder, n - 1).matches;
    var e := Reviewed(matches, studentsPerSupervisor, remainder, n - 1);
    ReviewStepEntries(matches, studentsPerSupervisor, remainder, n);
    RemoveUnmatchedAppend(prev, [e], nm);
  }

  /** The supervisors of a list of entries, in order. */
  function EntrySupervisors(es: seq<SupervisorMatches>): (sups: seq<Supervisor>)
    ensures |sups| == |es|
    ensures forall i :: 0 <= i < |es| ==> sups[i] == es[i].supervisorResponse
  {
    seq(|es|, i requires 0 <= i < |es| => es[i].supervisorResponse)
  }

  lemma EntrySupervisorsCons(e: SupervisorMatches, es: seq<SupervisorMatches>)
    ensures EntrySupervisors([e] + es) == [e.supervisorResponse] + EntrySupervisors(es)
  {
  }

  lemma {:induction false} EntrySupervisorsFilter(es: seq<SupervisorMatches>, ids: seq<Id>)
    ensures EntrySupervisors(Filter(es, (e: SupervisorMatches) => e.supervisorResponse.responseId !in ids))
         == Filter(EntrySupervisors(es), (s: Supervisor) => s.responseId !in ids)
  {
    if |es| > 0 {
      var p := (e: SupervisorMatches) => e.supervisorResponse.responseId !in ids;
      var q := (s: Supervisor) => s.responseId !in ids;
      var sups := EntrySupervisors(es);
      EntrySupervisorsFilter(es[1..], ids);
      assert sups[1..] == EntrySupervisors(es[1..]);
      assert sups[0] == es[0].supervisorResponse;
      if p(es[0]) {
        assert Filter(es, p) == [es[0]] + Filter(es[1..], p);
        EntrySupervisorsCons(es[0], Filter(es[1..], p));
        assert Filter(sups, q) == [sups[0]] + Filter(sups[1..], q);
      } else {
        assert Filter(es, p) == Filter(es[1..], p);
        assert Filter(sups, q) == Filter(sups[1..], q);
      }
    }
  }

  // ---------------------------------------------------------------------
  // What reviewMatches promises
  // ---------------------------------------------------------------------

  /** No student is confirmed for two supervisors, nor twice for one. */
  lemma NoDoubleAssignment(matches: seq<SupervisorMatches>, studentsPerSupervisor: nat, remainder: nat)
    requires ListsDistinct(matches) && SupervisorsDistinct(matches)
    ensures Distinct(MatchedIds(ReviewMatches(matches, studentsPerSupervisor, remainder).matches))
  {
    KeptCarryConfirmed(matches, studentsPerSupervisor, remainder, |matches|);
    ReviewPrefixDistinct(matches, studentsPerSupervisor, remainder, |matches|);
    assert ReviewMatches(matches, studentsPerSupervisor, remainder).matches == Kept(matches, studentsPerSupervisor, remainder, |matches|);
  }

  /** The returned entries are exactly the reviewed entries that had a
      candidate left: each keeps its supervisor, capacity and taken-spaces
      count, and its list is the chosen prefix of its unconsumed
      candidates, never longer than its quota. */
  lemma ReturnedEntries(matches: seq<SupervisorMatches>, studentsPerSupervisor: nat, remainder: nat)
    requires ListsDistinct(matches) && SupervisorsDistinct(matches)
    ensures var r := ReviewMatches(matches, studentsPerSupervisor, remainder).matches;
      forall e :: e in r ==>
        exists i :: (0 <= i < |matches|
          && HasCandidates(matches, studentsPerSupervisor, remainder, i)
          && e == Reviewed(matches, studentsPerSupervisor, remainder, i))
    ensures var r := ReviewMatches(matches, studentsPerSupervisor, remainder).matches;
      forall i {:trigger HasCandidates(matches, studentsPerSupervisor, remainder, i)} ::
        0 <= i < |matches| && HasCandidates(matches, studentsPerSupervisor, remainder, i) ==>
          Reviewed(matches, studentsPerSupervisor, remainder, i) in r
  {
    var r := ReviewMatches(matches, studentsPerSupervisor, remainder).matches;
    forall e | e in r
      ensures exists i :: (0 <= i < |matches|
              && HasCandidates(matches, studentsPerSupervisor, remainder, i)
              && e == Reviewed(matches, studentsPerSupervisor, remainder, i))
    {
      var i := ReturnedEntryOrigin(matches, studentsPerSupervisor, remainder, e);
    }
    forall i | 0 <= i < |matches| && HasCandidates(matches, studentsPerSupervisor, remainder, i)
      ensures Reviewed(matches, studentsPerSupervisor, remainder, i) in r
    {
      CandidateEntryReturned(matches, studentsPerSupervisor, remainder, i);
    }
  }

  /** The position a returned entry was reviewed at. */
  lemma ReturnedEntryOrigin(matches: seq<SupervisorMatches>, studentsPerSupervisor: nat, remainder: nat, e: SupervisorMatches)
    returns (i: nat)
    requires ListsDistinct(matches) && SupervisorsDistinct(matches)
    requires e in ReviewMatches(matches, studentsPerSupervisor, remainder).matches
    ensures i < |matches| && HasCandidates(matches, studentsPerSupervisor, remainder, i)
    ensures e == Reviewed(matches, studentsPerSupervisor, remainder, i)
  {
    var entries := FinalEntries(matches, studentsPerSupervisor, remainder);
    var nm := FinalReported(matches, studentsPerSupervisor, remainder);
    ReviewPrefixEntries(matches, studentsPerSupervisor, remainder, |matches|);
    assert e in RemoveUnmatchedSupervisors(entries, nm);
    i :| 0 <= i < |entries| && entries[i] == e;
    assert NotReported(nm, e);
    assert e == Reviewed(matches, studentsPerSupervisor, remainder, i);
    assert e.supervisorResponse == matches[i].supervisorResponse;
    ReportedIffNoCandidates(matches, studentsPerSupervisor, remainder, i);
  }

  lemma CandidateEntryReturned(matches: seq<SupervisorMatches>, studentsPerSupervisor: nat, remainder: nat, i: nat)
    requires ListsDistinct(matches) && SupervisorsDistinct(matches)
    requires i < |matches| && HasCandidates(matches, studentsPerSupervisor, remainder, i)
    ensures Reviewed(matches, studentsPerSupervisor, remainder, i) in ReviewMatches(matches, studentsPerSupervisor, remainder).matches
  {
    var entries := FinalEntries(matches, studentsPerSupervisor, remainder);
    var nm := FinalReported(matches, studentsPerSupervisor, remainder);
    ReviewPrefixEntries(matches, studentsPerSupervisor, remainder, |matches|);
    ReportedIffNoCandidates(matches, studentsPerSupervisor, remainder, i);
    var e := Reviewed(matches, studentsPerSupervisor, remainder, i);
    assert entries[i] == e;
    assert e.supervisorResponse == matches[i].supervisorResponse;
    assert NotReported(nm, entries[i]);
  }

  /** A reviewed entry that had candidates keeps everything but its list,
      and the list is at most its quota long and a prefix of the
      candidates nobody had confirmed. */
  lemma ReviewedEntry(matches: seq<SupervisorMatches>, studentsPerSupervisor: nat, remainder: nat, i: nat)
    requires ListsDistinct(matches)
    requires i < |matches| && HasCandidates(matches, studentsPerSupervisor, remainder, i)
    ensures var e := Reviewed(matches, studentsPerSupervisor, remainder, i);
      var u := Unconsumed(matches[i].matchedStudentResponses, ConsumedBefore(matches, studentsPerSupervisor, remainder, i));
      && e.supervisorResponse == matches[i].supervisorResponse
      && e.capacity == matches[i].capacity
      && e.takenSpaces == matches[i].takenSpaces
      && e.matchedStudentResponses <= u
      && |e.matchedStudentResponses| == Min(Quota(studentsPerSupervisor, remainder, i), |u|)
      && (forall k :: 0 <= k < |e.matchedStudentResponses| ==>
            && e.matchedStudentResponses[k] in matches[i].matchedStudentResponses
            && StudentId(e.matchedStudentResponses[k]) !in ConsumedBefore(matches, studentsPerSupervisor, remainder, i))
  {
    ChosenFacts(matches[i].matchedStudentResponses, ConsumedBefore(matches, studentsPerSupervisor, remainder, i), Quota(studentsPerSupervisor, remainder, i));
  }

  /** Every record of a returned entry comes from the list the review
      was given for the same supervisor. */
  lemma ReturnedRecordOrigin(matches: seq<SupervisorMatches>, studentsPerSupervisor: nat, remainder: nat,
                             e: SupervisorMatches, m: MatchRecord)
    returns (i: nat)
    requires ListsDistinct(matches) && SupervisorsDistinct(matches)
    requires e in ReviewMatches(matches, studentsPerSupervisor, remainder).matches
    requires m in e.matchedStudentResponses
    ensures i < |matches| && e.supervisorResponse == matches[i].supervisorResponse
    ensures m in matches[i].matchedStudentResponses
  {
    i := ReturnedEntryOrigin(matches, studentsPerSupervisor, remainder, e);
    ReviewedEntry(matches, studentsPerSupervisor, remainder, i);
    var j :| 0 <= j < |e.matchedStudentResponses| && e.matchedStudentResponses[j] == m;
  }

  /** Every assigned student was in the list the review was given for the
      supervisor it is assigned to. */
  lemma AssignedIdOrigin(matches: seq<SupervisorMatches>, studentsPerSupervisor: nat, remainder: nat, id: Id)
    returns (i: nat)
    requires ListsDistinct(matches) && SupervisorsDistinct(matches)
    requires id in MatchedIds(ReviewMatches(matches, studentsPerSupervisor, remainder).matches)
    ensures i < |matches| && id in RecordIds(matches[i].matchedStudentResponses)
  {
    var returned := ReviewMatches(matches, studentsPerSupervisor, remainder).matches;
    MatchedIdsMember(returned, id);
    var k :| 0 <= k < |returned| && id in RecordIds(returned[k].matchedStudentResponses);
    var e := returned[k];
    var j :| 0 <= j < |e.matchedStudentResponses| && StudentId(e.matchedStudentResponses[j]) == id;
    var m := e.matchedStudentResponses[j];
    i := ReturnedRecordOrigin(matches, studentsPerSupervisor, remainder, e, m);
    var j2 :| 0 <= j2 < |matches[i].matchedStudentResponses| && matches[i].matchedStudentResponses[j2] == m;
    assert RecordIds(matches[i].matchedStudentResponses)[j2] == id;
  }

  /** A supervisor is reported exactly when its entry had no candidate
      left. */
  lemma ReportedExactlyEmpty(matches: seq<SupervisorMatches>, studentsPerSupervisor: nat, remainder: nat)
    requires ListsDistinct(matches) && SupervisorsDistinct(matches)
    ensures var nm := ReviewMatches(matches, studentsPerSupervisor, remainder).supervisorsWithNoMatches;
      forall i {:trigger HasCandidates(matches, studentsPerSupervisor, remainder, i)} :: 0 <= i < |matches| ==>
        (matches[i].supervisorResponse in nm <==> !HasCandidates(matches, studentsPerSupervisor, remainder, i))
  {
    var nm := FinalReported(matches, studentsPerSupervisor, remainder);
    ReviewPrefixReportsEmpty(matches, studentsPerSupervisor, remainder, |matches|);
    forall i | 0 <= i < |matches|
      ensures matches[i].supervisorResponse in nm <==> !HasCandidates(matches, studentsPerSupervisor, remainder, i)
    {
      ReportedIffNoCandidates(matches, studentsPerSupervisor, remainder, i);
      if matches[i].supervisorResponse in nm {
        var k :| 0 <= k < |nm| && nm[k] == matches[i].supervisorResponse;
        assert SupervisorIds(nm)[k] == matches[i].supervisorResponse.responseId;
      }
    }
  }

  /** Every reported supervisor is the supervisor of some entry. */
  lemma ReportedAreEntries(matches: seq<SupervisorMatches>, studentsPerSupervisor: nat, remainder: nat)
    ensures var nm := ReviewMatches(matches, studentsPerSupervisor, remainder).supervisorsWithNoMatches;
      forall k :: 0 <= k < |nm| ==> nm[k] in EntrySupervisors(matches)
  {
    ReviewPrefixReportsEntries(matches, studentsPerSupervisor, remainder, |matches|);
  }

  /** The returned entries belong, in input order, to the supervisors that
      were not reported. */
  lemma KeptSupervisors(matches: seq<SupervisorMatches>, studentsPerSupervisor: nat, remainder: nat)
    ensures var rv := ReviewMatches(matches, studentsPerSupervisor, remainder);
      EntrySupervisors(rv.matches)
        == Filter(EntrySupervisors(matches), (s: Supervisor) => s.responseId !in SupervisorIds(rv.supervisorsWithNoMatches))
  {
    var entries := FinalEntries(matches, studentsPerSupervisor, remainder);
    var nm := FinalReported(matches, studentsPerSupervisor, remainder);
    var ids := SupervisorIds(nm);
    ReviewPrefixEntries(matches, studentsPerSupervisor, remainder, |matches|);
    EntrySupervisorsFilter(entries, ids);
    FilterCongruent(entries, (e: SupervisorMatches) => NotReported(nm, e),
      (e: SupervisorMatches) => e.supervisorResponse.responseId !in ids);
    assert EntrySupervisors(entries) == EntrySupervisors(matches) by {
      forall i | 0 <= i < |matches|
        ensures EntrySupervisors(entries)[i] == EntrySupervisors(matches)[i]
      {
        assert entries[i] == Reviewed(matches, studentsPerSupervisor, remainder, i);
      }
    }
  }

  /** The reported supervisors are exactly those of the entries without a
      candidate left, and the returned entries belong, in input order, to
      the supervisors that were not reported. */
  lemma ReportedSupervisors(matches: seq<SupervisorMatches>, studentsPerSupervisor: nat, remainder: nat)
    requires ListsDistinct(matches) && SupervisorsDistinct(matches)
    ensures var rv := ReviewMatches(matches, studentsPerSupervisor, remainder);
      && (forall i {:trigger HasCandidates(matches, studentsPerSupervisor, remainder, i)} :: 0 <= i < |matches| ==>
            (matches[i].supervisorResponse in rv.supervisorsWithNoMatches <==> !HasCandidates(matches, studentsPerSupervisor, remainder, i)))
      && (forall k :: 0 <= k < |rv.supervisorsWithNoMatches| ==> rv.supervisorsWithNoMatches[k] in EntrySupervisors(matches))
      && EntrySupervisors(rv.matches)
           == Filter(EntrySupervisors(matches), (s: Supervisor) => s.responseId !in SupervisorIds(rv.supervisorsWithNoMatches))
  {
    ReportedExactlyEmpty(matches, studentsPerSupervisor, remainder);
    ReportedAreEntries(matches, studentsPerSupervisor, remainder);
    KeptSupervisors(matches, studentsPerSupervisor, remainder);
  }
}
