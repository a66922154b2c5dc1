/** The earlier, standalone version of the engine in the root match.js.

    Its student parsing (match.js:15-49) and its merging of supervisor rows
    (match.js:59-82) are the same as in src/parse_methods.js and are not
    repeated here.  What differs is modelled below: the capacity step, which
    has no guard for a capacity row naming an unknown supervisor, and the
    matching loop, which builds slimmer records (keyword ids only) and a
    parallel list of bins. */
module LegacyMatch {
  import opened Types
  import opened Seqs
  import opened ParseMethods
  import opened Matching

  // ---------------------------------------------------------------------
  // Capacities without a guard
  // ---------------------------------------------------------------------

  /** Every capacity row names a supervisor in `sups`. */
  predicate AllKnown(sups: seq<Supervisor>, capacityRows: seq<CapacityRow>) {
    forall k :: 0 <= k < |capacityRows| ==> capacityRows[k].supervisorId in SupervisorIds(sups)
  }

  /** match.js:85-89: each row sets the capacity of the first supervisor with
      its id.  When there is none, `find` yields `undefined` and assigning
      to its `capacity` throws, which here is a failure carrying that row. */
  function ApplyCapacitiesStrict(sups: seq<Supervisor>, capacityRows: seq<CapacityRow>): Result<seq<Supervisor>, CapacityRow>
    decreases |capacityRows|
  {
    if |capacityRows| == 0 then Success(sups)
    else if capacityRows[0].supervisorId !in SupervisorIds(sups) then Failure(capacityRows[0])
    else ApplyCapacitiesStrict(SetCapacity(sups, capacityRows[0]), capacityRows[1..])
  }

  /** The unguarded step fails exactly when some row names an unknown
      supervisor, and then on the first such row; otherwise it agrees with
      the guarded step of src/parse_methods.js. */
  lemma {:induction false} ApplyCapacitiesStrictAgrees(sups: seq<Supervisor>, capacityRows: seq<CapacityRow>)
    decreases |capacityRows|
    ensures var r := ApplyCapacitiesStrict(sups, capacityRows);
      && (r.Success? <==> AllKnown(sups, capacityRows))
      && (r.Success? ==> r.value == ApplyCapacities(sups, capacityRows))
      && (r.Failure? ==> exists k :: (0 <= k < |capacityRows| && r.error == capacityRows[k]
            && capacityRows[k].supervisorId !in SupervisorIds(sups)
            && forall j :: 0 <= j < k ==> capacityRows[j].supervisorId in SupervisorIds(sups)))
  {
    if |capacityRows| > 0 && capacityRows[0].supervisorId in SupervisorIds(sups) {
      var next := SetCapacity(sups, capacityRows[0]);
      ApplyCapacitiesStrictAgrees(next, capacityRows[1..]);
      assert forall k :: 0 < k < |capacityRows| ==> capacityRows[k] == capacityRows[1..][k - 1];
      var r := ApplyCapacitiesStrict(sups, capacityRows);
      if r.Failure? {
        var k :| 0 <= k < |capacityRows[1..]| && r.error == capacityRows[1..][k]
            && capacityRows[1..][k].supervisorId !in SupervisorIds(next)
            && forall j :: 0 <= j < k ==> capacityRows[1..][j].supervisorId in SupervisorIds(next);
        assert r.error == capacityRows[k + 1];
      }
    }
  }

  /** `getParsedSupervisorResponses` of match.js: rows merged by supervisor
      id as in src/parse_methods.js, then the unguarded capacity step. */
  function ParseSupervisorResponsesStrict(rows: seq<SupervisorAcmRow>, capacityRows: seq<CapacityRow>, acmRecordIds: seq<Id>): Result<seq<Supervisor>, CapacityRow> {
    ApplyCapacitiesStrict(GroupSupervisorRows(rows, acmRecordIds), capacityRows)
  }

  /** It succeeds exactly when every capacity row names a supervisor that
      has an ACM row, and then gives what src/parse_methods.js gives. */
  lemma ParseSupervisorResponsesStrictAgrees(rows: seq<SupervisorAcmRow>, capacityRows: seq<CapacityRow>, acmRecordIds: seq<Id>)
    ensures var r := ParseSupervisorResponsesStrict(rows, capacityRows, acmRecordIds);
      && (r.Success? <==> forall k :: 0 <= k < |capacityRows| ==> capacityRows[k].supervisorId in RowIds(rows))
      && (r.Success? ==> r.value == ParseSupervisorResponses(rows, capacityRows, acmRecordIds))
  {
    var grouped := GroupSupervisorRows(rows, acmRecordIds);
    ApplyCapacitiesStrictAgrees(grouped, capacityRows);
    var ids := SupervisorIds(grouped);
    assert ids == Dedup(RowIds(rows));
    forall id
      ensures id in ids <==> id in RowIds(rows)
    {
      if id in RowIds(rows) {
        var j :| 0 <= j < |RowIds(rows)| && RowIds(rows)[j] == id;
      }
    }
  }

  // ---------------------------------------------------------------------
  // The matching loop
  // ---------------------------------------------------------------------

  /** A match as match.js records it: the student's id, the ids of the
      keywords they share (no priorities) and the student's choices. */
  datatype LegacyRecord = LegacyRecord(studentResponseId: Id, commonACMKeywordId: seq<Option<Id>>, studentsChoices: seq<Option<Id>>)

  datatype LegacyAcc = LegacyAcc(matches: seq<LegacyRecord>, takenSpaces: nat)

  function LegacyIds(ms: seq<LegacyRecord>): (ids: seq<Id>)
    ensures |ids| == |ms|
    ensures forall i :: 0 <= i < |ms| ==> ids[i] == ms[i].studentResponseId
  {
    seq(|ms|, i requires 0 <= i < |ms| => ms[i].studentResponseId)
  }

  /** match.js:118-141, one keyword of one student. */
  function LegacyVisitKeyword(sup: Supervisor, acc: LegacyAcc, s: Student, kw: AcmKeyword): LegacyAcc {
    var ms := acc.matches;
    if kw.acmRecordId in sup.acmKeywords then
      if s.responseId in LegacyIds(ms) then
        var i := FirstIndex(LegacyIds(ms), s.responseId);
        LegacyAcc(ms[i := ms[i].(commonACMKeywordId := ms[i].commonACMKeywordId + [kw.acmRecordId])], acc.takenSpaces)
      else
        LegacyAcc(ms + [LegacyRecord(s.responseId, [kw.acmRecordId], s.choices)], acc.takenSpaces + 1)
    else acc
  }

  function LegacyVisitKeywords(sup: Supervisor, acc: LegacyAcc, s: Student, keywords: seq<AcmKeyword>): LegacyAcc
    decreases |keywords|
  {
    if |keywords| == 0 then acc
    else LegacyVisitKeywords(sup, LegacyVisitKeyword(sup, acc, s, keywords[0]), s, keywords[1..])
  }

  function LegacyVisitStudents(sup: Supervisor, acc: LegacyAcc, students: seq<Student>): LegacyAcc
    decreases |students|
  {
    if |students| == 0 then acc
    else LegacyVisitStudents(sup, LegacyVisitKeywords(sup, acc, students[0], students[0].acmKeywords), students[1..])
  }

  /** The ids of a list of keywords. */
  function KeywordIds(kws: seq<AcmKeyword>): (ids: seq<Option<Id>>)
    ensures |ids| == |kws|
    ensures forall i :: 0 <= i < |kws| ==> ids[i] == kws[i].acmRecordId
  {
    seq(|kws|, i requires 0 <= i < |kws| => kws[i].acmRecordId)
  }

  /** A src/match.js record with the priorities dropped. */
  function Project(m: MatchRecord): LegacyRecord {
    LegacyRecord(m.studentResponse.responseId, KeywordIds(m.commonAcmKeyword), m.studentsChoices)
  }

  function ProjectAll(ms: seq<MatchRecord>): (r: seq<LegacyRecord>)
    ensures |r| == |ms|
    ensures forall i :: 0 <= i < |ms| ==> r[i] == Project(ms[i])
  {
    seq(|ms|, i requires 0 <= i < |ms| => Project(ms[i]))
  }

  function ProjectAcc(acc: StudentMatches): LegacyAcc {
    LegacyAcc(ProjectAll(acc.matchedStudentResponses), acc.takenSpaces)
  }

  lemma ProjectKeepsIds(ms: seq<MatchRecord>)
    ensures LegacyIds(ProjectAll(ms)) == RecordIds(ms)
  {
  }

  /** One keyword step of match.js is the step of src/match.js with the
      priorities dropped. */
  lemma VisitKeywordProjects(sup: Supervisor, acc: StudentMatches, s: Student, kw: AcmKeyword)
    ensures ProjectAcc(VisitKeyword(sup, acc, s, kw)) == LegacyVisitKeyword(sup, ProjectAcc(acc), s, kw)
  {
    var ms := acc.matchedStudentResponses;
    ProjectKeepsIds(ms);
    if IsShared(sup, kw) {
      if s.responseId in RecordIds(ms) {
        var i := FirstIndex(RecordIds(ms), s.responseId);
        assert KeywordIds(ms[i].commonAcmKeyword + [kw]) == KeywordIds(ms[i].commonAcmKeyword) + [kw.acmRecordId];
        assert ProjectAll(AppendCommon(ms, i, kw))
            == ProjectAll(ms)[i := ProjectAll(ms)[i].(commonACMKeywordId := ProjectAll(ms)[i].commonACMKeywordId + [kw.acmRecordId])];
      } else {
        assert KeywordIds([kw]) == [kw.acmRecordId];
        assert ProjectAll(ms + [MatchRecord(s, [kw], s.choices)]) == ProjectAll(ms) + [LegacyRecord(s.responseId, [kw.acmRecordId], s.choices)];
      }
    }
  }

  lemma {:induction false} VisitKeywordsProjects(sup: Supervisor, acc: StudentMatches, s: Student, keywords: seq<AcmKeyword>)
    decreases |keywords|
    ensures ProjectAcc(VisitKeywords(sup, acc, s, keywords)) == LegacyVisitKeywords(sup, ProjectAcc(acc), s, keywords)
  {
    if |keywords| > 0 {
      VisitKeywordProjects(sup, acc, s, keywords[0]);
      VisitKeywordsProjects(sup, VisitKeyword(sup, acc, s, keywords[0]), s, keywords[1..]);
    }
  }

  lemma {:induction false} VisitStudentsProjects(sup: Supervisor, acc: StudentMatches, students: seq<Student>)
    decreases |students|
    ensures ProjectAcc(VisitStudents(sup, acc, students)) == LegacyVisitStudents(sup, ProjectAcc(acc), students)
  {
    if |students| > 0 {
      VisitKeywordsProjects(sup, acc, students[0], students[0].acmKeywords);
      VisitStudentsProjects(sup, VisitKeywords(sup, acc, students[0], students[0].acmKeywords), students[1..]);
    }
  }

  /** The matches match.js builds for one supervisor. */
  function LegacyMatchesFor(sup: Supervisor, students: seq<Student>): LegacyAcc {
    LegacyVisitStudents(sup, LegacyAcc([], 0), students)
  }

  /** match.js builds, for one supervisor, exactly the records of
      src/match.js with the priorities dropped: so at most one record per
      student, a counter equal to the number of records, and only shared
      keyword ids, in the student's keyword order. */
  lemma LegacyMatchesForAgrees(sup: Supervisor, students: seq<Student>)
    ensures var found := FindMatchingStudents(sup, students);
      var legacy := LegacyMatchesFor(sup, students);
      && legacy == ProjectAcc(found)
      && Distinct(LegacyIds(legacy.matches))
      && legacy.takenSpaces == |legacy.matches|
      && (forall i :: 0 <= i < |legacy.matches| ==>
            && |legacy.matches[i].commonACMKeywordId| > 0
            && forall k :: 0 <= k < |legacy.matches[i].commonACMKeywordId| ==>
                 legacy.matches[i].commonACMKeywordId[k] in sup.acmKeywords)
  {
    var found := FindMatchingStudents(sup, students);
    VisitStudentsProjects(sup, StudentMatches([], 0), students);
    assert ProjectAcc(StudentMatches([], 0)) == LegacyAcc([], 0);
    ProjectKeepsIds(found.matchedStudentResponses);
    forall i | 0 <= i < |found.matchedStudentResponses|
      ensures var c := ProjectAll(found.matchedStudentResponses)[i].commonACMKeywordId;
        |c| > 0 && forall k :: 0 <= k < |c| ==> c[k] in sup.acmKeywords
    {
      assert RecordOk(sup, found.matchedStudentResponses[i]);
    }
  }

  /** With distinct student ids, a student's record lists the ids of exactly
      the student's keywords the supervisor shares, in the student's order. */
  lemma LegacyCommonIds(sup: Supervisor, students: seq<Student>)
    requires DistinctStudentIds(students)
    ensures LegacyMatchesFor(sup, students).matches
         == ProjectAll(ReferenceMatches(sup, students))
  {
    LegacyMatchesForAgrees(sup, students);
    FindMatchingStudentsIsReference(sup, students);
  }

  /** An entry of `allMatches`. */
  datatype LegacyEntry = LegacyEntry(supervisorResponseId: Id, matchedStudentResponses: seq<LegacyRecord>)

  /** An entry of `bins`. */
  datatype Bin = Bin(supervisorResponseId: Id, capacity: Option<int>, takenSpaces: nat)

  datatype LegacyResult = LegacyResult(allMatches: seq<LegacyEntry>, bins: seq<Bin>)

  /** The body of the `match` function: one entry in each list per
      supervisor. */
  function LegacyRun(students: seq<Student>, sups: seq<Supervisor>): LegacyResult {
    LegacyResult(
      seq(|sups|, i requires 0 <= i < |sups| => LegacyEntry(sups[i].responseId, LegacyMatchesFor(sups[i], students).matches)),
      seq(|sups|, i requires 0 <= i < |sups| =>
        Bin(sups[i].responseId, sups[i].capacity, LegacyMatchesFor(sups[i], students).takenSpaces)))
  }

  /** `allMatches` and `bins` have one entry per supervisor, in supervisor
      order; each bin carries its supervisor's capacity and counts the
      matching entry's records; every entry names a student at most once;
      and the entries are those of src/match.js with priorities dropped. */
  lemma LegacyRunFacts(students: seq<Student>, sups: seq<Supervisor>)
    ensures var r := LegacyRun(students, sups);
      var found := FindMatches(students, sups);
      && |r.allMatches| == |sups| && |r.bins| == |sups|
      && forall i :: 0 <= i < |sups| ==>
           && r.allMatches[i].supervisorResponseId == sups[i].responseId
           && r.bins[i].supervisorResponseId == sups[i].responseId
           && r.bins[i].capacity == sups[i].capacity
           && r.bins[i].takenSpaces == |r.allMatches[i].matchedStudentResponses|
           && Distinct(LegacyIds(r.allMatches[i].matchedStudentResponses))
           && r.allMatches[i].matchedStudentResponses == ProjectAll(found.matches[i].matchedStudentResponses)
  {
    forall i | 0 <= i < |sups|
      ensures var legacy := LegacyMatchesFor(sups[i], students);
        && legacy.matches == ProjectAll(FindMatchingStudents(sups[i], students).matchedStudentResponses)
        && legacy.takenSpaces == |legacy.matches|
        && Distinct(LegacyIds(legacy.matches))
    {
      LegacyMatchesForAgrees(sups[i], students);
    }
  }
}
