/** Overlap matching (src/match.js `findMatchingStudents`,
    `getUnmatchedStudents`, `findMatches`): for every supervisor, the
    students that share at least one ACM keyword with it. */
module Matching {
  import opened Types
  import opened Seqs

  /** The supervisor lists the keyword's id.  This is JavaScript `includes`,
      under which an unresolved (`undefined`) student keyword matches an
      unresolved supervisor keyword. */
  predicate IsShared(sup: Supervisor, kw: AcmKeyword) {
    kw.acmRecordId in sup.acmKeywords
  }

  /** The student keywords the supervisor shares, in the student's order. */
  function SharedKeywords(sup: Supervisor, keywords: seq<AcmKeyword>): seq<AcmKeyword> {
    Filter(keywords, (k: AcmKeyword) => IsShared(sup, k))
  }

  predicate SharesKeyword(sup: Supervisor, s: Student) {
    exists k :: 0 <= k < |s.acmKeywords| && IsShared(sup, s.acmKeywords[k])
  }

  /** The accumulator of `findMatchingStudents`: the matches so far and the
      counter it increments whenever it adds one. */
  datatype StudentMatches = StudentMatches(matchedStudentResponses: seq<MatchRecord>, takenSpaces: nat)

  /** A record as `findMatchingStudents` makes them: at least one common
      keyword, each one shared, and the student's own choices. */
  predicate RecordOk(sup: Supervisor, m: MatchRecord) {
    && |m.commonAcmKeyword| > 0
    && (forall k :: 0 <= k < |m.commonAcmKeyword| ==> IsShared(sup, m.commonAcmKeyword[k]))
    && m.studentsChoices == m.studentResponse.choices
  }

  /** One record per student id and a counter that counts them. */
  predicate WellFormed(sup: Supervisor, acc: StudentMatches) {
    && acc.takenSpaces == |acc.matchedStudentResponses|
    && Distinct(RecordIds(acc.matchedStudentResponses))
    && forall i :: 0 <= i < |acc.matchedStudentResponses| ==> RecordOk(sup, acc.matchedStudentResponses[i])
  }

  /** Appends a keyword to the common keywords of the record at index `i`. */
  function AppendCommon(ms: seq<MatchRecord>, i: nat, kw: AcmKeyword): seq<MatchRecord>
    requires i < |ms|
  {
    ms[i := ms[i].(commonAcmKeyword := ms[i].commonAcmKeyword + [kw])]
  }

  /** The body of the inner `forEach`: a shared keyword either extends the
      student's existing record (the first one, as `find` returns) or
      starts a new one and counts it. */
  function VisitKeyword(sup: Supervisor, acc: StudentMatches, s: Student, kw: AcmKeyword): StudentMatches {
    var ms := acc.matchedStudentResponses;
    if IsShared(sup, kw) then
      if s.responseId in RecordIds(ms) then
        StudentMatches(AppendCommon(ms, FirstIndex(RecordIds(ms), s.responseId), kw), acc.takenSpaces)
      else
        StudentMatches(ms + [MatchRecord(s, [kw], s.choices)], acc.takenSpaces + 1)
    else acc
  }

  /** The inner `forEach` over one student's keywords. */
  function VisitKeywords(sup: Supervisor, acc: StudentMatches, s: Student, keywords: seq<AcmKeyword>): StudentMatches
    decreases |keywords|
  {
    if |keywords| == 0 then acc
    else VisitKeywords(sup, VisitKeyword(sup, acc, s, keywords[0]), s, keywords[1..])
  }

  /** The outer `forEach` over the students. */
  function VisitStudents(sup: Supervisor, acc: StudentMatches, students: seq<Student>): StudentMatches
    decreases |students|
  {
    if |students| == 0 then acc
    else VisitStudents(sup, VisitKeywords(sup, acc, students[0], students[0].acmKeywords), students[1..])
  }

  /** One keyword keeps one record per student id and the counter exact,
      never reorders or drops records, and adds the student's id exactly
      when the keyword is shared. */
  lemma VisitKeywordFacts(sup: Supervisor, acc: StudentMatches, s: Student, kw: AcmKeyword)
    requires WellFormed(sup, acc)
    ensures var r := VisitKeyword(sup, acc, s, kw);
      && WellFormed(sup, r)
      && RecordIds(acc.matchedStudentResponses) <= RecordIds(r.matchedStudentResponses)
      && (forall id :: id in RecordIds(r.matchedStudentResponses) <==>
            id in RecordIds(acc.matchedStudentResponses) || (id == s.responseId && IsShared(sup, kw)))
      && (forall i :: 0 <= i < |r.matchedStudentResponses| ==>
            r.matchedStudentResponses[i].studentResponse ==
              if i < |acc.matchedStudentResponses| then acc.matchedStudentResponses[i].studentResponse else s)
  {
    var ms := acc.matchedStudentResponses;
    if IsShared(sup, kw) && s.responseId !in RecordIds(ms) {
      DistinctAppend(RecordIds(ms), [s.responseId]);
      assert RecordIds(ms + [MatchRecord(s, [kw], s.choices)]) == RecordIds(ms) + [s.responseId];
    } else if IsShared(sup, kw) {
      var i := FirstIndex(RecordIds(ms), s.responseId);
      assert RecordIds(AppendCommon(ms, i, kw)) == RecordIds(ms);
    }
  }

  lemma {:induction false} VisitKeywordsFacts(sup: Supervisor, acc: StudentMatches, s: Student, keywords: seq<AcmKeyword>)
    requires WellFormed(sup, acc)
    ensures var r := VisitKeywords(sup, acc, s, keywords);
      && WellFormed(sup, r)
      && RecordIds(acc.matchedStudentResponses) <= RecordIds(r.matchedStudentResponses)
      && (forall id :: id in RecordIds(r.matchedStudentResponses) <==>
            id in RecordIds(acc.matchedStudentResponses)
            || (id == s.responseId && exists k :: 0 <= k < |keywords| && IsShared(sup, keywords[k])))
      && (forall i :: 0 <= i < |r.matchedStudentResponses| ==>
            r.matchedStudentResponses[i].studentResponse ==
              if i < |acc.matchedStudentResponses| then acc.matchedStudentResponses[i].studentResponse else s)
    decreases |keywords|
  {
    if |keywords| > 0 {
      var next := VisitKeyword(sup, acc, s, keywords[0]);
      VisitKeywordFacts(sup, acc, s, keywords[0]);
      VisitKeywordsFacts(sup, next, s, keywords[1..]);
      assert forall k :: 0 < k < |keywords| ==> keywords[k] == keywords[1..][k - 1];
    }
  }

  lemma {:induction false} VisitStudentsFacts(sup: Supervisor, acc: StudentMatches, students: seq<Student>)
    requires WellFormed(sup, acc)
    ensures var r := VisitStudents(sup, acc, students);
      && WellFormed(sup, r)
      && RecordIds(acc.matchedStudentResponses) <= RecordIds(r.matchedStudentResponses)
      && (forall id :: id in RecordIds(r.matchedStudentResponses) <==>
            id in RecordIds(acc.matchedStudentResponses)
            || exists j :: 0 <= j < |students| && students[j].responseId == id && SharesKeyword(sup, students[j]))
      && (forall i :: 0 <= i < |acc.matchedStudentResponses| ==>
            r.matchedStudentResponses[i].studentResponse == acc.matchedStudentResponses[i].studentResponse)
      && (forall i :: |acc.matchedStudentResponses| <= i < |r.matchedStudentResponses| ==>
            r.matchedStudentResponses[i].studentResponse in students)
    decreases |students|
  {
    if |students| > 0 {
      var next := VisitKeywords(sup, acc, students[0], students[0].acmKeywords);
      var r := VisitStudents(sup, next, students[1..]);
      VisitKeywordsFacts(sup, acc, students[0], students[0].acmKeywords);
      VisitStudentsFacts(sup, next, students[1..]);
      assert forall j :: 0 < j < |students| ==> students[j] == students[1..][j - 1];
      assert |RecordIds(next.matchedStudentResponses)| <= |RecordIds(r.matchedStudentResponses)|;
    }
  }

  /** `findMatchingStudents`: one record per student id that shares a
      keyword with the supervisor, and the number of records. */
  function FindMatchingStudents(sup: Supervisor, students: seq<Student>): (r: StudentMatches)
    ensures r.takenSpaces == |r.matchedStudentResponses|
    ensures Distinct(RecordIds(r.matchedStudentResponses))
    ensures forall i :: 0 <= i < |r.matchedStudentResponses| ==>
      RecordOk(sup, r.matchedStudentResponses[i]) && r.matchedStudentResponses[i].studentResponse in students
    ensures forall id :: id in RecordIds(r.matchedStudentResponses) <==>
      exists j :: 0 <= j < |students| && students[j].responseId == id && SharesKeyword(sup, students[j])
  {
    VisitStudentsFacts(sup, StudentMatches([], 0), students);
    VisitStudents(sup, StudentMatches([], 0), students)
  }

  // ---------------------------------------------------------------------
  // Reference definition for students with distinct ids
  // ---------------------------------------------------------------------

  /** The record a student gets on its own: its shared keywords, if any. */
  function MatchOf(sup: Supervisor, s: Student): seq<MatchRecord> {
    var common := SharedKeywords(sup, s.acmKeywords);
    if common == [] then [] else [MatchRecord(s, common, s.choices)]
  }

  /** Student by student, in input order, the record each one gets. */
  function ReferenceMatches(sup: Supervisor, students: seq<Student>): seq<MatchRecord> {
    if |students| == 0 then [] else MatchOf(sup, students[0]) + ReferenceMatches(sup, students[1..])
  }

  predicate DistinctStudentIds(students: seq<Student>) {
    forall i, j :: 0 <= i < j < |students| ==> students[i].responseId != students[j].responseId
  }

  /** Once a student has a record, its further shared keywords are appended
      to that record in keyword order. */
  lemma {:induction false} KeywordsExtendRecord(sup: Supervisor, pre: seq<MatchRecord>, s: Student, common: seq<AcmKeyword>, taken: nat, keywords: seq<AcmKeyword>)
    requires s.responseId !in RecordIds(pre)
    ensures VisitKeywords(sup, StudentMatches(pre + [MatchRecord(s, common, s.choices)], taken), s, keywords).matchedStudentResponses
         == pre + [MatchRecord(s, common + SharedKeywords(sup, keywords), s.choices)]
    decreases |keywords|
  {
    var acc := StudentMatches(pre + [MatchRecord(s, common, s.choices)], taken);
    if |keywords| == 0 {
      assert common + SharedKeywords(sup, keywords) == common;
    } else {
      var kw := keywords[0];
      assert SharedKeywords(sup, keywords) == (if IsShared(sup, kw) then [kw] else []) + SharedKeywords(sup, keywords[1..]);
      var next := VisitKeyword(sup, acc, s, kw);
      if IsShared(sup, kw) {
        assert RecordIds(acc.matchedStudentResponses) == RecordIds(pre) + [s.responseId];
        assert FirstIndex(RecordIds(acc.matchedStudentResponses), s.responseId) == |pre|;
        assert next == StudentMatches(pre + [MatchRecord(s, common + [kw], s.choices)], taken);
        KeywordsExtendRecord(sup, pre, s, common + [kw], taken, keywords[1..]);
        assert common + [kw] + SharedKeywords(sup, keywords[1..]) == common + SharedKeywords(sup, keywords);
      } else {
        assert VisitKeywords(sup, acc, s, keywords) == VisitKeywords(sup, acc, s, keywords[1..]);
        assert SharedKeywords(sup, keywords) == SharedKeywords(sup, keywords[1..]);
        KeywordsExtendRecord(sup, pre, s, common, taken, keywords[1..]);
      }
    }
  }

  /** A student not seen before gets a record exactly when it shares a
      keyword, holding all its shared keywords in its own order. */
  lemma {:induction false} KeywordsFromFresh(sup: Supervisor, acc: StudentMatches, s: Student, keywords: seq<AcmKeyword>)
    requires s.responseId !in RecordIds(acc.matchedStudentResponses)
    ensures VisitKeywords(sup, acc, s, keywords).matchedStudentResponses
         == acc.matchedStudentResponses
            + (if SharedKeywords(sup, keywords) == [] then [] else [MatchRecord(s, SharedKeywords(sup, keywords), s.choices)])
    decreases |keywords|
  {
    if |keywords| > 0 {
      var kw := keywords[0];
      assert SharedKeywords(sup, keywords) == (if IsShared(sup, kw) then [kw] else []) + SharedKeywords(sup, keywords[1..]);
      var next := VisitKeyword(sup, acc, s, kw);
      if IsShared(sup, kw) {
        assert next.matchedStudentResponses == acc.matchedStudentResponses + [MatchRecord(s, [kw], s.choices)];
        KeywordsExtendRecord(sup, acc.matchedStudentResponses, s, [kw], next.takenSpaces, keywords[1..]);
      } else {
        assert VisitKeywords(sup, acc, s, keywords) == VisitKeywords(sup, acc, s, keywords[1..]);
        assert SharedKeywords(sup, keywords) == SharedKeywords(sup, keywords[1..]);
        KeywordsFromFresh(sup, acc, s, keywords[1..]);
      }
    }
  }

  lemma {:induction false} StudentsFollowReference(sup: Supervisor, acc: StudentMatches, students: seq<Student>)
    requires DistinctStudentIds(students)
    requires forall j :: 0 <= j < |students| ==> students[j].responseId !in RecordIds(acc.matchedStudentResponses)
    ensures VisitStudents(sup, acc, students).matchedStudentResponses
         == acc.matchedStudentResponses + ReferenceMatches(sup, students)
    decreases |students|
  {
    if |students| > 0 {
      var s := students[0];
      var next := VisitKeywords(sup, acc, s, s.acmKeywords);
      KeywordsFromFresh(sup, acc, s, s.acmKeywords);
      assert next.matchedStudentResponses == acc.matchedStudentResponses + MatchOf(sup, s);
      forall j | 0 <= j < |students[1..]|
        ensures students[1..][j].responseId !in RecordIds(next.matchedStudentResponses)
      {
        assert students[1..][j] == students[j + 1];
        RecordIdsAppend(acc.matchedStudentResponses, MatchOf(sup, s));
      }
      StudentsFollowReference(sup, next, students[1..]);
    }
  }

  /** With distinct student ids, `findMatchingStudents` keeps the students
      that share a keyword, in input order, each with exactly its shared
      keywords in its own keyword order. */
  lemma FindMatchingStudentsIsReference(sup: Supervisor, students: seq<Student>)
    requires DistinctStudentIds(students)
    ensures FindMatchingStudents(sup, students).matchedStudentResponses == ReferenceMatches(sup, students)
  {
    StudentsFollowReference(sup, StudentMatches([], 0), students);
  }

  // ---------------------------------------------------------------------
  // Students without any match, and all supervisors at once
  // ---------------------------------------------------------------------

  /** The ids of a list of students, in list order: the `map(response =>
      response.responseId)` of `main`, as `Types.SupervisorIds` is for
      supervisors. */
  function StudentIds(students: seq<Student>): (ids: seq<Id>)
    ensures |ids| == |students|
    ensures forall i :: 0 <= i < |students| ==> ids[i] == students[i].responseId
  {
    seq(|students|, i requires 0 <= i < |students| => students[i].responseId)
  }

  /** The students whose id is not in `ids`, in input order. */
  function WithoutIds(students: seq<Student>, ids: seq<Id>): seq<Student> {
    Filter(students, (s: Student) => s.responseId !in ids)
  }

  lemma UnmatchedIdsAgree(students: seq<Student>, allMatches: seq<SupervisorMatches>, matchedStudents: seq<Id>, unmatchedIds: seq<Id>)
    requires matchedStudents == Dedup(MatchedIds(allMatches))
    requires unmatchedIds == Filter(StudentIds(students), (id: Id) => id !in matchedStudents)
    ensures Filter(students, (s: Student) => s.responseId in unmatchedIds) == WithoutIds(students, MatchedIds(allMatches))
  {
    var ids := MatchedIds(allMatches);
    forall i | 0 <= i < |students|
      ensures (students[i].responseId in unmatchedIds) == (students[i].responseId !in ids)
    {
      var id := students[i].responseId;
      assert StudentIds(students)[i] == id;
      if id in ids {
        var k :| 0 <= k < |ids| && ids[k] == id;
        assert id in matchedStudents;
      } else {
        assert id in unmatchedIds;
      }
    }
    FilterCongruent(students, (s: Student) => s.responseId in unmatchedIds, (s: Student) => s.responseId !in ids);
  }

  /** `getUnmatchedStudents`: as written it de-duplicates the matched ids,
      filters the list of all student ids against them and keeps the
      students whose id survives; the result is the students none of whose
      ids appears in any match list, in input order. */
  function GetUnmatchedStudents(students: seq<Student>, allMatches: seq<SupervisorMatches>): (r: seq<Student>)
    ensures r == WithoutIds(students, MatchedIds(allMatches))
  {
    var matchedStudents := Dedup(MatchedIds(allMatches));
    var allStudents := StudentIds(students);
    var unmatchedIds := Filter(allStudents, (id: Id) => id !in matchedStudents);
    UnmatchedIdsAgree(students, allMatches, matchedStudents, unmatchedIds);
    Filter(students, (s: Student) => s.responseId in unmatchedIds)
  }

  datatype FoundMatches = FoundMatches(matches: seq<SupervisorMatches>, unmatchedStudents: seq<Student>)

  /** The entry `findMatches` pushes for one supervisor. */
  function MatchSupervisor(sup: Supervisor, students: seq<Student>): SupervisorMatches {
    var found := FindMatchingStudents(sup, students);
    SupervisorMatches(sup, sup.capacity, found.takenSpaces, found.matchedStudentResponses)
  }

  /** `findMatches`: one entry per supervisor, in supervisor order, and the
      students that matched nobody. */
  function FindMatches(students: seq<Student>, sups: seq<Supervisor>): (r: FoundMatches)
    ensures |r.matches| == |sups|
    ensures forall i :: 0 <= i < |sups| ==>
      && r.matches[i].supervisorResponse == sups[i]
      && r.matches[i].capacity == sups[i].capacity
      && r.matches[i].takenSpaces == |r.matches[i].matchedStudentResponses|
      && r.matches[i].matchedStudentResponses == FindMatchingStudents(sups[i], students).matchedStudentResponses
    ensures r.unmatchedStudents == WithoutIds(students, MatchedIds(r.matches))
  {
    var matches := seq(|sups|, i requires 0 <= i < |sups| => MatchSupervisor(sups[i], students));
    FoundMatches(matches, GetUnmatchedStudents(students, matches))
  }

  /** With distinct student ids, a student is reported unmatched exactly
      when it shares no keyword with any supervisor. */
  lemma UnmatchedMeansNoOverlap(students: seq<Student>, sups: seq<Supervisor>, s: Student)
    requires DistinctStudentIds(students)
    ensures s in FindMatches(students, sups).unmatchedStudents <==>
      s in students && forall k :: 0 <= k < |sups| ==> !SharesKeyword(sups[k], s)
  {
    var r := FindMatches(students, sups);
    MatchedIdsMember(r.matches, s.responseId);
    if s in students {
      var j0 :| 0 <= j0 < |students| && students[j0] == s;
      forall k | 0 <= k < |sups|
        ensures s.responseId in RecordIds(r.matches[k].matchedStudentResponses) <==> SharesKeyword(sups[k], s)
      {
        if s.responseId in RecordIds(r.matches[k].matchedStudentResponses) {
          var j :| 0 <= j < |students| && students[j].responseId == s.responseId && SharesKeyword(sups[k], students[j]);
          assert j == j0;
        }
      }
    }
  }
}
