/** The computation in `main` of src/match.js (lines 200-245) without its
    fetching and writing: parse results in, the four written results out. */
module Allocation {
  import opened Types
  import opened Seqs
  import opened Matching
  import opened Ordering
  import opened Review
  import opened WriteMethods

  /** What `main` writes: the reviewed matches, the students that matched
      nobody, the supervisors left with nothing, and the formatted matches
      it posts. */
  datatype Outcome = Outcome(
    matches: seq<SupervisorMatches>,
    unmatchedStudents: seq<Student>,
    unmatchedSupervisors: seq<Supervisor>,
    formatted: seq<FormattedSupervisor>)

  /** Every match list `findMatches` builds has a first keyword to sort by. */
  lemma FoundKeyed(students: seq<Student>, sups: seq<Supervisor>)
    ensures var found := FindMatches(students, sups);
      forall i :: 0 <= i < |found.matches| ==> AllKeyed(found.matches[i].matchedStudentResponses)
  {
    var found := FindMatches(students, sups);
    forall i, j | 0 <= i < |found.matches| && 0 <= j < |found.matches[i].matchedStudentResponses|
      ensures HasKey(found.matches[i].matchedStudentResponses[j])
    {
      assert RecordOk(sups[i], found.matches[i].matchedStudentResponses[j]);
    }
  }

  /** The number of distinct supervisor ids is positive when there is a
      supervisor. */
  lemma SomeSupervisor(sups: seq<Supervisor>)
    requires |sups| > 0
    ensures |Dedup(SupervisorIds(sups))| > 0
  {
    assert SupervisorIds(sups)[0] in Dedup(SupervisorIds(sups));
  }

  /** The matches after ordering. */
  function Ordered(students: seq<Student>, sups: seq<Supervisor>): seq<SupervisorMatches> {
    FoundKeyed(students, sups);
    OrderMatches(FindMatches(students, sups).matches)
  }

  /** The even share of `main`: distinct students over distinct supervisors. */
  function Share(students: seq<Student>, sups: seq<Supervisor>): Split
    requires |sups| > 0
  {
    SomeSupervisor(sups);
    SplitQuota(|Dedup(StudentIds(students))|, |Dedup(SupervisorIds(sups))|)
  }

  function Allocate(students: seq<Student>, sups: seq<Supervisor>): Outcome
    requires |sups| > 0
  {
    var found := FindMatches(students, sups);
    var share := Share(students, sups);
    var review := ReviewMatches(Ordered(students, sups), share.studentsPerSupervisor, share.remainder);
    Outcome(review.matches, found.unmatchedStudents, review.supervisorsWithNoMatches, FormatMatches(review.matches))
  }

  /** The ordered lists meet what the review needs: each names a student
      at most once, and, when the supervisors' ids are distinct, so are the
      entries'. */
  lemma OrderedReady(students: seq<Student>, sups: seq<Supervisor>)
    requires Distinct(SupervisorIds(sups))
    ensures ListsDistinct(Ordered(students, sups)) && SupervisorsDistinct(Ordered(students, sups))
    ensures |Ordered(students, sups)| == |sups|
    ensures forall i :: 0 <= i < |sups| ==> Ordered(students, sups)[i].supervisorResponse == sups[i]
  {
    var found := FindMatches(students, sups);
    FoundKeyed(students, sups);
    var ordered := Ordered(students, sups);
    forall i | 0 <= i < |ordered|
      ensures Distinct(RecordIds(ordered[i].matchedStudentResponses))
    {
      SortKeepsDistinct(found.matches[i].matchedStudentResponses);
    }
    forall i, j | 0 <= i < j < |ordered|
      ensures ordered[i].supervisorResponse.responseId != ordered[j].supervisorResponse.responseId
    {
      assert SupervisorIds(sups)[i] == sups[i].responseId;
    }
  }

  /** No student is assigned twice, in the matches or in what is posted. */
  lemma NoStudentAssignedTwice(students: seq<Student>, sups: seq<Supervisor>)
    requires |sups| > 0 && Distinct(SupervisorIds(sups))
    ensures Distinct(MatchedIds(Allocate(students, sups).matches))
    ensures Distinct(AllFormattedIds(Allocate(students, sups).formatted))
  {
    var share := Share(students, sups);
    OrderedReady(students, sups);
    NoDoubleAssignment(Ordered(students, sups), share.studentsPerSupervisor, share.remainder);
    FormattedIdsAreMatchedIds(Allocate(students, sups).matches);
  }

  /** A record in an ordered list is one `findMatchingStudents` made: a
      student from the input sharing a keyword with the supervisor. */
  lemma OrderedRecordOk(students: seq<Student>, sups: seq<Supervisor>, i: nat, m: MatchRecord)
    requires i < |sups|
    requires m in Ordered(students, sups)[i].matchedStudentResponses
    ensures RecordOk(sups[i], m) && m.studentResponse in students
  {
    var found := FindMatches(students, sups);
    FoundKeyed(students, sups);
    var ms := found.matches[i].matchedStudentResponses;
    assert multiset(Ordered(students, sups)[i].matchedStudentResponses) == multiset(ms);
    PermutationMember(Ordered(students, sups)[i].matchedStudentResponses, ms, m);
    var j :| 0 <= j < |ms| && ms[j] == m;
  }

  /** Every assignment pairs a supervisor from the input with a student
      from the input who shares at least one keyword with it, and carries
      the student's own choices. */
  lemma AssignmentsAreCompatible(students: seq<Student>, sups: seq<Supervisor>)
    requires |sups| > 0 && Distinct(SupervisorIds(sups))
    ensures forall e :: e in Allocate(students, sups).matches ==>
      && e.supervisorResponse in sups
      && forall j :: 0 <= j < |e.matchedStudentResponses| ==>
           RecordOk(e.supervisorResponse, e.matchedStudentResponses[j])
           && e.matchedStudentResponses[j].studentResponse in students
  {
    var share := Share(students, sups);
    var ordered := Ordered(students, sups);
    OrderedReady(students, sups);
    forall e | e in Allocate(students, sups).matches
      ensures && e.supervisorResponse in sups
              && forall j :: 0 <= j < |e.matchedStudentResponses| ==>
                   RecordOk(e.supervisorResponse, e.matchedStudentResponses[j])
                   && e.matchedStudentResponses[j].studentResponse in students
    {
      var i := ReturnedEntryOrigin(ordered, share.studentsPerSupervisor, share.remainder, e);
      ReviewedEntry(ordered, share.studentsPerSupervisor, share.remainder, i);
      forall j | 0 <= j < |e.matchedStudentResponses|
        ensures RecordOk(e.supervisorResponse, e.matchedStudentResponses[j])
                && e.matchedStudentResponses[j].studentResponse in students
      {
        OrderedRecordOk(students, sups, i, e.matchedStudentResponses[j]);
      }
    }
  }

  /** A student assigned after the review was in the list `findMatches`
      built for the same supervisor. */
  lemma AssignedWasFound(students: seq<Student>, sups: seq<Supervisor>, id: Id)
    requires |sups| > 0 && Distinct(SupervisorIds(sups))
    requires id in MatchedIds(Allocate(students, sups).matches)
    ensures id in MatchedIds(FindMatches(students, sups).matches)
  {
    var found := FindMatches(students, sups);
    var share := Share(students, sups);
    OrderedReady(students, sups);
    assert Allocate(students, sups).matches == ReviewMatches(Ordered(students, sups), share.studentsPerSupervisor, share.remainder).matches;
    var i := AssignedIdOrigin(Ordered(students, sups), share.studentsPerSupervisor, share.remainder, id);
    OrderedIdFound(students, sups, i, id);
    MatchedIdsMember(found.matches, id);
  }

  /** A student in an ordered list is in the list `findMatches` built. */
  lemma OrderedIdFound(students: seq<Student>, sups: seq<Supervisor>, i: nat, id: Id)
    requires i < |sups|
    requires id in RecordIds(Ordered(students, sups)[i].matchedStudentResponses)
    ensures id in RecordIds(FindMatches(students, sups).matches[i].matchedStudentResponses)
  {
    var ms := FindMatches(students, sups).matches[i].matchedStudentResponses;
    FoundKeyed(students, sups);
    if id !in RecordIds(ms) {
      PermutationIdsOut(ms, Ordered(students, sups)[i].matchedStudentResponses, id);
    }
  }

  /** The students reported unmatched are those whose id appears in no
      supervisor's list before the review, and none of them is assigned
      after it.  The converse fails: a student the quotas cut from every
      list is neither assigned nor reported. */
  lemma UnmatchedStudentsNotAssigned(students: seq<Student>, sups: seq<Supervisor>)
    requires |sups| > 0 && Distinct(SupervisorIds(sups))
    ensures Allocate(students, sups).unmatchedStudents
         == WithoutIds(students, MatchedIds(FindMatches(students, sups).matches))
    ensures forall s :: s in Allocate(students, sups).unmatchedStudents ==>
      s in students && s.responseId !in MatchedIds(Allocate(students, sups).matches)
  {
    var found := FindMatches(students, sups);
    var o := Allocate(students, sups);
    forall s | s in o.unmatchedStudents
      ensures s in students && s.responseId !in MatchedIds(o.matches)
    {
      if s.responseId in MatchedIds(o.matches) {
        AssignedWasFound(students, sups, s.responseId);
      }
    }
  }
}
