/** Result projection (src/write_methods.js `formatMatches`): each
    supervisor's entry reduced to its id, its capacity and, per matched
    student, the student's id and the keywords they share. */
module WriteMethods {
  import opened Types

  datatype FormattedMatch = FormattedMatch(studentResponseId: Id, commonAcmKeyword: seq<AcmKeyword>)

  datatype FormattedSupervisor = FormattedSupervisor(
    supervisorResponseId: Id,
    capacity: Option<int>,
    matches: seq<FormattedMatch>)

  function FormatRecord(m: MatchRecord): FormattedMatch {
    FormattedMatch(m.studentResponse.responseId, m.commonAcmKeyword)
  }

  /** The capacity is read from the supervisor's response, not from the
      entry's own `capacity` field. */
  function FormatSupervisor(e: SupervisorMatches): FormattedSupervisor {
    var ms := e.matchedStudentResponses;
    FormattedSupervisor(e.supervisorResponse.responseId, e.supervisorResponse.capacity,
      seq(|ms|, j requires 0 <= j < |ms| => FormatRecord(ms[j])))
  }

  /** The student ids of formatted matches, in order. */
  function FormattedIds(ms: seq<FormattedMatch>): (ids: seq<Id>)
    ensures |ids| == |ms|
    ensures forall j :: 0 <= j < |ms| ==> ids[j] == ms[j].studentResponseId
  {
    seq(|ms|, j requires 0 <= j < |ms| => ms[j].studentResponseId)
  }

  /** The student ids of all formatted entries, entry by entry. */
  function AllFormattedIds(fs: seq<FormattedSupervisor>): seq<Id> {
    if |fs| == 0 then [] else FormattedIds(fs[0].matches) + AllFormattedIds(fs[1..])
  }

  /** `formatMatches`: one formatted entry per entry, in the same order,
      with the supervisor's id and capacity, and every match in place:
      same length, same order, the student's id and the shared keywords
      unchanged. */
  function FormatMatches(matches: seq<SupervisorMatches>): (r: seq<FormattedSupervisor>)
    ensures |r| == |matches|
    ensures forall i :: 0 <= i < |matches| ==>
      && r[i].supervisorResponseId == matches[i].supervisorResponse.responseId
      && r[i].capacity == matches[i].supervisorResponse.capacity
      && FormattedIds(r[i].matches) == RecordIds(matches[i].matchedStudentResponses)
      && (forall j :: 0 <= j < |r[i].matches| ==>
            r[i].matches[j].commonAcmKeyword == matches[i].matchedStudentResponses[j].commonAcmKeyword)
  {
    seq(|matches|, i requires 0 <= i < |matches| => FormatSupervisor(matches[i]))
  }

  /** The formatted output names exactly the students of the entries, in
      the same order, so whatever holds of the assigned ids holds of the
      written ones. */
  lemma {:induction false} FormattedIdsAreMatchedIds(matches: seq<SupervisorMatches>)
    ensures AllFormattedIds(FormatMatches(matches)) == MatchedIds(matches)
  {
    if |matches| > 0 {
      FormattedIdsAreMatchedIds(matches[1..]);
      assert FormatMatches(matches)[1..] == FormatMatches(matches[1..]);
    }
  }
}
