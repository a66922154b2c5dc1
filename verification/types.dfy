/** Record shapes shared by the matching engine.

    The engine works on tables that have already been fetched and
    deserialised.  Identifiers are plain strings and a JavaScript
    `undefined` identifier is `None`.  Shapes follow
    typescript/types.d.ts and the objects built in src/parse_methods.js
    and src/match.js.
 */
module Types {
  import opened Seqs

  type Id = string

  datatype Option<+T> = None | Some(value: T)

  datatype Result<+T, +E> = Success(value: T) | Failure(error: E)

  // ---------------------------------------------------------------------
  // Fetched table rows (inputs of the parse step)
  // ---------------------------------------------------------------------

  /** A row of the student response table: its id and the three ranked
      topic choices, any of which may be missing. */
  datatype StudentResponseRow = StudentResponseRow(responseId: Id, choices: seq<Option<Id>>)

  /** A row of the topic-to-ACM map table: one topic maps to one ACM keyword. */
  datatype TopicMap = TopicMap(topicRecordId: Id, acmRecordId: Id)

  /** A row of the supervisor ACM table; a supervisor has one row per keyword. */
  datatype SupervisorAcmRow = SupervisorAcmRow(responseId: Id, acmRecordId: Option<Id>)

  /** A row of the supervisor response table, carrying a capacity. */
  datatype CapacityRow = CapacityRow(supervisorId: Id, capacity: int)

  // ---------------------------------------------------------------------
  // Parsed responses
  // ---------------------------------------------------------------------

  /** An ACM keyword of a student with the rank of the choice it came from
      (1 = first choice).  The id is `None` when the mapped keyword is not in
      the ACM table. */
  datatype AcmKeyword = AcmKeyword(acmRecordId: Option<Id>, priority: int)

  datatype Student = Student(responseId: Id, acmKeywords: seq<AcmKeyword>, choices: seq<Option<Id>>)

  /** A supervisor merged from all its ACM rows; `capacity` is `None` until a
      capacity row supplies one. */
  datatype Supervisor = Supervisor(responseId: Id, acmKeywords: seq<Option<Id>>, capacity: Option<int>)

  // ---------------------------------------------------------------------
  // Matching
  // ---------------------------------------------------------------------

  /** One student found compatible with one supervisor, with the keywords
      they share in the student's keyword order. */
  datatype MatchRecord = MatchRecord(studentResponse: Student, commonAcmKeyword: seq<AcmKeyword>, studentsChoices: seq<Option<Id>>)

  /** The matches of one supervisor as `findMatches` builds them. */
  datatype SupervisorMatches = SupervisorMatches(
    supervisorResponse: Supervisor,
    capacity: Option<int>,
    takenSpaces: nat,
    matchedStudentResponses: seq<MatchRecord>)

  function StudentId(m: MatchRecord): Id {
    m.studentResponse.responseId
  }

  /** The student ids of a list of match records, in list order. */
  function RecordIds(ms: seq<MatchRecord>): (ids: seq<Id>)
    ensures |ids| == |ms|
    ensures forall i :: 0 <= i < |ms| ==> ids[i] == StudentId(ms[i])
  {
    seq(|ms|, i requires 0 <= i < |ms| => StudentId(ms[i]))
  }

  /** The ids of a list of supervisors, in list order.  `Matching.StudentIds`
      and `ParseMethods.RowIds` are the same projection on students and on
      supervisor ACM rows. */
  function SupervisorIds(ss: seq<Supervisor>): (ids: seq<Id>)
    ensures |ids| == |ss|
    ensures forall i :: 0 <= i < |ss| ==> ids[i] == ss[i].responseId
  {
    seq(|ss|, i requires 0 <= i < |ss| => ss[i].responseId)
  }

  /** The student ids in the match lists of all supervisors, supervisor by supervisor. */
  function MatchedIds(es: seq<SupervisorMatches>): seq<Id> {
    if |es| == 0 then [] else RecordIds(es[0].matchedStudentResponses) + MatchedIds(es[1..])
  }

  lemma RecordIdsAppend(a: seq<MatchRecord>, b: seq<MatchRecord>)
    ensures RecordIds(a + b) == RecordIds(a) + RecordIds(b)
  {
  }

  lemma RecordIdsCons(m: MatchRecord, ms: seq<MatchRecord>)
    ensures RecordIds([m] + ms) == [StudentId(m)] + RecordIds(ms)
  {
    RecordIdsAppend([m], ms);
  }

  /** Prefixing a record whose student is new keeps the ids distinct. */
  lemma ConsKeepsDistinct(m: MatchRecord, ms: seq<MatchRecord>)
    requires Distinct(RecordIds(ms)) && StudentId(m) !in RecordIds(ms)
    ensures Distinct(RecordIds([m] + ms))
  {
    DistinctAppend([StudentId(m)], RecordIds(ms));
    RecordIdsCons(m, ms);
  }

  /** Dropping the first record keeps the ids distinct. */
  lemma TailKeepsDistinct(ms: seq<MatchRecord>)
    requires |ms| > 0 && Distinct(RecordIds(ms))
    ensures RecordIds(ms[1..]) == RecordIds(ms)[1..]
    ensures Distinct(RecordIds(ms[1..]))
    ensures StudentId(ms[0]) !in RecordIds(ms[1..])
  {
    assert RecordIds(ms[1..]) == RecordIds(ms)[1..];
  }

  /** A permutation of records names no student its original does not. */
  lemma PermutationIdsOut(a: seq<MatchRecord>, b: seq<MatchRecord>, id: Id)
    requires multiset(a) == multiset(b) && id !in RecordIds(a)
    ensures id !in RecordIds(b)
  {
    forall k | 0 <= k < |b|
      ensures StudentId(b[k]) != id
    {
      PermutationMember(b, a, b[k]);
      var j :| 0 <= j < |a| && a[j] == b[k];
      assert RecordIds(a)[j] == StudentId(b[k]);
    }
  }

  lemma {:induction false} MatchedIdsAppend(a: seq<SupervisorMatches>, b: seq<SupervisorMatches>)
    ensures MatchedIds(a + b) == MatchedIds(a) + MatchedIds(b)
  {
    if |a| > 0 {
      assert (a + b)[1..] == a[1..] + b;
      MatchedIdsAppend(a[1..], b);
    } else {
      assert a + b == b;
    }
  }

  lemma MatchedIdsSingleton(e: SupervisorMatches)
    ensures MatchedIds([e]) == RecordIds(e.matchedStudentResponses)
  {
    assert [e][1..] == [];
  }

  lemma {:induction false} MatchedIdsMember(es: seq<SupervisorMatches>, id: Id)
    ensures id in MatchedIds(es) <==>
      exists k :: 0 <= k < |es| && id in RecordIds(es[k].matchedStudentResponses)
  {
    if |es| > 0 {
      MatchedIdsMember(es[1..], id);
      assert forall k :: 0 < k < |es| ==> es[k] == es[1..][k - 1];
    }
  }
}
