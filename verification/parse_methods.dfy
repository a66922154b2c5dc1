/** Building parsed student and supervisor responses from the fetched tables
    (src/parse_methods.js).  The `async` wrappers only await the fetchers, so
    the tables they would fetch are parameters here. */
module ParseMethods {
  import opened Types
  import opened Seqs

  // ---------------------------------------------------------------------
  // ACM id resolution
  // ---------------------------------------------------------------------

  /** Looking an id up in the ACM table: the id itself when the table has
      it, `undefined` otherwise. */
  function ResolveAcmId(x: Id, acmRecordIds: seq<Id>): (r: Option<Id>)
    ensures r.Some? <==> x in acmRecordIds
    ensures r.Some? ==> r.value == x
  {
    if x in acmRecordIds then Some(x) else None
  }

  /** A supervisor row's keyword; a row without an ACM id resolves to `undefined`. */
  function ResolveRowKeyword(row: SupervisorAcmRow, acmRecordIds: seq<Id>): (r: Option<Id>)
    ensures r.Some? <==> row.acmRecordId.Some? && row.acmRecordId.value in acmRecordIds
    ensures r.Some? ==> r == row.acmRecordId
  {
    match row.acmRecordId
    case None => None
    case Some(x) => ResolveAcmId(x, acmRecordIds)
  }

  // ---------------------------------------------------------------------
  // Students
  // ---------------------------------------------------------------------

  /** Every choice was answered. */
  predicate AllDefined(choices: seq<Option<Id>>) {
    forall i :: 0 <= i < |choices| ==> choices[i].Some?
  }

  /** The rows of the topic map for one topic, in table order. */
  function TopicRows(topicToAcmMaps: seq<TopicMap>, topic: Id): seq<TopicMap> {
    Filter(topicToAcmMaps, (m: TopicMap) => m.topicRecordId == topic)
  }

  /** The keywords that one choice of rank `priority` contributes: one per
      topic-map row of the chosen topic, whether or not it resolves. */
  function ChoiceKeywords(topic: Id, priority: int, topicToAcmMaps: seq<TopicMap>, acmRecordIds: seq<Id>): (r: seq<AcmKeyword>)
    ensures |r| == |TopicRows(topicToAcmMaps, topic)|
    ensures forall i :: 0 <= i < |r| ==> r[i].priority == priority
    ensures forall i :: 0 <= i < |r| ==>
      r[i].acmRecordId == ResolveAcmId(TopicRows(topicToAcmMaps, topic)[i].acmRecordId, acmRecordIds)
  {
    if |topicToAcmMaps| == 0 then []
    else
      var m := topicToAcmMaps[0];
      (if m.topicRecordId == topic then [AcmKeyword(ResolveAcmId(m.acmRecordId, acmRecordIds), priority)] else [])
      + ChoiceKeywords(topic, priority, topicToAcmMaps[1..], acmRecordIds)
  }

  /** The keywords of a student, choice by choice; the choice at index `i`
      gives priority `i + 1`. */
  function RankKeywords(choices: seq<Option<Id>>, topicToAcmMaps: seq<TopicMap>, acmRecordIds: seq<Id>): (r: seq<AcmKeyword>)
    requires AllDefined(choices)
    ensures forall i :: 0 <= i < |r| ==> 1 <= r[i].priority <= |choices|
    ensures forall i, j :: 0 <= i < j < |r| ==> r[i].priority <= r[j].priority
  {
    if |choices| == 0 then []
    else
      var n := |choices|;
      RankKeywords(choices[..n - 1], topicToAcmMaps, acmRecordIds)
      + ChoiceKeywords(choices[n - 1].value, n, topicToAcmMaps, acmRecordIds)
  }

  /** The keywords of the given rank, in order. */
  function WithPriority(keywords: seq<AcmKeyword>, priority: int): seq<AcmKeyword> {
    Filter(keywords, (k: AcmKeyword) => k.priority == priority)
  }

  /** The keywords of rank `p` are exactly those the `p`-th choice maps to,
      in topic-map order; so their number is the number of map rows of that
      topic, and a topic without rows contributes nothing. */
  lemma {:induction false} RankKeywordsByChoice(choices: seq<Option<Id>>, topicToAcmMaps: seq<TopicMap>, acmRecordIds: seq<Id>, p: int)
    requires AllDefined(choices)
    requires 1 <= p <= |choices|
    ensures WithPriority(RankKeywords(choices, topicToAcmMaps, acmRecordIds), p)
         == ChoiceKeywords(choices[p - 1].value, p, topicToAcmMaps, acmRecordIds)
    ensures |WithPriority(RankKeywords(choices, topicToAcmMaps, acmRecordIds), p)|
         == |TopicRows(topicToAcmMaps, choices[p - 1].value)|
  {
    var n := |choices|;
    var init := choices[..n - 1];
    var prev := RankKeywords(init, topicToAcmMaps, acmRecordIds);
    var last := ChoiceKeywords(choices[n - 1].value, n, topicToAcmMaps, acmRecordIds);
    assert RankKeywords(choices, topicToAcmMaps, acmRecordIds) == prev + last;
    var pred := (k: AcmKeyword) => k.priority == p;
    FilterAppend(prev, last, pred);
    assert WithPriority(prev + last, p) == Filter(prev, pred) + Filter(last, pred);
    if p == n {
      assert forall i :: 0 <= i < |prev| ==> !pred(prev[i]);
      FilterNone(prev, pred);
      FilterAll(last, pred);
    } else {
      RankKeywordsByChoice(init, topicToAcmMaps, acmRecordIds, p);
      assert init[p - 1] == choices[p - 1];
      assert Filter(prev, pred) == WithPriority(prev, p);
      FilterNone(last, pred);
    }
  }

  function ParseStudent(row: StudentResponseRow, topicToAcmMaps: seq<TopicMap>, acmRecordIds: seq<Id>): Student
    requires AllDefined(row.choices)
  {
    Student(row.responseId, RankKeywords(row.choices, topicToAcmMaps, acmRecordIds), row.choices)
  }

  /** `getParsedStudentResponses`: drops responses with an unanswered
      choice and ranks the keywords of the rest. */
  function ParseStudentResponses(rows: seq<StudentResponseRow>, topicToAcmMaps: seq<TopicMap>, acmRecordIds: seq<Id>): (r: seq<Student>)
    ensures |r| <= |rows|
    ensures forall i :: 0 <= i < |r| ==> AllDefined(r[i].choices)
  {
    if |rows| == 0 then []
    else
      (if AllDefined(rows[0].choices) then [ParseStudent(rows[0], topicToAcmMaps, acmRecordIds)] else [])
      + ParseStudentResponses(rows[1..], topicToAcmMaps, acmRecordIds)
  }

  /** Every parsed student comes from a fully answered response with the
      same id and choices, and carries that response's ranked keywords. */
  lemma {:induction false} ParsedFromRows(rows: seq<StudentResponseRow>, topicToAcmMaps: seq<TopicMap>, acmRecordIds: seq<Id>)
    ensures forall s :: s in ParseStudentResponses(rows, topicToAcmMaps, acmRecordIds) ==>
      && AllDefined(s.choices)
      && StudentResponseRow(s.responseId, s.choices) in rows
      && s.acmKeywords == RankKeywords(s.choices, topicToAcmMaps, acmRecordIds)
  {
    if |rows| > 0 {
      var rest := ParseStudentResponses(rows[1..], topicToAcmMaps, acmRecordIds);
      ParsedFromRows(rows[1..], topicToAcmMaps, acmRecordIds);
      forall s | s in ParseStudentResponses(rows, topicToAcmMaps, acmRecordIds)
        ensures StudentResponseRow(s.responseId, s.choices) in rows
      {
        if s in rest {
          assert StudentResponseRow(s.responseId, s.choices) in rows[1..];
        }
      }
    }
  }

  /** Every fully answered response is parsed. */
  lemma {:induction false} RowsAreParsed(rows: seq<StudentResponseRow>, topicToAcmMaps: seq<TopicMap>, acmRecordIds: seq<Id>)
    ensures forall i :: 0 <= i < |rows| && AllDefined(rows[i].choices) ==>
      ParseStudent(rows[i], topicToAcmMaps, acmRecordIds) in ParseStudentResponses(rows, topicToAcmMaps, acmRecordIds)
  {
    if |rows| > 0 {
      RowsAreParsed(rows[1..], topicToAcmMaps, acmRecordIds);
      forall i | 1 <= i < |rows| && AllDefined(rows[i].choices)
        ensures ParseStudent(rows[i], topicToAcmMaps, acmRecordIds) in ParseStudentResponses(rows, topicToAcmMaps, acmRecordIds)
      {
        assert rows[i] == rows[1..][i - 1];
      }
    }
  }

  /** Parsing is done response by response, so the survivors keep their
      input order. */
  lemma {:induction false} ParseStudentResponsesAppend(a: seq<StudentResponseRow>, b: seq<StudentResponseRow>, topicToAcmMaps: seq<TopicMap>, acmRecordIds: seq<Id>)
    ensures ParseStudentResponses(a + b, topicToAcmMaps, acmRecordIds)
         == ParseStudentResponses(a, topicToAcmMaps, acmRecordIds) + ParseStudentResponses(b, topicToAcmMaps, acmRecordIds)
  {
    if |a| == 0 {
      assert a + b == b;
    } else {
      assert (a + b)[1..] == a[1..] + b;
      ParseStudentResponsesAppend(a[1..], b, topicToAcmMaps, acmRecordIds);
    }
  }

  /** A lone response survives exactly when all its choices are answered. */
  lemma ParseSingleStudent(row: StudentResponseRow, topicToAcmMaps: seq<TopicMap>, acmRecordIds: seq<Id>)
    ensures AllDefined(row.choices) ==>
      ParseStudentResponses([row], topicToAcmMaps, acmRecordIds) == [ParseStudent(row, topicToAcmMaps, acmRecordIds)]
    ensures !AllDefined(row.choices) ==> ParseStudentResponses([row], topicToAcmMaps, acmRecordIds) == []
  {
    assert [row][1..] == [];
  }

  // ---------------------------------------------------------------------
  // Supervisors
  // ---------------------------------------------------------------------

  /** The supervisor ids of the ACM rows, in row order; the row analogue
      of `Types.SupervisorIds`. */
  function RowIds(rows: seq<SupervisorAcmRow>): (ids: seq<Id>)
    ensures |ids| == |rows|
    ensures forall i :: 0 <= i < |rows| ==> ids[i] == rows[i].responseId
  {
    seq(|rows|, i requires 0 <= i < |rows| => rows[i].responseId)
  }

  /** The rows of one supervisor, in table order. */
  function RowsOf(rows: seq<SupervisorAcmRow>, id: Id): seq<SupervisorAcmRow> {
    Filter(rows, (row: SupervisorAcmRow) => row.responseId == id)
  }

  function ResolveRows(rows: seq<SupervisorAcmRow>, acmRecordIds: seq<Id>): (r: seq<Option<Id>>)
    ensures |r| == |rows|
    ensures forall i :: 0 <= i < |rows| ==> r[i] == ResolveRowKeyword(rows[i], acmRecordIds)
  {
    seq(|rows|, i requires 0 <= i < |rows| => ResolveRowKeyword(rows[i], acmRecordIds))
  }

  /** The keyword list a supervisor should end up with: the resolved keyword
      of each of its rows, in row order, duplicates included. */
  function KeywordsOf(rows: seq<SupervisorAcmRow>, id: Id, acmRecordIds: seq<Id>): seq<Option<Id>> {
    ResolveRows(RowsOf(rows, id), acmRecordIds)
  }

  /** Appends `keyword` to every parsed supervisor with the given id. */
  function AppendKeyword(acc: seq<Supervisor>, id: Id, keyword: Option<Id>): (r: seq<Supervisor>)
    ensures |r| == |acc|
    ensures forall i :: 0 <= i < |acc| ==>
      r[i] == if acc[i].responseId == id then acc[i].(acmKeywords := acc[i].acmKeywords + [keyword]) else acc[i]
  {
    seq(|acc|, i requires 0 <= i < |acc| =>
      if acc[i].responseId == id then acc[i].(acmKeywords := acc[i].acmKeywords + [keyword]) else acc[i])
  }

  /** One step of the merge: extend the supervisor the row belongs to, or
      start a new one. */
  function MergeRow(acc: seq<Supervisor>, row: SupervisorAcmRow, acmRecordIds: seq<Id>): (r: seq<Supervisor>)
    ensures SupervisorIds(r) == if row.responseId in SupervisorIds(acc) then SupervisorIds(acc) else SupervisorIds(acc) + [row.responseId]
    ensures forall i :: 0 <= i < |acc| ==> r[i].capacity == acc[i].capacity
    ensures |r| > |acc| ==> r[|acc|].capacity == None
  {
    var keyword := ResolveRowKeyword(row, acmRecordIds);
    if row.responseId in SupervisorIds(acc) then AppendKeyword(acc, row.responseId, keyword)
    else acc + [Supervisor(row.responseId, [keyword], None)]
  }

  /** The supervisor ACM rows merged by supervisor id, as a left fold over
      the rows: one supervisor per distinct id, in order of first row. */
  function GroupSupervisorRows(rows: seq<SupervisorAcmRow>, acmRecordIds: seq<Id>): (r: seq<Supervisor>)
    ensures SupervisorIds(r) == Dedup(RowIds(rows))
    ensures forall i :: 0 <= i < |r| ==> r[i].capacity == None
  {
    if |rows| == 0 then []
    else
      var n := |rows|;
      var prev := GroupSupervisorRows(rows[..n - 1], acmRecordIds);
      MergeRowStep(prev, rows, acmRecordIds);
      MergeRow(prev, rows[n - 1], acmRecordIds)
  }

  /** Merging the last row into the merge of the others keeps one
      supervisor per distinct row id and sets no capacity. */
  lemma MergeRowStep(prev: seq<Supervisor>, rows: seq<SupervisorAcmRow>, acmRecordIds: seq<Id>)
    requires |rows| > 0
    requires SupervisorIds(prev) == Dedup(RowIds(rows[..|rows| - 1]))
    requires forall i :: 0 <= i < |prev| ==> prev[i].capacity == None
    ensures SupervisorIds(MergeRow(prev, rows[|rows| - 1], acmRecordIds)) == Dedup(RowIds(rows))
    ensures var r := MergeRow(prev, rows[|rows| - 1], acmRecordIds);
      forall i :: 0 <= i < |r| ==> r[i].capacity == None
  {
    var n := |rows|;
    var r := MergeRow(prev, rows[n - 1], acmRecordIds);
    assert RowIds(rows[..n - 1]) == RowIds(rows)[..n - 1];
    DedupSnoc(RowIds(rows));
    assert |r| == |SupervisorIds(r)|;
  }

  /** Adding a row extends only its own supervisor's keyword list. */
  lemma KeywordsOfSnoc(init: seq<SupervisorAcmRow>, last: SupervisorAcmRow, id: Id, acmRecordIds: seq<Id>)
    ensures KeywordsOf(init + [last], id, acmRecordIds)
         == KeywordsOf(init, id, acmRecordIds)
            + (if last.responseId == id then [ResolveRowKeyword(last, acmRecordIds)] else [])
  {
    var pred := (row: SupervisorAcmRow) => row.responseId == id;
    FilterAppend(init, [last], pred);
    assert RowsOf(init + [last], id) == RowsOf(init, id) + (if last.responseId == id then [last] else []);
  }

  /** An id without rows has no keywords. */
  lemma KeywordsOfAbsent(rows: seq<SupervisorAcmRow>, id: Id, acmRecordIds: seq<Id>)
    requires id !in RowIds(rows)
    ensures KeywordsOf(rows, id, acmRecordIds) == []
  {
    var pred := (row: SupervisorAcmRow) => row.responseId == id;
    assert forall j :: 0 <= j < |rows| ==> !pred(rows[j]) by {
      forall j | 0 <= j < |rows| ensures !pred(rows[j]) {
        assert RowIds(rows)[j] == rows[j].responseId;
      }
    }
    FilterNone(rows, pred);
  }

  /** Merging a row into a supervisor already present extends only that
      supervisor's keyword list. */
  lemma MergeRowKept(prev: seq<Supervisor>, last: SupervisorAcmRow, acmRecordIds: seq<Id>, i: nat)
    requires i < |prev|
    ensures i < |MergeRow(prev, last, acmRecordIds)|
    ensures MergeRow(prev, last, acmRecordIds)[i].responseId == prev[i].responseId
    ensures MergeRow(prev, last, acmRecordIds)[i].acmKeywords
         == prev[i].acmKeywords + (if last.responseId == prev[i].responseId then [ResolveRowKeyword(last, acmRecordIds)] else [])
  {
    var r := MergeRow(prev, last, acmRecordIds);
    assert SupervisorIds(r)[i] == SupervisorIds(prev)[i];
    if last.responseId !in SupervisorIds(prev) {
      assert r == prev + [Supervisor(last.responseId, [ResolveRowKeyword(last, acmRecordIds)], None)];
      assert SupervisorIds(prev)[i] == prev[i].responseId;
    }
  }

  /** A row of a new supervisor starts it with that row's keyword alone. */
  lemma MergeRowNew(prev: seq<Supervisor>, last: SupervisorAcmRow, acmRecordIds: seq<Id>)
    requires |MergeRow(prev, last, acmRecordIds)| > |prev|
    ensures last.responseId !in SupervisorIds(prev)
    ensures MergeRow(prev, last, acmRecordIds)[|prev|] == Supervisor(last.responseId, [ResolveRowKeyword(last, acmRecordIds)], None)
  {
  }

  /** Each merged supervisor carries the resolved keywords of all its rows,
      in row order, duplicates included. */
  lemma {:induction false} GroupKeywords(rows: seq<SupervisorAcmRow>, acmRecordIds: seq<Id>, i: nat)
    requires i < |GroupSupervisorRows(rows, acmRecordIds)|
    ensures GroupSupervisorRows(rows, acmRecordIds)[i].acmKeywords
         == KeywordsOf(rows, GroupSupervisorRows(rows, acmRecordIds)[i].responseId, acmRecordIds)
  {
    var n := |rows|;
    var init := rows[..n - 1];
    var last := rows[n - 1];
    var prev := GroupSupervisorRows(init, acmRecordIds);
    FrontThenLast(rows);
    assert GroupSupervisorRows(rows, acmRecordIds) == MergeRow(prev, last, acmRecordIds);
    if i < |prev| {
      MergeRowKept(prev, last, acmRecordIds, i);
      GroupKeywords(init, acmRecordIds, i);
      KeywordsOfSnoc(init, last, prev[i].responseId, acmRecordIds);
    } else {
      MergeRowNew(prev, last, acmRecordIds);
      assert last.responseId !in RowIds(init) by {
        assert forall j :: 0 <= j < |RowIds(init)| ==> RowIds(init)[j] in SupervisorIds(prev);
      }
      KeywordsOfAbsent(init, last.responseId, acmRecordIds);
      KeywordsOfSnoc(init, last, last.responseId, acmRecordIds);
    }
  }

  /** The capacity the last capacity row of a supervisor gives it, if any. */
  function LastCapacity(capacityRows: seq<CapacityRow>, id: Id): (c: Option<int>)
    ensures c.Some? <==> exists k :: 0 <= k < |capacityRows| && capacityRows[k].supervisorId == id
    ensures c.Some? ==> exists k :: 0 <= k < |capacityRows| && capacityRows[k] == CapacityRow(id, c.value)
                                 && forall j :: k < j < |capacityRows| ==> capacityRows[j].supervisorId != id
  {
    if |capacityRows| == 0 then None
    else
      var later := LastCapacity(capacityRows[1..], id);
      if later.Some? then later
      else if capacityRows[0].supervisorId == id then Some(capacityRows[0].capacity)
      else None
  }

  /** `capacity` after a later assignment `c` (when present) overrides `previous`. */
  function Override(previous: Option<int>, c: Option<int>): Option<int> {
    if c.Some? then c else previous
  }

  /** One capacity row: set the capacity of the first supervisor with the
      row's id; a row for no known supervisor is ignored. */
  function SetCapacity(sups: seq<Supervisor>, row: CapacityRow): (r: seq<Supervisor>)
    ensures |r| == |sups|
    ensures SupervisorIds(r) == SupervisorIds(sups)
    ensures forall i :: 0 <= i < |sups| ==> r[i].acmKeywords == sups[i].acmKeywords
  {
    if row.supervisorId in SupervisorIds(sups) then
      var i := FirstIndex(SupervisorIds(sups), row.supervisorId);
      sups[i := sups[i].(capacity := Some(row.capacity))]
    else sups
  }

  /** Applies the capacity rows in table order. */
  function ApplyCapacities(sups: seq<Supervisor>, capacityRows: seq<CapacityRow>): (r: seq<Supervisor>)
    ensures |r| == |sups|
    ensures SupervisorIds(r) == SupervisorIds(sups)
    ensures forall i :: 0 <= i < |sups| ==> r[i].acmKeywords == sups[i].acmKeywords
    decreases |capacityRows|
  {
    if |capacityRows| == 0 then sups
    else ApplyCapacities(SetCapacity(sups, capacityRows[0]), capacityRows[1..])
  }

  /** With distinct supervisor ids the last matching capacity row wins,
      unmatched rows change nothing, and a supervisor without a row keeps
      the capacity it had. */
  lemma {:induction false} ApplyCapacitiesLastWins(sups: seq<Supervisor>, capacityRows: seq<CapacityRow>)
    requires Distinct(SupervisorIds(sups))
    decreases |capacityRows|
    ensures var r := ApplyCapacities(sups, capacityRows);
      forall i :: 0 <= i < |sups| ==>
        r[i].capacity == Override(sups[i].capacity, LastCapacity(capacityRows, sups[i].responseId))
  {
    if |capacityRows| > 0 {
      var row := capacityRows[0];
      var next := SetCapacity(sups, row);
      ApplyCapacitiesLastWins(next, capacityRows[1..]);
      forall i | 0 <= i < |sups|
        ensures next[i].capacity == Override(sups[i].capacity, if row.supervisorId == sups[i].responseId then Some(row.capacity) else None)
      {
        if row.supervisorId in SupervisorIds(sups) {
          var k := FirstIndex(SupervisorIds(sups), row.supervisorId);
          assert SupervisorIds(sups)[i] == sups[i].responseId;
        }
      }
    }
  }

  /** `getParsedSupervisorResponses`: rows merged by supervisor id, then the
      capacities attached. */
  function ParseSupervisorResponses(rows: seq<SupervisorAcmRow>, capacityRows: seq<CapacityRow>, acmRecordIds: seq<Id>): (r: seq<Supervisor>)
    ensures SupervisorIds(r) == Dedup(RowIds(rows))
    ensures forall i :: 0 <= i < |r| ==> r[i].acmKeywords == KeywordsOf(rows, r[i].responseId, acmRecordIds)
    ensures forall i :: 0 <= i < |r| ==> r[i].capacity == LastCapacity(capacityRows, r[i].responseId)
  {
    var grouped := GroupSupervisorRows(rows, acmRecordIds);
    forall i | 0 <= i < |grouped|
      ensures grouped[i].acmKeywords == KeywordsOf(rows, grouped[i].responseId, acmRecordIds)
    {
      GroupKeywords(rows, acmRecordIds, i);
    }
    ApplyCapacitiesLastWins(grouped, capacityRows);
    ApplyCapacities(grouped, capacityRows)
  }
}
