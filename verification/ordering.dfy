/** Ordering each supervisor's matches by priority (src/match.js
    `orderMatches`).

    As written the comparator reads `student2.commonAcmKeyword[0].pririty`,
    a property no keyword has, so it compares a number with `undefined`,
    which is always false, and returns -1 for every pair.  Such a comparator
    is inconsistent and leaves the order `Array.prototype.sort` produces up
    to the engine.  The model keeps the comparator as written for the
    record and sorts everywhere else by the intended key, ascending
    priority of the first common keyword.  Even spelt correctly the
    comparator never returns 0, so it answers -1 both ways round on equal
    priorities and the source does not fix the order of ties; keeping
    them in discovery order (a stable sort) is this model's choice. */
module Ordering {
  import opened Types
  import opened Seqs

  // ---------------------------------------------------------------------
  // The comparator
  // ---------------------------------------------------------------------

  /** A property value as JavaScript reads it: a number, or `undefined`
      when the object has no such property. */
  datatype JsValue = Num(n: int) | Undefined

  /** JavaScript `>` on these values: a comparison involving `undefined`
      is false. */
  predicate JsGreater(a: JsValue, b: JsValue) {
    a.Num? && b.Num? && a.n > b.n
  }

  /** Reading `priority`, which every keyword has. */
  function ReadPriority(kw: AcmKeyword): JsValue {
    Num(kw.priority)
  }

  /** Reading the misspelt property `pririty`, which no keyword has. */
  function ReadPririty(kw: AcmKeyword): JsValue {
    Undefined
  }

  /** Every record has a first common keyword to compare by. */
  predicate HasKey(m: MatchRecord) {
    |m.commonAcmKeyword| > 0
  }

  predicate AllKeyed(ms: seq<MatchRecord>) {
    forall i :: 0 <= i < |ms| ==> HasKey(ms[i])
  }

  /** The sort key: the priority of the first keyword the student shares. */
  function BestPriority(m: MatchRecord): int
    requires HasKey(m)
  {
    m.commonAcmKeyword[0].priority
  }

  /** The comparator as written. */
  function WrittenComparator(a: MatchRecord, b: MatchRecord): int
    requires HasKey(a) && HasKey(b)
  {
    if JsGreater(ReadPriority(a.commonAcmKeyword[0]), ReadPririty(b.commonAcmKeyword[0])) then 1 else -1
  }

  /** The comparator with the property name spelt as intended. */
  function IntendedComparator(a: MatchRecord, b: MatchRecord): (c: int)
    requires HasKey(a) && HasKey(b)
    ensures c > 0 <==> BestPriority(a) > BestPriority(b)
  {
    if JsGreater(ReadPriority(a.commonAcmKeyword[0]), ReadPriority(b.commonAcmKeyword[0])) then 1 else -1
  }

  /** The written comparator answers "a first" for every pair, both ways
      round, so it cannot order anything. */
  lemma WrittenComparatorIgnoresPriority(a: MatchRecord, b: MatchRecord)
    requires HasKey(a) && HasKey(b)
    ensures WrittenComparator(a, b) < 0 && WrittenComparator(b, a) < 0
    ensures BestPriority(a) > BestPriority(b) ==> WrittenComparator(a, b) != IntendedComparator(a, b)
  {
  }

  /** A third-choice match and a first-choice match: passed first, the
      third-choice one is put first by the written comparator and last by
      the intended one; with the arguments swapped the written comparator
      puts the first-choice one first, so its answer follows argument
      order, not priority. */
  lemma WrittenComparatorCounterexample(s: Student)
    ensures var third := MatchRecord(s, [AcmKeyword(Some("k"), 3)], s.choices);
            var first := MatchRecord(s, [AcmKeyword(Some("k"), 1)], s.choices);
            && WrittenComparator(third, first) == -1 && IntendedComparator(third, first) == 1
            && WrittenComparator(first, third) == -1 && IntendedComparator(first, third) == -1
  {
  }

  /** Spelt correctly, the comparator still answers "a first" both ways
      round when the priorities are equal, so it leaves ties unordered. */
  lemma IntendedComparatorTies(a: MatchRecord, b: MatchRecord)
    requires HasKey(a) && HasKey(b)
    requires BestPriority(a) == BestPriority(b)
    ensures IntendedComparator(a, b) < 0 && IntendedComparator(b, a) < 0
  {
  }

  // ---------------------------------------------------------------------
  // The modelled order: ascending priority, ties in discovery order
  // ---------------------------------------------------------------------

  predicate SortedByPriority(ms: seq<MatchRecord>)
    requires AllKeyed(ms)
  {
    forall i, j :: 0 <= i < j < |ms| ==> BestPriority(ms[i]) <= BestPriority(ms[j])
  }

  /** The records whose key is `p`, in order. */
  function WithKey(ms: seq<MatchRecord>, p: int): seq<MatchRecord> {
    Filter(ms, (m: MatchRecord) => HasKey(m) && BestPriority(m) == p)
  }

  /** Inserts before the first record whose key is not smaller. */
  function Insert(x: MatchRecord, sorted: seq<MatchRecord>): (r: seq<MatchRecord>)
    requires HasKey(x) && AllKeyed(sorted)
    ensures |r| == |sorted| + 1
    ensures forall k :: 0 <= k < |r| ==> r[k] == x || r[k] in sorted
    ensures AllKeyed(r)
  {
    if |sorted| == 0 then [x]
    else if BestPriority(x) <= BestPriority(sorted[0]) then [x] + sorted
    else [sorted[0]] + Insert(x, sorted[1..])
  }

  lemma {:induction false} InsertSorted(x: MatchRecord, sorted: seq<MatchRecord>)
    requires HasKey(x) && AllKeyed(sorted) && SortedByPriority(sorted)
    ensures SortedByPriority(Insert(x, sorted))
  {
    if |sorted| > 0 && BestPriority(x) > BestPriority(sorted[0]) {
      var rest := Insert(x, sorted[1..]);
      InsertSorted(x, sorted[1..]);
      assert forall k :: 0 <= k < |rest| ==> BestPriority(sorted[0]) <= BestPriority(rest[k]);
      assert Insert(x, sorted) == [sorted[0]] + rest;
    }
  }

  lemma {:induction false} InsertMultiset(x: MatchRecord, sorted: seq<MatchRecord>)
    requires HasKey(x) && AllKeyed(sorted)
    ensures multiset(Insert(x, sorted)) == multiset(sorted) + multiset{x}
  {
    if |sorted| > 0 && BestPriority(x) > BestPriority(sorted[0]) {
      InsertMultiset(x, sorted[1..]);
      assert sorted == [sorted[0]] + sorted[1..];
    }
  }

  /** Insertion sort, stable because an inserted record goes before the
      records with an equal key that followed it. */
  function SortByPriority(ms: seq<MatchRecord>): (r: seq<MatchRecord>)
    requires AllKeyed(ms)
    ensures AllKeyed(r)
    ensures SortedByPriority(r)
    ensures multiset(r) == multiset(ms)
    ensures forall i, j :: 0 <= i < j < |r| ==> IntendedComparator(r[i], r[j]) < 0
  {
    if |ms| == 0 then []
    else
      var rest := SortByPriority(ms[1..]);
      InsertStep(ms, rest);
      Insert(ms[0], rest)
  }

  /** One step of the sort: inserting the head into the sorted tail. */
  lemma InsertStep(ms: seq<MatchRecord>, rest: seq<MatchRecord>)
    requires |ms| > 0 && AllKeyed(ms) && AllKeyed(rest) && SortedByPriority(rest)
    requires multiset(rest) == multiset(ms[1..])
    ensures SortedByPriority(Insert(ms[0], rest))
    ensures multiset(Insert(ms[0], rest)) == multiset(ms)
    ensures forall i, j :: 0 <= i < j < |Insert(ms[0], rest)| ==>
      IntendedComparator(Insert(ms[0], rest)[i], Insert(ms[0], rest)[j]) < 0
  {
    InsertSorted(ms[0], rest);
    InsertMultiset(ms[0], rest);
    assert ms == [ms[0]] + ms[1..];
    SortedMeansComparatorAgrees(Insert(ms[0], rest));
  }

  /** In a sorted list the intended comparator never asks for a swap. */
  lemma SortedMeansComparatorAgrees(r: seq<MatchRecord>)
    requires AllKeyed(r) && SortedByPriority(r)
    ensures forall i, j :: 0 <= i < j < |r| ==> IntendedComparator(r[i], r[j]) < 0
  {
    forall i, j | 0 <= i < j < |r|
      ensures IntendedComparator(r[i], r[j]) < 0
    {
      assert BestPriority(r[i]) <= BestPriority(r[j]);
    }
  }

  lemma WithKeyCons(m: MatchRecord, ms: seq<MatchRecord>, p: int)
    requires HasKey(m)
    ensures WithKey([m] + ms, p) == KeyPart(m, p) + WithKey(ms, p)
  {
    assert ([m] + ms)[1..] == ms;
  }

  /** The records of key `p` the inserted record contributes. */
  function KeyPart(x: MatchRecord, p: int): seq<MatchRecord>
    requires HasKey(x)
  {
    if BestPriority(x) == p then [x] else []
  }

  lemma InsertWithKeyFront(x: MatchRecord, sorted: seq<MatchRecord>, p: int)
    requires HasKey(x) && AllKeyed(sorted)
    requires |sorted| == 0 || BestPriority(x) <= BestPriority(sorted[0])
    ensures WithKey(Insert(x, sorted), p) == KeyPart(x, p) + WithKey(sorted, p)
  {
    assert Insert(x, sorted) == [x] + sorted;
    WithKeyCons(x, sorted, p);
  }

  lemma InsertWithKeyLater(x: MatchRecord, sorted: seq<MatchRecord>, p: int)
    requires HasKey(x) && AllKeyed(sorted)
    requires |sorted| > 0 && BestPriority(x) > BestPriority(sorted[0])
    requires WithKey(Insert(x, sorted[1..]), p) == KeyPart(x, p) + WithKey(sorted[1..], p)
    ensures WithKey(Insert(x, sorted), p) == KeyPart(x, p) + WithKey(sorted, p)
  {
    var c0 := KeyPart(sorted[0], p);
    var xp := KeyPart(x, p);
    var w1 := WithKey(sorted[1..], p);
    assert c0 == [] || xp == [];
    InsertPastHeadWithKey(x, sorted, p);
    WithKeyHead(sorted, p);
    EmptyCommutes(c0, xp, w1);
  }

  /** Inserting past the head keeps the head's contribution in front. */
  lemma InsertPastHeadWithKey(x: MatchRecord, sorted: seq<MatchRecord>, p: int)
    requires HasKey(x) && AllKeyed(sorted)
    requires |sorted| > 0 && BestPriority(x) > BestPriority(sorted[0])
    ensures WithKey(Insert(x, sorted), p) == KeyPart(sorted[0], p) + WithKey(Insert(x, sorted[1..]), p)
  {
    assert Insert(x, sorted) == [sorted[0]] + Insert(x, sorted[1..]);
    WithKeyCons(sorted[0], Insert(x, sorted[1..]), p);
  }

  /** The records of key `p` are the head's contribution, then the tail's. */
  lemma WithKeyHead(sorted: seq<MatchRecord>, p: int)
    requires |sorted| > 0 && HasKey(sorted[0])
    ensures WithKey(sorted, p) == KeyPart(sorted[0], p) + WithKey(sorted[1..], p)
  {
    HeadThenTail(sorted);
    WithKeyCons(sorted[0], sorted[1..], p);
  }

  /** Two parts of which one is empty can be swapped. */
  lemma EmptyCommutes<T>(a: seq<T>, b: seq<T>, w: seq<T>)
    requires a == [] || b == []
    ensures a + (b + w) == b + (a + w)
  {
  }

  lemma {:induction false} InsertWithKey(x: MatchRecord, sorted: seq<MatchRecord>, p: int)
    requires HasKey(x) && AllKeyed(sorted)
    ensures WithKey(Insert(x, sorted), p) == KeyPart(x, p) + WithKey(sorted, p)
  {
    if |sorted| == 0 || BestPriority(x) <= BestPriority(sorted[0]) {
      InsertWithKeyFront(x, sorted, p);
    } else {
      InsertWithKey(x, sorted[1..], p);
      InsertWithKeyLater(x, sorted, p);
    }
  }

  /** Records with equal keys keep their relative order. */
  lemma {:induction false} SortByPriorityIsStable(ms: seq<MatchRecord>, p: int)
    requires AllKeyed(ms)
    ensures WithKey(SortByPriority(ms), p) == WithKey(ms, p)
  {
    if |ms| > 0 {
      var pred := (m: MatchRecord) => HasKey(m) && BestPriority(m) == p;
      SortByPriorityIsStable(ms[1..], p);
      InsertWithKey(ms[0], SortByPriority(ms[1..]), p);
      FilterAppend([ms[0]], ms[1..], pred);
      assert ms == [ms[0]] + ms[1..];
    }
  }

  lemma {:induction false} InsertKeepsDistinct(x: MatchRecord, sorted: seq<MatchRecord>)
    requires HasKey(x) && AllKeyed(sorted)
    requires Distinct(RecordIds(sorted)) && StudentId(x) !in RecordIds(sorted)
    ensures Distinct(RecordIds(Insert(x, sorted)))
  {
    if |sorted| == 0 {
    } else if BestPriority(x) <= BestPriority(sorted[0]) {
      ConsKeepsDistinct(x, sorted);
    } else {
      var t := sorted[1..];
      var rest := Insert(x, t);
      assert RecordIds(t) == RecordIds(sorted)[1..];
      InsertKeepsDistinct(x, t);
      assert StudentId(sorted[0]) !in RecordIds(rest) by {
        forall k | 0 <= k < |rest|
          ensures RecordIds(rest)[k] != StudentId(sorted[0])
        {
          if rest[k] != x {
            var j :| 0 <= j < |t| && t[j] == rest[k];
            assert RecordIds(sorted)[j + 1] == StudentId(rest[k]);
          }
        }
      }
      ConsKeepsDistinct(sorted[0], rest);
      assert Insert(x, sorted) == [sorted[0]] + rest;
    }
  }

  /** Sorting never makes a student appear twice in one list. */
  lemma {:induction false} SortKeepsDistinct(ms: seq<MatchRecord>)
    requires AllKeyed(ms) && Distinct(RecordIds(ms))
    ensures Distinct(RecordIds(SortByPriority(ms)))
  {
    if |ms| > 0 {
      var rest := SortByPriority(ms[1..]);
      TailKeepsDistinct(ms);
      SortKeepsDistinct(ms[1..]);
      PermutationIdsOut(ms[1..], rest, StudentId(ms[0]));
      InsertKeepsDistinct(ms[0], rest);
    }
  }

  // ---------------------------------------------------------------------
  // orderMatches
  // ---------------------------------------------------------------------

  /** `orderMatches` with the intended comparator: every supervisor's list
      sorted by priority; supervisors, their order and everything else
      about them unchanged. */
  function OrderMatches(matches: seq<SupervisorMatches>): (r: seq<SupervisorMatches>)
    requires forall i :: 0 <= i < |matches| ==> AllKeyed(matches[i].matchedStudentResponses)
    ensures |r| == |matches|
    ensures forall i :: 0 <= i < |matches| ==>
      && r[i].supervisorResponse == matches[i].supervisorResponse
      && r[i].capacity == matches[i].capacity
      && r[i].takenSpaces == matches[i].takenSpaces
      && AllKeyed(r[i].matchedStudentResponses)
      && SortedByPriority(r[i].matchedStudentResponses)
      && multiset(r[i].matchedStudentResponses) == multiset(matches[i].matchedStudentResponses)
  {
    seq(|matches|, i requires 0 <= i < |matches| =>
      matches[i].(matchedStudentResponses := SortByPriority(matches[i].matchedStudentResponses)))
  }
}
