/** The per-step computations of the student picker: the records it keeps, the
    range check, the sorted insert of one student, removal by id, the candidate
    filter of a pick, the count update, the history update and the statistics,
    together with what each of them guarantees. */
module Roster {
  import Decimal

  /** Most recent picks kept in the history. */
  const MaxHistory: nat := 20
  /** Largest roster the range form lets one generate. */
  const MaxSpan: int := 100

  datatype Option<T> = None | Some(value: T)

  /** The moment a pick was made; the model never looks inside it. */
  type Timestamp = int

  datatype Student = Student(id: string, number: int, presentedCount: nat)

  datatype HistoryEntry = HistoryEntry(studentNumber: int, timestamp: Timestamp)

  datatype Stats = Stats(min: nat, max: nat, total: nat)

  /** The id `student-${n}` given to the student numbered n. */
  function IdOf(n: int): string {
    "student-" + Decimal.FromInt(n)
  }

  lemma IdOfInjective(a: int, b: int)
    requires IdOf(a) == IdOf(b)
    ensures a == b
  {
    assert Decimal.FromInt(a) == IdOf(a)[8..];
    assert Decimal.FromInt(b) == IdOf(b)[8..];
    Decimal.FromIntInjective(a, b);
  }

  /** A student as the range generator and the single-add form create it. */
  function NewStudent(n: int): Student {
    Student(IdOf(n), n, 0)
  }

  // ---------------------------------------------------------------------
  // Shape of a roster

  predicate StrictlySorted(s: seq<Student>) {
    forall i, j :: 0 <= i < j < |s| ==> s[i].number < s[j].number
  }

  predicate Sorted(s: seq<Student>) {
    forall i, j :: 0 <= i < j < |s| ==> s[i].number <= s[j].number
  }

  predicate IdsMatchNumbers(s: seq<Student>) {
    forall k :: 0 <= k < |s| ==> s[k].id == IdOf(s[k].number)
  }

  predicate UniqueIds(s: seq<Student>) {
    forall i, j :: 0 <= i < |s| && 0 <= j < |s| && s[i].id == s[j].id ==> i == j
  }

  /** Ascending and unique by number, each id derived from its number. */
  predicate WellFormed(s: seq<Student>) {
    StrictlySorted(s) && IdsMatchNumbers(s)
  }

  lemma WellFormedUniqueIds(s: seq<Student>)
    requires WellFormed(s)
    ensures UniqueIds(s)
  {
    forall i, j | 0 <= i < |s| && 0 <= j < |s| && s[i].id == s[j].id
      ensures i == j
    {
      IdOfInjective(s[i].number, s[j].number);
    }
  }

  /** Every count is within one of every other count (max - min <= 1). */
  predicate Fair(s: seq<Student>) {
    forall i, j :: 0 <= i < |s| && 0 <= j < |s| ==> s[i].presentedCount <= s[j].presentedCount + 1
  }

  predicate AllZero(s: seq<Student>) {
    forall k :: 0 <= k < |s| ==> s[k].presentedCount == 0
  }

  // ---------------------------------------------------------------------
  // Range generation

  /** The range generator goes ahead exactly when this holds; otherwise it
      returns without touching any state. */
  predicate RangeAccepted(start: int, end: int) {
    !(start < 1 || end < start)
  }

  /** Whether the generate button is enabled. It adds the span limit, which the
      generator itself does not check. */
  function CanGenerateRange(start: int, end: int): (r: bool)
    ensures r <==> RangeAccepted(start, end) && end - start < MaxSpan
  {
    start >= 1 && end >= start && end - start + 1 <= MaxSpan
  }

  /** The span limit is enforced only by the button: 1..101 is accepted by the
      generator but the button is disabled for it. */
  lemma SpanLimitOnlyInButton()
    ensures RangeAccepted(1, 101) && !CanGenerateRange(1, 101)
  {
  }

  /** A roster built from consecutive numbers starting at start. */
  predicate IsFreshRange(r: seq<Student>, start: int) {
    forall k :: 0 <= k < |r| ==> r[k] == NewStudent(start + k)
  }

  lemma FreshRangeWellFormed(r: seq<Student>, start: int)
    requires IsFreshRange(r, start)
    ensures WellFormed(r) && AllZero(r)
  {
  }

  // ---------------------------------------------------------------------
  // Adding one student: `[...prev, newStudent].sort((a, b) => a.number - b.number)`

  predicate HasNumber(s: seq<Student>, n: int) {
    exists k :: 0 <= k < |s| && s[k].number == n
  }

  /** Insert x after every element whose number is at most x's number. */
  function InsertByNumber(s: seq<Student>, x: Student): (r: seq<Student>)
    ensures |r| == |s| + 1
  {
    if s == [] then [x]
    else if x.number < s[0].number then [x] + s
    else [s[0]] + InsertByNumber(s[1..], x)
  }

  /** The stable sort by number that `Array.prototype.sort` performs, as an
      insertion sort that inserts each element after its equals. */
  function SortByNumber(s: seq<Student>): (r: seq<Student>)
    ensures |r| == |s|
  {
    if s == [] then [] else InsertByNumber(SortByNumber(s[..|s| - 1]), s[|s| - 1])
  }

  /** Inserting adds x and nothing else. */
  lemma {:induction false} InsertMultiset(s: seq<Student>, x: Student)
    ensures multiset(InsertByNumber(s, x)) == multiset(s) + multiset{x}
  {
    if s != [] && x.number >= s[0].number {
      InsertMultiset(s[1..], x);
      assert s == [s[0]] + s[1..];
    }
  }

  lemma InsertMember(s: seq<Student>, x: Student, k: nat)
    requires k < |InsertByNumber(s, x)|
    ensures InsertByNumber(s, x)[k] in s || InsertByNumber(s, x)[k] == x
  {
    var t := InsertByNumber(s, x);
    InsertMultiset(s, x);
    assert t[k] in multiset(t);
  }

  lemma {:induction false} InsertSorted(s: seq<Student>, x: Student)
    requires Sorted(s)
    ensures Sorted(InsertByNumber(s, x))
  {
    if s != [] && x.number >= s[0].number {
      InsertSorted(s[1..], x);
      var t := InsertByNumber(s[1..], x);
      forall k | 0 <= k < |t| ensures s[0].number <= t[k].number {
        InsertMember(s[1..], x, k);
      }
    }
  }

  lemma {:induction false} InsertStrictlySorted(s: seq<Student>, x: Student)
    requires StrictlySorted(s) && !HasNumber(s, x.number)
    ensures StrictlySorted(InsertByNumber(s, x))
  {
    if s != [] && x.number >= s[0].number {
      assert x.number != s[0].number;
      assert !HasNumber(s[1..], x.number) by {
        forall k | 0 <= k < |s[1..]| ensures s[1..][k].number != x.number {
          assert s[1..][k] == s[k + 1];
        }
      }
      InsertStrictlySorted(s[1..], x);
      var t := InsertByNumber(s[1..], x);
      forall k | 0 <= k < |t| ensures s[0].number < t[k].number {
        InsertMember(s[1..], x, k);
      }
    }
  }

  /** One step of the sort: the last element is inserted into the sorted rest. */
  lemma SortStep(s: seq<Student>)
    requires s != []
    ensures SortByNumber(s) == InsertByNumber(SortByNumber(s[..|s| - 1]), s[|s| - 1])
  {
  }

  lemma {:induction false} SortByNumberSorted(s: seq<Student>)
    ensures Sorted(SortByNumber(s))
  {
    if s != [] {
      SortStep(s);
      SortByNumberSorted(s[..|s| - 1]);
      InsertSorted(SortByNumber(s[..|s| - 1]), s[|s| - 1]);
    }
  }

  lemma {:induction false} SortByNumberMultiset(s: seq<Student>)
    ensures multiset(SortByNumber(s)) == multiset(s)
  {
    if s != [] {
      var init, last := s[..|s| - 1], s[|s| - 1];
      SortStep(s);
      SortByNumberMultiset(init);
      InsertMultiset(SortByNumber(init), last);
      MultisetSnoc(s);
    }
  }

  lemma MultisetSnoc(s: seq<Student>)
    requires s != []
    ensures multiset(s) == multiset(s[..|s| - 1]) + multiset{s[|s| - 1]}
  {
    assert s == s[..|s| - 1] + [s[|s| - 1]];
  }

  lemma SortedSplit(s: seq<Student>)
    requires Sorted(s) && s != []
    ensures Sorted(s[..|s| - 1])
    ensures forall k :: 0 <= k < |s| - 1 ==> s[k].number <= s[|s| - 1].number
  {
  }

  /** Sorting an already sorted roster changes nothing. */
  lemma {:induction false} SortByNumberOfSorted(s: seq<Student>)
    requires Sorted(s)
    ensures SortByNumber(s) == s
  {
    if s != [] {
      var init, last := s[..|s| - 1], s[|s| - 1];
      SortStep(s);
      SortedSplit(s);
      SortByNumberOfSorted(init);
      InsertAtEnd(init, last);
      assert s == init + [last];
    }
  }

  lemma {:induction false} InsertAtEnd(s: seq<Student>, x: Student)
    requires forall k :: 0 <= k < |s| ==> s[k].number <= x.number
    ensures InsertByNumber(s, x) == s + [x]
  {
    if s != [] {
      InsertAtEnd(s[1..], x);
      assert s == [s[0]] + s[1..];
    }
  }

  /** addSingleStudent: nothing happens if the number is already present;
      otherwise the new student joins the roster, which is then sorted. */
  function AddStudent(s: seq<Student>, n: int): (r: seq<Student>)
  {
    if HasNumber(s, n) then s else SortByNumber(s + [NewStudent(n)])
  }

  /** What addSingleStudent promises: a no-op on a duplicate number, otherwise
      exactly the new student is added, at its sorted place, and a well-formed
      roster stays well-formed. */
  lemma AddStudentSpec(s: seq<Student>, n: int)
    ensures HasNumber(s, n) ==> AddStudent(s, n) == s
    ensures !HasNumber(s, n) ==>
      |AddStudent(s, n)| == |s| + 1 &&
      multiset(AddStudent(s, n)) == multiset(s) + multiset{NewStudent(n)}
    ensures HasNumber(AddStudent(s, n), n)
    ensures Sorted(s) ==> AddStudent(s, n) == if HasNumber(s, n) then s else InsertByNumber(s, NewStudent(n))
    ensures WellFormed(s) ==> WellFormed(AddStudent(s, n))
  {
    var x := NewStudent(n);
    if !HasNumber(s, n) {
      var t := s + [x];
      assert t[..|t| - 1] == s;
      SortByNumberMultiset(t);
      var r := AddStudent(s, n);
      assert multiset(r) == multiset(s) + multiset{x};
      assert x in multiset(r);
      if Sorted(s) {
        SortByNumberOfSorted(s);
      }
      if WellFormed(s) {
        SortByNumberOfSorted(s);
        SortStep(t);
        InsertStrictlySorted(s, x);
        forall k | 0 <= k < |r| ensures r[k].id == IdOf(r[k].number) {
          InsertMember(s, x, k);
        }
      }
    }
  }

  /** Adding a student can break fairness: the newcomer starts at 0. */
  lemma AddStudentMayBreakFairness()
    ensures Fair([Student(IdOf(1), 1, 2)])
    ensures !Fair(AddStudent([Student(IdOf(1), 1, 2)], 2))
  {
    var s := [Student(IdOf(1), 1, 2)];
    assert !HasNumber(s, 2);
    var t := s + [NewStudent(2)];
    assert Sorted(t);
    SortByNumberOfSorted(t);
    assert AddStudent(s, 2) == t;
    assert t[0].presentedCount > t[1].presentedCount + 1;
  }

  // ---------------------------------------------------------------------
  // Removing by id: `students.filter(s => s.id !== id)`

  function RemoveById(s: seq<Student>, id: string): (r: seq<Student>)
    ensures |r| <= |s|
  {
    if s == [] then [] else (if s[0].id != id then [s[0]] else []) + RemoveById(s[1..], id)
  }

  /** Removal drops exactly the students with that id. */
  lemma {:induction false} RemoveByIdMembers(s: seq<Student>, id: string)
    ensures forall x :: x in RemoveById(s, id) ==> x in s && x.id != id
    ensures forall x :: x in s && x.id != id ==> x in RemoveById(s, id)
  {
    if s != [] {
      RemoveByIdMembers(s[1..], id);
      assert forall x :: x in s ==> x == s[0] || x in s[1..];
    }
  }

  lemma {:induction false} RemoveAbsent(s: seq<Student>, id: string)
    requires forall k :: 0 <= k < |s| ==> s[k].id != id
    ensures RemoveById(s, id) == s
  {
    if s != [] {
      RemoveAbsent(s[1..], id);
      assert s == [s[0]] + s[1..];
    }
  }

  lemma UniqueIdsTail(s: seq<Student>)
    requires UniqueIds(s) && s != []
    ensures UniqueIds(s[1..])
  {
    forall i, j | 0 <= i < |s| - 1 && 0 <= j < |s| - 1 && s[1..][i].id == s[1..][j].id
      ensures i == j
    {
      assert s[i + 1].id == s[j + 1].id;
    }
  }

  /** With unique ids, removal drops exactly the one student with that id and
      keeps the order of the rest. */
  lemma {:induction false} RemoveUnique(s: seq<Student>, id: string, k: nat)
    requires UniqueIds(s) && k < |s| && s[k].id == id
    ensures RemoveById(s, id) == s[..k] + s[k + 1..]
  {
    UniqueIdsTail(s);
    var tail := s[1..];
    if k == 0 {
      assert forall j :: 0 <= j < |tail| ==> tail[j] == s[j + 1];
      RemoveAbsent(tail, id);
    } else {
      assert s[0].id != id;
      assert RemoveById(s, id) == [s[0]] + RemoveById(tail, id);
      RemoveUnique(tail, id, k - 1);
      assert s[..k] == [s[0]] + tail[..k - 1];
      assert s[k + 1..] == tail[k..];
    }
  }

  lemma {:induction false} RemoveStrictlySorted(s: seq<Student>, id: string)
    requires StrictlySorted(s)
    ensures StrictlySorted(RemoveById(s, id))
  {
    if s != [] {
      RemoveStrictlySorted(s[1..], id);
      var t := RemoveById(s[1..], id);
      RemoveByIdMembers(s[1..], id);
      forall k | 0 <= k < |t| ensures s[0].number < t[k].number {
        assert t[k] in t;
      }
    }
  }

  /** Removal keeps a well-formed roster well-formed and a fair one fair. */
  lemma RemovePreserves(s: seq<Student>, id: string)
    ensures WellFormed(s) ==> WellFormed(RemoveById(s, id))
    ensures Fair(s) ==> Fair(RemoveById(s, id))
  {
    var r := RemoveById(s, id);
    RemoveByIdMembers(s, id);
    if StrictlySorted(s) {
      RemoveStrictlySorted(s, id);
    }
    forall k | 0 <= k < |r| ensures r[k] in s {
      assert r[k] in r;
    }
  }

  // ---------------------------------------------------------------------
  // Picking: minimum, candidates and the count update

  /** `Math.min(...students.map(s => s.presentedCount))` */
  function MinCount(s: seq<Student>): (m: nat)
    requires s != []
    ensures forall k :: 0 <= k < |s| ==> m <= s[k].presentedCount
    ensures exists k :: 0 <= k < |s| && s[k].presentedCount == m
  {
    if |s| == 1 then s[0].presentedCount
    else
      var rest := MinCount(s[1..]);
      assert forall k :: 1 <= k < |s| ==> s[k] == s[1..][k - 1];
      if s[0].presentedCount <= rest then s[0].presentedCount else rest
  }

  /** `Math.max(...counts)` */
  function MaxCount(s: seq<Student>): (m: nat)
    requires s != []
    ensures forall k :: 0 <= k < |s| ==> s[k].presentedCount <= m
    ensures exists k :: 0 <= k < |s| && s[k].presentedCount == m
  {
    if |s| == 1 then s[0].presentedCount
    else
      var rest := MaxCount(s[1..]);
      assert forall k :: 1 <= k < |s| ==> s[k] == s[1..][k - 1];
      if s[0].presentedCount >= rest then s[0].presentedCount else rest
  }

  /** `students.filter(s => s.presentedCount === m)` */
  function WithCount(s: seq<Student>, m: nat): (r: seq<Student>)
    ensures forall x :: x in r <==> x in s && x.presentedCount == m
  {
    if s == [] then []
    else
      assert forall x :: x in s ==> x == s[0] || x in s[1..];
      (if s[0].presentedCount == m then [s[0]] else []) + WithCount(s[1..], m)
  }

  /** The filter keeps each student at count m as often as the roster holds
      it, and drops every other student. */
  lemma {:induction false} WithCountMultiset(s: seq<Student>, m: nat)
    ensures forall x :: multiset(WithCount(s, m))[x] == if x.presentedCount == m then multiset(s)[x] else 0
  {
    if s != [] {
      WithCountMultiset(s[1..], m);
      assert s == [s[0]] + s[1..];
    }
  }

  /** Filtering a roster with unique ids gives a list with unique ids. */
  lemma {:induction false} WithCountUnique(s: seq<Student>, m: nat)
    requires UniqueIds(s)
    ensures UniqueIds(WithCount(s, m))
  {
    if s != [] {
      UniqueIdsTail(s);
      WithCountUnique(s[1..], m);
      var t := WithCount(s[1..], m);
      if s[0].presentedCount == m {
        forall k | 0 <= k < |t| ensures t[k].id != s[0].id {
          assert t[k] in s[1..];
          var j :| 0 <= j < |s[1..]| && s[1..][j] == t[k];
          assert s[j + 1] == t[k];
        }
        var r := [s[0]] + t;
        assert WithCount(s, m) == r;
        assert forall i :: 0 < i < |r| ==> r[i] == t[i - 1];
        assert UniqueIds(r);
      }
    }
  }

  /** The students a pick chooses among. */
  function Candidates(s: seq<Student>): (c: seq<Student>)
  {
    if s == [] then [] else WithCount(s, MinCount(s))
  }

  /** The candidates are exactly the students at the roster minimum, and
      there is one whenever the roster is not empty. */
  lemma CandidatesSpec(s: seq<Student>)
    ensures s == [] <==> Candidates(s) == []
    ensures forall x :: x in Candidates(s) <==>
      x in s && forall k :: 0 <= k < |s| ==> x.presentedCount <= s[k].presentedCount
  {
    if s != [] {
      var k :| 0 <= k < |s| && s[k].presentedCount == MinCount(s);
      assert s[k] in Candidates(s);
    }
  }

  /** Each student at the roster minimum is a candidate as often as the roster
      holds it, so once when ids are unique: a uniform index into the
      candidates picks each of them with the same chance. */
  lemma CandidatesOnce(s: seq<Student>)
    ensures s != [] ==>
      forall x :: multiset(Candidates(s))[x] == if x.presentedCount == MinCount(s) then multiset(s)[x] else 0
    ensures UniqueIds(s) ==> UniqueIds(Candidates(s))
  {
    if s != [] {
      WithCountMultiset(s, MinCount(s));
      if UniqueIds(s) {
        WithCountUnique(s, MinCount(s));
      }
    }
  }

  /** Bump the count of every student with this id by one. */
  function IncrementById(s: seq<Student>, id: string): (r: seq<Student>)
    ensures |r| == |s|
    ensures forall k :: 0 <= k < |s| ==>
      r[k].id == s[k].id && r[k].number == s[k].number &&
      r[k].presentedCount == s[k].presentedCount + (if s[k].id == id then 1 else 0)
  {
    if s == [] then []
    else
      var head := if s[0].id == id then s[0].(presentedCount := s[0].presentedCount + 1) else s[0];
      [head] + IncrementById(s[1..], id)
  }

  function Sum(s: seq<Student>): nat {
    if s == [] then 0 else s[0].presentedCount + Sum(s[1..])
  }

  function CountId(s: seq<Student>, id: string): nat {
    if s == [] then 0 else (if s[0].id == id then 1 else 0) + CountId(s[1..], id)
  }

  lemma {:induction false} SumIncrement(s: seq<Student>, id: string)
    ensures Sum(IncrementById(s, id)) == Sum(s) + CountId(s, id)
  {
    if s != [] {
      SumIncrement(s[1..], id);
      assert IncrementById(s, id)[1..] == IncrementById(s[1..], id);
    }
  }

  lemma {:induction false} CountIdAbsent(s: seq<Student>, id: string)
    requires forall k :: 0 <= k < |s| ==> s[k].id != id
    ensures CountId(s, id) == 0
  {
    if s != [] {
      CountIdAbsent(s[1..], id);
    }
  }

  lemma {:induction false} CountIdUnique(s: seq<Student>, id: string, k: nat)
    requires UniqueIds(s) && k < |s| && s[k].id == id
    ensures CountId(s, id) == 1
  {
    UniqueIdsTail(s);
    if k == 0 {
      CountIdAbsent(s[1..], id);
    } else {
      CountIdUnique(s[1..], id, k - 1);
    }
  }

  /** One pick, with the random index idx into the candidates: the chosen
      student is a roster member at the minimum count; afterwards its count
      is one higher, every other student is untouched and the total rises by
      one; a fair roster stays fair. */
  lemma PickSpec(s: seq<Student>, idx: nat)
    requires UniqueIds(s) && idx < |Candidates(s)|
    ensures Candidates(s)[idx] in s
    ensures forall k :: 0 <= k < |s| ==> Candidates(s)[idx].presentedCount <= s[k].presentedCount
    ensures forall j :: 0 <= j < |s| ==>
      IncrementById(s, Candidates(s)[idx].id)[j] ==
        if s[j] == Candidates(s)[idx] then s[j].(presentedCount := s[j].presentedCount + 1) else s[j]
    ensures Sum(IncrementById(s, Candidates(s)[idx].id)) == Sum(s) + 1
    ensures Fair(s) ==> Fair(IncrementById(s, Candidates(s)[idx].id))
  {
    var c := Candidates(s)[idx];
    var k := ChosenIndex(s, idx);
    IncrementOnlyChosen(s, k);
    CountIdUnique(s, c.id, k);
    SumIncrement(s, c.id);
    if Fair(s) {
      StartPending(s);
      FinishFair(s, Candidates(s), idx);
    }
  }

  /** Where the chosen candidate sits in the roster. */
  lemma ChosenIndex(s: seq<Student>, idx: nat) returns (k: nat)
    requires idx < |Candidates(s)|
    ensures k < |s| && s[k] == Candidates(s)[idx]
    ensures forall j :: 0 <= j < |s| ==> Candidates(s)[idx].presentedCount <= s[j].presentedCount
  {
    CandidatesSpec(s);
    var c := Candidates(s)[idx];
    assert c in Candidates(s);
    k :| 0 <= k < |s| && s[k] == c;
  }

  /** With unique ids, bumping the id of the student at k changes that
      student alone. */
  lemma IncrementOnlyChosen(s: seq<Student>, k: nat)
    requires UniqueIds(s) && k < |s|
    ensures forall j :: 0 <= j < |s| ==>
      IncrementById(s, s[k].id)[j] ==
        if s[j] == s[k] then s[j].(presentedCount := s[j].presentedCount + 1) else s[j]
  {
    var r := IncrementById(s, s[k].id);
    forall j | 0 <= j < |s|
      ensures r[j] == if s[j] == s[k] then s[j].(presentedCount := s[j].presentedCount + 1) else s[j]
    {
      if s[j].id == s[k].id {
        assert j == k;
      }
    }
  }

  /** Every pending candidate that is still on the roster sits at the
      roster minimum. */
  predicate PendingAtMin(pending: seq<Student>, s: seq<Student>) {
    forall p, k :: p in pending && 0 <= k < |s| && s[k].id == p.id ==>
      forall j :: 0 <= j < |s| ==> s[k].presentedCount <= s[j].presentedCount
  }

  /** The candidates taken when a pick starts are at the minimum. */
  lemma StartPending(s: seq<Student>)
    requires UniqueIds(s)
    ensures PendingAtMin(Candidates(s), s)
  {
    CandidatesSpec(s);
    forall p, k | p in Candidates(s) && 0 <= k < |s| && s[k].id == p.id
      ensures forall j :: 0 <= j < |s| ==> s[k].presentedCount <= s[j].presentedCount
    {
      var i :| 0 <= i < |s| && s[i] == p;
      assert i == k;
    }
  }

  /** Finishing a pick whose candidate is still at the minimum keeps a fair
      roster fair. */
  lemma FinishFair(s: seq<Student>, pending: seq<Student>, idx: nat)
    requires Fair(s) && PendingAtMin(pending, s) && idx < |pending|
    ensures Fair(IncrementById(s, pending[idx].id))
  {
    var id := pending[idx].id;
    var r := IncrementById(s, id);
    forall i, j | 0 <= i < |r| && 0 <= j < |r|
      ensures r[i].presentedCount <= r[j].presentedCount + 1
    {
      if s[i].id == id {
        assert pending[idx] in pending;
        assert s[i].presentedCount <= s[j].presentedCount;
      }
    }
  }

  /** Removing students while a pick is pending keeps its candidates at the
      (possibly higher) minimum. */
  lemma RemovePending(pending: seq<Student>, s: seq<Student>, id: string)
    requires PendingAtMin(pending, s)
    ensures PendingAtMin(pending, RemoveById(s, id))
  {
    var r := RemoveById(s, id);
    RemoveByIdMembers(s, id);
    forall p, k | p in pending && 0 <= k < |r| && r[k].id == p.id
      ensures forall j :: 0 <= j < |r| ==> r[k].presentedCount <= r[j].presentedCount
    {
      assert r[k] in r;
      var i :| 0 <= i < |s| && s[i] == r[k];
      forall j | 0 <= j < |r| ensures r[k].presentedCount <= r[j].presentedCount {
        assert r[j] in r;
        var i' :| 0 <= i' < |s| && s[i'] == r[j];
      }
    }
  }

  /** A roster with every count at 0 is fair, and any pending candidate on it
      is at the minimum. */
  lemma AllZeroFair(s: seq<Student>, pending: seq<Student>)
    requires AllZero(s)
    ensures Fair(s) && PendingAtMin(pending, s)
  {
  }

  // ---------------------------------------------------------------------
  // History: `[{studentNumber, timestamp}, ...prev].slice(0, 20)`

  function PushHistory(h: seq<HistoryEntry>, e: HistoryEntry): (r: seq<HistoryEntry>)
    ensures |r| == if |h| < MaxHistory then |h| + 1 else MaxHistory
    ensures r[0] == e
    ensures r[1..] == h[..|r| - 1]
  {
    var full := [e] + h;
    if |full| <= MaxHistory then full else full[..MaxHistory]
  }

  // ---------------------------------------------------------------------
  // Resetting counts: `prev.map(s => ({ ...s, presentedCount: 0 }))`

  function ResetCounts(s: seq<Student>): (r: seq<Student>)
    ensures |r| == |s|
    ensures forall k :: 0 <= k < |s| ==>
      r[k].id == s[k].id && r[k].number == s[k].number && r[k].presentedCount == 0
  {
    if s == [] then [] else [s[0].(presentedCount := 0)] + ResetCounts(s[1..])
  }

  /** After a reset the roster keeps its shape, is fair, and its statistics
      are all zero. */
  lemma ResetCountsSpec(s: seq<Student>, pending: seq<Student>)
    ensures WellFormed(s) ==> WellFormed(ResetCounts(s))
    ensures Fair(ResetCounts(s)) && PendingAtMin(pending, ResetCounts(s))
    ensures s != [] ==> Statistics(ResetCounts(s)) == Some(Stats(0, 0, 0))
  {
    SumAllZero(ResetCounts(s));
  }

  lemma {:induction false} SumAllZero(s: seq<Student>)
    requires AllZero(s)
    ensures Sum(s) == 0
  {
    if s != [] {
      SumAllZero(s[1..]);
    }
  }

  // ---------------------------------------------------------------------
  // Statistics (the average is not modelled)

  /** `getStatistics`: nothing for an empty roster; otherwise the minimum and
      maximum count, both attained, and the total of all counts. */
  function Statistics(s: seq<Student>): (r: Option<Stats>)
    ensures r.None? <==> s == []
    ensures r.Some? ==>
      (forall k :: 0 <= k < |s| ==> r.value.min <= s[k].presentedCount <= r.value.max) &&
      (exists k :: 0 <= k < |s| && s[k].presentedCount == r.value.min) &&
      (exists k :: 0 <= k < |s| && s[k].presentedCount == r.value.max) &&
      r.value.total == Sum(s)
  {
    if s == [] then None else Some(Stats(MinCount(s), MaxCount(s), Sum(s)))
  }

  /** Fairness is the statistics' spread being at most one. */
  lemma FairIffSpread(s: seq<Student>)
    requires s != []
    ensures Fair(s) <==> Statistics(s).value.max - Statistics(s).value.min <= 1
  {
    var st := Statistics(s).value;
    var lo :| 0 <= lo < |s| && s[lo].presentedCount == st.min;
    var hi :| 0 <= hi < |s| && s[hi].presentedCount == st.max;
    if Fair(s) {
      assert s[hi].presentedCount <= s[lo].presentedCount + 1;
    }
  }
}
