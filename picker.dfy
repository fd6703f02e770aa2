/** The state of the student picker component and its handlers. Each handler
    overwrites the fields it sets, as the component's state setters do; the
    per-step computations come from module Roster. */
module Picker {
  import opened Roster

  /** The loop that builds a fresh roster for the numbers start..end. */
  method BuildRoster(start: int, end: int) returns (newStudents: seq<Student>)
    ensures |newStudents| == if start <= end then end - start + 1 else 0
    ensures IsFreshRange(newStudents, start)
  {
    newStudents := [];
    var i := start;
    while i <= end
      invariant start <= i <= if start <= end then end + 1 else start
      invariant |newStudents| == i - start
      invariant IsFreshRange(newStudents, start)
    {
      newStudents := newStudents + [NewStudent(i)];
      i := i + 1;
    }
  }

  class StudentPicker {
    var students: seq<Student>
    var selectedStudent: Option<Student>
    var history: seq<HistoryEntry>
    var isSpinning: bool
    /** The candidates a started pick has captured; its timer chooses among
        them when it fires. */
    var pendingCandidates: seq<Student>

    /** The roster is ascending and unique by number with ids derived from the
        numbers, the history is capped, and a pending pick has a candidate. */
    ghost predicate Valid()
      reads this
    {
      WellFormed(students) &&
      |history| <= MaxHistory &&
      (isSpinning ==> pendingCandidates != [])
    }

    /** The fairness invariant: counts differ by at most one, and a pending
        pick will bump a student that is at the minimum. */
    ghost predicate FairState()
      reads this
    {
      Fair(students) && (isSpinning ==> PendingAtMin(pendingCandidates, students))
    }

    constructor ()
      ensures Valid() && FairState()
      ensures students == [] && selectedStudent == None && history == []
      ensures !isSpinning
    {
      students := [];
      selectedStudent := None;
      history := [];
      isSpinning := false;
      pendingCandidates := [];
    }

    /** generateStudentRange, with start and end already parsed. */
    method GenerateStudentRange(start: int, end: int)
      requires Valid()
      modifies this
      ensures Valid()
      ensures !RangeAccepted(start, end) ==> unchanged(this)
      ensures RangeAccepted(start, end) ==>
        |students| == end - start + 1 && IsFreshRange(students, start) &&
        selectedStudent == None && history == []
      ensures CanGenerateRange(start, end) ==> |students| <= MaxSpan
      ensures isSpinning == old(isSpinning) && pendingCandidates == old(pendingCandidates)
      ensures RangeAccepted(start, end) ==> FairState()
      ensures old(FairState()) ==> FairState()
    {
      if start < 1 || end < start {
        return;
      }
      var newStudents := BuildRoster(start, end);
      FreshRangeWellFormed(newStudents, start);
      AllZeroFair(newStudents, pendingCandidates);
      students := newStudents;
      selectedStudent := None;
      history := [];
    }

    /** addSingleStudent: a duplicate number is ignored; otherwise the new
        student is added and the roster re-sorted by number. */
    method AddSingleStudent(n: int)
      requires Valid()
      modifies this
      ensures Valid()
      ensures students == AddStudent(old(students), n)
      ensures HasNumber(old(students), n) ==> students == old(students)
      ensures !HasNumber(old(students), n) ==> students == InsertByNumber(old(students), NewStudent(n))
      ensures selectedStudent == old(selectedStudent) && history == old(history)
      ensures isSpinning == old(isSpinning) && pendingCandidates == old(pendingCandidates)
    {
      AddStudentSpec(students, n);
      if HasNumber(students, n) {
        return;
      }
      students := AddStudent(students, n);
    }

    /** removeStudent: the students with this id leave the roster, and the
        selection is cleared if it was that student. */
    method RemoveStudent(id: string)
      requires Valid()
      modifies this
      ensures Valid()
      ensures students == RemoveById(old(students), id)
      ensures old(selectedStudent).Some? && old(selectedStudent).value.id == id ==> selectedStudent == None
      ensures !(old(selectedStudent).Some? && old(selectedStudent).value.id == id) ==>
        selectedStudent == old(selectedStudent)
      ensures history == old(history)
      ensures isSpinning == old(isSpinning) && pendingCandidates == old(pendingCandidates)
      ensures old(FairState()) ==> FairState()
    {
      RemovePreserves(students, id);
      if isSpinning && PendingAtMin(pendingCandidates, students) {
        RemovePending(pendingCandidates, students, id);
      }
      students := RemoveById(students, id);
      if selectedStudent.Some? && selectedStudent.value.id == id {
        selectedStudent := None;
      }
    }

    /** The synchronous part of selectRandomStudent: nothing on an empty
        roster; otherwise spinning starts and the students at the minimum
        count are captured as candidates for the timer. The button that
        triggers it is disabled while spinning. */
    method SelectRandomStudent()
      requires Valid() && !isSpinning
      modifies this
      ensures Valid()
      ensures old(students) == [] ==> unchanged(this)
      ensures old(students) != [] ==> isSpinning && pendingCandidates == Candidates(students)
      ensures students == old(students) && selectedStudent == old(selectedStudent) && history == old(history)
      ensures old(FairState()) ==> FairState()
    {
      if |students| == 0 {
        return;
      }
      CandidatesSpec(students);
      WellFormedUniqueIds(students);
      StartPending(students);
      isSpinning := true;
      pendingCandidates := Candidates(students);
    }

    /** The timer callback of selectRandomStudent, with the random index into
        the captured candidates and the current time as inputs: the chosen
        candidate becomes the selection (as captured, before its count is
        bumped), the roster student with its id gets one more presentation,
        the pick is prepended to the capped history and spinning stops. */
    method FinishSelection(idx: nat, now: Timestamp)
      requires Valid() && isSpinning && idx < |pendingCandidates|
      modifies this
      ensures Valid()
      ensures selectedStudent == Some(old(pendingCandidates)[idx])
      ensures students == IncrementById(old(students), old(pendingCandidates)[idx].id)
      ensures history == PushHistory(old(history), HistoryEntry(old(pendingCandidates)[idx].number, now))
      ensures !isSpinning && pendingCandidates == []
      ensures old(FairState()) ==>
        forall k :: 0 <= k < |old(students)| && old(students)[k].id == old(pendingCandidates)[idx].id ==>
          forall j :: 0 <= j < |old(students)| ==> old(students)[k].presentedCount <= old(students)[j].presentedCount
      ensures old(FairState()) ==> FairState()
    {
      var selected := pendingCandidates[idx];
      assert selected in pendingCandidates;
      if FairState() {
        FinishFair(students, pendingCandidates, idx);
      }
      selectedStudent := Some(selected);
      students := IncrementById(students, selected.id);
      history := PushHistory(history, HistoryEntry(selected.number, now));
      isSpinning := false;
      pendingCandidates := [];
    }

    /** resetAllData: roster, selection and history are emptied. */
    method ResetAllData()
      requires Valid()
      modifies this
      ensures Valid() && FairState()
      ensures students == [] && selectedStudent == None && history == []
      ensures isSpinning == old(isSpinning) && pendingCandidates == old(pendingCandidates)
    {
      students := [];
      selectedStudent := None;
      history := [];
    }

    /** resetPresentationCounts: every count goes back to 0 and the history
        is emptied; the roster's ids, numbers and order and the selection
        stay as they were. */
    method ResetPresentationCounts()
      requires Valid()
      modifies this
      ensures Valid() && FairState()
      ensures students == ResetCounts(old(students)) && history == []
      ensures selectedStudent == old(selectedStudent)
      ensures isSpinning == old(isSpinning) && pendingCandidates == old(pendingCandidates)
    {
      ResetCountsSpec(students, pendingCandidates);
      students := ResetCounts(students);
      history := [];
    }
  }
}
