# Fair student picker: a Dafny model

This project models the fair picker in the `StudentPicker` component of a classroom
"roulette" web page, then proves properties of that model. The component keeps a roster of students. Each student has an id `student-<number>`, a
number and a count of how often they have presented. The component also keeps the
current selection, a history of picks capped at 20 entries (newest first) and a
spinning flag. A pick looks for the lowest count on the roster and keeps only the
students at that count. It chooses one of them at random, bumps that student's
count by one and prepends the pick to the history.

The model has three modules:

- `Decimal` renders an integer the way a JavaScript template literal renders an
  integer-valued number. It proves that this rendering is injective, so the ids
  `student-${n}` of different numbers differ.
- `Roster` holds the per-step computations as functions, with their lemmas:
  - the range check;
  - the sorted insert of one student;
  - removal by id;
  - the minimum and the candidate filter of a pick;
  - the count update;
  - the history update;
  - the counter reset;
  - the statistics.
- `Picker` holds the class `StudentPicker`. Its fields are the component's state
  (`students`, `selectedStudent`, `history`, `isSpinning`), plus the candidates
  that a started pick has captured for its timer. It has one method per handler.
  `BuildRoster` is the loop that builds a fresh roster.

The pick runs in two steps, as in the source:

- `SelectRandomStudent` is the synchronous part. It sets the spinning flag and
  captures the candidates.
- `FinishSelection(idx, now)` is the timer callback. It receives the random index
  into the captured candidates and the current time as parameters.

Other handlers may run between the two steps, as the page allows. The fairness
invariant `FairState` covers that case. It says that counts differ by at most one
and that a pending pick's candidates still on the roster sit at the minimum. This
invariant is:

- established by the constructor, by range generation (every count is 0), by
  `ResetPresentationCounts` and by `ResetAllData`;
- preserved by `RemoveStudent`, `SelectRandomStudent` and `FinishSelection`.

So it holds in every state reachable through these handlers.
`AddSingleStudent` can break it: a newcomer starts at 0 while the others may be
higher (`Roster.AddStudentMayBreakFairness`). That handler has no caller in the
page's markup.

Facts about the code that the model keeps:

- the component keeps no streak counter;
- the history is newest first and sliced to 20 entries;
- a pick chooses uniformly among the students at the minimum count, and only among them (`Roster.CandidatesOnce`);
- adding a duplicate number is silently ignored;
- the 100-entry span limit is checked only by `canGenerateRange`, which enables
  the button, not by `generateStudentRange` (`Roster.SpanLimitOnlyInButton`);
- the selection is the candidate record as it was captured, so its count is the
  count before the bump;
- `resetPresentationCounts` leaves the selection as it was;
- range generation and `resetAllData` leave a pending pick's timer and the
  spinning flag alone.

## Model

| member | source | states |
|---|---|---|
| `Decimal.FromIntInjective` | app/page.tsx:100 | two integers with the same decimal rendering are equal |
| `Decimal.FromInt` | app/page.tsx:100 | the rendering of `${n}` for an integer n; no own ensures; `Decimal.FromIntInjective` states it |
| `Roster.IdOf` | app/page.tsx:118 | the id `student-${n}`; no own ensures; `Roster.IdOfInjective` states it |
| `Roster.NewStudent` | app/page.tsx:117-121 | the record `{id: student-n, number: n, presentedCount: 0}`, also built at app/page.tsx:99-103; no own ensures; `Picker.BuildRoster` and `Roster.AddStudentSpec` state what uses it |
| `Roster.IdOfInjective` | app/page.tsx:118 | the ids `student-${n}` of different numbers are different |
| `Roster.WellFormedUniqueIds` | app/page.tsx:97-104 | a roster that is ascending by number, with ids derived from the numbers, has no two students with the same id |
| `Roster.RangeAccepted` | app/page.tsx:93 | the generator's own guard, `start >= 1 && end >= start`; no own ensures; `Picker.StudentPicker.GenerateStudentRange` states what happens on either side of it |
| `Roster.CanGenerateRange` | app/page.tsx:184-188 | the button is enabled exactly when the generator's guard passes and the span is at most 100 entries; its consequence, that an enabled button yields at most 100 students, is the clause `CanGenerateRange(start, end) ==>` (roster length at most `MaxSpan`) of `Picker.StudentPicker.GenerateStudentRange` |
| `Roster.SpanLimitOnlyInButton` | app/page.tsx:93 | the range 1..101 passes the generator's guard but not the button's check |
| `Picker.BuildRoster` | app/page.tsx:97-104 | the loop yields `end - start + 1` students (none for an empty range), the k-th being number `start + k`, id `student-(start+k)`, count 0 |
| `Roster.FreshRangeWellFormed` | app/page.tsx:97-104 | a freshly built range is strictly ascending by number, has ids matching numbers, and has all counts 0 |
| `Picker.StudentPicker.GenerateStudentRange` | app/page.tsx:89-110 | a rejected range (`start < 1` or `end < start`) changes nothing; otherwise the roster is exactly the fresh range, the selection is cleared, the history is emptied and the fairness invariant holds; an enabled button yields at most 100 students |
| `Roster.InsertByNumber` | app/page.tsx:123 | the sorted insert, after every student whose number is at most the new one's; its ensures gives the length, one more than the input's; `Roster.InsertMultiset`, `Roster.InsertSorted` and `Roster.InsertStrictlySorted` state the rest |
| `Roster.SortByNumber` | app/page.tsx:123 | the stable `.sort((a, b) => a.number - b.number)`; its ensures keeps the length; `Roster.SortByNumberSorted`, `Roster.SortByNumberMultiset` and `Roster.SortByNumberOfSorted` state the rest |
| `Roster.HasNumber` | app/page.tsx:113 | the duplicate test `students.some(s => s.number === number)`; no own ensures; `Roster.AddStudentSpec` and `Picker.StudentPicker.AddSingleStudent` state what follows on either side of it |
| `Roster.AddStudent` | app/page.tsx:113-123 | the roster `addSingleStudent` produces; no own ensures; `Roster.AddStudentSpec` states it |
| `Roster.InsertMultiset` | app/page.tsx:123 | inserting a student adds exactly that student |
| `Roster.InsertSorted` | app/page.tsx:123 | inserting into a roster sorted by number keeps it sorted |
| `Roster.InsertStrictlySorted` | app/page.tsx:123 | inserting a new number into a strictly ascending roster keeps it strictly ascending |
| `Roster.SortByNumberSorted` | app/page.tsx:123 | the sort by number yields a sorted roster |
| `Roster.SortByNumberMultiset` | app/page.tsx:123 | the sort by number is a permutation of its input |
| `Roster.SortByNumberOfSorted` | app/page.tsx:123 | sorting an already sorted roster leaves it unchanged |
| `Roster.AddStudentSpec` | app/page.tsx:112-124 | a duplicate number is a no-op; otherwise the roster grows by exactly the new student `{student-n, n, 0}`; on a sorted roster the result is the sorted insert; the number is present afterwards; a well-formed roster stays well-formed |
| `Roster.AddStudentMayBreakFairness` | app/page.tsx:117-123 | adding student 2 to a roster whose only student has count 2 gives a roster that is not fair |
| `Picker.StudentPicker.AddSingleStudent` | app/page.tsx:112-124 | the roster becomes the add of the number (unchanged for a duplicate, the sorted insert otherwise); nothing else changes |
| `Roster.RemoveById` | app/page.tsx:127 | the `filter(s => s.id !== id)`; its ensures says the roster does not grow; `Roster.RemoveByIdMembers`, `Roster.RemoveUnique` and `Roster.RemoveAbsent` state the rest |
| `Roster.RemoveByIdMembers` | app/page.tsx:127 | after removal no student has the id, and every student with another id is still there |
| `Roster.RemoveUnique` | app/page.tsx:127 | with unique ids, removal deletes exactly the one student with that id and keeps the others in order |
| `Roster.RemoveAbsent` | app/page.tsx:127 | removing an id no one has leaves the roster unchanged |
| `Roster.RemovePreserves` | app/page.tsx:126-131 | removal keeps a well-formed roster well-formed and a fair roster fair |
| `Roster.RemovePending` | app/page.tsx:126-131 | removal during a pending pick keeps the captured candidates at the (possibly higher) minimum |
| `Picker.StudentPicker.RemoveStudent` | app/page.tsx:126-131 | the roster loses the students with that id; the selection is cleared if and only if it had that id; the history and the pending pick are unchanged; fairness is preserved |
| `Roster.MinCount` | app/page.tsx:140 | the minimum count is at most every student's count and is some student's count |
| `Roster.MaxCount` | app/page.tsx:196 | the maximum count is at least every student's count and is some student's count |
| `Roster.WithCount` | app/page.tsx:143 | the filter keeps exactly the students with the given count; `Roster.WithCountMultiset` and `Roster.WithCountUnique` state how often each is kept |
| `Roster.WithCountMultiset` | app/page.tsx:143 | the filter keeps each student at the given count exactly as often as the roster holds it and keeps no other student |
| `Roster.WithCountUnique` | app/page.tsx:143 | filtering a roster whose ids are pairwise distinct gives a list whose ids are pairwise distinct |
| `Roster.Candidates` | app/page.tsx:140-143 | `Math.min` of the counts, then the `filter` of the students at it; no own ensures; `Roster.CandidatesSpec` states it |
| `Roster.CandidatesSpec` | app/page.tsx:139-143 | the candidates are exactly the students whose count is at most everyone's count, and there is one exactly when the roster is non-empty |
| `Roster.CandidatesOnce` | app/page.tsx:140-148 | on a non-empty roster each student at the minimum count is a candidate exactly as often as the roster holds it, and no other student is; with unique ids the candidates' ids are unique, so each minimum-count student occupies exactly one of the `candidates.length` indices the random pick ranges over |
| `Roster.ChosenIndex` | app/page.tsx:147-148 | the candidate at a random index is a roster member at the minimum count |
| `Roster.IncrementById` | app/page.tsx:153-159 | the update keeps length, ids and numbers, raises by one the counts of the students with the chosen id and leaves all other counts as they were |
| `Roster.IncrementOnlyChosen` | app/page.tsx:153-159 | with unique ids only the chosen student changes, and its count rises by one |
| `Roster.SumIncrement` | app/page.tsx:153-159 | the total of counts rises by the number of students carrying the chosen id |
| `Roster.CountIdUnique` | app/page.tsx:155 | with unique ids, a present id is carried by exactly one student |
| `Roster.PickSpec` | app/page.tsx:134-159 | the chosen candidate is on the roster at the minimum count; afterwards only it has changed, by one more presentation; the total rises by exactly 1; a fair roster stays fair |
| `Roster.StartPending` | app/page.tsx:140-143 | when a pick starts, every captured candidate is at the minimum count |
| `Roster.FinishFair` | app/page.tsx:146-159 | bumping a captured candidate that is still at the minimum keeps max − min ≤ 1 |
| `Picker.StudentPicker.SelectRandomStudent` | app/page.tsx:134-145 | nothing changes on an empty roster; otherwise spinning starts with the candidates at the minimum captured; the roster, selection and history are unchanged; fairness is preserved |
| `Picker.StudentPicker.FinishSelection` | app/page.tsx:146-168 | the selection is the chosen captured candidate; the roster is the count update for its id; the history is the capped push of its number; spinning stops; in a fair state every roster student carrying the chosen id had the minimum count; fairness is preserved |
| `Roster.PushHistory` | app/page.tsx:162-165 | the new history has the pick first, then the previous history in order, truncated so that the length is at most 20 |
| `Roster.ResetCounts` | app/page.tsx:180 | the reset keeps length, ids, numbers and order and sets every count to 0 |
| `Roster.ResetCountsSpec` | app/page.tsx:179-182 | after a reset the roster stays well-formed and fair, any pending candidate is at the minimum, and a non-empty roster's statistics are min = max = total = 0 |
| `Roster.AllZeroFair` | app/page.tsx:102 | a roster with all counts 0 is fair and keeps any pending candidate at the minimum |
| `Picker.StudentPicker.ResetPresentationCounts` | app/page.tsx:179-182 | the roster becomes the reset roster, the history is emptied, the selection is unchanged and the fairness invariant holds |
| `Picker.StudentPicker.ResetAllData` | app/page.tsx:171-177 | the roster, selection and history are emptied and the fairness invariant holds |
| `Roster.Statistics` | app/page.tsx:191-201 | none for an empty roster; otherwise min and max bound every count and are both attained, and total is the sum of all counts |
| `Roster.Sum` | app/page.tsx:197 | the `reduce` of the counts from 0; no own ensures; `Roster.SumIncrement` and `Roster.SumAllZero` state it |
| `Roster.SumAllZero` | app/page.tsx:197 | the total of a roster with all counts 0 is 0 |
| `Roster.FairIffSpread` | app/page.tsx:194-196 | a non-empty roster is fair (pairwise counts within one) exactly when the statistics' max − min ≤ 1 |
| `Picker.StudentPicker.constructor` | app/page.tsx:35-38 | the initial state is an empty roster, no selection, empty history, not spinning |

## Left out

- Persistence is not modelled: the localStorage loads and saves, the JSON encoding and the rehydration of timestamps (app/page.tsx:45-87, 175-176). They are I/O to a browser store. Every handler requires `Valid()`: the roster is strictly ascending by number, each id is `student-` followed by its number, and the history has at most 20 entries. A roster or history loaded from storage that breaks any of these is outside the model.
- Input parsing is not modelled: `parseInt`/`isNaN` of the two range fields. `GenerateStudentRange` and `CanGenerateRange` take already-parsed integers.
- `Math.random()` is not modelled. The random index is a parameter of `FinishSelection` below the number of captured candidates, which is exactly the range that `Math.floor(Math.random() * candidates.length)` produces.
- The 1500 ms timer is not modelled. The pick is split into its synchronous part and its callback, and the time that passes between them is not represented.
- Picker.StudentPicker.SelectRandomStudent: requires that no pick is spinning. That guard is the button's `disabled` attribute (app/page.tsx:435), not part of the handler. A second start while spinning would schedule a second timer, which the single captured-candidates field cannot represent.
- `average` (`toFixed(1)` of a floating-point division) is not modelled, because the model has no floating point.
- Timestamps are opaque integers supplied by the caller.
- JSX rendering, styling, icons, and the `showSetup`/`showHistory` toggles are not modelled. This includes the `setShowSetup(false)` at the end of range generation.
- JavaScript numbers are modelled as unbounded integers. Precision loss beyond 2^53 is not modelled, and neither is the exponent notation that `${n}` uses for magnitudes of 10^21 and above. Fractional numbers passed to `addSingleStudent` are not modelled either.
