# Student records manager, modelled in Dafny

This project models the core of `student_manager.py`, a small student-records
manager, and proves what its operations guarantee.

- A **student** has an identifier, a name, and three lists: subjects
  enrolled, subjects completed, and the marks obtained in them.
- A student is stored as one text line:
  `id,name,enrolled,completed,marks`.
  - The three lists are joined with `;`.
  - An empty list is written as an empty field.
- The **manager** has two parts:
  - the ordered collection of students;
  - an undo stack of at most ten entries.
- Operations: add, remove, search, enrol, mark a subject completed (mark in
  0..100), list, statistics, and undo the most recent change.

Modules, one file each:

| file | module | what it holds |
|---|---|---|
| `records.dfy` | `Records` | the `Student` value, `Option`/`Result`, the list operations the store uses (`list.index`, `pop`, `remove`) |
| `text.dfy` | `Text` | Python's `str.strip`, `str.split`, `str.join`, `str(int)` and `int(str)` over Dafny strings |
| `codec.dfy` | `Codec` | `Student.to_string` (`ToLine`) and `Student.from_string` (`FromLine`); the round trip and the exact error conditions |
| `persistence.dfy` | `Persistence` | the text `save_data` writes, how `readlines` cuts a text into lines, and the parse loop of `load_data`; saving then loading gives the collection back |
| `store_spec.dfy` | `StoreSpec` | the manager's state as a value (`Store`) and each operation as a transition function returning the new state and the boolean result (`Step`) |
| `store_lemmas.dfy` | `StoreLemmas` | invariants the operations keep; undo right after an operation inverts it; how the stack is capped |
| `sessions.dfy` | `Sessions` | arbitrary sequences of calls, and the invariants that hold after all of them |
| `statistics.dfy` | `Statistics` | what `get_statistics` reports, defined independently of its loops |
| `manager.dfy` | `Manager` | the class `StudentManager`, with fields updated in place; every method is proved to follow its transition function |
| `scenarios.dfy` | `Scenarios` | an enrol, complete and undo sequence for John Doe, and the assertions of the file's own unit tests |

Main results:

- **Record round trip.** `FromLine(ToLine(st)) == Ok(st)` holds for every
  record the format can carry. Such a record is `Encodable`: the id does not
  start with whitespace, no `,` is in the id, the name or a subject, no `;`
  is in a subject, and no subject list is the single empty subject. Reading a parsed record back is
  stable. `from_string` fails exactly when the stripped line has no comma or
  the marks field holds an entry `int()` rejects. `int()` skips less
  whitespace than `strip` does: a mark preceded by one of U+001C..U+001F is
  rejected (`ParseIntKeepsSeparator`).
- **Save and load.** The file's text is modelled, and so is `readlines`.
  Saving, reading the text back with `readlines`, and loading it gives back
  the same collection in the same order (`LoadSavedFile`). This holds for
  records that are `Encodable` and hold no line break (`LineFree`). A name
  holding `'\n'` is `Encodable`, but its line comes back as two lines
  (`LineBreakSplitsRecord`).
- **Invariants.** Suppose a store starts with an empty undo stack, as the
  constructor leaves it, and with unique identifiers and well-formed records
  (`FreshStoreInvariant`). Suppose also that every record added is well
  formed. Then after any sequence of adds, removes, enrolments, completions
  and undos:
  - identifiers stay unique;
  - every record stays well formed: no subject listed twice, none both
    enrolled and completed, one mark per completed subject, marks in 0..100;
  - the undo stack never holds more than ten entries.

  More generally, the store may start in `Sessions.Invariant`, which also
  covers a non-empty undo stack. That stack must hold at most ten entries
  and every record it keeps for undoing a removal must be well formed.
  Undoing its entries, newest first, must never meet an add whose
  identifier is absent or a removal whose identifier is present
  (`Replayable`). Without that last condition an undo can bring back a
  duplicate: from `[A]` with the stack `[Removed(A)]`, one undo gives
  `[A, A]`.

  The source checks none of these conditions. `load_data` accepts
  duplicate identifiers and malformed records, and `add_student` accepts
  any record whose identifier is new.
- **Undo.** On well-formed records, an undo with something to undo always
  returns true. An undo right after an add, an enrolment or a removal
  restores the earlier state. An undo right after a completion does too,
  provided the subject was not already completed and the record had one
  mark per completed subject. There are three differences:
  - a re-inserted record goes to the end of the collection;
  - a subject whose completion is undone goes to the end of `enrolled`;
  - if the operation's push evicted the oldest entry of a full stack, the
    undo does not bring that entry back (`AfterPushPop`).
- **Unit tests.** Every assertion of the unit tests at the end of the file
  holds in the model.

## Model

| member | source | states |
|---|---|---|
| Records.FirstIndex | student_manager.py:290 | `list.index`: the position of the first occurrence; none exactly when the subject is absent |
| Records.RemoveAt | student_manager.py:291-292 | `list.pop(idx)`: one element shorter; elements before `idx` kept, elements after it moved down one place |
| Records.RemoveFirst | student_manager.py:208 | `list.remove` on a subject known to be present: one element shorter |
| Records.RemoveFirstIsFirst | student_manager.py:208 | `remove` deletes the first occurrence: the subject is at some position `k` and not before it, and the result is the list without position `k`, the rest in order |
| Records.RemoveFirstMultiset | student_manager.py:208 | `remove` takes away exactly one occurrence and nothing else |
| Records.RemoveFirstNoDuplicates | student_manager.py:208 | on a list without duplicates, `remove` drops the subject entirely, keeps every other one, and leaves no duplicates |
| Records.RemoveFirstOfAppended | student_manager.py:185 | removing a subject that was just appended, and was absent before, restores the list |
| Records.RemoveFirstHead | student_manager.py:208 | removing a subject that is at the head drops exactly the head |
| Records.FirstIndexOfAppended | student_manager.py:209 | a subject appended to a list that lacked it is found at the end |
| Records.RemoveAtNoDuplicates | student_manager.py:291 | popping from a list without duplicates leaves one without duplicates and without the popped element |
| Records.RemoveAtSubset | student_manager.py:291-292 | popping keeps only elements of the list |
| Records.AppendNoDuplicates | student_manager.py:185 | appending a subject a list lacks keeps it free of duplicates |
| Text.StripLeft | student_manager.py:32 | `lstrip`: the result has no leading whitespace (Python's `isspace` set) and is a suffix of the input |
| Text.StripRight | student_manager.py:32 | `rstrip`: the result has no trailing whitespace and is a prefix of the input |
| Text.StripLeftRemovesSpace | student_manager.py:32 | everything `lstrip` removes is whitespace |
| Text.StripRightRemovesSpace | student_manager.py:32 | everything `rstrip` removes is whitespace |
| Text.Strip | student_manager.py:32 | `str.strip()`: neither end of the result is whitespace, and it is no longer than the input |
| Text.StripTrims | student_manager.py:32 | `strip` removes only whitespace and only at the ends: the result is a slice of the input with nothing but whitespace before and after it |
| Text.StripNoSpaceEnds | student_manager.py:32 | `strip` leaves unchanged a text whose ends are not whitespace |
| Text.StripSkipsSpace | student_manager.py:32 | `strip` drops a leading whitespace character: the result is that of the rest |
| Text.StripNewline | student_manager.py:90 | a line written with its trailing `'\n'` is read back, after `strip`, as the line itself |
| Text.Split | student_manager.py:32 | `str.split(sep)` always yields at least one piece |
| Text.SplitPieces | student_manager.py:32 | no piece holds the separator, and every piece's characters come from the input |
| Text.SplitFirstIsPrefix | student_manager.py:36 | the first piece is a prefix of the input |
| Text.SplitSingle | student_manager.py:33 | a split yields one piece exactly when the separator does not occur, and that piece is the input |
| Text.SplitNonEmpty | student_manager.py:40-45 | splitting a non-empty text never yields `[""]` |
| Text.SplitAfterPiece | student_manager.py:32 | splitting `a + sep + b` yields `a` followed by the split of `b`, when `a` has no separator |
| Text.SplitJoin | student_manager.py:27 | `split` inverts `join` when no part holds the separator |
| Text.SplitStripJoin | student_manager.py:27 | `split(strip(join(parts)))` gives the parts back when the join has no whitespace at either end |
| Text.Join | student_manager.py:23-27 | `sep.join(parts)`: starts with the first part, followed by the separator when there are two or more parts; at least one character per separator |
| Text.JoinAvoids | student_manager.py:23-25 | a join holds no character that is neither the separator nor in any part |
| Text.JoinEmpty | student_manager.py:23-25 | a join is empty exactly for `[]` and `[""]` |
| Text.JoinEnds | student_manager.py:27 | a join of two or more parts starts and ends with its first and last parts, or with the separator when those are empty |
| Text.JoinLastPart | student_manager.py:25 | a join whose last part is non-empty ends with that part's last character |
| Text.DigitChar | student_manager.py:25 | the digit character for a value below ten |
| Text.NatToString | student_manager.py:25 | `str(n)` for `n >= 0` is one or more decimal digits |
| Text.IntToString | student_manager.py:25 | `str(n)` ends with a digit and starts with a digit or `-` |
| Text.NatToStringValue | student_manager.py:25 | `str(n)` for `n >= 0` is well-formed digit text whose value is `n` |
| Text.IntRoundTrip | student_manager.py:25 | `int(str(n)) == n` for every integer |
| Text.IntStripLeft | student_manager.py:49 | the whitespace `int()` skips at the front (`' '`, U+0009..U+000D and non-ASCII whitespace, not U+001C..U+001F) is gone, and the result is a suffix of the input |
| Text.IntStripRight | student_manager.py:49 | the whitespace `int()` skips at the end is gone, and the result is a prefix of the input |
| Text.IntStrip | student_manager.py:49 | neither end of the text `int()` reads its number from is whitespace it skips |
| Text.IntStripNoSpaceEnds | student_manager.py:49 | a text whose ends are not such whitespace is read as it is |
| Text.ParseInt | student_manager.py:49 | `int(s)`: a value is returned only when the text left after `int()`'s whitespace is non-empty and ends with a digit; a negative value only when it starts with `-` |
| Text.ParseIntSkipsSpace | student_manager.py:49 | a leading character of `int()`'s whitespace does not change what `int()` returns |
| Text.ParseNumber | student_manager.py:49 | the number after the whitespace: a value only when the text is non-empty and ends with a digit; a negative value only when it starts with `-` |
| Text.ParseIntKeepsSeparator | student_manager.py:32-49 | a text starting with one of U+001C..U+001F strips as if that character were absent, yet `int()` rejects it |
| Text.IntStripRightKeepsHead | student_manager.py:49 | stripping `int()` whitespace at the end never cuts past a first character that is not such whitespace |
| Text.IntStripKeepsHead | student_manager.py:49 | the text `int()` reads keeps a first character that is not its whitespace |
| Text.NumberStartsWellFormed | student_manager.py:49 | a number `int()` accepts starts with a digit or a sign |
| Text.IntTextAvoids | student_manager.py:25 | `str(n)` contains neither `,` nor `;` |
| Codec.ToLine | student_manager.py:21-27 | `to_string`: the line starts with the id followed by `,` |
| Codec.ParseEach | student_manager.py:49 | the comprehension `[int(mark) for ...]`: on success one value per entry; a failure is always a bad mark |
| Codec.FromLine | student_manager.py:29-52 | `from_string`: on success the id and the name are the first two fields of the stripped line; a bad-mark error needs a non-empty fifth field |
| Codec.ParseEachError | student_manager.py:49 | a failed list comprehension of `int()` names an entry that `int()` rejects |
| Codec.ParseEachValues | student_manager.py:49 | a successful one has one value per entry, in order, each the value of its entry |
| Codec.ParseEachOk | student_manager.py:49 | entries that all parse give exactly their values |
| Codec.ParseEachFails | student_manager.py:49 | the comprehension fails exactly when some entry is rejected, and the error is a bad mark |
| Codec.ParseMarksResult | student_manager.py:49 | the marks parse exactly when every entry is an integer, with the entries' values; otherwise the error names a rejected entry |
| Codec.MarksFieldFails | student_manager.py:48-49 | a non-empty marks field fails exactly when one of its entries is rejected by `int()` |
| Codec.FromLineErrors | student_manager.py:29-52 | `from_string` fails because of too few fields exactly when the stripped line has no `,`; it fails at all exactly when that holds or the marks field holds an entry `int()` rejects |
| Codec.MissingFieldsAreEmpty | student_manager.py:36-49 | on success, the id and name are the first two fields, and each absent list field gives an empty list |
| Codec.MarkTextsPlain | student_manager.py:25 | each written mark is non-empty and holds no separator |
| Codec.LineEnds | student_manager.py:27 | a written line is non-empty and has no whitespace at either end, so `strip` on load leaves it unchanged |
| Codec.LineLastChar | student_manager.py:27 | a written line ends with a digit or with the last `,` |
| Codec.MarksFieldEnd | student_manager.py:25 | the marks field is empty or ends with a digit |
| Codec.ListFieldsAvoidComma | student_manager.py:23-25 | no written list field contains `,` |
| Codec.SubjectListRoundTrip | student_manager.py:40-45 | reading a list field written by `";".join` gives the list back |
| Codec.LineSplitsIntoFields | student_manager.py:32 | splitting a written line yields exactly the five fields `to_string` wrote |
| Codec.MarkTextsParse | student_manager.py:49 | `int()` of each written mark gives that mark |
| Codec.ParseMarkTexts | student_manager.py:49 | the written marks parse as the original marks |
| Codec.MarksRoundTrip | student_manager.py:25 | the marks field is empty exactly when there are no marks; otherwise it parses back to the marks |
| Codec.RoundTrip | student_manager.py:21-52 | `from_string(to_string(st))` rebuilds `st` field for field, for every record the format can carry |
| Codec.ParsedIsEncodable | student_manager.py:29-52 | every record `from_string` produces can be written and read back |
| Codec.SubjectListEncodable | student_manager.py:40-45 | a list read from a field of a parsed line can be written back |
| Codec.ReparseIsStable | student_manager.py:21-52 | writing a parsed record and parsing it again gives the same record |
| Persistence.LineRecords | student_manager.py:89-96 | one file line yields at most one record, and only from a non-empty stripped line that `from_string` accepts: that record |
| Persistence.LineRecordsCases | student_manager.py:89-96 | the three outcomes of a line: blank and rejected lines add nothing, an accepted line adds its record |
| Persistence.ParseLines | student_manager.py:89-96 | the load loop yields at most one record per line |
| Persistence.ParseLinesFromLines | student_manager.py:89-96 | every loaded record comes from one of the file's lines |
| Persistence.ParseLinesPrefix | student_manager.py:89-96 | one more iteration of the loop adds the records of line `i` to those of the first `i` lines |
| Persistence.ParseLinesConcat | student_manager.py:89-96 | loading two blocks of lines yields the records of the first, then those of the second |
| Persistence.ParseLinesSnoc | student_manager.py:89-96 | one more line adds that line's record, if any, at the end |
| Persistence.SaveLines | student_manager.py:111-113 | one line per record, each non-empty and ended by `'\n'` |
| Persistence.SaveLinesSnoc | student_manager.py:111-113 | one more student adds that student's line at the end of the saved file |
| Persistence.SavedLineLoads | student_manager.py:90-94 | at the level of single lines: the line saved for an `Encodable` record (with its `'\n'`) loads back as exactly that record |
| Persistence.LoadSaved | student_manager.py:89-96 | at the level of lines: loading the lines saving wrote gives back the same collection, in the same order, when every record is `Encodable`; `LoadSavedFile` adds `readlines` |
| Persistence.Translate | student_manager.py:85-86 | reading in text mode: `"\r\n"` and a lone `'\r'` become `'\n'`, so no `'\r'` is left, and the text does not grow |
| Persistence.SplitLines | student_manager.py:86 | `readlines`: the lines put back together give the text; every line is non-empty, holds `'\n'` at most at its end, and every line but the last ends with it |
| Persistence.ToLineLineFree | student_manager.py:113 | the line written for a record without line breaks holds none |
| Persistence.ConcatAvoids | student_manager.py:112-113 | a character in none of the written lines is not in the file |
| Persistence.TranslateNoReturn | student_manager.py:86 | a text without `'\r'` is read unchanged |
| Persistence.SplitFirstLine | student_manager.py:86 | `readlines` cuts a line that ends in its only `'\n'` off the front of the text |
| Persistence.SplitConcat | student_manager.py:86 | `readlines` on lines written one after another, each ending in its only `'\n'`, gives those lines back |
| Persistence.LoadSavedFile | student_manager.py:86-113 | saving, then `readlines` and loading, gives back the same collection in the same order, for records that are `Encodable` and hold no line break |
| Persistence.ToLineNameOnly | student_manager.py:21-27 | a record with empty subject lists is written as `id,name,,,` |
| Persistence.ReadTwoLines | student_manager.py:86 | `readlines` on two `'\n'`-ended lines without `'\r'` gives those two lines |
| Persistence.LineBreakSplitsRecord | student_manager.py:86-113 | a name holding `'\n'` passes `Encodable`, yet its saved line is read back as two lines, the second of them a line of its own |
| StoreSpec.IndexOf | student_manager.py:160-165 | the position of the first student with the id; none exactly when no student has it |
| StoreSpec.Search | student_manager.py:160-165 | `search_student`: a found student belongs to the collection and has the id; none exactly when no student has it |
| StoreSpec.Push | student_manager.py:239-250 | `_save_state` appends the entry as the newest; it drops the oldest only when the stack already held ten; the result holds at most ten entries and nothing new |
| StoreSpec.Add | student_manager.py:132-144 | `add_student`: true exactly when no student has the id; then the record goes at the end and `Added(id)` is pushed; otherwise nothing changes |
| StoreSpec.Remove | student_manager.py:146-158 | `remove_student`: true exactly when a student has the id; then the collection is one shorter and the entry pushed keeps the found record; otherwise nothing changes |
| StoreSpec.Enroll | student_manager.py:167-188 | `update_enrollment`: true exactly when the student exists and the subject is neither enrolled nor completed; on refusal nothing changes; on success every id stays in place and one entry is pushed |
| StoreSpec.Complete | student_manager.py:190-213 | `mark_subject_completed`: true exactly when the student exists, is enrolled in the subject and the mark is in 0..100; on refusal nothing changes; on success every id stays in place and one entry is pushed |
| StoreSpec.UndoCompletion | student_manager.py:284-294 | the completion branch of undo: only the record at `k` changes, keeping its id and name; it fails exactly when the subject is completed and `marks` is too short for its position, which needs fewer marks than completed subjects |
| StoreSpec.Undo | student_manager.py:252-301 | `undo_last_action`: with an empty stack, false and nothing changes; otherwise exactly the newest entry is popped, and only undoing a completion can return false |
| StoreLemmas.IndexOfFinds | student_manager.py:160-165 | a search finds a student exactly when the id belongs to the collection |
| StoreLemmas.IndexOfSameIds | student_manager.py:160-165 | collections with the same ids at the same positions answer every search the same |
| StoreLemmas.IndexOfAppended | student_manager.py:141 | a student appended under a new id is found at the end |
| StoreLemmas.AppendIds | student_manager.py:141 | appending a new id keeps ids unique and adds exactly that id |
| StoreLemmas.RemoveAtIds | student_manager.py:155 | removing a student keeps ids unique and removes exactly its id |
| StoreLemmas.RemoveAtKeepsUnique | student_manager.py:155 | removing a student keeps the ids unique |
| StoreLemmas.RemoveAtIdSet | student_manager.py:155 | removing a student from a collection with unique ids removes exactly its id |
| StoreLemmas.UpdateIds | student_manager.py:185 | changing a record's lists in place keeps the id set and its uniqueness |
| StoreLemmas.AddThenSearch | student_manager.py:132-144 | `add_student` succeeds exactly when the id is new, and a search right after finds the added record |
| StoreLemmas.ReplayableDropOldest | student_manager.py:249-250 | dropping the oldest undo entry keeps the stack consistent with the collection |
| StoreLemmas.ReplayablePush | student_manager.py:239-250 | `_save_state` keeps the stack consistent with the collection |
| StoreLemmas.AddKeepsIdsUnique | student_manager.py:132-144 | `add_student` keeps ids unique and the stack consistent with them |
| StoreLemmas.RemoveKeepsIdsUnique | student_manager.py:146-158 | `remove_student` keeps ids unique and the stack consistent with them |
| StoreLemmas.EnrollKeepsIdsUnique | student_manager.py:167-188 | `update_enrollment` keeps ids unique and the stack consistent with them |
| StoreLemmas.CompleteKeepsIdsUnique | student_manager.py:190-213 | `mark_subject_completed` keeps ids unique and the stack consistent with them |
| StoreLemmas.UndoCompletionIds | student_manager.py:284-294 | undoing a completion changes no id |
| StoreLemmas.UndoKeepsIdsUnique | student_manager.py:252-301 | `undo_last_action` never brings back a duplicate id |
| StoreLemmas.UpdateKeepsWellFormed | student_manager.py:185 | replacing a record by a well-formed one keeps every record well formed |
| StoreLemmas.RemoveAtKeepsWellFormed | student_manager.py:155 | removing a record keeps every record well formed |
| StoreLemmas.EnrolledRecordWellFormed | student_manager.py:174-185 | enrolling in a subject neither enrolled nor completed keeps a record well formed |
| StoreLemmas.CompletedRecordWellFormed | student_manager.py:197-210 | completing an enrolled subject with a mark in 0..100 keeps a record well formed |
| StoreLemmas.UnenrolledRecordWellFormed | student_manager.py:280-281 | undoing an enrolment keeps a record well formed |
| StoreLemmas.UncompletedRecordWellFormed | student_manager.py:289-293 | on a well-formed record the mark at the subject's position exists, and undoing the completion keeps the record well formed |
| StoreLemmas.PushKeepsSnapshots | student_manager.py:239-250 | every record kept in the stack for undoing a removal stays well formed |
| StoreLemmas.AddKeepsWellFormed | student_manager.py:132-144 | `add_student` of a well-formed record keeps every record well formed |
| StoreLemmas.RemoveKeepsWellFormed | student_manager.py:146-158 | `remove_student` keeps every record well formed |
| StoreLemmas.EnrollKeepsWellFormed | student_manager.py:167-188 | `update_enrollment` keeps every record well formed |
| StoreLemmas.CompleteKeepsWellFormed | student_manager.py:190-213 | `mark_subject_completed` keeps every record well formed |
| StoreLemmas.UndoCompletionWellFormed | student_manager.py:284-294 | on well-formed records, undoing a completion never fails and keeps them well formed |
| StoreLemmas.UndoKeepsWellFormed | student_manager.py:252-301 | undo keeps every record well formed, and with something to undo it returns true |
| StoreLemmas.PushThenPop | student_manager.py:247-250 | a push followed by a pop leaves the stack as before, less its oldest entry if the push dropped it |
| StoreLemmas.Newest | student_manager.py:249-250 | the newest ten entries: at most ten, and a suffix of the input |
| StoreLemmas.NewestOfNewest | student_manager.py:249-250 | capping before appending more, then capping again, equals capping once |
| StoreLemmas.PushAllKeepsNewest | student_manager.py:239-250 | after any number of pushes, the stack holds exactly the ten newest entries, oldest first |
| StoreLemmas.PushIsNewest | student_manager.py:247-250 | one push keeps the ten newest entries |
| StoreLemmas.AddThenUndo | student_manager.py:264-269 | undo right after a successful add returns true and restores the collection |
| StoreLemmas.RemoveThenUndo | student_manager.py:271-275 | undo right after a removal returns true and restores the same records, the removed one now at the end |
| StoreLemmas.EnrollThenUndo | student_manager.py:277-282 | undo right after an enrolment returns true and restores the collection |
| StoreLemmas.CompleteThenUndo | student_manager.py:284-294 | on a record with the subject not yet completed and one mark per completed subject, undo right after a completion returns true and restores `completed` and `marks`; the subject is enrolled again, at the end |
| StoreLemmas.UndoCompletionAfterComplete | student_manager.py:289-293 | the record-level half of the previous row |
| StoreLemmas.CompleteThenUndoMissingMark | student_manager.py:284-294 | on a record with fewer marks than completed subjects, undo right after a completion returns false: `completed` is as before, the new mark stays, the subject is not enrolled again, and the entry is popped |
| StoreLemmas.UndoCompletionWithMissingMark | student_manager.py:289-301 | one instance of the previous row, on a store holding only Ann, with the exact records before and after |
| Sessions.ApplyKeepsInvariant | student_manager.py:132-301 | every call keeps ids unique and records well formed (when an added record is itself well formed; `add_student` does not check), keeps the stack consistent with them, and keeps at most ten entries |
| Sessions.RunKeepsInvariant | student_manager.py:132-301 | the same holds after any sequence of calls |
| Sessions.FreshStoreInvariant | student_manager.py:62-73 | a collection with unique ids and well-formed records, with an empty stack, meets the invariant |
| Sessions.UnreplayableUndoDuplicates | student_manager.py:271-275 | unique ids with a stack whose newest entry removed a present id are not enough: the stack is not `Replayable`, and one undo re-appends the snapshot, giving a duplicate id |
| Sessions.Apply | student_manager.py:132-301 | one call: a refused call other than undo changes nothing, no call adds more than one record, and the stack stays within ten entries |
| Sessions.Run | student_manager.py:132-301 | a sequence of calls adds at most one record per call and keeps the stack within ten entries |
| Statistics.OccurrencesPositive | student_manager.py:228-230 | a subject is counted in a list exactly when it occurs there, and once when the list has no duplicates |
| Statistics.EnrolledTally | student_manager.py:227-230 | what the first loop adds up for a subject: at least the number of students enrolled in it |
| Statistics.TallyPositive | student_manager.py:227-230 | a subject gets an enrolment count exactly when some student is enrolled in it |
| Statistics.TallyCountsStudents | student_manager.py:227-230 | with no duplicate enrolments, a subject's count is the number of students enrolled in it |
| Statistics.CompletedByName | student_manager.py:232-235 | the completed-count map has at most one entry per student |
| Statistics.CompletedByNameKeys | student_manager.py:232-235 | the completed-count map has an entry for each student's "name (id)" and nothing else |
| Statistics.CompletedByNameValue | student_manager.py:232-235 | the entry of the last student with a given "name (id)" holds that student's number of completed subjects |
| Manager.StudentManager.constructor | student_manager.py:62-96 | a new manager holds the records loaded from the data file's text (empty when the file is missing), with an empty undo stack |
| Manager.StudentManager.LoadData | student_manager.py:85-96 | `load_data` on the file's text: the collection becomes the records parsed from the lines `readlines` gives; the stack is left alone |
| Manager.StudentManager.LoadLines | student_manager.py:87-96 | the loop over the lines sets the collection to `ParseLines` of them: blank and rejected lines skipped, the others parsed in order |
| Manager.StudentManager.Locate | student_manager.py:162-165 | the scan stops at the first student with the id, or finds none |
| Manager.StudentManager.SearchStudent | student_manager.py:160-165 | returns the first student with the id; none exactly when no student has it |
| Manager.StudentManager.SaveState | student_manager.py:239-250 | pushes the entry, dropping the oldest beyond ten; the collection is unchanged |
| Manager.StudentManager.AddStudent | student_manager.py:132-144 | follows `Add`; true exactly when the id is new; then the record is appended and an entry pushed; otherwise nothing changes; adding a well-formed record keeps the store invariant |
| Manager.StudentManager.RemoveStudent | student_manager.py:146-158 | follows `Remove`; on success, the first student with the id is removed and kept in the pushed entry; otherwise nothing changes; keeps the store invariant |
| Manager.StudentManager.UpdateEnrollment | student_manager.py:167-188 | follows `Enroll`; on refusal (unknown id, or subject already enrolled or completed) nothing changes; keeps the store invariant |
| Manager.StudentManager.MarkSubjectCompleted | student_manager.py:190-213 | follows `Complete`; succeeds only with a mark in 0..100; on refusal nothing changes; keeps the store invariant |
| Manager.StudentManager.ListAllStudents | student_manager.py:215-217 | returns the collection in insertion order |
| Manager.StudentManager.TallyEnrollments | student_manager.py:227-230 | the loops count each subject's occurrences across all enrolled lists; subjects with none are absent |
| Manager.StudentManager.GetStatistics | student_manager.py:219-237 | reports the number of students; a subject's count exactly when someone is enrolled in it, with its tally; each student's completed count under "name (id)" |
| Manager.StudentManager.UndoLastAction | student_manager.py:252-301 | follows `Undo`; on an empty stack returns false without change; otherwise pops exactly the newest entry; keeps the store invariant |
| Scenarios.AddToEmpty | student_manager.py:132-144 | adding to an empty manager succeeds with one record and one entry |
| Scenarios.EnrollOnly | student_manager.py:167-188 | enrolling the only student in a new subject appends it and pushes an entry |
| Scenarios.CompleteOnly | student_manager.py:190-213 | completing an enrolled subject of the only student succeeds exactly when the mark is in range |
| Scenarios.UndoOnlyCompletion | student_manager.py:284-294 | undoing the only completion empties `completed` and `marks` and re-enrols the subject |
| Scenarios.AddThenEnroll | student_manager.py:132-188 | add a student with two subjects, then enrol in a third: the exact state after each |
| Scenarios.CompleteFirstOfThree | student_manager.py:190-213 | completing the first of three subjects succeeds with a mark in range and is refused with 150 |
| Scenarios.EnrollCompleteUndo | student_manager.py:132-301 | add, enrol, complete and undo for any id, name, subjects and valid mark: the exact state after each step |
| Scenarios.JohnDoeEnrollCompleteUndo | student_manager.py:132-301 | an enrol, complete and undo sequence for John Doe: after the undo the record is enrolled in MATH201, ENG201, COMP101 with nothing completed |
| Scenarios.CompleteHead | student_manager.py:190-213 | completing the first enrolled subject of the first student |
| Scenarios.CompleteHeadRefused | student_manager.py:197-199 | a subject the student is not enrolled in cannot be completed |
| Scenarios.TestAdds | student_manager.py:312-317 | the two adds succeed; adding student1 again is refused |
| Scenarios.TestSearches | student_manager.py:321-324 | S001 is found (John Doe); S999 is not |
| Scenarios.TestEnrolls | student_manager.py:328-329 | enrolling S001 in ENG201 succeeds; enrolling it in COMP101 is refused |
| Scenarios.TestCompletes | student_manager.py:333 | completing COMP101 with 92 succeeds, with the exact record afterwards |
| Scenarios.TestCompletesOnce | student_manager.py:334 | completing COMP101 a second time is refused |
| Scenarios.TestUndo | student_manager.py:343 | the undo after the tests returns true |
| Scenarios.UnitTestRun | student_manager.py:310-343 | the whole test run: every assertion, including the count of two students |
| Scenarios.EnrollmentCountExample | student_manager.py:227-230 | two students enrolled in COMP101 and MATH201, and in COMP101: COMP101 counts 2, MATH201 1, CHEM101 0 |

## Left out

- File I/O is not modelled. This covers opening and creating the data file,
  writing, `_create_backup`, the backups directory, and the `try`/`except`
  around them. The constructor takes the file's text as a parameter; a
  missing file is the empty text. `save_data` after each change is modelled
  only as the text it would write (`SaveText`). The manager's methods do not
  produce that text.
- `print` output, the undo entry's timestamp (`datetime.now()`), and the
  `auto_backup` and `filename` settings are not modelled. Nothing in the
  core reads any of them.
- `Student.__str__`, main.py and its menu are not part of this model.
- `int()` is modelled for ASCII digits only. Python also accepts other
  Unicode decimal digits.
- `readlines` is modelled for a file opened in text mode with universal
  newlines (`Translate`, then `SplitLines`). Writing is modelled with `'\n'`
  as the line ending. A platform that writes `"\r\n"` instead is not
  modelled, though reading would translate it back to `'\n'`. Encodings
  and a byte-order mark are not modelled.
- Text.ParseInt: does not model the limit CPython 3.11 and later put on
  `int()` of a text (`sys.int_max_str_digits`, 4300 digits by default).
  Past that limit `int()` raises `ValueError`, while the model returns the
  value.
- Codec.FromLineErrors: because of the `ParseInt` line above, the "exactly
  when" does not hold on CPython 3.11 and later for a mark of more than
  4300 digits. There `from_string` also fails. Marks written by the
  manager are in 0..100.
- Persistence.SavedLineLoads and Persistence.LoadSaved: stated at the level
  of lines, so they do not mention `readlines`. `LoadSavedFile` states the
  round trip through the file's text and needs `LineFree` as well.
- Python's object identity is not modelled. Students are values, so the
  model does not capture two effects:
  - a caller that keeps a reference to a `Student` it added, or that a
    search returned, and mutates it behind the manager's back;
  - the snapshot kept for undoing a removal aliasing the removed object.
- The `Student` constructor's `x if x else []` is not modelled separately.
  For lists, a falsy argument is `None` or `[]`, and both give `[]`,
  which is what the model stores.
- Records.RemoveFirst: stated only where the source calls `list.remove`
  after checking membership (line 197, line 280). That call therefore
  never raises.
- Codec.ParseMarksResult: states that the error names some rejected
  entry. `ParseEach` itself defines it as the first rejected entry, as the
  comprehension at line 49 raises on the first bad entry.
- `remove_student` followed by `undo_last_action` puts the record back at
  the end of the collection, not at its old position, exactly as the
  source does (`RemoveThenUndo` states it). That is a reorder, not a loss.
