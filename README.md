# Student record store, modelled in Dafny

This project models the record store in `StudRecManagement.java`. The store
is a static `ArrayList` of mutable `Student` objects. Each student has an id,
a name, integer marks and an exam status. There are four operations:

- `find` returns the first student in list order with the exact id, or null.
- `add` checks the name first (null or blank after `trim()`), then checks that
  the id is not taken. It then sets the status (`"Pass"` when marks > 35,
  otherwise `"Fail"`) and appends the object.
- `delete` removes the first student with the id, or reports that the id is
  not in the list.
- `update` overwrites the name and marks of the student object it is given,
  then recomputes the status. It checks nothing. The console loop checks that
  the id exists before it calls `update`.

Files:

- `java_string.dfy`, module `JavaString`: the part of `java.lang.String.trim()`
  that the name check uses. `trim()` strips leading and trailing characters up
  to U+0020. The module proves that the trimmed string is empty exactly when
  every character is at most U+0020.
- `stud_rec_management.dfy`, module `StudRecManagement`:
  - `Status`, the pass rule.
  - `Outcome`, a tag that stands for each printed or returned message.
  - The store as a value: `Record`, the invariant `Inv`, `FirstIndex` for the
    stream's `filter(...).findFirst()`, and `Lookup`.
  - The transition functions `AddStep`, `DeleteStep` and `UpdateStep`.
  - The classes `Student` and `RecordStore`. Their methods change objects in
    place. `Add`, `Delete` and `UpdateById` are verified against `AddStep`,
    `DeleteStep` and `UpdateStep`: the list's new value and the returned
    outcome are those the function gives for the old value. `Update` is
    specified entry by entry: the entries that are the given object show its
    new fields, and every other entry is unchanged. `Find` is a function on
    the object list, and `FindIsLookup` proves it agrees with `Lookup`. The
    setters say which field changes. `Add`, `Delete`, `Update` and
    `UpdateById` keep the object invariant `Valid()`: ids are pairwise
    distinct and each status is the one its marks give.
- `stud_rec_properties.dfy`, module `StudRecProperties`: what the operations
  promise, proved about the transition functions. This covers the order of
  checks in `add`, that a rejected call changes nothing, `find` after each
  operation, that the other ids are unaffected, invariant preservation, and
  the example session with the 35/36 boundary.

Two facts about the code shape the model:

- The store is an ordered list, not a keyed set. `find` and `delete` take the
  first match in list order. Under the unique-id invariant there is only one
  match.
- `update` takes the student object, not an id, and does not check the name.
  So a stored name may become null or blank. The invariant therefore says
  nothing about names. The not-found case of the update command belongs to
  the console loop. `RecordStore.UpdateById` models that loop step:
  `find`, then `update`.

## Model

| member | source | states |
|---|---|---|
| `JavaString.TrimStart` | SRM_APP/src/main/java/com/SRM/StudRecManagement.java:177 | the leading half of `trim()`: the result is a suffix of the argument that is empty or starts with a character above U+0020 |
| `JavaString.TrimEnd` | SRM_APP/src/main/java/com/SRM/StudRecManagement.java:177 | the trailing half of `trim()`: the result is a prefix of the argument that is empty or ends with a character above U+0020 |
| `JavaString.Trim` | SRM_APP/src/main/java/com/SRM/StudRecManagement.java:177 | `trim()` is never longer than its argument, and a non-empty result neither starts nor ends with a character up to U+0020 |
| `JavaString.TrimEmptyIffAllTrimmable` | SRM_APP/src/main/java/com/SRM/StudRecManagement.java:177 | `name.trim().isEmpty()` holds exactly when every character of the name is at most U+0020 |
| `JavaString.TrimIsInnerSlice` | SRM_APP/src/main/java/com/SRM/StudRecManagement.java:177 | `trim()` returns a contiguous slice of its argument. The slice neither starts nor ends with a character up to U+0020, and everything cut off on either side is such a character |
| `StudRecManagement.Status` | SRM_APP/src/main/java/com/SRM/StudRecManagement.java:190 | the pass rule of `add` and `update`: Pass when marks are above 35, otherwise Fail. It is a single comparison with no contract of its own. `ExampleSession` proves the 35/36 boundary |
| `StudRecManagement.IsBlankName` | SRM_APP/src/main/java/com/SRM/StudRecManagement.java:177 | the name check (a null name, or one that `trim()` leaves empty) holds exactly when the name is null or all its characters are at most U+0020 |
| `StudRecManagement.AddStep` | SRM_APP/src/main/java/com/SRM/StudRecManagement.java:175-195 | `add` never alters the records already stored. It grows the list by one exactly when it succeeds, and then the new last record has the id and the outcome carries the status the marks give. Otherwise the outcome is "name required" or "duplicate id" |
| `StudRecManagement.DeleteStep` | SRM_APP/src/main/java/com/SRM/StudRecManagement.java:202-214 | `delete` either reports "not found" and keeps the length, or reports "deleted". In the second case the list is one shorter, and its contents are the old contents less one record that has the id |
| `StudRecManagement.UpdateStep` | SRM_APP/src/main/java/com/SRM/StudRecManagement.java:131-141 | the update command either reports "not found" or reports an update with the status the new marks give. Either way it keeps the list length and every id in its place |
| `StudRecManagement.FirstIndex` | SRM_APP/src/main/java/com/SRM/StudRecManagement.java:164-167 | the stream's `filter(id equals).findFirst()` gives a position holding the id with no earlier occurrence, and gives none exactly when no element is the id |
| `StudRecManagement.Lookup` | SRM_APP/src/main/java/com/SRM/StudRecManagement.java:163-168 | on the list's value, `find` gives the first record in list order with the id, and gives absent exactly when no record has it |
| `StudRecManagement.Student.constructor` | SRM_APP/src/main/java/com/SRM/StudRecManagement.java:26-30 | a new student has the given id, name and marks, and a null status |
| `StudRecManagement.Student.SetName` | SRM_APP/src/main/java/com/SRM/StudRecManagement.java:50-52 | sets the name and leaves marks and status unchanged |
| `StudRecManagement.Student.SetMarks` | SRM_APP/src/main/java/com/SRM/StudRecManagement.java:54-56 | sets the marks and leaves name and status unchanged |
| `StudRecManagement.Student.SetExamStatus` | SRM_APP/src/main/java/com/SRM/StudRecManagement.java:58-60 | sets the status and leaves name and marks unchanged |
| `StudRecManagement.RecordStore.constructor` | SRM_APP/src/main/java/com/SRM/StudRecManagement.java:64 | the list starts empty, which satisfies the invariant |
| `StudRecManagement.RecordStore.Find` | SRM_APP/src/main/java/com/SRM/StudRecManagement.java:163-168 | returns the first student object in the list with the id, and returns absent exactly when no student has it. It changes nothing, because it is a function |
| `StudRecManagement.RecordStore.Add` | SRM_APP/src/main/java/com/SRM/StudRecManagement.java:175-195 | the outcome and the list's new value are those `AddStep` gives. On success the caller's object is appended and gets its status. On rejection neither the list nor the object changes. The invariant is kept |
| `StudRecManagement.RecordStore.Delete` | SRM_APP/src/main/java/com/SRM/StudRecManagement.java:202-214 | the outcome and the list's new value are those `DeleteStep` gives. The object list either stays the same or loses the first entry with the id. The invariant is kept |
| `StudRecManagement.RecordStore.Update` | SRM_APP/src/main/java/com/SRM/StudRecManagement.java:223-235 | the given object gets the new name and marks and the status those marks give. Every list entry that is this object shows the new values, and every other entry is unchanged. The invariant is kept |
| `StudRecManagement.RecordStore.UpdateById` | SRM_APP/src/main/java/com/SRM/StudRecManagement.java:131-141 | the update command (`find`, a null check, then `update`) produces the outcome and new list value that `UpdateStep` gives. The invariant is kept |
| `StudRecProperties.FindIsLookup` | SRM_APP/src/main/java/com/SRM/StudRecManagement.java:163-168 | `find` on the object list and `Lookup` on the list's value agree. Both are absent together, and otherwise the student found shows the record `Lookup` returns |
| `StudRecProperties.LookupIsFirst` | SRM_APP/src/main/java/com/SRM/StudRecManagement.java:164-167 | a record that carries the id, with no earlier record carrying it, is the one `find` returns |
| `StudRecProperties.LookupUnique` | SRM_APP/src/main/java/com/SRM/StudRecManagement.java:163-168 | when ids are unique, `find` of a stored record's id returns that record |
| `StudRecProperties.LookupUniqueIff` | SRM_APP/src/main/java/com/SRM/StudRecManagement.java:163-168 | when ids are unique, `find` returns a record exactly when that record is in the list with that id |
| `StudRecProperties.AddOutcomes` | SRM_APP/src/main/java/com/SRM/StudRecManagement.java:175-194 | "name required" exactly when the name is null or all characters up to U+0020, whatever the id. "Duplicate id" exactly when the name is not blank and the id is taken. Added exactly otherwise. Both rejections leave the list unchanged |
| `StudRecProperties.AddAppends` | SRM_APP/src/main/java/com/SRM/StudRecManagement.java:189-194 | a successful add makes the list one longer with the earlier records unchanged. `find` of the id then returns the new record, whose status is Pass exactly when marks > 35. `find` of every other id is unchanged |
| `StudRecProperties.AppendKeepsLookup` | SRM_APP/src/main/java/com/SRM/StudRecManagement.java:193 | appending a record leaves `find` unchanged for ids that were already present and for ids other than the new record's |
| `StudRecProperties.AddKeepsInv` | SRM_APP/src/main/java/com/SRM/StudRecManagement.java:183-193 | `add` keeps the ids pairwise distinct and every status derived from its marks |
| `StudRecProperties.DeleteOutcomes` | SRM_APP/src/main/java/com/SRM/StudRecManagement.java:204-213 | "not found" exactly when no record has the id, and then the list is unchanged. Otherwise the outcome is "deleted" |
| `StudRecProperties.RemoveAtIndices` | SRM_APP/src/main/java/com/SRM/StudRecManagement.java:212 | removing the entry at one position keeps the other records in their relative order |
| `StudRecProperties.RemoveAt` | SRM_APP/src/main/java/com/SRM/StudRecManagement.java:212 | when ids are unique, removing the entry at one position keeps the invariant. No record then has the removed id, and `find` of every other id is unchanged |
| `StudRecProperties.RemoveAtKeepsLookup` | SRM_APP/src/main/java/com/SRM/StudRecManagement.java:212 | when ids are unique, removing one record leaves `find` unchanged for every other id |
| `StudRecProperties.DeleteRemovesOne` | SRM_APP/src/main/java/com/SRM/StudRecManagement.java:204-213 | when ids are unique, deleting a stored id removes exactly that record. The list is one shorter and the others keep their order. `find` of that id is then absent, and `find` of every other id is unchanged |
| `StudRecProperties.DeleteKeepsInv` | SRM_APP/src/main/java/com/SRM/StudRecManagement.java:202-214 | `delete` keeps the invariant for every id |
| `StudRecProperties.UpdateOutcomes` | SRM_APP/src/main/java/com/SRM/StudRecManagement.java:131-141 | the update command reports "not found" exactly when no record has the id, and then the list is unchanged. Otherwise it succeeds with the new status whatever the name is, even null or blank |
| `StudRecProperties.ReplaceKeepsLookup` | SRM_APP/src/main/java/com/SRM/StudRecManagement.java:225-229 | when ids are unique, rewriting one record without changing its id leaves `find` unchanged for every other id |
| `StudRecProperties.UpdateChangesOne` | SRM_APP/src/main/java/com/SRM/StudRecManagement.java:223-234 | when ids are unique, updating a stored id keeps the list length. That record keeps its id and gets the new name, the new marks and the status they give. Every other position is unchanged, `find` of the id returns the new record, and `find` of every other id is unchanged |
| `StudRecProperties.UpdateKeepsInv` | SRM_APP/src/main/java/com/SRM/StudRecManagement.java:223-234 | the update command keeps the invariant for all arguments |
| `StudRecProperties.ExampleSession` | SRM_APP/src/main/java/com/SRM/StudRecManagement.java:175-235 | 35 marks give Fail and 36 give Pass. add S1/Alice/40 gives Pass. A second add of S1 is a duplicate and leaves Alice unchanged. Updating S1 to 20 gives Fail. Deleting S1 succeeds, and `find` S1 is then absent |

## Left out

- The console loop in `main` is not modelled: the `Scanner` input, menu text, the "stop" command and the `InputMismatchException` recovery. The only part kept is the find-then-update step of command 4 (`UpdateById`), because the update's not-found check lives there.
- The exact text of the printed and returned messages. Each one is an `Outcome` tag, and the status strings `"Pass"` and `"Fail"` are an `ExamStatus` value.
- Java streams in `find` and `delete` are modelled as a search for the first match in list order (`FirstIndex`).
- `ArrayList.remove(Object)` removes the first element identical to the object found. The model removes the entry at the first index with the id. Because the ids are unique, these are the same entry.
- Null ids are not modelled. Ids are `string` because the only caller passes tokens from `Scanner.next()`, which are never null. Names are nullable (`JString`), because `add` tests for null.
- Marks are Java `int` (`int32`). The code only compares them with 35, so overflow cannot arise.
- `Student.id` is a `const`. The Java field is assigned only in the constructor and has no setter.
