# Phone book and grade book, modelled in Dafny

This project models the two in-memory record stores of the repository.

- `ContactManager` (phonebook.py) keeps an ordered list of contacts. Each
  contact is a dictionary from column name ("First Name", "Last Name",
  "Phone Number", "Email Address", "Address") to text. The manager validates
  phone numbers and email addresses with two regular expressions, appends,
  deletes, updates the first match, searches without regard to case, sorts
  stably by one field and imports rows as a run of adds. Every successful add,
  delete and update rewrites contacts.csv and appends a line to log.txt; a
  sort changes only the list in memory.
- The grade book (student.py) is a dictionary from student name to grade. The
  loop in `main` lower-cases the typed action and dispatches to add, search,
  update or delete until "exit".

Layout:

- `Util.dfy`: `Option` and an order-preserving `Filter`, the counterpart of a
  list comprehension with an `if`.
- `Text.dfy`: the parts of Python strings the stores rely on, over ASCII:
  `\d`, `\w`, `str.lower()`, the `in` operator and the `<` order that
  `list.sort` uses.
- `Validators.dfy`: `validate_phone` and `validate_email`. Each is a predicate
  plus lemmas that characterise exactly the strings it accepts.
- `Contacts.dfy`: the phone book as values. A `Store` holds the list, every
  list written to contacts.csv and every log message. Each operation is a
  function from the store before to the store after.
- `Phonebook.dfy`: the class `ContactManager`. Its field `contacts` is changed
  in place, and ghost fields record the saves and the log. Every method is
  proved to produce the new state that the matching `Contacts` function gives.
  This file also holds the finding about menu option 4.
- `Students.dfy`: the grade book as the class `GradeBook`, the dispatch of
  `main` and the whole session as a loop. These are proved against `Step`,
  `Replay` and `Answers`.

Where the files show what a method prints, the model returns it instead:
search results, the grade found, whether an update found its record.

One expectation the code does not meet: a search for a phone number that was
just deleted need not come back empty. The query is also matched against the
names (`Contacts.SearchAfterDeleteMayMatch`).

## Model

| member | source | states |
|---|---|---|
| Util.Filter | phonebook.py:67 | a list comprehension with a condition never yields more elements than it reads |
| Util.FilterMembers | phonebook.py:67 | an element is in the comprehension's result exactly when it was in the list and passes the test |
| Util.FilterAppend | phonebook.py:62 | filtering a concatenation is the concatenation of the filtered parts, so survivors keep their order |
| Util.FilterIdempotent | phonebook.py:67 | filtering twice by the same test gives what filtering once gives |
| Text.Lower | phonebook.py:62 | `str.lower()` keeps the length and lower-cases each character, ASCII capitals only |
| Text.LowerAppend | phonebook.py:62 | lower-casing the concatenated names equals concatenating the lower-cased names |
| Text.LowerIdempotent | student.py:35 | lower-casing an already lower-cased action changes nothing |
| Text.IsSubstring | phonebook.py:62 | Python's `pat in s` on strings: `pat` occurs at some index of `s`; `Contacts.SearchMembers` and `Text.SubstringOfPart` use it |
| Text.EmptyIsSubstring | phonebook.py:62 | `'' in s` holds for every string |
| Text.SubstringOfPart | phonebook.py:62 | text found in one part of a concatenation is found in the whole |
| Text.Below | phonebook.py:95 | Python's `a < b` on strings: the first differing character decides by code point, and a proper prefix comes first; the lemmas below prove it a strict total order |
| Text.BelowIrreflexive | phonebook.py:95 | no string sorts below itself |
| Text.BelowTransitive | phonebook.py:95 | Python's string `<` is transitive |
| Text.BelowTotal | phonebook.py:95 | of two different strings, one is below the other |
| Text.BelowAsymmetric | phonebook.py:95 | `a < b` excludes `b < a` |
| Text.AtMostTransitive | phonebook.py:95 | "not below" is transitive, so the sort order is a total preorder on keys |
| Validators.ValidatePhone | phonebook.py:51-52 | `validate_phone`: the fourteen-character shape `(ddd) ddd-dddd`, or that shape followed by one newline, which `$` lets through; characterised by `Validators.ValidatePhoneIff` |
| Validators.ValidatePhoneIff | phonebook.py:51-52 | a phone number is accepted exactly when it is `(`, three digits, `) `, three digits, `-`, four digits, followed by at most one newline |
| Validators.EmailRun | phonebook.py:55 | the longest prefix of `[\w.-]` characters: all its characters are in the class, and the next one is not |
| Validators.WordTail | phonebook.py:55 | the longest suffix of `\w` characters: all its characters are word characters, and the one before is not |
| Validators.EmailShape | phonebook.py:55 | the email pattern matched in full, as a scan: the local part runs to the first character outside `[\w.-]`, which must be `@`; the rest is all `[\w.-]` and ends in `.` and a non-empty run of word characters; `Validators.EmailShapeIff` proves it equal to the regex read as a split |
| Validators.ValidateEmail | phonebook.py:54-55 | `validate_email`: the pattern matched in full, or matched by the address less one final newline; characterised by `Validators.ValidateEmailIff` and `Validators.ValidEmailParts` |
| Validators.ShapeHasSplit | phonebook.py:54-55 | when the scanning check accepts, the address splits into local part, `@`, domain, `.` and top-level domain |
| Validators.SplitGivesShape | phonebook.py:54-55 | any such split makes the scanning check accept |
| Validators.EmailShapeIff | phonebook.py:54-55 | the scanning check accepts exactly the strings the regex matches in full |
| Validators.ValidateEmailIff | phonebook.py:54-55 | an address is accepted exactly when it, or it less one final newline, matches the regex in full |
| Validators.SplitHasOneAt | phonebook.py:55 | a matched address has its `@` at the split and nowhere else |
| Validators.ValidEmailParts | phonebook.py:54-55 | every accepted address has exactly one `@`, a non-empty local part of `[\w.-]`, then a domain of `[\w.-]`, a `.` and a non-empty run of word characters to the end |
| Contacts.Writable | phonebook.py:22-27 | what the `DictWriter` of `save_contacts` can write: no record holds a key outside the five-column header; otherwise `writerows` raises ValueError |
| Contacts.NewContact | phonebook.py:40-46 | the appended record has exactly the five column keys |
| Contacts.Admit | phonebook.py:34-39 | the two checks of `add_contact` in order: an invalid phone rejects; then a non-empty, invalid email rejects; an empty email is never checked |
| Contacts.AddTo | phonebook.py:33-48 | `add_contact` on the store: a rejected contact changes nothing, not even the files; an admitted one is appended, the list saved and "Added contact: first last" logged; its meaning is `Contacts.AddEffect` |
| Contacts.AddKeepsColumns | phonebook.py:40-46 | after an add, every record still has the five columns |
| Contacts.AddEffect | phonebook.py:33-48 | a rejected add leaves the store unchanged, with nothing saved or logged, and only a rejected add does so; an accepted add appends exactly the new record at the end, keeps earlier records, grows the list by one and saves and logs once |
| Contacts.EmptyEmailNotChecked | phonebook.py:37 | with an empty email only the phone decides whether the contact is added |
| Contacts.Deleted | phonebook.py:67 | the comprehension of `delete_contact`: the records whose "Phone Number" differs from the argument, in order |
| Contacts.DeleteFrom | phonebook.py:66-70 | `delete_contact` on the store: the filtered list, saved and logged whether or not anything matched |
| Contacts.DeleteMembers | phonebook.py:67 | a record survives a delete exactly when it was there and holds a different phone, so none with that phone remains |
| Contacts.DeleteKeepsOrder | phonebook.py:67 | the survivors of a delete keep their relative order |
| Contacts.DeleteIdempotent | phonebook.py:66-70 | deleting twice leaves the same list as deleting once |
| Contacts.DeleteAbsent | phonebook.py:66-70 | deleting a phone nobody holds leaves the list unchanged but still saves and logs |
| Contacts.DeleteKeepsColumns | phonebook.py:67 | after a delete, every record still has the five columns |
| Contacts.Haystack | phonebook.py:62 | the text searched: first name and last name lower-cased, then the phone as stored, with no separator |
| Contacts.SearchHit | phonebook.py:62 | the comprehension's test: the lower-cased query occurs in the haystack |
| Contacts.Matches | phonebook.py:61-62 | the results of `search_contacts`: the records passing the test, in list order; its meaning is `Contacts.SearchMembers` and `Contacts.SearchKeepsOrder` |
| Contacts.SearchMembers | phonebook.py:62 | a record is found exactly when it is stored and the lower-cased query occurs in its lower-cased first name, lower-cased last name and phone, concatenated |
| Contacts.SearchKeepsOrder | phonebook.py:62 | search results come in list order |
| Contacts.SearchEmptyQuery | phonebook.py:62 | the empty query finds every contact |
| Contacts.HitOnFirstName | phonebook.py:62 | a query that occurs in the first name, ignoring case, finds the record |
| Contacts.AddThenSearch | phonebook.py:33-64 | after an accepted add, a search for part of the new first name returns the earlier results followed by the new record |
| Contacts.SearchAfterDeleteMayMatch | phonebook.py:61-70 | after a phone number is deleted, a search for it still returns a record whose first name contains that text |
| Contacts.FirstMatch | phonebook.py:73-74 | the index the update loop stops at: it holds the phone and no earlier record does; no index means no record holds it |
| Contacts.Merge | phonebook.py:75 | each key given a non-empty value is set or added, and every other key keeps its presence and value |
| Contacts.UpdateIn | phonebook.py:72-80 | `update_contact` on the store: the first record holding the phone is merged, then the list is saved and the update logged; with no such record nothing changes; its meaning is `Contacts.UpdateOnlyFirst` and `Contacts.UpdateAbsent` |
| Contacts.UpdateOnlyFirst | phonebook.py:72-80 | an update merges into the first record holding the phone only; the length and every other record, later duplicates included, stay as they were; it saves and logs once |
| Contacts.UpdateAbsent | phonebook.py:72-80 | when no record holds the phone, the update changes nothing and saves and logs nothing |
| Contacts.UpdateBlankKeeps | phonebook.py:75 | a key given a blank value reads the same in every record after the update |
| Contacts.UpdateKeepsColumns | phonebook.py:75 | an update never removes a column |
| Contacts.SortedBy | phonebook.py:95 | ascending by the field under Python's string `<`: no record's key is below an earlier record's key |
| Contacts.SortIn | phonebook.py:94-95 | `sort_contacts` on the store: the list sorted by the field when every record holds it, otherwise unchanged because the KeyError comes before anything moves; never saved or logged |
| Contacts.Insert | phonebook.py:95 | inserting one record gives the old records plus that one, as multisets |
| Contacts.SortBy | phonebook.py:95 | every sorted record still holds the sort key |
| Contacts.InsertSorted | phonebook.py:95 | inserting into an ascending list keeps it ascending |
| Contacts.InsertAtLeast | phonebook.py:95 | inserting keeps any lower bound that the new record and the list respect |
| Contacts.SortBySorted | phonebook.py:94-95 | the sorted list is ascending by the field under Python's string order |
| Contacts.SortByPermutes | phonebook.py:94-95 | the sorted list is a permutation of the old one |
| Contacts.InsertStable | phonebook.py:95 | inserting keeps the order of the records that share a key |
| Contacts.SortByStable | phonebook.py:94-95 | the sort is stable: the records with any one key value keep their relative order |
| Contacts.SortKeepsColumns | phonebook.py:95 | sorting keeps every record's five columns |
| Contacts.FirstBadRow | phonebook.py:85-89 | the import reads every row before this index and fails with a KeyError at it, because that row lacks a first name, last name or phone |
| Contacts.AddRow | phonebook.py:86-92 | the `add_contact` call for one row, with a missing email or address read as `''` |
| Contacts.AddRows | phonebook.py:85-92 | `add_contact` on each row, in order |
| Contacts.ImportInto | phonebook.py:82-92 | `import_contacts`: the rows before the first one lacking a required column are added one by one, and the KeyError then ends the import |
| Contacts.Admitted | phonebook.py:85-92 | the records the rows add, in row order: those of the rows that pass `add_contact`'s checks |
| Contacts.AddRowsSnoc | phonebook.py:85-92 | importing one more row is one more add after the previous ones |
| Contacts.AddRowsEffect | phonebook.py:85-92 | the import appends the records of the admitted rows in row order after the existing ones; a rejected row is skipped, the rows after it are still added, and each added record costs one save and one log line |
| Contacts.ImportEffect | phonebook.py:82-92 | the import appends the admitted records of the rows before the first unreadable row |
| Contacts.AddRowsKeepColumns | phonebook.py:85-92 | imported records have the five columns |
| Phonebook.ContactManager.constructor | phonebook.py:12-20 | the manager starts with the loaded list, no save and no log line |
| Phonebook.ContactManager.AddContact | phonebook.py:33-48 | reports the check that failed or success, and leaves exactly the store `AddTo` gives, whose meaning `Contacts.AddEffect` states |
| Phonebook.ContactManager.SearchContacts | phonebook.py:61-64 | returns the matching records in list order, without changing the manager |
| Phonebook.ContactManager.DeleteContact | phonebook.py:66-70 | leaves the filtered list, one more save and one log line |
| Phonebook.ContactManager.UpdateContact | phonebook.py:72-80 | its loop stops at the first record holding the phone, merges the changes into it, then saves and logs; `found` is false exactly when no record holds the phone, and then nothing changes |
| Phonebook.ContactManager.ImportContacts | phonebook.py:82-92 | its loop makes one add per row, in order, and stops at the first row lacking a required column; `completed` says whether every row was read |
| Phonebook.ContactManager.SortContacts | phonebook.py:94-95 | sorts stably by the field when every record has it, and otherwise leaves the list as it was; never saves or logs |
| Phonebook.MenuChanges | phonebook.py:134 | the keyword arguments menu option 4 passes: `first_name`, `last_name`, `email` and `address` |
| Phonebook.MenuUpdateMissesColumns | phonebook.py:134 | an update from menu option 4 as written leaves all five columns as they were, and a non-blank address adds a key outside the header |
| Phonebook.MenuColumnUpdate | phonebook.py:127-134 | keyed by the columns, each non-blank answer is set, each blank one keeps the current value, the phone stays and no key is added |
| Phonebook.JaneAdmitted | phonebook.py:51-55 | "(555) 123-4567" and "jane@example.com" pass both checks |
| Phonebook.AddToEmpty | phonebook.py:33-48 | an accepted add to an empty store gives one record, one save and one log line |
| Phonebook.UpdateSingle | phonebook.py:72-80 | updating the only record, which holds the phone, merges into it, then saves and logs |
| Phonebook.DeleteSingle | phonebook.py:66-70 | deleting the phone of the only record empties the list, saves the empty list and logs |
| Phonebook.NewAddress | phonebook.py:129-134 | answering only a new address changes the address of a fresh record and nothing else |
| Phonebook.AddThenMove | phonebook.py:127-134 | add to an empty store, then change the address through the column-keyed menu: one record, then that record with the new address, with two log lines, and the list is one `save_contacts` can write |
| Phonebook.MenuMoveKeepsAddress | phonebook.py:134 | the same steps through the menu as written leave the address unchanged and give the record an "address" key outside the header, so the save that follows raises |
| Students.Lookup | student.py:9-10 | `student_data.get(name)` tested for truthiness: the grade when the name is present with a non-empty grade, otherwise none |
| Students.Regraded | student.py:15-22 | an update never adds or removes a name |
| Students.Removed | student.py:24-30 | a delete removes the name and keeps every other entry with its grade |
| Students.RemovedFrame | student.py:24-30 | the names after a delete are exactly the names before it, less the deleted one |
| Students.ParseAction | student.py:35-46 | the dispatch of `main`: the action lower-cased, then compared with "add", "search", "update", "delete" and "exit"; anything else is invalid |
| Students.ParseIgnoresCase | student.py:35 | the action is recognised regardless of capitals |
| Students.Step | student.py:35-47 | one request changes at most the entry of the name it gives, and only add, update and delete change anything |
| Students.Replay | student.py:32-47 | after a session, every name is either one that was there at the start or one that an add request stored |
| Students.Answers | student.py:38-39 | what the searches of a session print, in order, up to the first exit |
| Students.ReplayExit | student.py:44-45 | nothing typed after "exit" changes the grades or the answers |
| Students.ReplayReadOnly | student.py:38-39 | a session of searches and invalid actions leaves the grades as they were |
| Students.ReplayUntouched | student.py:32-47 | a name no request mentions keeps its entry, or its absence, to the end |
| Students.AddThenSearch | student.py:1-13 | a search right after adding a name returns the grade, or "no record" when the grade is empty |
| Students.UpdateAbsent | student.py:15-22 | updating an absent name changes nothing |
| Students.DeleteThenSearch | student.py:7-30 | after a delete, a search for the name finds no record |
| Students.ReplayUnfold | student.py:34-47 | one pass of the loop: a request other than exit is applied, then the session continues |
| Students.GradeBook.constructor | student.py:33 | the book starts empty |
| Students.GradeBook.AddStudent | student.py:1-5 | the name now maps to the grade and every other entry stays |
| Students.GradeBook.SearchStudent | student.py:7-13 | returns the grade exactly when the name is present with a non-empty grade, and changes nothing |
| Students.GradeBook.UpdateStudent | student.py:15-22 | `found` says whether the name was present; only then is its grade replaced |
| Students.GradeBook.DeleteStudent | student.py:24-30 | `found` says whether the name was present; only then is it removed |
| Students.Dispatch | student.py:36-47 | the action chain calls the operation the lower-cased action names and changes the book as `Step` says |
| Students.Session | student.py:32-47 | the loop from an empty book ends with the grades `Replay` gives and the search answers `Answers` gives |

## Left out

- File I/O. `load_contacts` and `save_contacts` are modelled only as their
  effect: the loaded list is the constructor's parameter, and each save is
  recorded in the ghost history. CSV parsing and writing are not modelled.
  This includes `DictReader` filling short rows with `None`. Of `DictWriter`,
  only the condition under which it raises is modelled (`Contacts.Writable`).
- Timestamps of log lines. The log keeps only the action text, because
  `datetime.now()` is a clock.
- `print` and `input()`. Inputs are parameters. What is printed is a return
  value or is left out.
- `view_contacts`, because it only prints.
- The interactive loops of phonebook.py `main`, apart from the keywords that
  menu option 4 passes.
- Unicode. `\d`, `\w` and `str.lower()` are modelled on ASCII. Python applies
  them to all of Unicode.
- Default arguments. Each operation takes all of its arguments.
- Phonebook.ContactManager.constructor requires every loaded record to have the
  five columns. A file without them makes the later lookups raise KeyError, and
  that is not modelled.
- Phonebook.ContactManager.UpdateContact replaces the matched record in the
  list with its merged copy. The source mutates the dictionary in place. No
  other reference to a record exists, so the aliasing is not modelled.
- Phonebook.ContactManager.SortContacts is specified by a stable insertion sort
  written as a function. CPython's sort algorithm is not modelled, only the
  result it promises. On a missing key the list is unchanged, because CPython
  computes every key before it moves anything.
- Phonebook.ContactManager.ImportContacts takes the rows already read. Opening
  the file, and a missing file, are not modelled.
- Phonebook.MenuMoveKeepsAddress states that the save would raise
  (`!Writable`), not what follows. In the model every save succeeds, so
  `UpdateIn` still records the save and the log line. In the source the
  ValueError comes before `log_action`, after `open(..., 'w')` has emptied
  contacts.csv, and it ends `main`.
- Contacts.AddRowsEffect states only the lengths of the save history and the
  log, not their contents.
- Students.Session stops when the requests run out. `main` would instead wait
  for more input.
- The Django views and forms under student_management/ and week4/. They are
  ORM request handlers that refer to undefined names, and they are not part of
  this model.

## Findings

| source | as written | input that shows it | evidently intended | confidence | as-written member | corrected member |
|---|---|---|---|---|---|---|
| phonebook.py:134 | menu option 4 calls `update_contact` with the keywords `first_name`, `last_name`, `email` and `address`. These are not the column names "First Name" and so on, so the merge adds new keys and changes no column. The following `save_contacts` then meets keys outside its header. | add Jane Doe with phone "(555) 123-4567" and address "1 Main St", then choose 4 for that phone and answer only the address "2 Oak Ave": in memory "Address" stays "1 Main St" and the record gains an "address" key; the save then raises ValueError, so nothing is logged, contacts.csv is left with the header and only the rows before the updated record, and `main` ends | the answers replace the named columns, and blank answers keep the current value, as the prompt says | not executed | Phonebook.MenuMoveKeepsAddress | Phonebook.AddThenMove |
