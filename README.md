# Task store of cli-task-manager, in Dafny

This project models the core of the command-line task manager: the `TaskService`
store (src/service.py), the record shapes it validates (src/schemas.py) and the
enumerations and sort-rank tables they use (src/constants.py).

- `Constants` has the status, priority and category enumerations. Each one has its
  string values, a lookup from a value back to its member, and a rank table.
- `Text` has the Python string primitives the store relies on: `\w`, `\s`,
  `str.lower()`, `str.strip()` and the `<` order on strings.
- `Dates` has the `deadline` field. It is a calendar date that is validated from,
  and rendered as, `YYYY-MM-DD`.
- `Schemas` has `TaskCreate`, `TaskRead` and `TaskUpdate`. It covers their field
  validation, including the name validator, and `serialize_model`. It also covers
  the `model_dump` forms that `add` and `update` build on.
- `Sorting` has `_basic_sorting_key` and the stable `sorted` that `get_all` and
  `find` use.
- `Search` has the query normalisation of `find` and the whole-word, case-insensitive
  matching of `\bkeyword\b`.
- `Service` has the store itself. `TaskService` is a class that holds the task list
  and the contents of the data file. Its methods are `Add`, `Find`, `GetById`,
  `Delete`, `Update` and `SaveData`, and its functions are `GetAll` and the three
  filters.

The data file is modelled as the sequence of serialised records it holds, or `None`
while it does not exist. The new id that `add` draws from `uuid4` is a parameter.

Where the code and its docstrings disagree, the model follows the code:

- `get_by_category`, `get_by_status` and `get_by_category_and_status` return their
  tasks in list order. Their docstrings say the lists are sorted, but they are not.
- `_load_data` says an empty file gives an empty list. Its `json.load` would raise
  on an empty file instead. Here, only a file that does not exist gives the empty list.
- A query with no word character becomes the single empty keyword. Its pattern
  `\b\b` then selects every task whose name or description holds a word character.

`Service.Construct` and `Service.Revalidate` are the two validating constructor calls
inside `add` and `update`, written as separate methods.

## Model

| member | source | states |
|---|---|---|
| Constants.ParseStatus | src/constants.py:9-11 | Lookup by value finds the member whose value is the text, and fails exactly when no member has that value. |
| Constants.ParsePriority | src/constants.py:14-17 | The same for the three priorities. |
| Constants.ParseCategory | src/constants.py:20-23 | The same for the three categories. |
| Constants.StatusValue | src/constants.py:9-11 | The string value of each status, `completed` or `not_completed`. Its partner lemmas are ValuesRoundTrip and ValuesInjective. |
| Constants.PriorityValue | src/constants.py:14-17 | The string value of each priority, `low`, `normal` or `high`. Its partner lemmas are ValuesRoundTrip and ValuesInjective. |
| Constants.CategoryValue | src/constants.py:20-23 | The string value of each category, `work`, `study` or `personal`. Its partner lemmas are ValuesRoundTrip and ValuesInjective. |
| Constants.ValuesRoundTrip | src/constants.py:9-23 | Looking up the value of any member gives that member back. |
| Constants.EnumsAreClosed | src/constants.py:9-23 | There are two statuses, three priorities and three categories, each listed once. |
| Constants.ValuesInjective | src/constants.py:9-23 | Distinct members have distinct values. |
| Constants.StatusRank | src/constants.py:26-29 | The rank of a status is its place in the order not_completed, completed. |
| Constants.PriorityRank | src/constants.py:30-34 | The rank of a priority is its place in the order high, normal, low. |
| Constants.CategoryRank | src/constants.py:35-39 | The rank of a category is its place in the order work, study, personal. |
| Text.IsWordChar | src/service.py:98 | `\w`: an ASCII letter, a digit or the underscore. WordCharIsNotSpace keeps it apart from `\s`. |
| Text.IsSpace | src/service.py:98 | `\s`: tab to carriage return, the separators 0x1C to 0x1F, and the space. |
| Text.LowerChar | src/service.py:122 | `lower()` maps an ASCII capital to its small letter, leaves every other character alone and keeps word characters as word characters. |
| Text.Lower | src/service.py:122 | `lower()` keeps the length and lowers each character in place. |
| Text.StripStart | src/service.py:100 | `lstrip()` leaves a suffix of the text. Everything before it is whitespace, and the suffix does not start with whitespace. |
| Text.StripEnd | src/service.py:100 | `rstrip()` leaves a prefix of the text. Everything after it is whitespace, and the prefix does not end with whitespace. |
| Text.Strip | src/service.py:100 | `strip()` leaves a slice of the text with only whitespace on either side, and the slice neither starts nor ends with whitespace. |
| Text.StripParts | src/service.py:100 | `strip()` is `lstrip()` after `rstrip()`. What it leaves is a slice of the text with only whitespace before and after it, and the slice neither starts nor ends with whitespace. |
| Text.BlankIffAllSpace | src/schemas.py:20 | `strip()` leaves nothing exactly when every character is whitespace. |
| Text.StrLess | src/service.py:63 | `<` on names: code-point lexicographic order, where a proper prefix comes first. The three lemmas below prove it is a strict total order. |
| Text.StrLessIrreflexive | src/service.py:63 | No name sorts before itself. |
| Text.StrLessTransitive | src/service.py:63 | The order on names is transitive. |
| Text.StrLessTotal | src/service.py:63 | Of two distinct names, one sorts before the other. |
| Dates.DaysInMonth | src/schemas.py:12 | Months have 28 to 31 days, and 29 only for February of a leap year. |
| Dates.DateLess | src/service.py:61 | `<` on deadlines: year, then month, then day. DateLessIsChronological makes it the order of day numbers. |
| Dates.DateLessIsChronological | src/service.py:61 | Comparing deadlines field by field is comparing their day numbers since 0001-01-01. |
| Dates.DateLessIsStrictTotalOrder | src/service.py:61 | The order on deadlines is irreflexive, transitive and total. |
| Dates.Digits | src/schemas.py:43 | A number below 10^width is written with exactly `width` digits, and those digits read back as the number. |
| Dates.DigitsOfValue | src/schemas.py:12 | A digit string is the zero-padded rendering of its own value. |
| Dates.FormatDate | src/schemas.py:43 | `str(deadline)`: ten characters with `-` at positions 4 and 7. ParseFormat proves that validation reads them back as the date. |
| Dates.ParseDate | src/schemas.py:12 | Validating a deadline text accepts only the ten-character `YYYY-MM-DD` shape. FormatParse and ParseDigitFields pin down what it accepts. |
| Dates.ParseFormat | src/schemas.py:43 | Validating the `YYYY-MM-DD` text of a date gives the date back. |
| Dates.FormatParse | src/schemas.py:12 | A deadline text that validates is exactly the text of its date. |
| Dates.ParseDigitFields | src/schemas.py:12 | A text of the form `YYYY-MM-DD` is accepted exactly when its three numbers form a real calendar date. |
| Dates.AcceptedDeadline | tests/test_task_service.py:25 | "2024-12-21" is accepted as 21 December 2024. |
| Dates.MonthOutOfRange | tests/test_task_service.py:52 | "2024-20-08" is rejected. |
| Dates.MalformedDeadlines | tests/test_task_service.py:56-57 | "", "2024 12 22" and "2024:12:22" are rejected. |
| Dates.LeapDay | src/schemas.py:12 | 29 February 2024 is accepted. |
| Dates.NoLeapDay | src/schemas.py:12 | 29 February 2023 is rejected. |
| Schemas.FieldListsComplete | src/schemas.py:8-53 | A stored task has all seven fields. An update has every field except the id. The base schema has five fields. |
| Schemas.ValidName | src/schemas.py:17-23 | `validate_author`: the name holds something besides whitespace. ValidNameIsStripTest makes it the validator's own `strip()` test. |
| Schemas.ValidNameIsStripTest | src/schemas.py:17-23 | A name passes the validator exactly when `strip()` leaves something of it. |
| Schemas.FieldOk | src/schemas.py:9-13 | The name must pass its validator, an enum field must be one of its values and the deadline a calendar date; description and id accept any text. |
| Schemas.FieldErrors | src/schemas.py:8-32 | Validation errors are empty exactly when every required field is present and valid. Each entry names a field that is missing or rejected, and every such field gets one. |
| Schemas.PresentFieldErrors | src/schemas.py:47-53 | For optional fields, there are no errors exactly when every supplied value passes. Each error is a supplied value that is rejected, and every supplied value that is rejected is reported. |
| Schemas.FieldText | src/schemas.py:36-44 | Each field as `serialize_model` writes it: enums by value and the deadline as `str(date)`. FieldTextValid and SerializeRoundTrip are its partners. |
| Schemas.FieldTextValid | src/schemas.py:34-44 | Each rendered field passes its own validation. The name passes exactly when it is not blank. |
| Schemas.Serialize | src/schemas.py:34-44 | `serialize_model` renders all seven fields. |
| Schemas.DumpCreate | src/schemas.py:26-27 | `model_dump()` of a creation payload has exactly the five base fields. |
| Schemas.DumpCreateValues | src/schemas.py:26-27 | The dumped name and description are the payload's own. The model writes each enum member as its value and the deadline as its `YYYY-MM-DD` text, which validation maps back to the same member and date. |
| Schemas.DumpUpdate | src/schemas.py:47-53 | `model_dump(exclude_none=True)` holds exactly the fields the update supplies, and never an id. |
| Schemas.ParsedRendersBack | src/schemas.py:30-44 | A task parsed from valid fields has a valid name, and each of its fields renders back to the text it came from. |
| Schemas.ValidateRead | src/schemas.py:30-44 | `TaskRead` validation succeeds exactly when every field is present and valid. On success, each field of the task renders back to its input text. On failure, it reports every bad field. |
| Schemas.ParsedCreateRendersBack | src/schemas.py:26-27 | A payload parsed from valid fields dumps back to those fields. |
| Schemas.ValidateCreate | src/schemas.py:8-27 | `TaskCreate` validation succeeds exactly when the five base fields are present and valid, and the result dumps back to them. |
| Schemas.ParsedUpdateRendersBack | src/schemas.py:47-53 | An update parsed from fields dumps back to those fields, without the id. |
| Schemas.ValidateUpdate | src/schemas.py:47-53 | `TaskUpdate` validation succeeds exactly when each supplied field other than the name is valid. The name is checked later, on the merged task. |
| Schemas.RenderingInjective | src/schemas.py:34-44 | Two tasks with the same rendering are the same task. |
| Schemas.SerializeRoundTrip | src/schemas.py:30-44 | Validating the serialised form of a task gives the task back. A blank name is the only thing that can make it fail. |
| Schemas.OnlyNameFails | src/schemas.py:17-23 | When only the name is bad, the errors are exactly one invalid-name entry. |
| Schemas.Merge | src/service.py:169-171 | The merged task keeps the id. Each field the update supplies is overwritten, and every other field is kept. |
| Schemas.MergeLaws | src/service.py:169-171 | An empty update changes nothing, and applying an update twice is the same as applying it once. |
| Schemas.DumpThenUpdate | src/service.py:169-171 | The task's dump, updated with the supplied fields, is the dump of the merged task. |
| Schemas.UpdateRevalidates | src/service.py:169-172 | Re-validating the merged record gives the merge, or an invalid-name error when the new name is blank. |
| Schemas.NewTask | src/service.py:79 | The new task has the given id and status not_completed, and its base fields are the payload's. |
| Schemas.NewTaskValidates | src/service.py:79 | Building the new task re-runs validation, which fails only on a blank name. |
| Sorting.SortKey | src/service.py:57-64 | `_basic_sorting_key`: the priority rank, status rank, deadline, category rank and name. SameKeyIffSameFields says which tasks share a key. |
| Sorting.KeyLess | src/service.py:57-64 | Tuple `<`: the first position where two keys differ decides. KeyLessIrreflexive, KeyLessTransitive and KeyLessTotal make it a strict total order. |
| Sorting.SameKeyIffSameFields | src/service.py:57-64 | Two tasks share a key exactly when they agree on priority, status, deadline, category and name. |
| Sorting.KeyLessIrreflexive | src/service.py:57-64 | No key sorts before itself. |
| Sorting.KeyLessTransitive | src/service.py:57-64 | Tuple order on keys is transitive. |
| Sorting.KeyLessTotal | src/service.py:57-64 | Of two distinct keys, one sorts before the other. |
| Sorting.WithKeyAppend | src/service.py:90 | The tasks with a given key in a concatenation are those of each part, in order. |
| Sorting.WithKeyEmpty | src/service.py:90 | No task has the key exactly when the tasks with that key are none. |
| Sorting.InsertCount | src/service.py:90 | Inserting a task adds exactly one occurrence of it. |
| Sorting.SortByKey | src/service.py:90 | The sort is a permutation of its input. |
| Sorting.ConsSorted | src/service.py:90 | A task that nothing after it sorts before can go in front of a sorted list. |
| Sorting.InsertSorted | src/service.py:90 | Inserting into a sorted list keeps it sorted. |
| Sorting.InsertWithKey | src/service.py:90 | Inserting puts the new task after every task with the same key. |
| Sorting.KeyBelowHeadAbsent | src/service.py:90 | A key below the head of a sorted list does not occur in it. |
| Sorting.SortByKeyIsStableSort | src/service.py:90 | The sort is sorted, a permutation, and keeps tasks with equal keys in their list order. |
| Sorting.StableSortUnique | src/service.py:90 | Two sorted lists with the same tasks for every key, in the same order, are equal. |
| Sorting.HeadKeyIsLeast | src/service.py:90 | In a sorted list, a key that occurs is not below the key of the head. |
| Sorting.StableSortIsSortByKey | src/service.py:90 | Any stable sort of a list is the insertion sort of it, so it is what `sorted` returns. |
| Search.RemovePunct | src/service.py:98 | What is left after removing punctuation holds only word characters and whitespace. RemovePunctChar and RemovePunctAppend pin it down. |
| Search.RemovePunctChar | src/service.py:98 | A single character stays when it is a word character or whitespace, and is deleted otherwise. |
| Search.RemovePunctKeeps | src/service.py:98 | A query without punctuation is unchanged, and the query keeps a word character exactly when it had one. |
| Search.CollapseSpaces | src/service.py:99 | Collapsing spaces keeps the first and last character. CollapseSpacesDouble and CollapseSpacesIdentity pin it down. |
| Search.CollapseSpacesSpec | src/service.py:99 | Collapsing removes only spaces and leaves no two spaces in a row. |
| Search.CollapseSpacesUnspaced | src/service.py:99 | Collapsing removes spaces and nothing else. |
| Search.CollapseSpacesNoDouble | src/service.py:99 | After collapsing, no two spaces are in a row. |
| Search.CollapseSpacesIdentity | src/service.py:99 | A text without a double space is left as it is. |
| Search.CollapseSpacesIdempotent | src/service.py:99 | Collapsing twice is the same as collapsing once. |
| Search.CollapseSpacesDouble | src/service.py:99 | Two spaces in a row collapse to one space wherever they stand, so each run of spaces becomes a single space. |
| Search.UnspacedWordChars | src/service.py:99 | Removing spaces keeps exactly the word characters. |
| Search.StripStartKeeps | src/service.py:100 | `lstrip()` keeps every word character and adds no double space. |
| Search.StripEndKeeps | src/service.py:100 | `rstrip()` keeps every word character and adds no double space. |
| Search.StripKeepsWordChars | src/service.py:100 | `strip()` keeps every word character and adds no double space. |
| Search.IndexOfSpace | src/service.py:102 | Finds the first space, or the length when there is none. |
| Search.Split | src/service.py:102 | `split(" ")` gives at least one piece, and no piece holds a space. |
| Search.JoinSplit | src/service.py:102-103 | Joining the pieces with single spaces gives the text back. |
| Search.SplitJoin | src/service.py:102 | Splitting pieces joined by single spaces gives the pieces back. |
| Search.SplitPiecesNonEmpty | src/service.py:102 | With no space at either end and no two in a row, every piece is non-empty. |
| Search.Normalised | src/service.py:98-100 | The query with punctuation removed, runs of spaces collapsed and surrounding whitespace stripped. NormalisedWordChars, NormalisedEnds and WordQueryShape state its properties. |
| Search.Keywords | src/service.py:98-102 | The keywords are at least one, and none holds a space. |
| Search.NormalisedWordChars | src/service.py:98-100 | The normalised query has a word character exactly when the query does. |
| Search.KeywordsOfQuery | src/service.py:98-102 | A query without a word character becomes the single empty keyword. Any other query gives only non-empty keywords. |
| Search.CollapseSpacesKept | src/service.py:99 | Collapsing keeps a text made only of word characters and whitespace that way. |
| Search.StrippedKeptHasWordChar | src/service.py:100 | A stripped text of word characters and whitespace is empty or holds a word character. |
| Search.CollapseStep | src/service.py:99 | Collapsing a text of word characters and whitespace keeps it that way, keeps whether it has a word character and leaves no double space. |
| Search.StripStep | src/service.py:100 | Stripping such a text keeps whether it has a word character and adds no double space. A non-empty result holds a word character. |
| Search.NormalisedEnds | src/service.py:98-100 | The normalised query neither starts nor ends with a space. |
| Search.WordQueryShape | src/service.py:98-100 | A query with a word character normalises to a non-empty text with no space at either end and no two spaces in a row. |
| Search.KeywordsOfBlankQuery | src/service.py:98-102 | The keywords are the single empty keyword exactly when the query has no word character. |
| Search.KeywordsOfWordQuery | src/service.py:98-102 | A query with a word character gives only non-empty keywords. |
| Search.MatchesAt | src/service.py:103 | `\bkeyword\b` at a position: the window equals the keyword ignoring case, and both ends are word boundaries. |
| Search.Mentions | src/service.py:107 | `re.findall(query, text, re.IGNORECASE)` is non-empty. MentionsIffOccurs makes it a match of some keyword somewhere. |
| Search.MatchesAnyIff | src/service.py:103 | The alternation matches at a position exactly when one of its keywords does. |
| Search.MentionsFromIff | src/service.py:107 | The scan from a position finds a match exactly when some keyword matches at or after it. |
| Search.MentionsIffOccurs | src/service.py:107 | `findall` finds something exactly when some keyword matches somewhere as a whole word. |
| Search.FirstWordChar | src/service.py:103 | A text with a word character has a first one, with no word character before it. |
| Search.EmptyKeywordMatches | src/service.py:103 | The empty keyword matches exactly the texts that hold a word character. |
| Search.MatchesAtLowered | src/service.py:107 | Lowering the text does not change where a keyword matches, ignoring case. |
| Search.MentionsIgnoresCase | src/service.py:107 | Matching ignores the case of the text. |
| Search.MentionsLoweredKeywords | src/service.py:107 | Matching ignores the case of the keywords. |
| Search.MatchesLoweredKeyword | src/service.py:107 | Lowering a keyword does not change where it matches. |
| Search.RemovePunctAppend | src/service.py:98 | Removing punctuation works piece by piece. |
| Search.StripIdentity | src/service.py:100 | A text with no whitespace at either end is its own `strip()`. |
| Search.NormalQueryKeywords | src/service.py:98-102 | A query that is already normal has its space-separated pieces as its keywords. |
| Search.TabStaysInKeyword | src/service.py:99-102 | A tab is neither collapsed nor split on, so it stays inside a keyword. |
| Search.MismatchAt | src/service.py:103-107 | A differing character, ignoring case, rules out a match at that position. |
| Search.WholeWordFound | tests/test_task_service.py:226 | "task" is found in "test task". |
| Search.NoMatch | src/service.py:107 | A keyword that matches at no position does not occur. |
| Search.LongerWordNotFound | tests/test_task_service.py:229 | "tasks" is not found in "test task". |
| Search.PartOfWordNotFound | src/service.py:103 | "task" is not found inside "tasks", because a match must end at a word boundary. |
| Service.Encode | src/service.py:13-23 | The saved file holds each task's serialised record, in list order. |
| Service.FirstErr | src/service.py:52 | Gives the first failing record, with every record before it valid. |
| Service.Collect | src/service.py:52 | The comprehension yields every value when no element fails, and otherwise the error of the first failure. |
| Service.ValidateAll | src/service.py:52 | Each record is validated on its own, in file order. |
| Service.LoadEntries | src/service.py:52 | Loading succeeds exactly when every record validates, and gives their tasks in order. Otherwise it raises the errors of the first bad record. |
| Service.LoadData | src/service.py:41-54 | A missing file gives no tasks. An existing file gives what validating its records in order gives. Every loaded task has a valid name. |
| Service.SaveLoadRoundTrip | src/service.py:41-74 | Saving a list of valid tasks and loading it again gives the same list. |
| Service.Test | src/service.py:130-140 | The condition of each comprehension: equality of the member with the given text, or a mention of a keyword in name or description. |
| Service.Filter | src/service.py:130-140 | A list comprehension with a condition: the result is never longer than the list. FilterCount, FilterMembers and FilterAppend pin it down. |
| Service.Select | src/service.py:130-140 | The tasks a selection keeps: exactly the tasks of the list that pass its test. |
| Service.FilterCount | src/service.py:130 | A kept task occurs in the result as often as in the list, and any other task not at all. |
| Service.FilterMembers | src/service.py:130 | The result holds exactly the tasks of the list that pass the test. |
| Service.FilterAppend | src/service.py:105-114 | Filtering a concatenation filters each part in order. |
| Service.FilterBoth | src/service.py:140 | Filtering by a conjunction is filtering by one test and then by the other. |
| Service.FilterNone | src/service.py:130-135 | A test that no task passes keeps nothing. |
| Service.SelectBoth | src/service.py:137-140 | Selecting by category and status is selecting by category and then by status. |
| Service.UnknownValueSelectsNothing | src/service.py:127-140 | A text that is not the value of any category or status selects no task, alone or combined. |
| Service.FirstWithId | src/service.py:121-123 | Gives the first task whose id equals the given one, ignoring case, with none before it. |
| Service.FirstWithIdIsFirst | src/service.py:121-123 | A matching position with no match before it is the one found. |
| Service.IndexOf | src/service.py:154 | Gives the first element equal to the task. |
| Service.RemoveFirst | src/service.py:154 | `list.remove` makes the list one element shorter. |
| Service.RemoveFirstCount | src/service.py:154 | `list.remove` takes exactly one occurrence of the task out of the list. |
| Service.RemoveFound | src/service.py:150-154 | Removing the task found by id removes exactly the found position. |
| Service.DropKeepsValid | src/service.py:154 | Removing one task from a list of valid tasks leaves only valid tasks. |
| Service.AddedTaskIsFound | src/service.py:76-85 | A task added with a fresh id is what a lookup of that id finds. |
| Service.DeletedTaskIsGone | src/service.py:142-157 | After a delete, when ids were distinct, no task with that id is left. |
| Service.UpdatedTaskIsFound | src/service.py:159-172 | An update keeps the id, so the updated task is still the one a lookup finds. |
| Service.FoundMembers | src/service.py:92-116 | `find` returns every task whose name or description mentions a keyword, and only those. |
| Service.Construct | src/service.py:79 | Building the new task gives the new task, or an invalid-name error when the name is blank. |
| Service.Revalidate | src/service.py:169-172 | Re-validating gives the merged task, or an invalid-name error when the new name is blank. |
| Service.TaskService.Open | src/service.py:27-38 | The store holds the loaded tasks, or opening raises the first validation error. |
| Service.TaskService.SaveData | src/service.py:66-74 | The file is overwritten with the encoding of the current list, and the list is unchanged. For a valid store, loading the file gives the list back. |
| Service.TaskService.Add | src/service.py:76-85 | The new task is appended and saved when asked. A blank name is an error that leaves the list alone. A fresh id keeps the ids distinct. |
| Service.TaskService.GetAll | src/service.py:87-90 | Returns a stable sort of the list by the five-part key. |
| Service.TaskService.Find | src/service.py:92-116 | Returns the tasks whose name or description mentions a keyword of the query, stably sorted by the key. |
| Service.TaskService.Mentioning | src/service.py:105-114 | The loop keeps, in list order, the tasks whose name or description mentions a keyword. |
| Service.TaskService.GetById | src/service.py:118-125 | Returns the first task whose id equals the given one ignoring case, and `None` exactly when no task has it. |
| Service.TaskService.GetByCategory | src/service.py:127-130 | Returns exactly the tasks of that category, in list order. An unknown category selects none. |
| Service.TaskService.GetByStatus | src/service.py:132-135 | Returns exactly the tasks with that status, in list order. An unknown status selects none. |
| Service.TaskService.GetByCategoryAndStatus | src/service.py:137-140 | Returns exactly the tasks with both values, as the status filter of the category filter. An unknown value selects none. |
| Service.TaskService.Delete | src/service.py:142-157 | The first task with that id is removed and the rest keep their order. A missing id raises and changes nothing. |
| Service.TaskService.Update | src/service.py:159-179 | The first task with that id becomes its merge with the update. A blank new name or a missing id raises and changes nothing. |

## Left out

- File I/O and JSON text: the data file is modelled as the records it holds, and a malformed JSON document is not modelled.
- Service.LoadData: an existing but empty file is not modelled. `json.load` would raise on it, while the docstring promises an empty list.
- The `uuid4` call in `add`: the new id is a parameter. Id uniqueness is proved only under the condition that the id is fresh.
- Text.IsWordChar, Text.IsSpace and Text.Lower: ASCII only. Unicode `\w`, `\s` and case mapping are not modelled.
- Schemas.DumpCreate, Schemas.DumpUpdate: pydantic's `model_dump()` of `TaskCreate` and `TaskUpdate` gives enum members and a `date` object, since only `TaskRead` has a `model_serializer`. The model writes them as their string value and `YYYY-MM-DD` text instead. Validation maps those back to the same member and date (ValuesRoundTrip, ParseFormat), so the task built from the dump is the same.
- Dates.ParseDate: deadline texts other than `YYYY-MM-DD` that pydantic's `date` may also accept, such as a datetime text with a zero time, are not modelled.
- Schemas.ValidateRead: values arrive as text. Pydantic's lax coercions are not modelled, such as a number given for a string field or a `date` object given as a deadline, and neither is the exact wording of its errors.
- Service.TaskService.GetById: the `AttributeError` raised for an id that is not a string is not modelled, because the model types ids as strings.
- Service.TaskService.Delete: the `ValueError` that `list.remove` would raise cannot happen, because the task was just found in the list, so it is not modelled.
- Service.TaskService.Find: the multi-word queries of the test suite ("updated   task", "get, update", "%get  &  updated!", " get  ") are not worked out as example lemmas. Their keywords follow from RemovePunctChar, RemovePunctAppend, CollapseSpacesDouble, CollapseSpacesIdentity, Strip and SplitJoin, but each literal would need its own long proof.
- The click command-line interface (src/commands.py), setup.py and src/exceptions.py are not part of this model. The exception class is the `TaskDoesNotExists` constructor of `ServiceError`.
- Concurrency and two stores sharing one file are not modelled.
