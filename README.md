# ESD-Grading lab signoffs, modelled in Dafny

ESD-Grading is a Django site on which instructors and teaching assistants
sign off the parts of a course's labs for each student. The core modelled
here has four parts:

- **The data model** (`labs/models.py`):
  - labs, their parts and each part's quality criteria;
  - students;
  - signoffs, one per (student, part) pair, each pending, approved or rejected;
  - the completion percentages computed from them.
- **The server views** (`labs/views.py`):
  - `quick_signoff`, which creates or updates a signoff;
  - the student search behind the autocomplete;
  - the part and criteria listings;
  - the overall completion figure of the home page.
- **The browser scripts**:
  - the signoff page (`static/labs/js/signoff.js`): selecting a student, drawing the grading radios and the evaluation sheet, restoring a stored signoff, submitting, resetting;
  - the student autocomplete (`static/labs/js/autocomplete.js`);
  - the shared page script (`static/js/main.js`): navigation highlight, table sorting, dynamic formset rows.
- **Administration**:
  - the `has_role` template filter and the password check of the user-role form;
  - the `setup_roles.py` script that builds the three permission groups and the first superuser;
  - migration 0004, which creates the default evaluation rubric and moves legacy evaluation fields into it;
  - the `create_default_criteria` management command.

Database tables are maps keyed by primary key. The signoff table is keyed by
the (student, part) pair, which is its `unique_together` constraint. Page
state lives in Dafny classes whose methods change it in place:

- `SignoffForm.SignoffPage`
- `Autocomplete.StudentAutocomplete`
- `Formsets.Formset`
- `Database.Db`
- `RoleSetup.AuthStore`
- `Maintenance.EvaluationTables`

The loops of the scripts are methods with loop invariants, each proved against a function that specifies it.

The files are:

| file | module | models |
|---|---|---|
| `strings.dfy` | `Strings` | the string operations the sources rely on: JavaScript `replace`, `split`, `trim` and `parseInt`, Python `int`, case-insensitive containment |
| `records.dfy` | `Records` | the entities of `labs/models.py`, their defaults and orderings |
| `grading.dfy` | `Grading` | the pure rules of the signoff page: score levels, status derivation, badge colours, input names, defaults, CSRF cookie |
| `signoff_form.dfy` | `SignoffForm` | the signoff page's form state and handlers |
| `autocomplete.dfy` | `Autocomplete` | the student autocomplete widget |
| `listing.dfy` | `Listing` | the ORM's `ORDER BY` on a filtered query: the matching rows, each once, in a model's default ordering |
| `database.dfy` | `Database` | the views and the completion percentages |
| `formsets.dfy` | `Formsets` | `main.js`: sorting, navigation, formset rows |
| `access.dfy` | `Access` | `has_role` and `UserRoleForm.clean` |
| `role_setup.dfy` | `RoleSetup` | `setup_roles.py` |
| `maintenance.dfy` | `Maintenance` | migration 0004 and the `create_default_criteria` command |

Several behaviours of the code, as written, show up as proved facts about the model:

- `quick_signoff` reads only form-encoded data, so a POST whose body is JSON is answered "Student or Part not found" and saves nothing (`Database.JsonBodyIsNeverSaved`). The signoff page posts such a JSON body to `/api/quick-signoff/`. `labs/urls.py` routes that address to `quick_signoff_submit`, which is not part of this model, and the route to `quick_signoff` itself is commented out. Whether the page's submissions are saved therefore depends on code outside this model.
- The page and the server agree on the status of the five radio values "0" to "4". They disagree outside them: the server leaves such a signoff pending, while the page calls it approved or rejected (`Grading.ClientAndServerDifferOffTheScale`).
- An empty search answer does not clear the autocomplete's highlighted index. Enter then reads past the end of the results and throws (`Autocomplete.StaleHighlightThrows`).
- The criteria view answers a list, which has no `criteria` field, so the signoff page always draws the default criteria. Their radio names never meet the numeric criteria ids of stored quality scores, so restoring stored scores never checks a drawn radio (`SignoffForm.StoredScoresMissDrawnDefaults`).

## Model

| member | source | states |
|---|---|---|
| Strings.Get | labs/forms.py:29-30 | `dict.get`: a value exactly when the key is present, and then the stored one |
| Strings.NatToStringRoundTrip | static/js/main.js:144 | the decimal rendering of an index reads back as that index |
| Strings.ReplaceFirstSpec | static/js/main.js:133 | a string-pattern `replace` substitutes the leftmost occurrence only, keeps the text around it, and leaves text without the pattern unchanged |
| Strings.JoinSplit | static/labs/js/signoff.js:917-918 | splitting at a separator and joining back gives the original text |
| Strings.SplitJoin | static/labs/js/signoff.js:917-918 | joining pieces free of the separator and splitting again gives the pieces back |
| Strings.JsTrimSpec | static/labs/js/autocomplete.js:89 | `trim` removes exactly the surrounding white space: the result is an infix with only spaces around it and no space at either end |
| Strings.JsTrimIdempotent | static/labs/js/autocomplete.js:89 | trimming twice is trimming once |
| Strings.JsParseIntOfIntToString | static/js/main.js:163 | `parseInt` reads back any rendered integer, negative ones included |
| Strings.PyIntOfNatToString | labs/views.py:148 | Python's `int` reads back the decimal key of any part |
| Strings.PyIntReadsDigits | labs/views.py:148 | whatever `int` accepts reads as a non-empty run of digits, possibly negated |
| Strings.PyIntUnderscores | labs/views.py:148 | Python's `int` reads past single underscores between digits (`"1_0"` is 10) and refuses doubled, leading or trailing ones |
| Strings.PyIntUnderscoreBetweenDigits | labs/views.py:148 | on digits and underscores, `int` succeeds exactly when the text is non-empty and every underscore sits between two digits, and reads the digits alone |
| Strings.DropUnderscores | labs/views.py:148 | dropping the underscores of digit groups leaves only digits, and leaves plain digits unchanged |
| Strings.IndexOf | static/js/main.js:133 | the leftmost occurrence of a pattern, or none when it does not occur |
| Records.ParseStatus | labs/models.py:72-76 | only the three stored choice values are statuses, each reading back as its own name |
| Records.StatusChoicesRoundTrip | labs/models.py:72-76 | every status is a valid choice and reads back as itself |
| Records.NewQualityCriteria | labs/models.py:29-35 | a new criterion is worth 10 points with weight 1.0, within the 0.0-1.0 validators |
| Records.NewPart | labs/models.py:15-21 | a new part has order 0 and is required |
| Records.OrderingsAreTotalPreorders | labs/models.py:37-39 | the criteria ordering by (part, name), the part ordering by (lab, order) and the signoff ordering by most recent update each compare every pair and are transitive |
| Grading.RadioLevel | static/labs/js/signoff.js:588-596 | a stored score shows a level from 0 to 4, and level 0 exactly for a score of 0 |
| Grading.RadioLevelIsQuartersRoundedUp | static/labs/js/signoff.js:588-596 | a non-zero score shows the least k in 1..4 with score <= k/4 of the maximum, or 4 when there is none |
| Grading.RadioLevelMonotone | static/labs/js/signoff.js:588-596 | a higher non-negative score never shows a lower level |
| Grading.RadioLevelLandmarks | static/labs/js/signoff.js:588-596 | full marks show level 4 and half marks level 2 |
| Grading.ClientStatus | static/labs/js/signoff.js:764-768 | the page never derives "pending" |
| Grading.ServerStatus | labs/views.py:153-160 | "0" and "1" reject, "2" to "4" approve, anything else (or nothing) stays pending, in both directions |
| Grading.ClientAgreesWithServer | labs/views.py:153-160 | for the five radio values, page and server derive the same status, the one the level stands for |
| Grading.ClientAndServerDifferOffTheScale | static/labs/js/signoff.js:764-768 | "5" and "" are pending on the server but approved on the page; "-1" is pending on the server and rejected on the page |
| Grading.ShownOverallLevel | static/labs/js/signoff.js:505-511 | a level is shown exactly for the three valid statuses |
| Grading.ShownLevelMatchesStatus | static/labs/js/signoff.js:505-511 | the level shown for a decided signoff stands for its status and is the stored score whenever that already does; pending shows level 2 |
| Grading.StatusColor | static/labs/js/signoff.js:635-646 | "secondary" exactly for a value that is not a status |
| Grading.StatusColorsDistinct | static/labs/js/signoff.js:635-646 | the three statuses get three different colours |
| Grading.InputNamesRoundTrip | static/labs/js/signoff.js:680-691 | a generated criteria or evaluation input name reads back as its key, and a prefixed name loses exactly its prefix |
| Grading.ResetTableMatchesDefaults | static/labs/js/signoff.js:795-811 | the reset table names exactly the max-marks inputs of the default evaluation criteria, in order and with their marks |
| Grading.DefaultTotals | static/labs/js/signoff.js:375-384 | the default evaluation criteria total 65 marks, every default quality criterion is worth 10 points, and the default status is one of the options |
| Grading.CsrfToken | static/labs/js/signoff.js:916-923 | the token contains no "=" and no cookie separator |
| Grading.CsrfTokenAbsent | static/labs/js/signoff.js:916-923 | without a `csrftoken` cookie the token is empty |
| Grading.CsrfTokenRoundTrip | static/labs/js/signoff.js:916-923 | a cookie string whose first `csrftoken` cookie holds a token yields that token |
| SignoffForm.CheckAt | static/labs/js/signoff.js:515-517 | checking a radio unchecks the rest of its group and changes nothing else |
| SignoffForm.FindRadio | static/labs/js/signoff.js:512-514 | the first radio with that name and value, or none when there is no such radio |
| SignoffForm.FindRadioIgnoresChecks | static/labs/js/signoff.js:526-528 | the lookup by name and value does not depend on which radios are checked |
| SignoffForm.FindChecked | static/labs/js/signoff.js:674 | a checked radio of the group, or none when no radio of it is checked |
| SignoffForm.CriteriaScoresSpec | static/labs/js/signoff.js:680-683 | the submitted criteria scores name exactly the criteria with a checked radio, each with that radio's value |
| SignoffForm.EvalScoresKeys | static/labs/js/signoff.js:686-691 | the submitted rubric evaluations name exactly the keys of the evaluation selects that pass the `_max` test |
| SignoffForm.EvalScoresLast | static/labs/js/signoff.js:686-691 | each rubric evaluation carries the value of the last select with its key |
| SignoffForm.ResetSparesOtherGroups | static/labs/js/signoff.js:783-785 | the reset leaves groups without a level-2 container radio as they were |
| SignoffForm.ResetChecksOnlyTargets | static/labs/js/signoff.js:783-785 | after the reset, the checked radio of a group with a level-2 container radio is one of those |
| SignoffForm.ResetChecksEveryTargetGroup | static/labs/js/signoff.js:783-785 | after the reset, every group with a level-2 container radio has a checked radio |
| SignoffForm.CheckResetTargetsKeepsGroups | static/labs/js/signoff.js:783-785 | the reset keeps at most one checked radio per group |
| SignoffForm.ResetSelect | static/labs/js/signoff.js:790-792 | an evaluation select shows "MR" exactly when it offers it, and nothing otherwise; other selects are untouched |
| SignoffForm.FirstNamedSpec | static/labs/js/signoff.js:807 | the lookup finds the first input with the name, and none when no input has it |
| SignoffForm.ApplyMaxMarksKeepsNames | static/labs/js/signoff.js:806-811 | writing marks never renames an input |
| SignoffForm.MaxMarksWritten | static/labs/js/signoff.js:806-811 | on distinct names, the first input of each entry's name holds that entry's mark |
| SignoffForm.MaxMarksUntouched | static/labs/js/signoff.js:806-811 | every input that is not the first of an entry's name keeps its value |
| SignoffForm.ResetMaxMarksDistinct | static/labs/js/signoff.js:795-804 | the reset table names distinct inputs |
| SignoffForm.FirstSelectSpec | static/labs/js/signoff.js:547 | the lookup finds the first select with the name, and none when no select has it |
| SignoffForm.RestoredSelectsKeepShape | static/labs/js/signoff.js:540-557 | restoring statuses never renames a select nor changes its options |
| SignoffForm.RestoredSelectsWritten | static/labs/js/signoff.js:546-550 | after restoring a stored sheet, the first select of each criterion that carries a status shows that status if it offers it, and nothing otherwise |
| SignoffForm.RestoredSelectsUntouched | static/labs/js/signoff.js:540-557 | every select no entry writes to keeps its state |
| SignoffForm.MarksEntriesCover | static/labs/js/signoff.js:552-556 | every sheet entry with non-zero marks is written |
| SignoffForm.MarksEntriesFrom | static/labs/js/signoff.js:552-556 | only sheet entries with non-zero marks are written |
| SignoffForm.MarksEntriesDistinct | static/labs/js/signoff.js:540 | distinct criterion keys write to distinct max-marks inputs |
| SignoffForm.RestoredMarksNext | static/labs/js/signoff.js:540-557 | visiting one more entry of the sheet is one more restore step on the max-marks inputs |
| SignoffForm.RestoredMarksWritten | static/labs/js/signoff.js:552-556 | after restoring a stored sheet, the first max-marks input of each criterion with non-zero marks holds those marks |
| SignoffForm.RestoredMarksUntouched | static/labs/js/signoff.js:540-557 | every max-marks input no entry writes to keeps its value |
| SignoffForm.CriterionRadios | static/labs/js/signoff.js:325-353 | one criterion draws five radios, levels 0 to 4, with level 2 checked |
| SignoffForm.DrawnRadiosNames | static/labs/js/signoff.js:325-353 | every drawn radio sits in the container and belongs to the group of one of the criteria |
| SignoffForm.DrawnRadiosChecks | static/labs/js/signoff.js:344-346 | only level-2 radios are drawn checked |
| SignoffForm.DrawnRadiosOneChecked | static/labs/js/signoff.js:325-353 | criteria with distinct ids give groups with exactly the level-2 radio checked |
| SignoffForm.DrawnSelects | static/labs/js/signoff.js:461-473 | one status select per rubric item, named after it, with the status options, at "MR" |
| SignoffForm.DrawnMarks | static/labs/js/signoff.js:446-447 | one max-marks input per rubric item, holding its marks |
| SignoffForm.LevelTwoForSpec | static/labs/js/signoff.js:344-346 | the level-2 scores name exactly the drawn criteria, each at "2" |
| SignoffForm.DrawnCriteriaScores | static/labs/js/signoff.js:680-683 | submitting freshly drawn criteria sends level "2" under each drawn id |
| SignoffForm.DrawnCriteriaSubmitLevelTwo | static/labs/js/signoff.js:680-683 | a fresh submission names exactly the drawn criteria, all at level "2" |
| SignoffForm.CriteriaInputNameKey | static/labs/js/signoff.js:681 | a radio-group name carries the criteria prefix and reads back as its id |
| SignoffForm.DefaultCriteriaIdsDistinct | static/labs/js/signoff.js:288-313 | the default criteria have distinct ids |
| SignoffForm.OverallValueText | static/labs/js/signoff.js:511-514 | an invalid status looks for the value "undefined"; a valid one for the text that parses as the shown level |
| SignoffForm.ApplyQualityScores | static/labs/js/signoff.js:520-533 | restoring stored scores only changes which radios are checked |
| SignoffForm.StoredScoresMissDrawnDefaults | static/labs/js/signoff.js:526-528 | stored scores, keyed by numeric criteria ids, never check a radio of the drawn default criteria |
| SignoffForm.OutsideContainer | static/labs/js/signoff.js:821 | emptying the container keeps exactly the radios outside it |
| SignoffForm.RedrawKeepsValid | static/labs/js/signoff.js:253 | emptying the container and drawing new criteria keeps one checked radio per group and the criteria radios inside the container |
| SignoffForm.CollectCriteriaScores | static/labs/js/signoff.js:680-683 | the loop builds exactly the criteria scores |
| SignoffForm.CollectEvalScores | static/labs/js/signoff.js:686-691 | the loop builds exactly the rubric evaluations |
| SignoffForm.CheckLevelTwoRadios | static/labs/js/signoff.js:783-785 | the loop is the reset of every level-2 container radio and keeps one checked radio per group |
| SignoffForm.ResetSelects | static/labs/js/signoff.js:790-792 | the loop resets every select as `ResetSelect` says |
| SignoffForm.WriteMaxMarks | static/labs/js/signoff.js:806-811 | the loop writes the default marks as `ApplyMaxMarks` says |
| SignoffForm.RestoreQualityScores | static/labs/js/signoff.js:520-533 | the loop checks each stored score's radio in turn and keeps one checked radio per group |
| SignoffForm.RestoreStatus | static/labs/js/signoff.js:547-550 | one entry's status goes into the first select of its name |
| SignoffForm.RestoreMarks | static/labs/js/signoff.js:553-556 | one entry's non-zero marks go into the first input of its name |
| SignoffForm.RestoreEvaluationSheet | static/labs/js/signoff.js:536-558 | the loop skips the totals and writes each entry's status and marks, as `RestoredSelects` and `MarksEntries` say |
| SignoffForm.SignoffPage.constructor | static/labs/js/signoff.js:34-36 | the page starts with no student, no part, empty inputs and only the overall radios |
| SignoffForm.SignoffPage.HandleStudentSelection | static/labs/js/signoff.js:54-73 | the student is remembered (a missing email becomes "") and its primary key goes into the hidden input; nothing else changes |
| SignoffForm.SignoffPage.CriteriaLoaded | static/labs/js/signoff.js:241-253 | the part id is stored and the container is redrawn with the default criteria and the default evaluation sheet; the page stays valid |
| SignoffForm.SignoffPage.SubmitSignoff | static/labs/js/signoff.js:652-691 | warns without a student, then without a part; throws without a checked overall score; otherwise posts the hidden inputs, comments, overall score, criteria scores and rubric evaluations |
| SignoffForm.SignoffPage.ResetFormInputs | static/labs/js/signoff.js:773-812 | clears the comments; throws and stops when no overall radio has value "2"; otherwise checks it and every level-2 container radio, resets the selects and writes the default marks |
| SignoffForm.SignoffPage.ResetForm | static/labs/js/signoff.js:817-833 | resets the inputs and then, unless that threw, empties the container and clears the part id |
| SignoffForm.SignoffPage.EmptyCriteria | static/labs/js/signoff.js:821-832 | only the radios outside the container remain, and the part id is cleared |
| SignoffForm.SignoffPage.NewSignoff | static/labs/js/signoff.js:838-848 | resets the form and then forgets the student |
| SignoffForm.SignoffPage.ApplySignoffDetails | static/labs/js/signoff.js:497-573 | with nothing stored, resets the inputs; otherwise restores the stored signoff |
| SignoffForm.SignoffPage.RestoreSignoff | static/labs/js/signoff.js:500-558 | restores the comments, the overall level shown for the status, the stored quality scores and the stored evaluation sheet; the page stays valid |
| Autocomplete.JsRemainder | static/labs/js/autocomplete.js:282 | JavaScript's `%` takes the sign of the dividend |
| Autocomplete.NextIndex | static/labs/js/autocomplete.js:272-277 | the next item, wrapping from the last to the first |
| Autocomplete.PrevIndex | static/labs/js/autocomplete.js:279-284 | the previous item, wrapping from the first to the last; from no selection, the second-to-last item (or the only one) |
| Autocomplete.NextPrevInverse | static/labs/js/autocomplete.js:272-284 | down then up, or up then down, returns to the highlighted item |
| Autocomplete.IterateUpToEnd | static/labs/js/autocomplete.js:272-277 | before the last item, each press moves down by one |
| Autocomplete.IterateWraps | static/labs/js/autocomplete.js:272-277 | past the last item, the presses continue from the first |
| Autocomplete.NextCycles | static/labs/js/autocomplete.js:272-277 | as many presses as results come back to the highlighted item |
| Autocomplete.StudentAutocomplete.constructor | static/labs/js/autocomplete.js:38-42 | empty query, no results, nothing highlighted, container hidden |
| Autocomplete.StudentAutocomplete.HideResults | static/labs/js/autocomplete.js:267-270 | the container is hidden and the highlight dropped; nothing else changes |
| Autocomplete.StudentAutocomplete.ShowLoading | static/labs/js/autocomplete.js:249-261 | the container shows the loading message |
| Autocomplete.StudentAutocomplete.OnInput | static/labs/js/autocomplete.js:88-116 | a trimmed query under two characters hides the results; the last query again schedules nothing; any other query becomes the last query, shows the loading message and is scheduled |
| Autocomplete.StudentAutocomplete.TimerFires | static/labs/js/autocomplete.js:113-115 | the scheduled query is fetched and the timer is consumed |
| Autocomplete.StudentAutocomplete.OnFocus | static/labs/js/autocomplete.js:149-154 | a trimmed query of two characters or more is fetched at once, and nothing otherwise |
| Autocomplete.StudentAutocomplete.RenderResults | static/labs/js/autocomplete.js:170-223 | a non-empty list is drawn with nothing highlighted; an empty one shows "No students found" and keeps the old highlight |
| Autocomplete.StudentAutocomplete.ResultsArrived | static/labs/js/autocomplete.js:158-162 | the answer's students become the results and are drawn |
| Autocomplete.StudentAutocomplete.FetchFailed | static/labs/js/autocomplete.js:164-167 | a failed search appends the error message to what the container holds and shows it; a list drawn before stays |
| Autocomplete.StudentAutocomplete.SelectNext | static/labs/js/autocomplete.js:272-277 | nothing on empty results, otherwise the next index, within the results |
| Autocomplete.StudentAutocomplete.SelectPrevious | static/labs/js/autocomplete.js:279-284 | nothing on empty results, otherwise the previous index, within the results |
| Autocomplete.StudentAutocomplete.SelectResult | static/labs/js/autocomplete.js:297-308 | the box shows the student's name, the results are hidden, and `onSelect`, when given, receives the student once |
| Autocomplete.StudentAutocomplete.OnKeyDown | static/labs/js/autocomplete.js:118-147 | keys do nothing while hidden; arrows move the highlight (not at all on empty results) and change nothing else; Escape hides; Enter selects the highlighted student, does nothing with no highlight, and throws on a highlight past the results; the container's content never changes |
| Autocomplete.StudentAutocomplete.HoverItem | static/labs/js/autocomplete.js:192-195 | hovering an item of a drawn list highlights it |
| Autocomplete.StudentAutocomplete.ClickItem | static/labs/js/autocomplete.js:198-200 | clicking an item selects that student |
| Autocomplete.StudentAutocomplete.ClickOutside | static/labs/js/autocomplete.js:76-80 | a click outside hides the results |
| Autocomplete.StudentAutocomplete.Resize | static/labs/js/autocomplete.js:58 | a window resize hides the results and, unlike `hideResults`, keeps the highlighted index |
| Autocomplete.ThirdOfThreeHovered | static/labs/js/autocomplete.js:184-195 | three students listed for "an", the third one highlighted |
| Autocomplete.ListSurvivesFailedFetch | static/labs/js/autocomplete.js:149-167 | after a click outside, a refocus and a failed fetch, the earlier list is still drawn and clicking its third student picks "Jan" |
| Autocomplete.StaleHighlightThrows | static/labs/js/autocomplete.js:135-139 | after an empty answer, Enter on the old highlight throws |
| Database.FindStudent | labs/views.py:147 | the student with that student number, or none when no student has it |
| Database.Decide | labs/views.py:138-171 | a save is only ever of an existing student and part |
| Database.UpsertSpec | labs/views.py:163-171 | after an upsert exactly one row exists for the pair, with the new values; it keeps its submission time if it existed; no other row changes |
| Database.UpsertKeepsKeysValid | labs/views.py:163-171 | upserting an existing pair keeps every signoff's foreign keys valid |
| Database.UpsertIdempotent | labs/views.py:163-171 | saving the same signoff twice at the same moment is saving it once |
| Database.UpsertedRowIsMostRecent | labs/models.py:84-88 | with a clock that does not go back, the saved row comes first in the signoffs' default order |
| Database.JsonBodyIsNeverSaved | labs/views.py:141-150 | a POST with no form fields is refused with "Student or Part not found" |
| Database.DecideSavesKnownPair | labs/views.py:141-171 | a logged-in POST naming an existing student number and part key saves that pair with the mapped status and the comments |
| Database.DecideSavesOnlyNamedPair | labs/views.py:138-171 | non-POST requests are refused, and a save is only ever of the pair the request names |
| Database.Db.constructor | labs/models.py:70-88 | the tables as given |
| Database.Db.LookupStudent | labs/views.py:147 | the scan finds the student the lookup specifies |
| Database.Db.DecideRequest | labs/views.py:138-160 | the view's checks, in order, reach exactly the decision `Decide` specifies, before anything is written |
| Database.Db.QuickSignoff | labs/views.py:135-203 | the decision the request calls for; a save upserts the pair (`created` exactly when it is new) and every other outcome changes nothing; the constraints are kept |
| Database.Db.StudentNameSearch | labs/views.py:97-110 | no students below two characters; otherwise at most ten distinct matching students, all of them whenever fewer than ten come back |
| Database.HitIds | labs/views.py:108 | the students a list of hits names, exactly |
| Database.SearchTable | labs/views.py:105-108 | the scan's answer is admissible for the query |
| Database.SearchAnswerUnique | labs/views.py:105-108 | when at most ten students match, any two admissible answers list the same students |
| Database.GetPartsAsWritten | labs/views.py:113-121 | an empty or missing `lab_id` raises |
| Database.GetParts | labs/views.py:113-121 | an empty or missing `lab_id` answers an empty list |
| Database.GetCriteriaAsWritten | labs/views.py:124-132 | an empty or missing `part_id` raises |
| Database.GetCriteria | labs/views.py:124-132 | an empty or missing `part_id` answers an empty list |
| Database.EmptyIdCrashes | labs/views.py:116-118 | an empty id crashes the views as written while the intended ones answer an empty list; on every other id the two agree |
| Listing.InsertSorted | labs/models.py:23-24 | a row placed into a sorted listing keeps it sorted, and every other row keeps its relative position |
| Listing.ListRows | labs/models.py:23-24 | the listing holds every matching row exactly once, with its values, in the ordering |
| Database.ListParts | labs/views.py:113-121 | the JSON array lists every part of the lab exactly once, with its name, in Part's default ordering by (lab, order); it crashes exactly when the view does |
| Database.ListCriteria | labs/views.py:124-132 | the JSON array lists every criterion of the part exactly once, with its name and points, by name, which is QualityCriteria's default ordering by (part, name); it crashes exactly when the view does |
| Database.ListingsAreExact | labs/views.py:120-132 | a lab's key selects exactly its parts with their names; a part's key selects exactly its criteria with their names and points; an empty id selects nothing |
| Database.OverallCompletion | labs/views.py:78-83 | zero when there are no required parts or no students |
| Database.OverallCompletionAtMost100 | labs/views.py:78-83 | overall completion never exceeds 100%, and reaches it exactly when every student has an approved signoff on every required part |
| Database.CompletedParts | labs/models.py:59-63 | the completed parts are required parts |
| Database.CompletionStatus | labs/models.py:55-68 | between 0 and 100%, reaching 100% exactly when some part is required and every required part is approved |
| Database.PairsCardinality | labs/views.py:81 | there are exactly (students x required parts) pairs |
| Formsets.SortClickAsWritten | static/js/main.js:83-99 | sets the clicked column and flips the direction whatever column was sorted |
| Formsets.SortClick | static/js/main.js:90-96 | the direction becomes "desc" exactly when the clicked column is the one already sorted ascending |
| Formsets.SortClickToggles | static/js/main.js:90-96 | clicking the sorted column twice flips the direction each time |
| Formsets.SortClickAsWrittenOnSortedColumn | static/js/main.js:87-96 | on the column already sorted, the handler as written does what was meant |
| Formsets.SortClickAsWrittenFlipsNewColumn | static/js/main.js:87-96 | sorted by name ascending, a click on date sorts descending, where ascending was meant |
| Formsets.SortIcon | static/js/main.js:102-113 | an icon exactly when a non-empty `sort` makes a valid selector that reads as a header's value; the up arrow exactly when `dir` is missing, empty or "asc", the down arrow otherwise; a SyntaxError exactly when the selector is invalid |
| Formsets.SortIconLiteral | static/js/main.js:105-107 | a sort value with no quote, backslash, line break or U+0000 never throws and selects exactly the header with that value |
| Formsets.SortIconQuoteThrows | static/js/main.js:105-107 | an unescaped `"` in the sort value makes `querySelector` throw (`?sort=a"b`) |
| Formsets.SortIconNewlineThrows | static/js/main.js:105-107 | an unescaped line break in the sort value makes `querySelector` throw |
| Formsets.SortIconEscapeDecoded | static/js/main.js:105-107 | CSS escapes in the sort value are decoded: `?sort=\61` puts the icon on the header `a` |
| Formsets.SortIconSixDigitEscape | static/js/main.js:105-107 | an escape takes six hex digits and one white space after them: `?sort=\000061`, with or without a trailing space, puts the icon on the header `a` |
| Formsets.SeventhHexDigitIsText | static/js/main.js:105-107 | a seventh hex digit ends the escape and is read as text: `\0000611` selects the value `a1` |
| Formsets.SortIconAfterClick | static/js/main.js:83-113 | after a click on a header whose `data-sort` has no quote, backslash, line break or U+0000, that header shows the icon of the new direction |
| Formsets.NavActiveRules | static/js/main.js:54-67 | the home link is active only on the home page, a missing or empty href never is, and any other link stays active below a page where it is active |
| Formsets.PrefixSubstituted | static/js/main.js:128-137 | the substitution keeps the number of attributes |
| Formsets.PrefixSubstitutedSpec | static/js/main.js:133 | each attribute's first placeholder becomes the index and the rest is kept; attributes without one are unchanged |
| Formsets.SubstitutePrefix | static/js/main.js:128-137 | the loop substitutes every attribute |
| Formsets.DigitRunEndSpec | static/js/main.js:173 | the digit run is all digits and stops at a non-digit or the end |
| Formsets.FirstDashNumber | static/js/main.js:173 | a match of `-\d+-` at or after the start |
| Formsets.FirstDashNumberFirst | static/js/main.js:173 | no match lies before the leftmost one |
| Formsets.RenumberedMatch | static/js/main.js:173 | after renumbering, the first dash-number is at the same place and spans exactly the new number |
| Formsets.RenumberOverrides | static/js/main.js:173 | the last renumbering wins |
| Formsets.RenumberIdempotent | static/js/main.js:173 | renumbering twice with one index is renumbering once |
| Formsets.RenumberReadsBack | static/js/main.js:173 | a renumbered attribute's first dash-number reads back as the index |
| Formsets.RenumberRows | static/js/main.js:167-178 | renumbering keeps every row's attribute count |
| Formsets.RenumberRowsNumbersInOrder | static/js/main.js:166-178 | renumbered rows are numbered in order, and rows already in order are unchanged |
| Formsets.RenumberAll | static/js/main.js:167-178 | the nested loops renumber every row |
| Formsets.Decremented | static/js/main.js:163 | a number is decremented; anything else becomes "NaN" |
| Formsets.Formset.constructor | static/js/main.js:116-125 | the rows and the management form as given |
| Formsets.Formset.AddField | static/js/main.js:116-148 | the new row takes the row count as index and is appended, and TOTAL_FORMS becomes the new count |
| Formsets.Formset.RemoveRow | static/js/main.js:151-181 | the row goes, TOTAL_FORMS is decremented, and the remaining rows are renumbered in order |
| Access.HasRole | labs/templatetags/role_tags.py:6-22 | anonymous users have no role, staff have every role, anyone else exactly the role their role object names |
| Access.HasRoleAtMostOne | labs/templatetags/role_tags.py:15-22 | a user who is not staff holds at most one role, and only through a role object |
| Access.AddError | labs/forms.py:33 | the message is appended to the field's errors and the field leaves the cleaned data; other fields are untouched |
| Access.Clean | labs/forms.py:27-35 | an error is added exactly when the first password is non-empty and differs from the confirmation; it is the mismatch message on the confirmation field; a blank first password changes nothing |
| Access.CleanKeepsData | labs/forms.py:27-35 | the cleaned data is unchanged when the passwords agree and loses only the confirmation when they do not |
| RoleSetup.PermissionsOfTypes | setup_roles.py:35-38 | exactly the permissions of the given content types |
| RoleSetup.RoleSetSizes | setup_roles.py:41-60 | the TA set has nine permissions, none a delete; the student set has three, all views |
| RoleSetup.RoleSetsNested | setup_roles.py:35-60 | student permissions are TA permissions, which are instructor permissions whenever the table holds them |
| RoleSetup.StudentListPresent | setup_roles.py:41-60 | when the TA lookups succeed, so do the student ones |
| RoleSetup.AfterSetupIdempotent | setup_roles.py:13-64 | running the set-up again leaves the groups as the first run left them |
| RoleSetup.AfterSetupForgets | setup_roles.py:23-25 | the groups after a run depend only on the permission table |
| RoleSetup.AddPermissionsOfType | setup_roles.py:36-38 | the loop adds exactly the permissions of the content type |
| RoleSetup.AuthStore.constructor | setup_roles.py:9-11 | the tables as given |
| RoleSetup.AuthStore.GrantList | setup_roles.py:52-53 | the group gains exactly the listed permissions |
| RoleSetup.AuthStore.LookUpAll | setup_roles.py:41-51 | the lookups succeed exactly when every listed permission exists |
| RoleSetup.AuthStore.GrantTypes | setup_roles.py:35-38 | the group gains exactly the permissions of the content types |
| RoleSetup.AuthStore.SetupRolePermissions | setup_roles.py:13-64 | succeeds exactly when every TA permission exists; the groups end as `AfterSetup` says; users and roles are untouched |
| RoleSetup.AuthStore.CreateSuperuserIfNeeded | setup_roles.py:66-79 | with a superuser nothing changes; otherwise `admin` is created with the instructor role, unless the name is taken |
| RoleSetup.RunScript | setup_roles.py:81-84 | the groups end as `AfterSetup` says; the superuser step runs only when every TA permission exists (otherwise the set-up raises first and no user or role changes); then `admin` is created with the instructor role exactly when there is no superuser and the name is free |
| RoleSetup.RunScriptTwice | setup_roles.py:81-84 | a second run gives the groups the first gave and creates no second superuser; with a TA permission missing, no user is created at all |
| Maintenance.DefaultRubricMatchesClient | labs/migrations/0004_migrate_evaluation_data.py:12-21 | the rubric has the page's eight default criteria, in the order the legacy fields are read, with the same names and marks, 65 in total |
| Maintenance.RubricKeysAreLegacyFields | labs/migrations/0004_migrate_evaluation_data.py:12-21 | the rubric's keys are exactly the legacy fields |
| Maintenance.CopiedSpec | labs/migrations/0004_migrate_evaluation_data.py:34-42 | the copied dictionary has exactly the read fields as keys, each with its legacy value |
| Maintenance.MigratedSpec | labs/migrations/0004_migrate_evaluation_data.py:31-49 | a migrated sheet is keyed by the rubric's keys, holds the legacy values and refers to the new rubric; a sheet missing a field is unchanged |
| Maintenance.ReadLegacy | labs/migrations/0004_migrate_evaluation_data.py:34-42 | the reads succeed exactly when every legacy field is present, and then copy them |
| Maintenance.MigrateSheet | labs/migrations/0004_migrate_evaluation_data.py:32-49 | a sheet is saved exactly when its reads succeed, and ends as `Migrated` says |
| Maintenance.EvaluationTables.constructor | labs/migrations/0004_migrate_evaluation_data.py:8-9 | the tables as given |
| Maintenance.EvaluationTables.MigrateSheets | labs/migrations/0004_migrate_evaluation_data.py:31-49 | every sheet is migrated once; the rubrics are untouched |
| Maintenance.EvaluationTables.CreateDefaultRubricAndMigrate | labs/migrations/0004_migrate_evaluation_data.py:5-49 | succeeds exactly when no rubric has the default name; then the default rubric is added and every sheet migrated; otherwise nothing changes |
| Maintenance.CreateDefaultCriteria | labs/management/commands/create_default_criteria.py:7-26 | counts every part, calls the defaults exactly on the parts without criteria, and counts those calls, never more than the parts |

## Left out

- Rendering, the DOM and styling: spinners, alerts, modals, history cards, colours and positions. Controls are modelled as lists of values in document order. Fetches and timers are split into the events they lead to, such as `TimerFires`, `ResultsArrived` and `FetchFailed`. The network and the event loop are not modelled.
- Query parameters are a map: URLs with repeated names and the order of parameters are not modelled.
- Text is a sequence of characters. UTF-16 lengths, Unicode case folding and collation beyond code points are not modelled. `icontains` folds ASCII letters only.
- Floating point is replaced by exact arithmetic. Percentages are exact ratios, the criterion weight is an exact fraction, and max marks such as `5.0` are whole numbers.
- Formsets.SortIcon: decodes the sort value as the contents of a CSS string (escapes, line breaks, U+0000). A value with an unescaped `"` is always taken to make the selector throw. The model does not parse what follows the early quote, though a crafted value such as `a"], th[x="` makes a valid selector list. The throw ends the page's DOMContentLoaded handler, so the formset handlers of main.js:115-181 are never installed. The model reports the throw but does not tie it to the `Formsets.Formset` methods.
- Formsets.SortIconAfterClick: holds for a `data-sort` value free of quotes, backslashes, line breaks and U+0000. With any of those, the next page reads a different value or throws, as `Formsets.SortIconQuoteThrows` shows.
- Formsets.Formset.AddField: takes the formset's row count as the index. It does not model `target.children.length` counting other children of the container.
- Formsets.Formset.RemoveRow: takes the formset as given. It does not model the `closest('[id]')` lookup that finds it.
- Autocomplete.StudentAutocomplete.FetchFailed: does not model the text of the error message or the console output.
- Database.ListingsAreExact: states which rows the views select, not their order. The order of the JSON array is stated by `Database.ListParts` and `Database.ListCriteria`.
- Listing.ListRows: rows that tie on a default ordering (parts of equal `order`, criteria of equal name) come back in the order they are placed; the database leaves that order open.
- Strings.PyInt: reads ASCII digits only. Python's `int` also accepts the decimal digits of other scripts (`int("١٢")` is 12), which the model refuses.
- Maintenance.CreateDefaultCriteria: records the parts on which `part.create_default_criteria()` is called, without modelling what it creates. The shown `labs/models.py` defines no such method on `Part` (labs/models.py:15-27), so with that file as it stands the call would raise AttributeError at the first part without criteria. The model assumes the method exists elsewhere and does not model the crash.
- Maintenance.MigrateSheet: the legacy field values are opaque strings, and the `EvaluationSheet` and `EvaluationRubric` models are not part of this model.
- Access.AddError: models Django's `add_error` only as far as `clean` uses it, appending the message and removing the field from the cleaned data.
- RoleSetup.AuthStore.CreateSuperuserIfNeeded: the e-mail, password and hashing are not modelled. A failing `UserRole` creation is not modelled.
- RoleSetup: permission names are not modelled, and codenames only through the action and model.
- The messages printed by `setup_roles.py` and `create_default_criteria` are left out as output only. The entry point of `setup_roles.py` is `RoleSetup.RunScript`, and that of the command is `Maintenance.CreateDefaultCriteria`.
- Records: the shown `labs/models.py` names the signoff's user field `TA`, while `labs/views.py` writes `instructor`. The model follows the views and calls the field `instructor`. `UserRole`, `EvaluationSheet` and `EvaluationRubric` are used by other files but not defined in the shown models, and they are not part of this model.
- Database.Decide: login is modelled as the presence of a user. The login redirect's target is not modelled.
- Database.Db.StudentNameSearch: Student declares no default ordering, so which ten of more than ten matches come back, and in what order, is left open.
- SignoffForm.SignoffPage.SubmitSignoff: what happens after the post (the success modal, the stored signoff id) is left out. The server side is modelled separately by `Database.Db.QuickSignoff`.
- SignoffForm.RestoreEvaluationSheet: `max_marks` values are whole numbers. An evaluation sheet whose entries repeat a key cannot arise from a JavaScript object, so the restore lemmas take the keys as distinct.

## Findings

| source | as written | input that shows it | evidently intended | confidence | as-written member | corrected member |
|---|---|---|---|---|---|---|
| static/js/main.js:87-96 | `sort` is set to the clicked column before the test `get('sort') === sortBy`, so the test always passes and any click on a column flips the previous direction | URL `?sort=name&dir=asc`, click on the `date` header: the page sorts by date descending | a click on a new column sorts it ascending; only a click on the column already sorted ascending turns it descending | not executed | Formsets.SortClickAsWrittenFlipsNewColumn | Formsets.SortClick |
| labs/views.py:116-118 | an empty or missing `lab_id` returns `JsonResponse([])` without `safe=False`, which raises a TypeError for a non-dict payload | `GET /api/get-parts/` with no `lab_id` | an empty JSON list | not executed | Database.GetPartsAsWritten | Database.GetParts |
| labs/views.py:127-129 | the same `JsonResponse([])` without `safe=False` for an empty or missing `part_id` | `GET /api/get-criteria/?part_id=` | an empty JSON list | not executed | Database.GetCriteriaAsWritten | Database.GetCriteria |
