# ENEM question store — a Dafny model

This project models the core of a small ENEM (Brazilian national exam) question bank.

**Write side.** `EnemQuestionExtractor` in `extract_questions.py` walks a `quiz-items/<year>/questions/<folder>/details.json` tree. It fills a SQLite store of six tables: exams, disciplines, languages, questions, alternatives and question files. Every write is an `INSERT OR IGNORE` on its own connection.

**Read side.** Two readers query that store:
- the Python `EnemQuestionViewer` (`view_questions.py`);
- the NestJS `EnemService` (`src/enem/enem.service.ts`), whose query parameters are validated by `FilterDto` (`src/enem/dto/filter.dto.ts`).

Modules:

- `Tables` — the store as a value: six row sequences and their AUTOINCREMENT counters. Every `INSERT` that reaches SQLite uses up the next id, even when `OR IGNORE` then drops the row, so a counter moves on once per statement; a batch whose transaction is not committed leaves its counter as it was.
  - `Valid` states the schema's guarantees: ids ascending and distinct, the UNIQUE natural keys, and `is_correct` in {0, 1}.
  - `Ingest.Sound` adds referential integrity.
- `QuizItems` — the JSON the extractor reads, and the digit-string conversions used for year folders.
  - A key may be absent (`[]` raises a KeyError), `null`, or present.
- `Ingest` — each step of the extractor as a function from one store to the next. Its properties are lemmas:
  - seeding covers both lists, and running it twice writes no new row;
  - first write wins on every natural key;
  - NULL key parts never conflict;
  - one bad question folder is isolated from the rest;
  - a year that raises stops the run;
  - every step keeps the store sound.
- `Extractor` — the class `EnemQuestionExtractor`. Its fields are the six tables. Each method changes them with loops as the Python code does, and is proved to end in the state the matching `Ingest` function gives.
- `Order` — string order, a stable insertion sort used for `ORDER BY`, and duplicate removal used for `DISTINCT`.
- `Query` — what both readers share:
  - the LEFT JOINs with the label tables;
  - the truthy filters;
  - `ORDER BY q.year DESC, q.index_number ASC`;
  - `LIMIT` and `OFFSET`;
  - per-question alternatives (by letter) and files.
- `Viewer` — `EnemQuestionViewer`'s lookups as methods that build their results row by row.
- `Filter` and `Service` — `FilterDto` and `EnemService`: pagination, lookups and the distinct years and labels.

The schema has no UNIQUE constraint on `alternatives` or `question_files`. A natural key (question, letter) is therefore not enforced. Re-ingesting a question that is already stored returns its existing id, and then appends its alternatives and files again. The model follows the code here (`Ingest.AlternativesNotDeduplicated`, `Ingest.InsertQuestionTwice`).

Which SQL rows tie under `ORDER BY` is unspecified in SQLite. The model keeps ties in table order. Every ordering property is stated only up to the ORDER BY keys.

## Model

| member | source | states |
|---|---|---|
| Tables.FindLabel | extract_questions.py:142-154 | `SELECT id ... WHERE value = ?` finds the first row with that slug; it finds none exactly when no row has it |
| Tables.FindQuestionId | extract_questions.py:221-227 | the lookup by (year, index, discipline, language) returns the id of a row with exactly that key, and None when there is none |
| Tables.KeyedAppend | extract_questions.py:31-101 | appending a row under the AUTOINCREMENT counter keeps ids ascending and distinct |
| QuizItems.Get | extract_questions.py:199-200 | `.get(key)` gives None for a missing key and for `null`, otherwise the value |
| QuizItems.GetOr | extract_questions.py:214-216 | `.get(key, '')` gives the default only for a missing key; `null` stays None |
| QuizItems.ParseShow | extract_questions.py:275 | printing a non-negative year with `str` gives a digit string that parses back to the same year |
| QuizItems.ShowParse | extract_questions.py:339-342 | a digit string printed back after parsing gives itself exactly when it has no leading zero (or is "0"), so a folder named with leading zeros is looked up under another name |
| Ingest.SeedLabels | extract_questions.py:126-136 | the seeding loop keeps the existing rows and appends at most one row per seed; every seed, stored or ignored, uses up one AUTOINCREMENT id, so the counter ends |seeds| further on; the new ids lie in that range and ascend |
| Ingest.SeedLabelsFromSeeds | extract_questions.py:126-136 | each new row holds the label and slug of the seed whose statement took its id |
| Ingest.SeedLabelsCovers | extract_questions.py:126-136 | after seeding, every seed slug is in the table |
| Ingest.SeedLabelsUnique | extract_questions.py:44 | seeding keeps the slugs of a label table unique |
| Ingest.SeedLabelsNoop | extract_questions.py:126-136 | when every seed slug is already stored, seeding writes no row; the counter still moves on by one id per seed |
| Ingest.SeedNewValues | extract_questions.py:126-136 | when no seed slug is stored yet and the seeds are distinct, seeding appends one row per seed, in list order, the k-th under id next + k |
| Ingest.SeedEmptyStore | extract_questions.py:113-124 | on an empty store, seeding writes the four disciplines with ids 1-4 and the two languages with ids 1-2, in the listed order |
| Ingest.SeedIdempotent | extract_questions.py:107-140 | seeding a seeded store again writes no row: the tables are those of seeding once, and only the two counters move on by the number of seeds |
| Ingest.InsertExam | extract_questions.py:173-184 | only the exams table and its counter change, and the counter moves on by one id whether or not a row is written; an exam for an already stored year, or a null title, writes no row, so the first title stays; a new year gets one row with the given title under the id the statement took |
| Ingest.DisciplineId | extract_questions.py:142-154 | an id exactly when the slug is given and a discipline has that value, and then a stored discipline id |
| Ingest.LanguageId | extract_questions.py:156-171 | None for a missing or empty slug; otherwise an id exactly when a language has that value |
| Ingest.LookupKey | extract_questions.py:219-227 | the fallback lookup finds an id only when every key part is non-NULL; then it returns None exactly when no stored question has that (year, index, discipline, language) key, and otherwise the id of a row with exactly that key |
| Ingest.NewQuestion | extract_questions.py:202-217 | the written row takes the next id, the given title, index and year, and the resolved label ids; context, introduction and correct letter are stored as given when present, as NULL when `null`, and as "" when missing |
| Ingest.InsertQuestion | extract_questions.py:186-232 | a missing title, index or year raises a KeyError before anything is written; an existing complete key, or a NULL in a NOT NULL column, writes no row, uses up one id and returns the lookup's id; otherwise exactly one row is appended under the id the statement took, and that id is returned |
| Ingest.NullKeyNeverConflicts | extract_questions.py:74 | a question whose discipline or language does not resolve is always written as a new row, because NULLs never collide under UNIQUE |
| Ingest.InsertQuestionTwice | extract_questions.py:186-232 | inserting a new question twice: with a complete key the second call writes no row, uses up one more id and returns the first id; with a NULL key part it writes two rows |
| Ingest.AlternativeRows | extract_questions.py:239-250 | the batch's rows belong to the question, store `is_correct` as 0 or 1, take their ids from the batch's run of statements (the element at position k gets next + k), and ascend |
| Ingest.AlternativeRowsFromList | extract_questions.py:239-250 | each row is the stored form of the storable element whose statement took its id |
| Ingest.AlternativeRowsComplete | extract_questions.py:239-250 | every storable element has its row, under id next + its position |
| Ingest.AlternativeRowsInOrder | extract_questions.py:239-250 | with every element storable, one row per alternative in list order, with `file` NULL and `is_correct` false when missing |
| Ingest.InsertAlternatives | extract_questions.py:234-253 | the batch commits exactly when no element lacks `letter` or `text`; on success the batch rows are appended and the counter moves on by one id per element, skipped or not; otherwise nothing is written |
| Ingest.AlternativesNotDeduplicated | extract_questions.py:80-90 | inserting the same storable batch twice stores every alternative twice |
| Ingest.FileRows | extract_questions.py:263-268 | the file rows belong to the question, number at most the paths given, take their ids from the run of statements (the path at position k gets next + k), and ascend |
| Ingest.FileRowsFromList | extract_questions.py:263-268 | each row holds the path whose statement took its id |
| Ingest.FileRowsComplete | extract_questions.py:263-268 | every non-null path has its row, under id next + its position |
| Ingest.FileRowsInOrder | extract_questions.py:263-268 | with no `null` path, one row per path, in list order |
| Ingest.InsertQuestionFiles | extract_questions.py:255-271 | a `null` or empty list writes nothing; otherwise only the files table and its counter change: the rows for the list are appended and the counter moves on by one id per path |
| Ingest.ProcessQuestion | extract_questions.py:304-323 | a question folder counts exactly when an id was returned, the alternatives are not `null` and none lacks a key; a folder that does not count leaves the store as the question insert left it, so a raising batch of alternatives is rolled back while the question row stays; a counted folder adds its alternatives and then, unless the key is missing, its files, for the returned id; exams and labels are untouched |
| Ingest.ProcessFolder | extract_questions.py:300-323 | one question folder leaves the exams, their counter and the label tables as they were |
| Ingest.ProcessFolders | extract_questions.py:299-323 | `questions_processed` never exceeds the number of folders; question folders leave the exams, their counter and the label tables as they were |
| Ingest.InertFolder | extract_questions.py:300-323 | a folder that is not a directory, has no `details.json`, holds malformed JSON or lacks a required key changes nothing and does not count |
| Ingest.BadFolderIsolated | extract_questions.py:300-323 | such a folder, anywhere in the listing, leaves the store and the count exactly as if it were absent |
| Ingest.FindEntry | extract_questions.py:275 | the year folder found is in the tree under that exact name; None means no entry has the name |
| Ingest.ExtractYear | extract_questions.py:273-325 | a missing folder, a missing `details.json`, or a malformed one or one without a title leaves the store unchanged; otherwise the exam insert runs with the file's title, so the year keeps its first stored title; without a `questions` folder nothing else changes; with one, the store and the count are those of processing its folders from the store the exam insert left |
| Ingest.WalkYears | extract_questions.py:327-344 | year folders (all-digit directory names) are processed in listing order, once each, with no report raised before the last; the run completes exactly when the last report did not raise, and then every year folder was processed |
| Ingest.YearStep | extract_questions.py:338-342 | one listing entry: anything but an all-digit directory, or any entry after a raise, leaves the walk unchanged; a year folder appends exactly one report, for that year |
| Ingest.YearStepWalked | extract_questions.py:338-342 | each step keeps the walk's promises: reports in listing order, none raised before the last, every year folder seen while the run is going |
| Ingest.WalkYearsStopped | extract_questions.py:338-342 | once a year raises, no later entry of the listing is looked at |
| Ingest.WalkYearsStoppedAt | extract_questions.py:338-342 | when the walk over the first entries has stopped, the walk over the whole listing ends the same way |
| Ingest.SeedSound | extract_questions.py:107-140 | seeding keeps the store sound |
| Ingest.InsertExamSound | extract_questions.py:173-184 | inserting an exam keeps the store sound |
| Ingest.InsertQuestionSound | extract_questions.py:186-232 | inserting a question keeps the store sound |
| Ingest.InsertAlternativesSound | extract_questions.py:234-253 | inserting alternatives for a stored question keeps the store sound |
| Ingest.InsertQuestionFilesSound | extract_questions.py:255-271 | inserting files for a stored question keeps the store sound |
| Ingest.ProcessQuestionSound | extract_questions.py:304-323 | processing one question folder keeps the store sound |
| Ingest.ProcessFoldersSound | extract_questions.py:299-323 | processing a year's question folders keeps the store sound |
| Ingest.ExtractYearSound | extract_questions.py:273-325 | extracting one year keeps the store sound |
| Ingest.WalkYearsSound | extract_questions.py:338-342 | the walk over the year folders keeps the store sound |
| Ingest.ExtractAllSound | extract_questions.py:327-344 | a whole run, complete or stopped, leaves a sound store |
| Ingest.EmptySound | extract_questions.py:24-105 | a freshly created store is sound |
| Extractor.EnemQuestionExtractor.constructor | extract_questions.py:14-105 | a new extractor holds six empty tables and is sound |
| Extractor.SeedTable | extract_questions.py:126-136 | the seeding loop over one label table ends with the table and counter `Ingest.SeedLabels` gives |
| Extractor.AlternativeBatch | extract_questions.py:239-250 | the loop succeeds exactly when no element lacks `letter` or `text`, and then holds the rows `Ingest.AlternativeRows` gives |
| Extractor.FileBatch | extract_questions.py:263-268 | the loop builds the rows `Ingest.FileRows` gives |
| Extractor.EnemQuestionExtractor.InsertDisciplinesAndLanguages | extract_questions.py:107-140 | the two seeding loops leave the store `Ingest.Seed` gives, and keep it sound |
| Extractor.EnemQuestionExtractor.GetDisciplineId | extract_questions.py:142-154 | returns `Ingest.DisciplineId` of the current store, a stored discipline id when present |
| Extractor.EnemQuestionExtractor.GetLanguageId | extract_questions.py:156-171 | returns `Ingest.LanguageId` of the current store, a stored language id when present |
| Extractor.EnemQuestionExtractor.InsertExam | extract_questions.py:173-184 | the new state is `Ingest.InsertExam` of the old one; the store stays sound |
| Extractor.EnemQuestionExtractor.InsertQuestion | extract_questions.py:186-232 | the new state and the result are `Ingest.InsertQuestion` of the old state; the store stays sound |
| Extractor.EnemQuestionExtractor.InsertAlternatives | extract_questions.py:234-253 | the loop's pending rows are committed only when it finishes; the new state and the result are `Ingest.InsertAlternatives` of the old state |
| Extractor.EnemQuestionExtractor.InsertQuestionFiles | extract_questions.py:255-271 | the new state is `Ingest.InsertQuestionFiles` of the old one; the store stays sound |
| Extractor.EnemQuestionExtractor.ProcessQuestion | extract_questions.py:304-323 | the new state and whether the folder counts are `Ingest.ProcessQuestion` of the old state |
| Extractor.EnemQuestionExtractor.ProcessFolder | extract_questions.py:300-323 | one question folder: the new state and whether it counts are `Ingest.ProcessFolder` of the old state; the store stays sound |
| Extractor.EnemQuestionExtractor.ProcessQuestionFolders | extract_questions.py:299-323 | the loop and its counter end as `Ingest.ProcessFolders` says; the store stays sound |
| Extractor.EnemQuestionExtractor.ExtractQuestionsFromYear | extract_questions.py:273-325 | the new state and the outcome are `Ingest.ExtractYear` of the old state |
| Extractor.EnemQuestionExtractor.ExtractEntry | extract_questions.py:338-342 | one entry of the root listing: the new state, the reports and whether the run goes on are `Ingest.YearStep` of the old state; the store stays sound |
| Extractor.EnemQuestionExtractor.ExtractAllQuestions | extract_questions.py:327-344 | seeding and the walk over the listing end as `Ingest.ExtractAll` says (reports, and whether the run completed); the store stays sound |
| Order.SortBy | view_questions.py:138 | the sorted sequence is ordered, has the same elements with the same multiplicities, and has the same length |
| Order.Dedup | src/enem/enem.service.ts:196 | `DISTINCT`: no element repeats, and it has exactly the elements of the input |
| Order.NoDupPermutation | src/enem/enem.service.ts:196 | reordering a sequence without repeats leaves none |
| Order.SortDistinct | src/enem/enem.service.ts:195-208 | `SELECT DISTINCT ... ORDER BY`: sorted, no repeats, and exactly the elements of the input |
| Query.JoinLabel | view_questions.py:33-34 | the LEFT JOIN finds a row exactly when the foreign key is set and some label row has that id, and that row has the id |
| Query.Select | view_questions.py:113-136 | a joined row is selected exactly when it matches every truthy filter and is the join of a question; never more rows than questions; with `SelectSnoc`/`SelectAppend` each matching question is selected once, in table order |
| Query.SelectSnoc | view_questions.py:121-136 | one more table row adds its joined row after the earlier selection exactly when it matches |
| Query.SelectAppend | view_questions.py:121-136 | the selection distributes over concatenation of the table: each row contributes independently, in table order |
| Query.SelectOne | view_questions.py:121-136 | a single question is selected once when it matches and not at all otherwise |
| Query.SelectNoDup | view_questions.py:121-136 | distinct question rows never yield a duplicated selected row |
| Query.Matching | view_questions.py:121-136 | the WHERE clause over the whole questions table selects exactly the matching joined questions, in table order |
| Query.MatchingNoDup | view_questions.py:121-136 | in a valid store (distinct primary keys) each matching question is selected exactly once |
| Query.SelectAll | view_questions.py:121-136 | with no truthy filter every question is selected once, in table order |
| Query.Ordered | view_questions.py:138 | the ORDER BY result is sorted by year descending then index ascending, and is a permutation of the matching rows |
| Query.OrderedMembers | view_questions.py:121-138 | a row is in the ordered result exactly when it matches the filters and is the join of a question |
| Query.Take | view_questions.py:138 | `LIMIT n` keeps a prefix of min(n, size) rows; a negative limit keeps all |
| Query.Window | src/enem/enem.service.ts:64 | `LIMIT l OFFSET o` gives min(l, size - o) rows starting at row o, and none when o is past the end |
| Query.AlternativesOf | view_questions.py:63-68 | the alternatives selected are exactly those of the question |
| Query.AlternativesOfCount | view_questions.py:63-68 | each of the question's rows is selected as many times as the table holds it, and no other row |
| Query.AlternativesOfAppend | view_questions.py:63-68 | the selection over two stretches of the table is the selection over the first followed by that over the second, so rows come in table order |
| Query.OrderedAlternatives | view_questions.py:63-68 | a question's alternatives sorted by letter: each of that question's rows as many times as the table holds it, and no other row |
| Query.FilesOf | view_questions.py:82-88 | the paths returned (the same query as `getQuestionFiles`) are exactly those of the question's file rows, never more than there are rows |
| Query.FilesOfAppend | view_questions.py:82-88 | the paths over two stretches of the table are those of the first followed by those of the second, one per row of the question, in table order |
| Query.QuestionById | view_questions.py:26-36 | a row exactly when the id is non-negative and a question has it; the row has that id and is that question's join |
| Viewer.DisciplineView | view_questions.py:52-55 | `discipline` is always a dict, holding None values when the join found no row |
| Viewer.LanguageView | view_questions.py:56-59 | `language` is None exactly when the join found no row or the label is empty; otherwise a dict with its label and value |
| Viewer.AlternativeView | view_questions.py:72-77 | `is_correct` is true exactly when the stored flag is non-zero; letter, text and file are copied |
| Viewer.ListAlternatives | view_questions.py:63-79 | the loop's list is the question's alternatives in letter order, each an alternative of that question |
| Viewer.ViewAll | view_questions.py:70-77 | the loop over the fetched alternatives gives one view per row, in order |
| Viewer.Assemble | view_questions.py:38-92 | the dictionary built for a selected row is its full record: its fields, its labels, its alternatives by letter and its files |
| Viewer.GetQuestionById | view_questions.py:21-92 | None exactly when the id is negative or absent; otherwise the question with that id, its labels, alternatives and files |
| Viewer.SearchQuestions | view_questions.py:94-161 | the first min(limit, count) ordered matching rows (all when the limit is negative); every row matches every truthy filter; year descending then index ascending |
| Viewer.SummarizeAll | view_questions.py:142-158 | one summary per fetched row, in order |
| Viewer.GetRandomQuestion | view_questions.py:163-195 | None exactly when no question matches the year and discipline filters; otherwise the full record of some matching question |
| Viewer.ExportQuestions | view_questions.py:197-282 | every matching question, in the ORDER BY order, each with its alternatives and files |
| Viewer.FullAll | view_questions.py:228-280 | the export's records: one per fetched row, the k-th being the full record of the k-th row |
| Viewer.AssembleAll | view_questions.py:228-280 | the loop builds exactly `Viewer.FullAll` of the fetched rows |
| Viewer.LookupFindsSameRow | view_questions.py:194 | in a valid store, looking a selected question up again by its id finds that same row |
| Filter.PageOf | src/enem/dto/filter.dto.ts:18-22 | a valid page is at least 1, and 1 when omitted |
| Filter.LimitOf | src/enem/dto/filter.dto.ts:24-29 | a valid limit is between 1 and 100, and 10 when omitted |
| Filter.OffsetOf | src/enem/enem.service.ts:21-22 | the offset is never negative, and every page after the first starts at least one full page in |
| Filter.NonNumericYearRejected | test_api.js:131 | a year that is not a number fails validation |
| Service.LabelOf | src/enem/enem.service.ts:87-94 | `discipline` and `language` are null exactly when the joined label is missing or empty; otherwise its label and value |
| Service.AlternativeDtoOf | src/enem/enem.service.ts:228-233 | `isCorrect` is true exactly when the stored flag is 1 |
| Service.GetAlternatives | src/enem/enem.service.ts:219-234 | one entry per stored alternative of the question, in letter order |
| Service.CeilDiv | src/enem/enem.service.ts:72 | `Math.ceil(total / limit)`: 0 for no rows; otherwise the least page count whose pages hold every row |
| Service.Dtos | src/enem/enem.service.ts:74-99 | one DTO per fetched row, in order |
| Service.PageStartIsProduct | src/enem/enem.service.ts:22 | page n + 1 starts n·limit rows in |
| Service.WindowAfterPrefix | src/enem/enem.service.ts:64 | the rows before an offset followed by the window at that offset are the rows up to where the window ends |
| Service.GetAllQuestions | src/enem/enem.service.ts:14-108 | `total` counts all matching rows regardless of the page; page and limit echo the defaults; `totalPages` is the ceiling; `data` is the ordered matching rows from the offset, at most `limit` of them |
| Service.PagesArePrefix | src/enem/enem.service.ts:64 | the first n pages together are the ordered rows up to where page n + 1 starts, which is n·limit by `Service.PageStartIsProduct` |
| Service.PagesCoverAll | src/enem/enem.service.ts:72 | pages 1 to `totalPages` together are every matching row, once, in order |
| Service.PageAfterLastIsEmpty | src/enem/enem.service.ts:64-72 | a page past `totalPages` is empty |
| Service.PageBeforeLastIsFull | src/enem/enem.service.ts:64-72 | every page before the last one holds exactly `limit` rows |
| Service.NoDataAfterLastPage | src/enem/enem.service.ts:14-108 | a valid request for a page past `totalPages` gets no data |
| Service.GetQuestionById | src/enem/enem.service.ts:110-153 | null exactly when no question has the id; otherwise that question's DTO |
| Service.GetRandomQuestion | src/enem/enem.service.ts:155-193 | null exactly when no question matches the filters; otherwise the DTO of some matching question |
| Service.GetAvailableYears | src/enem/enem.service.ts:195-199 | strictly descending, and a year appears exactly when some question has it (by `Order.SortDistinct`) |
| Service.DistinctLabels | src/enem/enem.service.ts:201-208 | `SELECT DISTINCT label, value ... ORDER BY label`: sorted by label, no repeats, exactly the stored pairs |
| Service.GetAvailableDisciplines | src/enem/enem.service.ts:201-208 | the distinct discipline (label, value) pairs, sorted by label |
| Service.GetAvailableLanguages | src/enem/enem.service.ts:210-217 | the distinct language (label, value) pairs, sorted by label |
| Service.CorrectFlagsAgree | src/enem/enem.service.ts:232 | in a valid store, the service's `=== 1` and the viewer's `bool()` give the same correctness flags |

## Left out

- The SQLite engine itself, connections, commits and `created_at` timestamps. The store is a value; each `INSERT OR IGNORE` is modelled by its effect.
- The filesystem and `json.load`. The `quiz-items` tree is a value (`QuizItems.YearEntry`), read when a method is called.
- A `questions` path that exists but is not a directory: `iterdir` would raise and end the run. The model treats every existing `questions` entry as a folder listing.
- JSON values of an unexpected type (a list where an object is expected, a number where a string is expected). Each JSON field is absent, `null` or of the expected type.
- `str.isdigit` accepts non-ASCII digits; the model recognises ASCII digits only.
- `get_statistics`, `print_question`, every `print`, the `main` functions, the JSON file write of `export_questions_to_json`, and the console output. Only what the export collects is modelled.
- `ORDER BY RANDOM()`: the random choice is a parameter `pick`.
- The controller, the module and `main.ts`, and `question.dto.ts`, which describes the response shape only. `async` and `Promise.all` are left out: each service call reads one snapshot of the tables.
- class-transformer's conversion of query strings to numbers: a converted number is an integer or not finite. Fractional numbers are not modelled.
- `search_questions` with `limit=None`: the query still has `LIMIT ?`, SQLite is handed NULL and raises a datatype mismatch. That error path is not modelled; `Query.Take` takes an integer limit, and a negative one means no limit, as in SQLite.
- `create_database` on an existing file: the constructor models a new store. Every method is proved from any sound store, which covers reopening one.
- Image download, link rewriting and any repair pass: no such code is part of this model.
- Query.QuestionById, Query.JoinLabel: the LEFT JOIN and the lookup by id take the first row with the id. SQLite would return one row per matching label row, and a row of its own choosing; the two agree because ids are unique in a valid store (`Viewer.LookupFindsSameRow`).
