/** What each step of the ingestion does to the store, as functions from one
    store value to the next. Every method opens its own connection and
    commits once at its end, so each step below is atomic: it either commits
    everything it did or, when the Python code raises before the commit,
    nothing. Under AUTOINCREMENT every `INSERT OR IGNORE` that reaches SQLite
    takes the next id before its constraints are checked and records it in
    `sqlite_sequence` even when the row is then ignored, so an ignored insert
    still uses up an id. */
module Ingest {
  import opened Tables
  import opened QuizItems

  /** The four ENEM areas seeded into `disciplines`, as (label, value). */
  const DisciplineSeeds: seq<(string, string)> := [
    ("Ciências Humanas e suas Tecnologias", "ciencias-humanas"),
    ("Ciências da Natureza e suas Tecnologias", "ciencias-natureza"),
    ("Linguagens, Códigos e suas Tecnologias", "linguagens"),
    ("Matemática e suas Tecnologias", "matematica")
  ]

  /** The two foreign-language options seeded into `languages`. */
  const LanguageSeeds: seq<(string, string)> := [
    ("Espanhol", "espanhol"),
    ("Inglês", "ingles")
  ]

  predicate HasValue(t: seq<LabelRow>, v: string)
  {
    exists i :: 0 <= i < |t| && t[i].value == v
  }

  predicate HasYear(t: seq<Exam>, year: int)
  {
    exists i :: 0 <= i < |t| && t[i].year == year
  }

  predicate DistinctValues(seeds: seq<(string, string)>)
  {
    forall i, j :: 0 <= i < j < |seeds| ==> seeds[i].1 != seeds[j].1
  }

  // ---------------------------------------------------------------------
  // Reference data

  /** One `INSERT OR IGNORE INTO <labels> (label, value)`: ignored when the
      UNIQUE value is already taken; the id is used up either way. */
  function InsertLabel(t: seq<LabelRow>, next: nat, seed: (string, string)): (seq<LabelRow>, nat)
  {
    if HasValue(t, seed.1) then (t, next + 1) else (t + [LabelRow(next, seed.0, seed.1)], next + 1)
  }

  /** The seeding loop over one table. */
  function SeedLabels(t: seq<LabelRow>, next: nat, seeds: seq<(string, string)>): (r: (seq<LabelRow>, nat))
    // the stored rows stay, and at most one row per seed is appended
    ensures |t| <= |r.0| <= |t| + |seeds| && r.0[..|t|] == t
    // every seed, stored or ignored, uses up one id
    ensures r.1 == next + |seeds|
    // new rows take ids from this run of statements, in ascending order
    ensures forall i :: |t| <= i < |r.0| ==> next <= r.0[i].id < next + |seeds|
    ensures forall i, j :: |t| <= i < j < |r.0| ==> r.0[i].id < r.0[j].id
    decreases |seeds|
  {
    if seeds == [] then (t, next)
    else
      var init := seeds[..|seeds| - 1];
      var prev := SeedLabels(t, next, init);
      InsertLabel(prev.0, prev.1, seeds[|seeds| - 1])
  }

  /** One more seed: inserted after the earlier ones. */
  lemma SeedLabelsStep(t: seq<LabelRow>, next: nat, seeds: seq<(string, string)>, i: nat)
    requires i < |seeds|
    ensures SeedLabels(t, next, seeds[..i + 1]) ==
              InsertLabel(SeedLabels(t, next, seeds[..i]).0, SeedLabels(t, next, seeds[..i]).1, seeds[i])
  {
    assert seeds[..i + 1][..i] == seeds[..i];
  }

  /** Each new row holds the seed whose statement took its id. */
  lemma {:induction false} SeedLabelsFromSeeds(t: seq<LabelRow>, next: nat, seeds: seq<(string, string)>)
    ensures forall row :: row in SeedLabels(t, next, seeds).0[|t|..] ==>
              next <= row.id < next + |seeds| && seeds[row.id - next] == (row.name, row.value)
    decreases |seeds|
  {
    if seeds != [] {
      var init := seeds[..|seeds| - 1];
      SeedLabelsFromSeeds(t, next, init);
      var t1 := SeedLabels(t, next, init).0;
      var r := SeedLabels(t, next, seeds).0;
      var last := seeds[|seeds| - 1];
      assert t1 <= r;
      forall row | row in r[|t|..] ensures next <= row.id < next + |seeds| && seeds[row.id - next] == (row.name, row.value) {
        var i :| |t| <= i < |r| && r[i] == row;
        if i < |t1| {
          assert r[i] == t1[i] && t1[i] in t1[|t|..];
          assert seeds[t1[i].id - next] == init[t1[i].id - next];
        } else {
          assert r == t1 + [LabelRow(next + |init|, last.0, last.1)];
        }
      }
    }
  }

  /** After seeding, every seed's value is in the table. */
  lemma {:induction false} SeedLabelsCovers(t: seq<LabelRow>, next: nat, seeds: seq<(string, string)>)
    ensures forall k :: 0 <= k < |seeds| ==> HasValue(SeedLabels(t, next, seeds).0, seeds[k].1)
    decreases |seeds|
  {
    if seeds != [] {
      var init := seeds[..|seeds| - 1];
      SeedLabelsCovers(t, next, init);
      var t1, n1 := SeedLabels(t, next, init).0, SeedLabels(t, next, init).1;
      var r := SeedLabels(t, next, seeds).0;
      assert r[..|t1|] == t1;
      forall k | 0 <= k < |seeds| ensures HasValue(r, seeds[k].1) {
        if k < |init| {
          assert init[k] == seeds[k];
          var i :| 0 <= i < |t1| && t1[i].value == seeds[k].1;
          assert r[i] == r[..|t1|][i];
        } else if !HasValue(t1, seeds[k].1) {
          assert r[|t1|].value == seeds[k].1;
        }
      }
    }
  }

  /** Seeding never writes a value twice, and leaves a table with distinct
      values with distinct values. */
  lemma {:induction false} SeedLabelsUnique(t: seq<LabelRow>, next: nat, seeds: seq<(string, string)>)
    requires UniqueValues(t)
    ensures UniqueValues(SeedLabels(t, next, seeds).0)
    decreases |seeds|
  {
    if seeds != [] {
      var init := seeds[..|seeds| - 1];
      SeedLabelsUnique(t, next, init);
      var t1, n1 := SeedLabels(t, next, init).0, SeedLabels(t, next, init).1;
      var last := seeds[|seeds| - 1];
      if !HasValue(t1, last.1) {
        var r := t1 + [LabelRow(n1, last.0, last.1)];
        forall i, j | 0 <= i < j < |r| ensures r[i].value != r[j].value {
          if j < |t1| { assert r[i] == t1[i] && r[j] == t1[j]; } else { assert r[i] == t1[i]; }
        }
      }
    }
  }

  /** When every seed value is already present, seeding writes no row; the
      counter still moves on by one id per seed. */
  lemma {:induction false} SeedLabelsNoop(t: seq<LabelRow>, next: nat, seeds: seq<(string, string)>)
    requires forall k :: 0 <= k < |seeds| ==> HasValue(t, seeds[k].1)
    ensures SeedLabels(t, next, seeds) == (t, next + |seeds|)
    decreases |seeds|
  {
    if seeds != [] {
      var init := seeds[..|seeds| - 1];
      assert forall k :: 0 <= k < |init| ==> init[k] == seeds[k];
      SeedLabelsNoop(t, next, init);
    }
  }

  /** `insert_disciplines_and_languages` (after `create_database`, whose
      CREATE TABLE IF NOT EXISTS leaves an existing store as it is). */
  function Seed(db: Db): Db
  {
    var d := SeedLabels(db.disciplines, db.nextDiscipline, DisciplineSeeds);
    var l := SeedLabels(db.languages, db.nextLanguage, LanguageSeeds);
    db.(disciplines := d.0, nextDiscipline := d.1, languages := l.0, nextLanguage := l.1)
  }

  /** A last seed whose value is new is appended under the id its statement
      took. */
  lemma SeedLabelsAppends(t: seq<LabelRow>, next: nat, seeds: seq<(string, string)>)
    requires seeds != []
    requires !HasValue(SeedLabels(t, next, seeds[..|seeds| - 1]).0, seeds[|seeds| - 1].1)
    ensures SeedLabels(t, next, seeds).0 ==
              SeedLabels(t, next, seeds[..|seeds| - 1]).0 + [LabelRow(next + |seeds| - 1, seeds[|seeds| - 1].0, seeds[|seeds| - 1].1)]
  {
  }

  /** Seeds whose values are all new are appended one row each, in order. */
  lemma {:induction false} SeedNewValues(t: seq<LabelRow>, next: nat, seeds: seq<(string, string)>)
    requires DistinctValues(seeds)
    requires forall k :: 0 <= k < |seeds| ==> !HasValue(t, seeds[k].1)
    ensures |SeedLabels(t, next, seeds).0| == |t| + |seeds|
    ensures forall k :: 0 <= k < |seeds| ==>
              SeedLabels(t, next, seeds).0[|t| + k] == LabelRow(next + k, seeds[k].0, seeds[k].1)
    decreases |seeds|
  {
    if seeds != [] {
      var init := seeds[..|seeds| - 1];
      SeedNewValues(t, next, init);
      var t1, n1 := SeedLabels(t, next, init).0, SeedLabels(t, next, init).1;
      var last := seeds[|seeds| - 1];
      assert !HasValue(t1, last.1) by {
        forall i | 0 <= i < |t1| ensures t1[i].value != last.1 {
          if i < |t| {
            assert t1[i] == t[i];
          } else {
            var k := i - |t|;
            assert t1[|t| + k].value == init[k].1 == seeds[k].1;
          }
        }
      }
      SeedLabelsAppends(t, next, seeds);
      var r := t1 + [LabelRow(next + |init|, last.0, last.1)];
      forall k | 0 <= k < |seeds| ensures r[|t| + k] == LabelRow(next + k, seeds[k].0, seeds[k].1) {
        if k < |init| {
          assert r[|t| + k] == t1[|t| + k] == LabelRow(next + k, init[k].0, init[k].1);
        }
      }
    }
  }

  /** On a new store, seeding writes exactly the four disciplines and the two
      languages, with ids 1 to 4 and 1 to 2. */
  lemma SeedEmptyStore()
    ensures |Seed(Empty).disciplines| == 4 && Seed(Empty).nextDiscipline == 5
    ensures forall k :: 0 <= k < 4 ==>
              Seed(Empty).disciplines[k] == LabelRow(k + 1, DisciplineSeeds[k].0, DisciplineSeeds[k].1)
    ensures |Seed(Empty).languages| == 2 && Seed(Empty).nextLanguage == 3
    ensures forall k :: 0 <= k < 2 ==>
              Seed(Empty).languages[k] == LabelRow(k + 1, LanguageSeeds[k].0, LanguageSeeds[k].1)
  {
    DistinctSeeds();
    SeedNewValues([], 1, DisciplineSeeds);
    SeedNewValues([], 1, LanguageSeeds);
  }

  lemma DistinctSeeds()
    ensures DistinctValues(DisciplineSeeds) && DistinctValues(LanguageSeeds)
  {
    assert |DisciplineSeeds[0].1| == 16 && |DisciplineSeeds[1].1| == 17;
    assert DisciplineSeeds[2].1[0] == 'l' && DisciplineSeeds[3].1[0] == 'm';
    assert |DisciplineSeeds[2].1| == 10 && |DisciplineSeeds[3].1| == 10;
    assert |LanguageSeeds[0].1| == 8 && |LanguageSeeds[1].1| == 6;
  }

  /** Re-seeding writes no row: every table is as the first seeding left
      it, and only the two label counters move on, by one id per seed. */
  lemma SeedIdempotent(db: Db)
    ensures Seed(Seed(db)) == Seed(db).(nextDiscipline := Seed(db).nextDiscipline + |DisciplineSeeds|,
                                        nextLanguage := Seed(db).nextLanguage + |LanguageSeeds|)
  {
    var s := Seed(db);
    SeedLabelsCovers(db.disciplines, db.nextDiscipline, DisciplineSeeds);
    SeedLabelsCovers(db.languages, db.nextLanguage, LanguageSeeds);
    SeedLabelsNoop(s.disciplines, s.nextDiscipline, DisciplineSeeds);
    SeedLabelsNoop(s.languages, s.nextLanguage, LanguageSeeds);
  }

  // ---------------------------------------------------------------------
  // Exams and slug lookups

  /** The title of the exam row for a year, if there is one. */
  function ExamTitle(t: seq<Exam>, year: int): (r: Option<string>)
    ensures r.None? <==> !HasYear(t, year)
    ensures r.Some? ==> exists i :: 0 <= i < |t| && t[i].year == year && t[i].title == r.value
  {
    if t == [] then None
    else if t[0].year == year then Some(t[0].title)
    else
      var r := ExamTitle(t[1..], year);
      assert r.Some? ==> exists i :: 1 <= i < |t| && t[i].year == year && t[i].title == r.value by {
        if r.Some? {
          var i :| 0 <= i < |t[1..]| && t[1..][i].year == year && t[1..][i].title == r.value;
          assert t[i + 1] == t[1..][i];
        }
      }
      assert !HasYear(t[1..], year) ==> !HasYear(t, year) by {
        if HasYear(t, year) {
          var i :| 0 <= i < |t| && t[i].year == year;
          assert t[1..][i - 1] == t[i];
        }
      }
      r
  }

  /** `insert_exam`: INSERT OR IGNORE under UNIQUE(year) and a NOT NULL
      title; `title` is None for a JSON `null`. */
  function InsertExam(db: Db, title: Option<string>, year: int): (r: Db)
    // only the exams table changes, and its counter moves on by one id, ignored or not
    ensures r == db.(exams := r.exams, nextExam := db.nextExam + 1)
    // a year already stored, or a null title, writes no row
    ensures title.None? || HasYear(db.exams, year) ==> r.exams == db.exams
    // otherwise exactly one row, under the id the statement took
    ensures title.Some? && !HasYear(db.exams, year) ==> r.exams == db.exams + [Exam(db.nextExam, title.value, year)]
    // first write wins: the year keeps the title it was first stored with
    ensures ExamTitle(r.exams, year) == if HasYear(db.exams, year) then ExamTitle(db.exams, year) else title
  {
    if title.None? || HasYear(db.exams, year) then db.(nextExam := db.nextExam + 1)
    else
      var r := db.(exams := db.exams + [Exam(db.nextExam, title.value, year)], nextExam := db.nextExam + 1);
      assert r.exams[|db.exams|].year == year;
      r
  }

  /** `get_discipline_id(question_data.get('discipline'))`: a missing or null
      slug is compared with `= NULL`, which matches no row. */
  function DisciplineId(db: Db, slug: Option<string>): (r: Option<nat>)
    ensures r.Some? <==> slug.Some? && HasValue(db.disciplines, slug.value)
    ensures r.Some? ==> (exists i :: 0 <= i < |db.disciplines| &&
                           db.disciplines[i].value == slug.value && db.disciplines[i].id == r.value)
  {
    if slug.None? then None else FindLabel(db.disciplines, slug.value)
  }

  /** `get_language_id`: a falsy slug (None or "") returns None before any lookup. */
  function LanguageId(db: Db, slug: Option<string>): (r: Option<nat>)
    ensures r.Some? <==> slug.Some? && slug.value != "" && HasValue(db.languages, slug.value)
    ensures r.Some? ==> (exists i :: 0 <= i < |db.languages| &&
                           db.languages[i].value == slug.value && db.languages[i].id == r.value)
  {
    if slug.None? || slug.value == "" then None else FindLabel(db.languages, slug.value)
  }

  // ---------------------------------------------------------------------
  // Questions

  /** What `insert_question` returns: it raised a KeyError, or it returned an
      id or None. */
  datatype Inserted = KeyError | Returned(id: Option<nat>)

  /** `question_data['title']`, `['index']` and `['year']` do not raise. */
  predicate RequiredKeys(q: RawQuestion)
  {
    !q.title.Absent? && !q.index.Absent? && !q.year.Absent?
  }

  /** The three NOT NULL columns of the row get values. */
  predicate NotNull(q: RawQuestion)
  {
    q.title.Present? && q.index.Present? && q.year.Present?
  }

  /** The SELECT run when the insert was ignored (`lastrowid == 0`): `= ?`
      never holds for a NULL parameter, so a key with a NULL part finds nothing. */
  function LookupKey(db: Db, q: RawQuestion): (r: Option<nat>)
    ensures r.Some? ==> (q.index.Present? && q.year.Present? &&
                         DisciplineId(db, Get(q.discipline)).Some? && LanguageId(db, Get(q.language)).Some?)
    ensures r.Some? ==> HasQuestion(db.questions, r.value)
    // with every key part set: a stored row with exactly that key is found, and its id returned
    ensures q.index.Present? && q.year.Present? &&
            DisciplineId(db, Get(q.discipline)).Some? && LanguageId(db, Get(q.language)).Some? ==>
              var d, l := DisciplineId(db, Get(q.discipline)).value, LanguageId(db, Get(q.language)).value;
              && (r.None? <==> forall i :: 0 <= i < |db.questions| ==> !KeyIs(db.questions[i], q.year.value, q.index.value, d, l))
              && (r.Some? ==> exists i :: 0 <= i < |db.questions| && KeyIs(db.questions[i], q.year.value, q.index.value, d, l) &&
                                          db.questions[i].id == r.value)
  {
    var d := DisciplineId(db, Get(q.discipline));
    var l := LanguageId(db, Get(q.language));
    if q.index.Present? && q.year.Present? && d.Some? && l.Some? then
      FindQuestionId(db.questions, q.year.value, q.index.value, d.value, l.value)
    else None
  }

  /** The row a successful insert writes; missing optional text defaults to "". */
  function NewQuestion(db: Db, q: RawQuestion): (r: Question)
    requires NotNull(q)
    ensures r.id == db.nextQuestion
    ensures (r.title, r.index, r.year) == (q.title.value, q.index.value, q.year.value)
    ensures r.disciplineId == DisciplineId(db, Get(q.discipline)) && r.languageId == LanguageId(db, Get(q.language))
    // a given text is stored as it is, a `null` one as NULL, and a missing one as ""
    ensures q.context.Present? ==> r.context == Some(q.context.value)
    ensures q.context.Null? ==> r.context.None?
    ensures q.context.Absent? ==> r.context == Some("")
    ensures q.alternativesIntroduction.Present? ==> r.alternativesIntroduction == Some(q.alternativesIntroduction.value)
    ensures q.alternativesIntroduction.Null? ==> r.alternativesIntroduction.None?
    ensures q.alternativesIntroduction.Absent? ==> r.alternativesIntroduction == Some("")
    ensures q.correctAlternative.Present? ==> r.correctAlternative == Some(q.correctAlternative.value)
    ensures q.correctAlternative.Null? ==> r.correctAlternative.None?
    ensures q.correctAlternative.Absent? ==> r.correctAlternative == Some("")
  {
    Question(db.nextQuestion, q.title.value, q.index.value, q.year.value,
             DisciplineId(db, Get(q.discipline)), LanguageId(db, Get(q.language)),
             GetOr(q.context, ""), GetOr(q.alternativesIntroduction, ""), GetOr(q.correctAlternative, ""))
  }

  /** `insert_question`. */
  function InsertQuestion(db: Db, q: RawQuestion): (r: (Db, Inserted))
    // a missing required key raises before the statement runs, so nothing changes
    ensures r.1.KeyError? <==> !RequiredKeys(q)
    ensures r.1.KeyError? ==> r.0 == db
    // first write wins: an existing row with the same complete key is kept and its id
    // returned; the ignored insert uses up an id
    ensures RequiredKeys(q) && LookupKey(db, q).Some? ==>
              r == (db.(nextQuestion := db.nextQuestion + 1), Returned(LookupKey(db, q)))
    // a NULL in a NOT NULL column makes the insert be ignored as well
    ensures RequiredKeys(q) && !NotNull(q) ==>
              r == (db.(nextQuestion := db.nextQuestion + 1), Returned(LookupKey(db, q)))
    // otherwise exactly one row is appended under the id the statement took, which is returned
    ensures NotNull(q) && LookupKey(db, q).None? ==>
              r == (db.(questions := db.questions + [NewQuestion(db, q)], nextQuestion := db.nextQuestion + 1),
                    Returned(Some(db.nextQuestion)))
    // a returned id names a row of the table
    ensures r.1.Returned? && r.1.id.Some? ==> HasQuestion(r.0.questions, r.1.id.value)
  {
    if !RequiredKeys(q) then (db, KeyError)
    else
      var existing := LookupKey(db, q);
      if NotNull(q) && existing.None? then
        var row := NewQuestion(db, q);
        var t := db.questions + [row];
        assert t[|db.questions|] == row;
        (db.(questions := t, nextQuestion := db.nextQuestion + 1), Returned(Some(db.nextQuestion)))
      else
        (db.(nextQuestion := db.nextQuestion + 1), Returned(existing))
  }

  /** SQLite's NULLs are distinct under UNIQUE: a question whose discipline or
      language does not resolve is always written as a new row. */
  lemma NullKeyNeverConflicts(db: Db, q: RawQuestion)
    requires NotNull(q)
    requires DisciplineId(db, Get(q.discipline)).None? || LanguageId(db, Get(q.language)).None?
    ensures InsertQuestion(db, q).0.questions == db.questions + [NewQuestion(db, q)]
    ensures InsertQuestion(db, q).1 == Returned(Some(db.nextQuestion))
  {
  }

  /** Inserting the same question twice: with a complete key the second call
      returns the first id and writes no row, only using up an id; with a
      NULL key part it writes a second row. */
  lemma {:induction false} InsertQuestionTwice(db: Db, q: RawQuestion)
    requires Valid(db) && NotNull(q) && LookupKey(db, q).None?
    ensures var first := InsertQuestion(db, q);
            var second := InsertQuestion(first.0, q);
            if DisciplineId(db, Get(q.discipline)).Some? && LanguageId(db, Get(q.language)).Some?
            then second.0 == first.0.(nextQuestion := first.0.nextQuestion + 1) && second.1 == first.1
            else |second.0.questions| == |db.questions| + 2
  {
    var db1 := InsertQuestion(db, q).0;
    assert db1.disciplines == db.disciplines && db1.languages == db.languages;
    var d := DisciplineId(db, Get(q.discipline));
    var l := LanguageId(db, Get(q.language));
    if d.Some? && l.Some? {
      var row := NewQuestion(db, q);
      assert db1.questions == db.questions + [row];
      FindQuestionIdAppend(db.questions, row, q.year.value, q.index.value, d.value, l.value);
    }
  }

  /** The lookup over a table with one more row finds the earlier rows first. */
  lemma {:induction false} FindQuestionIdAppend(t: seq<Question>, row: Question, year: int, index: int, d: nat, l: nat)
    ensures FindQuestionId(t + [row], year, index, d, l) ==
            if FindQuestionId(t, year, index, d, l).Some? then FindQuestionId(t, year, index, d, l)
            else if KeyIs(row, year, index, d, l) then Some(row.id) else None
    decreases |t|
  {
    if t != [] {
      assert (t + [row])[1..] == t[1..] + [row];
      FindQuestionIdAppend(t[1..], row, year, index, d, l);
    }
  }

  // ---------------------------------------------------------------------
  // Alternatives and files

  /** `alt['letter']` or `alt['text']` raises a KeyError. */
  predicate Raises(a: RawAlternative)
  {
    a.letter.Absent? || a.text.Absent?
  }

  /** The NOT NULL columns letter, text and is_correct all get values;
      otherwise INSERT OR IGNORE skips the row. */
  predicate Storable(a: RawAlternative)
  {
    a.letter.Present? && a.text.Present? && !a.isCorrect.Null?
  }

  /** The stored `is_correct`: `alt.get('isCorrect', False)` as SQLite keeps a bool. */
  function Flag(a: RawAlternative): int
  {
    if a.isCorrect.Present? && a.isCorrect.value then 1 else 0
  }

  /** The row stored for one storable alternative; `file` defaults to NULL. */
  function AlternativeRow(questionId: nat, a: RawAlternative, id: nat): Alternative
    requires Storable(a)
  {
    Alternative(id, questionId, a.letter.value, a.text.value, Get(a.file), Flag(a))
  }

  /** The rows one batch of alternatives appends. Every element's statement
      takes the next id, so the element at position k is stored, when it is
      storable, under `next + k`, and skipped otherwise. */
  function AlternativeRows(questionId: nat, alts: seq<RawAlternative>, next: nat): (rows: seq<Alternative>)
    ensures |rows| <= |alts|
    ensures forall i :: 0 <= i < |rows| ==>
              next <= rows[i].id < next + |alts| && rows[i].questionId == questionId && rows[i].isCorrect in {0, 1}
    // the rows follow list order
    ensures forall i, j :: 0 <= i < j < |rows| ==> rows[i].id < rows[j].id
    decreases |alts|
  {
    if alts == [] then []
    else
      var init := alts[..|alts| - 1];
      var rows := AlternativeRows(questionId, init, next);
      var a := alts[|alts| - 1];
      if Storable(a) then rows + [AlternativeRow(questionId, a, next + |init|)] else rows
  }

  /** One more alternative: its row, when storable, follows the earlier ones. */
  lemma AlternativeRowsStep(questionId: nat, alts: seq<RawAlternative>, i: nat, next: nat)
    requires i < |alts|
    ensures var rows := AlternativeRows(questionId, alts[..i], next);
            AlternativeRows(questionId, alts[..i + 1], next) ==
              if Storable(alts[i]) then rows + [AlternativeRow(questionId, alts[i], next + i)] else rows
  {
    assert alts[..i + 1][..i] == alts[..i];
  }

  /** Each row of a batch is the stored form of the element whose statement
      took its id. */
  lemma {:induction false} AlternativeRowsFromList(questionId: nat, alts: seq<RawAlternative>, next: nat)
    ensures forall row :: row in AlternativeRows(questionId, alts, next) ==>
              next <= row.id < next + |alts| && Storable(alts[row.id - next])
              && row == AlternativeRow(questionId, alts[row.id - next], row.id)
    decreases |alts|
  {
    if alts != [] {
      var init := alts[..|alts| - 1];
      AlternativeRowsFromList(questionId, init, next);
      var prev := AlternativeRows(questionId, init, next);
      var rows := AlternativeRows(questionId, alts, next);
      var last := alts[|alts| - 1];
      assert prev <= rows;
      forall row | row in rows
        ensures Storable(alts[row.id - next]) && row == AlternativeRow(questionId, alts[row.id - next], row.id)
      {
        var i :| 0 <= i < |rows| && rows[i] == row;
        if i < |prev| {
          assert rows[i] == prev[i];
          assert prev[i] in prev;
          assert alts[prev[i].id - next] == init[prev[i].id - next];
        } else {
          assert Storable(last) && rows[i] == AlternativeRow(questionId, last, next + |init|);
        }
      }
    }
  }

  /** Every storable element of a batch has its row, under the id its
      statement took. */
  lemma {:induction false} AlternativeRowsComplete(questionId: nat, alts: seq<RawAlternative>, next: nat)
    ensures forall k :: 0 <= k < |alts| && Storable(alts[k]) ==>
              AlternativeRow(questionId, alts[k], next + k) in AlternativeRows(questionId, alts, next)
    decreases |alts|
  {
    if alts != [] {
      var init := alts[..|alts| - 1];
      AlternativeRowsComplete(questionId, init, next);
      var prev := AlternativeRows(questionId, init, next);
      var rows := AlternativeRows(questionId, alts, next);
      assert prev <= rows;
      forall k | 0 <= k < |alts| && Storable(alts[k]) ensures AlternativeRow(questionId, alts[k], next + k) in rows {
        if k < |init| {
          assert alts[k] == init[k];
        }
      }
    }
  }

  /** With every element storable, the batch writes one row per element, in
      list order, with `file` defaulting to NULL and `isCorrect` to false. */
  lemma {:induction false} AlternativeRowsInOrder(questionId: nat, alts: seq<RawAlternative>, next: nat)
    requires forall k :: 0 <= k < |alts| ==> Storable(alts[k])
    ensures |AlternativeRows(questionId, alts, next)| == |alts|
    ensures forall k :: 0 <= k < |alts| ==>
              Storable(alts[k]) && AlternativeRows(questionId, alts, next)[k] == AlternativeRow(questionId, alts[k], next + k)
    decreases |alts|
  {
    if alts != [] {
      var init := alts[..|alts| - 1];
      AlternativeRowsInOrder(questionId, init, next);
      assert forall k :: 0 <= k < |init| ==> init[k] == alts[k];
    }
  }

  /** `insert_alternatives`: all rows of the batch commit together, or none
      when an element raises and the connection closes uncommitted. */
  function InsertAlternatives(db: Db, questionId: nat, alts: seq<RawAlternative>): (r: (Db, bool))
    ensures r.1 <==> forall k :: 0 <= k < |alts| ==> !Raises(alts[k])
    ensures !r.1 ==> r.0 == db
    // on success the rows are appended and every element has used up one id
    ensures r.1 ==> r.0 == db.(alternatives := db.alternatives + AlternativeRows(questionId, alts, db.nextAlternative),
                               nextAlternative := db.nextAlternative + |alts|)
  {
    if exists k :: 0 <= k < |alts| && Raises(alts[k]) then (db, false)
    else
      var rows := AlternativeRows(questionId, alts, db.nextAlternative);
      (db.(alternatives := db.alternatives + rows, nextAlternative := db.nextAlternative + |alts|), true)
  }

  /** No UNIQUE constraint on `alternatives`: the same batch inserted twice is
      stored twice. */
  lemma AlternativesNotDeduplicated(db: Db, questionId: nat, alts: seq<RawAlternative>)
    requires forall k :: 0 <= k < |alts| ==> Storable(alts[k])
    ensures var db1 := InsertAlternatives(db, questionId, alts).0;
            |InsertAlternatives(db1, questionId, alts).0.alternatives| == |db.alternatives| + 2 * |alts|
  {
    AlternativeRowsInOrder(questionId, alts, db.nextAlternative);
    AlternativeRowsInOrder(questionId, alts, db.nextAlternative + |alts|);
  }

  /** The rows one list of file paths appends. The path at position k is
      stored under `next + k`; a `null` one violates NOT NULL and is skipped,
      its id used up. */
  function FileRows(questionId: nat, paths: seq<Option<string>>, next: nat): (rows: seq<QuestionFile>)
    ensures |rows| <= |paths|
    ensures forall i :: 0 <= i < |rows| ==> next <= rows[i].id < next + |paths| && rows[i].questionId == questionId
    // the rows follow list order
    ensures forall i, j :: 0 <= i < j < |rows| ==> rows[i].id < rows[j].id
    decreases |paths|
  {
    if paths == [] then []
    else
      var init := paths[..|paths| - 1];
      var rows := FileRows(questionId, init, next);
      var p := paths[|paths| - 1];
      if p.Some? then rows + [QuestionFile(next + |init|, questionId, p.value)] else rows
  }

  /** One more path: its row, unless it is `null`, follows the earlier ones. */
  lemma FileRowsStep(questionId: nat, paths: seq<Option<string>>, i: nat, next: nat)
    requires i < |paths|
    ensures var rows := FileRows(questionId, paths[..i], next);
            FileRows(questionId, paths[..i + 1], next) ==
              if paths[i].Some? then rows + [QuestionFile(next + i, questionId, paths[i].value)] else rows
  {
    assert paths[..i + 1][..i] == paths[..i];
  }

  /** Each file row holds the path whose statement took its id. */
  lemma {:induction false} FileRowsFromList(questionId: nat, paths: seq<Option<string>>, next: nat)
    ensures forall row :: row in FileRows(questionId, paths, next) ==>
              next <= row.id < next + |paths| && paths[row.id - next] == Some(row.filePath)
    decreases |paths|
  {
    if paths != [] {
      var init := paths[..|paths| - 1];
      FileRowsFromList(questionId, init, next);
      var prev := FileRows(questionId, init, next);
      var rows := FileRows(questionId, paths, next);
      var last := paths[|paths| - 1];
      assert prev <= rows;
      forall row | row in rows ensures paths[row.id - next] == Some(row.filePath) {
        var i :| 0 <= i < |rows| && rows[i] == row;
        if i < |prev| {
          assert rows[i] == prev[i] && prev[i] in prev;
          assert paths[prev[i].id - next] == init[prev[i].id - next];
        } else {
          assert last.Some? && rows[i] == QuestionFile(next + |init|, questionId, last.value);
        }
      }
    }
  }

  /** Every non-null path has its row, under the id its statement took. */
  lemma {:induction false} FileRowsComplete(questionId: nat, paths: seq<Option<string>>, next: nat)
    ensures forall k :: 0 <= k < |paths| && paths[k].Some? ==>
              QuestionFile(next + k, questionId, paths[k].value) in FileRows(questionId, paths, next)
    decreases |paths|
  {
    if paths != [] {
      var init := paths[..|paths| - 1];
      FileRowsComplete(questionId, init, next);
      var prev := FileRows(questionId, init, next);
      var rows := FileRows(questionId, paths, next);
      assert prev <= rows;
      forall k | 0 <= k < |paths| && paths[k].Some? ensures QuestionFile(next + k, questionId, paths[k].value) in rows {
        if k < |init| {
          assert paths[k] == init[k];
        }
      }
    }
  }

  /** With no `null` entry, one row per path, in list order. */
  lemma {:induction false} FileRowsInOrder(questionId: nat, paths: seq<Option<string>>, next: nat)
    requires forall k :: 0 <= k < |paths| ==> paths[k].Some?
    ensures |FileRows(questionId, paths, next)| == |paths|
    ensures forall k :: 0 <= k < |paths| ==>
              FileRows(questionId, paths, next)[k] == QuestionFile(next + k, questionId, paths[k].value)
    decreases |paths|
  {
    if paths != [] {
      var init := paths[..|paths| - 1];
      FileRowsInOrder(questionId, init, next);
      assert forall k :: 0 <= k < |init| ==> init[k] == paths[k];
    }
  }

  /** `insert_question_files`; `files` is None when the JSON value is `null`.
      A `null` or empty list returns at once. */
  function InsertQuestionFiles(db: Db, questionId: nat, files: Option<seq<Option<string>>>): (r: Db)
    ensures files.None? || files.value == [] ==> r == db
    // only the files table and its counter change
    ensures r == db.(files := r.files, nextFile := r.nextFile)
    // otherwise the rows are appended and every path has used up one id
    ensures files.Some? ==> r.files == db.files + FileRows(questionId, files.value, db.nextFile)
    ensures files.Some? ==> r.nextFile == db.nextFile + |files.value|
  {
    if files.None? || files.value == [] then db
    else
      var rows := FileRows(questionId, files.value, db.nextFile);
      db.(files := db.files + rows, nextFile := db.nextFile + |files.value|)
  }

  // ---------------------------------------------------------------------
  // The walk over one year's question folders

  /** The `try` block for one parsed question: returns the new store and
      whether `questions_processed` is incremented. */
  function ProcessQuestion(db: Db, q: RawQuestion): (r: (Db, bool))
    // counted exactly when insert_question returned an id and no alternative raised
    ensures r.1 <==> InsertQuestion(db, q).1.Returned? && InsertQuestion(db, q).1.id.Some? &&
                     !q.alternatives.Null? &&
                     (q.alternatives.Present? ==> forall k :: 0 <= k < |q.alternatives.value| ==> !Raises(q.alternatives.value[k]))
    // the question row, once committed, stays even when a later batch raises
    ensures r.0.questions == InsertQuestion(db, q).0.questions
    ensures r.0.nextQuestion == InsertQuestion(db, q).0.nextQuestion
    ensures r.0.exams == db.exams && r.0.nextExam == db.nextExam
    ensures r.0.disciplines == db.disciplines && r.0.languages == db.languages
    // a folder that does not count keeps the question insert's store: a raising batch is rolled back
    ensures !r.1 ==> r.0 == InsertQuestion(db, q).0
    // a counted folder adds its alternatives, then its files (unless the key is missing), for the returned id
    ensures r.1 ==>
              var db1, id := InsertQuestion(db, q).0, InsertQuestion(db, q).1.id.value;
              var db2 := if q.alternatives.Present? then InsertAlternatives(db1, id, q.alternatives.value).0 else db1;
              r.0 == if q.files.Absent? then db2 else InsertQuestionFiles(db2, id, Get(q.files))
  {
    var ins := InsertQuestion(db, q);
    var db1, out := ins.0, ins.1;
    if out.KeyError? || out.id.None? then (db1, false)
    else if q.alternatives.Null? then (db1, false)   // iterating None raises a TypeError
    else
      var id := out.id.value;
      var batch := if q.alternatives.Present? then InsertAlternatives(db1, id, q.alternatives.value) else (db1, true);
      var db2, ok := batch.0, batch.1;
      if !ok then (db2, false)
      else
        var db3 := if q.files.Absent? then db2 else InsertQuestionFiles(db2, id, Get(q.files));
        (db3, true)
  }

  /** One entry of the `questions` folder: entries that are not directories
      or have no `details.json` are passed over; a malformed file raises, and
      the exception is caught. */
  function ProcessFolder(db: Db, e: QuestionEntry): (r: (Db, bool))
    ensures r.0.exams == db.exams && r.0.nextExam == db.nextExam
    ensures r.0.disciplines == db.disciplines && r.0.languages == db.languages
  {
    if !e.isDir || e.details.None? then (db, false)
    else match e.details.value
      case Malformed => (db, false)
      case Parsed(q) => ProcessQuestion(db, q)
  }

  /** The loop over the `questions` folder and its `questions_processed` counter. */
  function ProcessFolders(db: Db, es: seq<QuestionEntry>): (r: (Db, nat))
    ensures r.1 <= |es|
    // question folders never touch the exams or the label tables
    ensures r.0.exams == db.exams && r.0.nextExam == db.nextExam
    ensures r.0.disciplines == db.disciplines && r.0.languages == db.languages
    decreases |es|
  {
    if es == [] then (db, 0)
    else
      var prev := ProcessFolders(db, es[..|es| - 1]);
      var last := ProcessFolder(prev.0, es[|es| - 1]);
      (last.0, if last.1 then prev.1 + 1 else prev.1)
  }

  /** One more folder: processed after the earlier ones, counted when it counts. */
  lemma ProcessFoldersStep(db: Db, es: seq<QuestionEntry>, i: nat)
    requires i < |es|
    ensures ProcessFolders(db, es[..i + 1]).0 == ProcessFolder(ProcessFolders(db, es[..i]).0, es[i]).0
    ensures ProcessFolders(db, es[..i + 1]).1 ==
              ProcessFolders(db, es[..i]).1 + if ProcessFolder(ProcessFolders(db, es[..i]).0, es[i]).1 then 1 else 0
  {
    assert es[..i + 1][..i] == es[..i];
  }

  /** A folder that fails before writing anything: not a directory, no
      details file, malformed JSON, or a missing required key. */
  predicate Inert(e: QuestionEntry)
  {
    !e.isDir || e.details.None? || e.details.value.Malformed? || !RequiredKeys(e.details.value.value)
  }

  /** One more folder at the end of the listing. */
  lemma ProcessFoldersSnoc(db: Db, es: seq<QuestionEntry>, e: QuestionEntry)
    ensures ProcessFolders(db, es + [e]).0 == ProcessFolder(ProcessFolders(db, es).0, e).0
    ensures ProcessFolders(db, es + [e]).1 ==
              ProcessFolders(db, es).1 + if ProcessFolder(ProcessFolders(db, es).0, e).1 then 1 else 0
  {
    var all := es + [e];
    ProcessFoldersStep(db, all, |es|);
    assert all[..|es| + 1] == all && all[..|es|] == es && all[|es|] == e;
  }

  /** An inert folder neither changes the store nor counts. */
  lemma InertFolder(db: Db, e: QuestionEntry)
    requires Inert(e)
    ensures ProcessFolder(db, e) == (db, false)
  {
  }

  /** Isolation: a bad folder anywhere in the listing leaves the outcome of
      every other folder, and the count, exactly as if it were not there. */
  lemma {:induction false} BadFolderIsolated(db: Db, before: seq<QuestionEntry>, bad: QuestionEntry, after: seq<QuestionEntry>)
    requires Inert(bad)
    ensures ProcessFolders(db, before + [bad] + after) == ProcessFolders(db, before + after)
    decreases |after|
  {
    if after == [] {
      assert before + [bad] + after == before + [bad] && before + after == before;
      ProcessFoldersSnoc(db, before, bad);
      InertFolder(ProcessFolders(db, before).0, bad);
    } else {
      var init, last := after[..|after| - 1], after[|after| - 1];
      BadFolderIsolated(db, before, bad, init);
      assert before + [bad] + after == (before + [bad] + init) + [last];
      assert before + after == (before + init) + [last];
      ProcessFoldersSnoc(db, before + [bad] + init, last);
      ProcessFoldersSnoc(db, before + init, last);
      var step := ProcessFolder(ProcessFolders(db, before + init).0, last);
      assert ProcessFolders(db, before + [bad] + after).0 == step.0 == ProcessFolders(db, before + after).0;
    }
  }

  // ---------------------------------------------------------------------
  // Years

  /** How `extract_questions_from_year` ends. `Raised`: `details.json` could
      not be parsed or has no `title`; that exception is not caught and ends
      the whole run. */
  datatype YearOutcome = NoYearFolder | NoDetails | Raised | NoQuestionsFolder | Processed(count: nat)

  datatype YearReport = YearReport(year: int, outcome: YearOutcome)

  /** The entry `quiz-items/<name>`, if any. */
  function FindEntry(tree: seq<YearEntry>, name: string): (r: Option<YearEntry>)
    ensures r.Some? ==> r.value in tree && r.value.name == name
    ensures r.None? ==> forall i :: 0 <= i < |tree| ==> tree[i].name != name
  {
    if tree == [] then None
    else if tree[0].name == name then Some(tree[0])
    else FindEntry(tree[1..], name)
  }

  /** `exam_details['title']` of a parsed year folder; None for a JSON `null`. */
  function TitleOf(e: YearEntry): Option<string>
    requires e.details.Some? && e.details.value.Parsed?
  {
    Get(e.details.value.value.title)
  }

  /** `extract_questions_from_year(year)`: the folder is looked up as `str(year)`. */
  function ExtractYear(db: Db, tree: seq<YearEntry>, year: int): (r: (Db, YearOutcome))
    // a missing folder or details file, or a details file that raises, leaves the store unchanged
    ensures r.1 in {NoYearFolder, NoDetails, Raised} ==> r.0 == db
    // once the title is read the exam insert runs, before the questions folder is looked at
    ensures r.1.NoQuestionsFolder? || r.1.Processed? ==>
              && FindEntry(tree, ShowInt(year)).Some?
              && var e := FindEntry(tree, ShowInt(year)).value;
                 && e.details.Some? && e.details.value.Parsed?
                 // the year's exam row has the first title stored for it, or else this one
                 && ExamTitle(r.0.exams, year) == (if HasYear(db.exams, year) then ExamTitle(db.exams, year) else TitleOf(e))
                 // no questions folder: only the exam insert
                 && (r.1.NoQuestionsFolder? ==> e.questions.None? && r.0 == InsertExam(db, TitleOf(e), year))
                 // otherwise the question folders are processed from the store the exam insert left
                 && (r.1.Processed? ==>
                       && e.questions.Some?
                       && r.0 == ProcessFolders(InsertExam(db, TitleOf(e), year), e.questions.value).0
                       && r.1.count == ProcessFolders(InsertExam(db, TitleOf(e), year), e.questions.value).1)
  {
    match FindEntry(tree, ShowInt(year))
    case None => (db, NoYearFolder)
    case Some(e) =>
      if !e.isDir || e.details.None? then (db, NoDetails)
      else match e.details.value
        case Malformed => (db, Raised)
        case Parsed(details) =>
          if details.title.Absent? then (db, Raised)
          else
            var db1 := InsertExam(db, TitleOf(e), year);
            if e.questions.None? then (db1, NoQuestionsFolder)
            else
              var folders := ProcessFolders(db1, e.questions.value);
              (folders.0, Processed(folders.1))
  }

  /** Only directories whose name is all digits are treated as years. */
  predicate IsYearFolder(e: YearEntry)
  {
    e.isDir && IsDigits(e.name)
  }

  /** The years named by the year folders of a listing, in listing order. */
  function YearFolders(es: seq<YearEntry>): (ys: seq<nat>)
    ensures |ys| <= |es|
    decreases |es|
  {
    if es == [] then []
    else
      var e := es[|es| - 1];
      YearFolders(es[..|es| - 1]) + if IsYearFolder(e) then [ParseDigits(e.name)] else []
  }

  function Years(reports: seq<YearReport>): (ys: seq<int>)
    ensures |ys| == |reports|
  {
    seq(|reports|, k requires 0 <= k < |reports| => reports[k].year)
  }

  /** What the walk promises about its reports when `ys` are the year
      folders seen so far: the years are processed in listing order, each
      once, stopping at the first that raises; a run nothing stopped has
      processed every year folder. */
  predicate Walked(w: (Db, seq<YearReport>, bool), ys: seq<nat>)
  {
    && |w.1| <= |ys| && Years(w.1) == ys[..|w.1|]
    && (forall k :: 0 <= k < |w.1| - 1 ==> !w.1[k].outcome.Raised?)
    && (w.2 <==> (w.1 == [] || !w.1[|w.1| - 1].outcome.Raised?))
    && (w.2 ==> |w.1| == |ys|)
  }

  /** The loop of `extract_all_questions` over the first entries of the
      listing: the store, one report per year processed, and whether the run
      is still going (no year raised). */
  function WalkYears(db: Db, tree: seq<YearEntry>, es: seq<YearEntry>): (r: (Db, seq<YearReport>, bool))
    // the years are processed in listing order, each once, stopping at the first that raises
    ensures |r.1| <= |YearFolders(es)| && Years(r.1) == YearFolders(es)[..|r.1|]
    ensures forall k :: 0 <= k < |r.1| - 1 ==> !r.1[k].outcome.Raised?
    ensures r.2 <==> (r.1 == [] || !r.1[|r.1| - 1].outcome.Raised?)
    // a run nothing stopped has processed every year folder
    ensures r.2 ==> |r.1| == |YearFolders(es)|
    decreases |es|
  {
    if es == [] then (db, [], true)
    else
      var init := es[..|es| - 1];
      var w := WalkYears(db, tree, init);
      YearStepWalked(w, tree, es[|es| - 1], YearFolders(init));
      YearStep(w, tree, es[|es| - 1])
  }

  /** One entry of the listing: a year folder is extracted while nothing has
      raised yet; anything else leaves the walk as it was. */
  function YearStep(w: (Db, seq<YearReport>, bool), tree: seq<YearEntry>, e: YearEntry): (r: (Db, seq<YearReport>, bool))
    ensures !w.2 || !IsYearFolder(e) ==> r == w
    ensures w.2 && IsYearFolder(e) ==>
              |r.1| == |w.1| + 1 && r.1[..|w.1|] == w.1 && r.1[|w.1|].year == ParseDigits(e.name)
  {
    if !w.2 || !IsYearFolder(e) then w
    else
      var x := ExtractYear(w.0, tree, ParseDigits(e.name));
      (x.0, w.1 + [YearReport(ParseDigits(e.name), x.1)], !x.1.Raised?)
  }

  /** A step keeps the walk's promises, with the entry's year appended to
      the folders seen when it is a year folder. */
  lemma YearStepWalked(w: (Db, seq<YearReport>, bool), tree: seq<YearEntry>, e: YearEntry, ys: seq<nat>)
    requires Walked(w, ys)
    ensures Walked(YearStep(w, tree, e), ys + if IsYearFolder(e) then [ParseDigits(e.name)] else [])
  {
    var ys' := ys + if IsYearFolder(e) then [ParseDigits(e.name)] else [];
    assert ys'[..|w.1|] == ys[..|w.1|];
    if w.2 && IsYearFolder(e) {
      var r := YearStep(w, tree, e);
      assert |w.1| == |ys| && ys[..|w.1|] == ys;
      assert r.1 == w.1 + [r.1[|w.1|]];
      assert Years(r.1) == Years(w.1) + [ParseDigits(e.name)];
    }
  }

  /** The walk over the first i + 1 entries is one more step after the walk
      over the first i. */
  lemma WalkYearsStep(db: Db, tree: seq<YearEntry>, es: seq<YearEntry>, i: nat)
    requires i < |es|
    ensures WalkYears(db, tree, es[..i + 1]) == YearStep(WalkYears(db, tree, es[..i]), tree, es[i])
  {
    assert es[..i + 1][..i] == es[..i];
  }

  /** Once a year has raised, the rest of the listing is never looked at. */
  lemma {:induction false} WalkYearsStopped(db: Db, tree: seq<YearEntry>, es: seq<YearEntry>, rest: seq<YearEntry>)
    requires !WalkYears(db, tree, es).2
    ensures WalkYears(db, tree, es + rest) == WalkYears(db, tree, es)
    decreases |rest|
  {
    if rest != [] {
      var init := rest[..|rest| - 1];
      WalkYearsStopped(db, tree, es, init);
      assert (es + rest)[..|es + rest| - 1] == es + init;
    } else {
      assert es + rest == es;
    }
  }

  /** Once a year has raised, the rest of the listing is not walked. */
  lemma WalkYearsStoppedAt(db: Db, tree: seq<YearEntry>, i: nat)
    requires i <= |tree| && !WalkYears(db, tree, tree[..i]).2
    ensures WalkYears(db, tree, tree) == WalkYears(db, tree, tree[..i])
  {
    SplitAt(tree, i);
    WalkYearsStopped(db, tree, tree[..i], tree[i..]);
  }

  lemma SplitAt<T>(s: seq<T>, i: nat)
    requires i <= |s|
    ensures s[..i] + s[i..] == s
  {
  }

  /** `extract_all_questions`: seed, then walk every year folder until one raises. */
  function ExtractAll(db: Db, tree: seq<YearEntry>): (Db, seq<YearReport>, bool)
  {
    WalkYears(Seed(db), tree, tree)
  }

  // ---------------------------------------------------------------------
  // Every step keeps the schema's guarantees and referential integrity

  ghost predicate Sound(db: Db)
  {
    Valid(db) && Linked(db)
  }

  lemma LabelIdsKept(t: seq<LabelRow>, t': seq<LabelRow>)
    requires |t| <= |t'| && t'[..|t|] == t
    ensures forall id :: HasLabelId(t, id) ==> HasLabelId(t', id)
  {
    forall id | HasLabelId(t, id) ensures HasLabelId(t', id) {
      var i :| 0 <= i < |t| && t[i].id == id;
      assert t'[i] == t'[..|t|][i];
    }
  }

  lemma QuestionIdsKept(t: seq<Question>, rows: seq<Question>)
    ensures forall id :: HasQuestion(t, id) ==> HasQuestion(t + rows, id)
  {
    forall id | HasQuestion(t, id) ensures HasQuestion(t + rows, id) {
      var i :| 0 <= i < |t| && t[i].id == id;
      assert (t + rows)[i] == t[i];
    }
  }

  lemma SeedSound(db: Db)
    requires Sound(db)
    ensures Sound(Seed(db))
  {
    var d := SeedLabels(db.disciplines, db.nextDiscipline, DisciplineSeeds);
    var l := SeedLabels(db.languages, db.nextLanguage, LanguageSeeds);
    SeedTableSound(db.disciplines, db.nextDiscipline, DisciplineSeeds);
    SeedTableSound(db.languages, db.nextLanguage, LanguageSeeds);
    LabelsReplacedSound(db, d.0, d.1, l.0, l.1);
  }

  /** Seeding one label table keeps its ids keyed and its values unique, and
      keeps every id it had. */
  lemma SeedTableSound(t: seq<LabelRow>, next: nat, seeds: seq<(string, string)>)
    requires Keyed(Ids(t, LabelId), next) && UniqueValues(t)
    ensures var r := SeedLabels(t, next, seeds);
            Keyed(Ids(r.0, LabelId), r.1) && UniqueValues(r.0) &&
            forall id :: HasLabelId(t, id) ==> HasLabelId(r.0, id)
  {
    var r := SeedLabels(t, next, seeds);
    var rows := r.0[|t|..];
    assert r.0 == t + rows;
    assert forall i :: 0 <= i < |rows| ==> rows[i] == r.0[|t| + i];
    KeyedAppend(t, rows, LabelId, next, r.1);
    SeedLabelsUnique(t, next, seeds);
    LabelIdsKept(t, r.0);
  }

  /** Replacing both label tables by keyed, unique tables that keep every
      old id keeps the store sound. */
  lemma LabelsReplacedSound(db: Db, d: seq<LabelRow>, nd: nat, l: seq<LabelRow>, nl: nat)
    requires Sound(db)
    requires Keyed(Ids(d, LabelId), nd) && UniqueValues(d) && forall id :: HasLabelId(db.disciplines, id) ==> HasLabelId(d, id)
    requires Keyed(Ids(l, LabelId), nl) && UniqueValues(l) && forall id :: HasLabelId(db.languages, id) ==> HasLabelId(l, id)
    ensures Sound(db.(disciplines := d, nextDiscipline := nd, languages := l, nextLanguage := nl))
  {
  }

  lemma InsertExamSound(db: Db, title: Option<string>, year: int)
    requires Sound(db)
    ensures Sound(InsertExam(db, title, year))
  {
    if title.Some? && !HasYear(db.exams, year) {
      var e := db.exams + [Exam(db.nextExam, title.value, year)];
      KeyedAppend(db.exams, [Exam(db.nextExam, title.value, year)], ExamId, db.nextExam, db.nextExam + 1);
      forall i, j | 0 <= i < j < |e| ensures e[i].year != e[j].year {
        assert e[i] == db.exams[i];
        if j < |db.exams| { assert e[j] == db.exams[j]; }
      }
      ExamsReplacedSound(db, e, db.nextExam + 1);
    } else {
      ExamsReplacedSound(db, db.exams, db.nextExam + 1);
    }
  }

  /** The exams table takes part in no reference: any keyed table with
      unique years may replace it. */
  lemma ExamsReplacedSound(db: Db, e: seq<Exam>, ne: nat)
    requires Sound(db) && Keyed(Ids(e, ExamId), ne) && UniqueYears(e)
    ensures Sound(db.(exams := e, nextExam := ne))
  {
  }

  lemma InsertQuestionSound(db: Db, q: RawQuestion)
    requires Sound(db)
    ensures Sound(InsertQuestion(db, q).0)
  {
    if NotNull(q) && LookupKey(db, q).None? {
      var row := NewQuestion(db, q);
      forall i | 0 <= i < |db.questions| ensures !Collide(db.questions[i], row) {
        if Collide(db.questions[i], row) {
          assert KeyIs(db.questions[i], row.year, row.index, row.disciplineId.value, row.languageId.value);
        }
      }
      AppendQuestionSound(db, row);
    } else if RequiredKeys(q) {
      QuestionIdsKept(db.questions, []);
      assert db.questions + [] == db.questions;
      QuestionsReplacedSound(db, db.questions, db.nextQuestion + 1);
    }
  }

  /** Appending a question under the next id, whose label references resolve
      and whose key collides with no stored row, keeps the store sound. */
  lemma AppendQuestionSound(db: Db, row: Question)
    requires Sound(db) && row.id == db.nextQuestion
    requires row.disciplineId.Some? ==> HasLabelId(db.disciplines, row.disciplineId.value)
    requires row.languageId.Some? ==> HasLabelId(db.languages, row.languageId.value)
    requires forall i :: 0 <= i < |db.questions| ==> !Collide(db.questions[i], row)
    ensures Sound(db.(questions := db.questions + [row], nextQuestion := db.nextQuestion + 1))
  {
    var t := db.questions + [row];
    KeyedAppend(db.questions, [row], QuestionId, db.nextQuestion, db.nextQuestion + 1);
    forall i, j | 0 <= i < j < |t| ensures !Collide(t[i], t[j]) {
      assert t[i] == db.questions[i];
      if j < |db.questions| {
        assert t[j] == db.questions[j];
      }
    }
    forall i | 0 <= i < |t| && t[i].disciplineId.Some? ensures HasLabelId(db.disciplines, t[i].disciplineId.value) {
      if i < |db.questions| { assert t[i] == db.questions[i]; }
    }
    forall i | 0 <= i < |t| && t[i].languageId.Some? ensures HasLabelId(db.languages, t[i].languageId.value) {
      if i < |db.questions| { assert t[i] == db.questions[i]; }
    }
    QuestionIdsKept(db.questions, [row]);
    QuestionsReplacedSound(db, t, db.nextQuestion + 1);
  }

  /** A keyed questions table with unique keys, whose label references
      resolve and which keeps every old id, may replace the old one. */
  lemma QuestionsReplacedSound(db: Db, t: seq<Question>, nq: nat)
    requires Sound(db) && Keyed(Ids(t, QuestionId), nq) && UniqueKeys(t)
    requires forall i :: 0 <= i < |t| && t[i].disciplineId.Some? ==> HasLabelId(db.disciplines, t[i].disciplineId.value)
    requires forall i :: 0 <= i < |t| && t[i].languageId.Some? ==> HasLabelId(db.languages, t[i].languageId.value)
    requires forall id :: HasQuestion(db.questions, id) ==> HasQuestion(t, id)
    ensures Sound(db.(questions := t, nextQuestion := nq))
  {
  }

  lemma InsertAlternativesSound(db: Db, questionId: nat, alts: seq<RawAlternative>)
    requires Sound(db) && HasQuestion(db.questions, questionId)
    ensures Sound(InsertAlternatives(db, questionId, alts).0)
  {
    var rows := AlternativeRows(questionId, alts, db.nextAlternative);
    KeyedAppend(db.alternatives, rows, AlternativeId, db.nextAlternative, db.nextAlternative + |alts|);
    var all := db.alternatives + rows;
    forall i | 0 <= i < |all| ensures all[i].isCorrect in {0, 1} && HasQuestion(db.questions, all[i].questionId) {
      if i < |db.alternatives| { assert all[i] == db.alternatives[i]; } else { assert all[i] == rows[i - |db.alternatives|]; }
    }
  }

  lemma InsertQuestionFilesSound(db: Db, questionId: nat, files: Option<seq<Option<string>>>)
    requires Sound(db) && HasQuestion(db.questions, questionId)
    ensures Sound(InsertQuestionFiles(db, questionId, files))
  {
    if files.Some? && files.value != [] {
      var rows := FileRows(questionId, files.value, db.nextFile);
      KeyedAppend(db.files, rows, FileId, db.nextFile, db.nextFile + |files.value|);
      var all := db.files + rows;
      forall i | 0 <= i < |all| ensures HasQuestion(db.questions, all[i].questionId) {
        if i < |db.files| { assert all[i] == db.files[i]; } else { assert all[i] == rows[i - |db.files|]; }
      }
    }
  }

  lemma ProcessQuestionSound(db: Db, q: RawQuestion)
    requires Sound(db)
    ensures Sound(ProcessQuestion(db, q).0)
  {
    InsertQuestionSound(db, q);
    var db1, out := InsertQuestion(db, q).0, InsertQuestion(db, q).1;
    if ProcessQuestion(db, q).1 {
      var id := out.id.value;
      var db2 := db1;
      if q.alternatives.Present? {
        InsertAlternativesSound(db1, id, q.alternatives.value);
        db2 := InsertAlternatives(db1, id, q.alternatives.value).0;
      }
      if !q.files.Absent? {
        InsertQuestionFilesSound(db2, id, Get(q.files));
      }
    }
  }

  lemma {:induction false} ProcessFoldersSound(db: Db, es: seq<QuestionEntry>)
    requires Sound(db)
    ensures Sound(ProcessFolders(db, es).0)
    decreases |es|
  {
    if es != [] {
      ProcessFoldersSound(db, es[..|es| - 1]);
      var e := es[|es| - 1];
      if e.isDir && e.details.Some? && e.details.value.Parsed? {
        ProcessQuestionSound(ProcessFolders(db, es[..|es| - 1]).0, e.details.value.value);
      }
    }
  }

  lemma ExtractYearSound(db: Db, tree: seq<YearEntry>, year: int)
    requires Sound(db)
    ensures Sound(ExtractYear(db, tree, year).0)
  {
    var f := FindEntry(tree, ShowInt(year));
    if f.Some? && f.value.isDir && f.value.details.Some? && f.value.details.value.Parsed? &&
       !f.value.details.value.value.title.Absent? {
      InsertExamSound(db, TitleOf(f.value), year);
      if f.value.questions.Some? {
        ProcessFoldersSound(InsertExam(db, TitleOf(f.value), year), f.value.questions.value);
      }
    }
  }

  lemma {:induction false} WalkYearsSound(db: Db, tree: seq<YearEntry>, es: seq<YearEntry>)
    requires Sound(db)
    ensures Sound(WalkYears(db, tree, es).0)
    decreases |es|
  {
    if es != [] {
      var init := es[..|es| - 1];
      WalkYearsSound(db, tree, init);
      var e := es[|es| - 1];
      if IsYearFolder(e) {
        ExtractYearSound(WalkYears(db, tree, init).0, tree, ParseDigits(e.name));
      }
    }
  }

  /** A whole run, from a sound store (a new one included), leaves a sound store. */
  lemma ExtractAllSound(db: Db, tree: seq<YearEntry>)
    requires Sound(db)
    ensures Sound(ExtractAll(db, tree).0)
  {
    SeedSound(db);
    WalkYearsSound(Seed(db), tree, tree);
  }

  lemma EmptySound()
    ensures Sound(Empty)
  {
  }
}
