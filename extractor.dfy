/** `EnemQuestionExtractor`: the object that fills the store from the
    `quiz-items` tree. Its fields are the six tables and their AUTOINCREMENT
    counters; every method changes them exactly as the matching function of
    `Ingest` says, and keeps the store sound. The tree is read when a method
    is called, so it is passed in as a value. */
module Extractor {
  import opened Tables
  import opened QuizItems
  import Ingest

  /** The seeding loop over one label table: each seed whose value is not
      there yet is appended under the next id. */
  method SeedTable(t: seq<LabelRow>, next: nat, seeds: seq<(string, string)>) returns (rows: seq<LabelRow>, n: nat)
    ensures rows == Ingest.SeedLabels(t, next, seeds).0
    ensures n == Ingest.SeedLabels(t, next, seeds).1
  {
    rows, n := t, next;
    for i := 0 to |seeds|
      invariant rows == Ingest.SeedLabels(t, next, seeds[..i]).0
      invariant n == Ingest.SeedLabels(t, next, seeds[..i]).1
    {
      Ingest.SeedLabelsStep(t, next, seeds, i);
      if !Ingest.HasValue(rows, seeds[i].1) {
        rows := rows + [LabelRow(n, seeds[i].0, seeds[i].1)];
      }
      n := n + 1;
    }
    assert seeds[..|seeds|] == seeds;
  }

  /** The loop of `insert_alternatives`: the rows written so far, or `ok`
      false as soon as an element lacks `letter` or `text`. */
  method AlternativeBatch(questionId: nat, alts: seq<RawAlternative>, next: nat) returns (pending: seq<Alternative>, ok: bool)
    ensures ok <==> forall k :: 0 <= k < |alts| ==> !Ingest.Raises(alts[k])
    ensures ok ==> pending == Ingest.AlternativeRows(questionId, alts, next)
  {
    pending := [];
    for i := 0 to |alts|
      invariant pending == Ingest.AlternativeRows(questionId, alts[..i], next)
      invariant forall k :: 0 <= k < i ==> !Ingest.Raises(alts[k])
    {
      var a := alts[i];
      if Ingest.Raises(a) {
        return pending, false;
      }
      Ingest.AlternativeRowsStep(questionId, alts, i, next);
      if Ingest.Storable(a) {
        pending := pending + [Ingest.AlternativeRow(questionId, a, next + i)];
      }
    }
    assert alts[..|alts|] == alts;
    return pending, true;
  }

  /** The loop of `insert_question_files`: one row per non-`null` path. */
  method FileBatch(questionId: nat, paths: seq<Option<string>>, next: nat) returns (rows: seq<QuestionFile>)
    ensures rows == Ingest.FileRows(questionId, paths, next)
  {
    rows := [];
    for i := 0 to |paths|
      invariant rows == Ingest.FileRows(questionId, paths[..i], next)
    {
      Ingest.FileRowsStep(questionId, paths, i, next);
      if paths[i].Some? {
        rows := rows + [QuestionFile(next + i, questionId, paths[i].value)];
      }
    }
    assert paths[..|paths|] == paths;
  }

  class EnemQuestionExtractor {
    var exams: seq<Exam>
    var disciplines: seq<LabelRow>
    var languages: seq<LabelRow>
    var questions: seq<Question>
    var alternatives: seq<Alternative>
    var files: seq<QuestionFile>
    var nextExam: nat
    var nextDiscipline: nat
    var nextLanguage: nat
    var nextQuestion: nat
    var nextAlternative: nat
    var nextFile: nat

    /** The store the fields hold. */
    function State(): Db
      reads this
    {
      Db(exams, disciplines, languages, questions, alternatives, files,
         nextExam, nextDiscipline, nextLanguage, nextQuestion, nextAlternative, nextFile)
    }

    ghost predicate Valid()
      reads this
    {
      Ingest.Sound(State())
    }

    /** `__init__` followed by `create_database` on a new database file: six
        empty tables. On an existing file `CREATE TABLE IF NOT EXISTS` changes
        nothing, which every method below already allows for. */
    constructor()
      ensures State() == Empty
      ensures Valid()
    {
      exams, disciplines, languages := [], [], [];
      questions, alternatives, files := [], [], [];
      nextExam, nextDiscipline, nextLanguage := 1, 1, 1;
      nextQuestion, nextAlternative, nextFile := 1, 1, 1;
      Ingest.EmptySound();
    }

    /** `insert_disciplines_and_languages`: one INSERT OR IGNORE per seed. */
    method InsertDisciplinesAndLanguages()
      requires Valid()
      modifies this
      ensures State() == Ingest.Seed(old(State()))
      ensures Valid()
    {
      ghost var db := State();
      Ingest.SeedSound(db);
      disciplines, nextDiscipline := SeedTable(disciplines, nextDiscipline, Ingest.DisciplineSeeds);
      languages, nextLanguage := SeedTable(languages, nextLanguage, Ingest.LanguageSeeds);
      assert disciplines == Ingest.Seed(db).disciplines && nextDiscipline == Ingest.Seed(db).nextDiscipline;
      assert languages == Ingest.Seed(db).languages && nextLanguage == Ingest.Seed(db).nextLanguage;
    }

    /** `get_discipline_id`. */
    method GetDisciplineId(slug: Option<string>) returns (id: Option<nat>)
      ensures id == Ingest.DisciplineId(State(), slug)
      ensures id.Some? ==> HasLabelId(disciplines, id.value)
    {
      id := if slug.None? then None else FindLabel(disciplines, slug.value);
    }

    /** `get_language_id`: a falsy slug is answered without a lookup. */
    method GetLanguageId(slug: Option<string>) returns (id: Option<nat>)
      ensures id == Ingest.LanguageId(State(), slug)
      ensures id.Some? ==> HasLabelId(languages, id.value)
    {
      if slug.None? || slug.value == "" {
        return None;
      }
      id := FindLabel(languages, slug.value);
    }

    /** `insert_exam`; `title` is None for a JSON `null`. The statement takes
        an id whether or not its row is ignored. */
    method InsertExam(title: Option<string>, year: int)
      requires Valid()
      modifies this
      ensures State() == Ingest.InsertExam(old(State()), title, year)
      ensures Valid()
    {
      Ingest.InsertExamSound(State(), title, year);
      if title.Some? && !Ingest.HasYear(exams, year) {
        exams := exams + [Exam(nextExam, title.value, year)];
      }
      nextExam := nextExam + 1;
    }

    /** `insert_question`. */
    method InsertQuestion(q: RawQuestion) returns (out: Ingest.Inserted)
      requires Valid()
      modifies this
      ensures (State(), out) == Ingest.InsertQuestion(old(State()), q)
      ensures Valid()
    {
      Ingest.InsertQuestionSound(State(), q);
      var disciplineId := GetDisciplineId(Get(q.discipline));
      var languageId := GetLanguageId(Get(q.language));
      if !Ingest.RequiredKeys(q) {
        return Ingest.KeyError;
      }
      var ignored := !Ingest.NotNull(q) || Ingest.LookupKey(State(), q).Some?;
      // the statement takes the next id whether or not its row is then ignored
      var id := nextQuestion;
      nextQuestion := nextQuestion + 1;
      if !ignored {
        questions := questions + [Question(id, q.title.value, q.index.value, q.year.value,
                                           disciplineId, languageId, GetOr(q.context, ""),
                                           GetOr(q.alternativesIntroduction, ""), GetOr(q.correctAlternative, ""))];
        return Ingest.Returned(Some(id));
      }
      // lastrowid == 0: the row was ignored; look the key up
      if q.index.Present? && q.year.Present? && disciplineId.Some? && languageId.Some? {
        var found := FindQuestionId(questions, q.year.value, q.index.value, disciplineId.value, languageId.value);
        return Ingest.Returned(found);
      }
      return Ingest.Returned(None);
    }

    /** `insert_alternatives`: the batch's rows are committed together once
        the loop has finished; an element that raises leaves it uncommitted. */
    method InsertAlternatives(questionId: nat, alts: seq<RawAlternative>) returns (ok: bool)
      requires Valid() && HasQuestion(questions, questionId)
      modifies this
      ensures (State(), ok) == Ingest.InsertAlternatives(old(State()), questionId, alts)
      ensures Valid()
    {
      Ingest.InsertAlternativesSound(State(), questionId, alts);
      var pending;
      pending, ok := AlternativeBatch(questionId, alts, nextAlternative);
      if ok {
        alternatives := alternatives + pending;
        nextAlternative := nextAlternative + |alts|;
      }
    }

    /** `insert_question_files`; `paths` is None for a JSON `null`. */
    method InsertQuestionFiles(questionId: nat, paths: Option<seq<Option<string>>>)
      requires Valid() && HasQuestion(questions, questionId)
      modifies this
      ensures State() == Ingest.InsertQuestionFiles(old(State()), questionId, paths)
      ensures Valid()
    {
      Ingest.InsertQuestionFilesSound(State(), questionId, paths);
      if paths.None? || paths.value == [] {
        return;
      }
      var rows := FileBatch(questionId, paths.value, nextFile);
      files := files + rows;
      nextFile := nextFile + |paths.value|;
    }

    /** The `try` block for one parsed question folder; returns whether it
        counts as processed. */
    method ProcessQuestion(q: RawQuestion) returns (counted: bool)
      requires Valid()
      modifies this
      ensures (State(), counted) == Ingest.ProcessQuestion(old(State()), q)
      ensures Valid()
    {
      var out := InsertQuestion(q);
      if out.KeyError? || out.id.None? {
        return false;
      }
      var id := out.id.value;
      if q.alternatives.Null? {
        return false;   // iterating None raises a TypeError
      }
      if q.alternatives.Present? {
        var ok := InsertAlternatives(id, q.alternatives.value);
        if !ok {
          return false;
        }
      }
      if !q.files.Absent? {
        InsertQuestionFiles(id, Get(q.files));
      }
      return true;
    }

    /** `extract_questions_from_year`. */
    method ExtractQuestionsFromYear(tree: seq<YearEntry>, year: int) returns (outcome: Ingest.YearOutcome)
      requires Valid()
      modifies this
      ensures (State(), outcome) == Ingest.ExtractYear(old(State()), tree, year)
      ensures Valid()
    {
      var entry := Ingest.FindEntry(tree, ShowInt(year));
      if entry.None? {
        return Ingest.NoYearFolder;
      }
      var e := entry.value;
      if !e.isDir || e.details.None? {
        return Ingest.NoDetails;
      }
      if e.details.value.Malformed? || e.details.value.value.title.Absent? {
        return Ingest.Raised;
      }
      InsertExam(Get(e.details.value.value.title), year);
      if e.questions.None? {
        return Ingest.NoQuestionsFolder;
      }
      var questionsProcessed := ProcessQuestionFolders(e.questions.value);
      return Ingest.Processed(questionsProcessed);
    }

    /** One entry of the `questions` folder: a directory with a parsed
        `details.json` is processed; anything else is passed over. */
    method ProcessFolder(f: QuestionEntry) returns (counted: bool)
      requires Valid()
      modifies this
      ensures (State(), counted) == Ingest.ProcessFolder(old(State()), f)
      ensures Valid()
    {
      counted := false;
      if f.isDir && f.details.Some? && f.details.value.Parsed? {
        counted := ProcessQuestion(f.details.value.value);
      }
    }

    /** The loop of `extract_questions_from_year` over the `questions`
        folder, with its `questions_processed` counter. */
    method ProcessQuestionFolders(folders: seq<QuestionEntry>) returns (questionsProcessed: nat)
      requires Valid()
      modifies this
      ensures (State(), questionsProcessed) == Ingest.ProcessFolders(old(State()), folders)
      ensures Valid()
    {
      ghost var db := State();
      questionsProcessed := 0;
      for i := 0 to |folders|
        invariant State() == Ingest.ProcessFolders(db, folders[..i]).0
        invariant questionsProcessed == Ingest.ProcessFolders(db, folders[..i]).1
        invariant Valid()
      {
        Ingest.ProcessFoldersStep(db, folders, i);
        var counted := ProcessFolder(folders[i]);
        if counted {
          questionsProcessed := questionsProcessed + 1;
        }
      }
      assert folders[..|folders|] == folders;
    }

    /** One entry of the root listing: a folder whose name is all digits is
        extracted as that year and its report appended. */
    method ExtractEntry(tree: seq<YearEntry>, e: YearEntry, before: seq<Ingest.YearReport>)
      returns (reports: seq<Ingest.YearReport>, going: bool)
      requires Valid()
      modifies this
      ensures State() == Ingest.YearStep((old(State()), before, true), tree, e).0
      ensures reports == Ingest.YearStep((old(State()), before, true), tree, e).1
      ensures going == Ingest.YearStep((old(State()), before, true), tree, e).2
      ensures Valid()
    {
      reports, going := before, true;
      if e.isDir && IsDigits(e.name) {
        var year := ParseDigits(e.name);
        var outcome := ExtractQuestionsFromYear(tree, year);
        reports := reports + [Ingest.YearReport(year, outcome)];
        going := !outcome.Raised?;
      }
    }

    /** `extract_all_questions`: seeds, then processes each year folder in
        listing order; an exception from a year ends the run. Returns one
        report per year processed and whether the run got to the end. */
    method ExtractAllQuestions(tree: seq<YearEntry>) returns (reports: seq<Ingest.YearReport>, completed: bool)
      requires Valid()
      modifies this
      ensures (State(), reports, completed) == Ingest.ExtractAll(old(State()), tree)
      ensures Valid()
    {
      InsertDisciplinesAndLanguages();
      ghost var db := State();
      reports := [];
      for i := 0 to |tree|
        invariant State() == Ingest.WalkYears(db, tree, tree[..i]).0
        invariant reports == Ingest.WalkYears(db, tree, tree[..i]).1
        invariant Ingest.WalkYears(db, tree, tree[..i]).2
        invariant Valid()
      {
        Ingest.WalkYearsStep(db, tree, tree, i);
        var going;
        reports, going := ExtractEntry(tree, tree[i], reports);
        if !going {
          Ingest.WalkYearsStoppedAt(db, tree, i + 1);
          return reports, false;
        }
      }
      assert tree[..|tree|] == tree;
      return reports, true;
    }
  }
}
