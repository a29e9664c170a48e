/** The SQLite store of ENEM questions as plain values: each of the six
    tables is a sequence of rows in rowid order, and each table has the next
    id its AUTOINCREMENT key will hand out. The schema's NOT NULL columns have
    plain types; the nullable ones are Options. */
module Tables {

  datatype Option<+T> = None | Some(value: T)

  /** A row of `exams`; `year` is UNIQUE. */
  datatype Exam = Exam(id: nat, title: string, year: int)

  /** A row of `disciplines` or of `languages` (the two tables have the same
      columns); `name` is the `label` column and `value` the UNIQUE slug. */
  datatype LabelRow = LabelRow(id: nat, name: string, value: string)

  /** A row of `questions`; UNIQUE(year, index_number, discipline_id, language_id). */
  datatype Question = Question(
    id: nat, title: string, index: int, year: int,
    disciplineId: Option<nat>, languageId: Option<nat>,
    context: Option<string>, alternativesIntroduction: Option<string>,
    correctAlternative: Option<string>)

  /** A row of `alternatives`; `is_correct` is stored as the integer SQLite
      keeps for a Python bool. No UNIQUE constraint. */
  datatype Alternative = Alternative(
    id: nat, questionId: nat, letter: string, text: string,
    filePath: Option<string>, isCorrect: int)

  /** A row of `question_files`. No UNIQUE constraint. */
  datatype QuestionFile = QuestionFile(id: nat, questionId: nat, filePath: string)

  datatype Db = Db(
    exams: seq<Exam>, disciplines: seq<LabelRow>, languages: seq<LabelRow>,
    questions: seq<Question>, alternatives: seq<Alternative>, files: seq<QuestionFile>,
    nextExam: nat, nextDiscipline: nat, nextLanguage: nat,
    nextQuestion: nat, nextAlternative: nat, nextFile: nat)

  /** The store right after the tables are first created. */
  const Empty: Db := Db([], [], [], [], [], [], 1, 1, 1, 1, 1, 1)

  function ExamId(r: Exam): nat { r.id }
  function LabelId(r: LabelRow): nat { r.id }
  function QuestionId(r: Question): nat { r.id }
  function AlternativeId(r: Alternative): nat { r.id }
  function FileId(r: QuestionFile): nat { r.id }

  function Ids<T>(rows: seq<T>, id: T -> nat): (r: seq<nat>)
    ensures |r| == |rows|
    ensures forall i :: 0 <= i < |rows| ==> r[i] == id(rows[i])
  {
    seq(|rows|, i requires 0 <= i < |rows| => id(rows[i]))
  }

  /** AUTOINCREMENT: ids are positive, strictly increasing in rowid order and
      below the next id to be handed out. */
  ghost predicate Keyed(ids: seq<nat>, next: nat)
  {
    && 1 <= next
    && (forall i :: 0 <= i < |ids| ==> 1 <= ids[i] < next)
    && (forall i, j :: 0 <= i < j < |ids| ==> ids[i] < ids[j])
  }

  ghost predicate UniqueYears(t: seq<Exam>)
  {
    forall i, j :: 0 <= i < j < |t| ==> t[i].year != t[j].year
  }

  ghost predicate UniqueValues(t: seq<LabelRow>)
  {
    forall i, j :: 0 <= i < j < |t| ==> t[i].value != t[j].value
  }

  /** The question row has the given key, every part of it non-NULL. */
  predicate KeyIs(q: Question, year: int, index: int, d: nat, l: nat)
  {
    q.year == year && q.index == index && q.disciplineId == Some(d) && q.languageId == Some(l)
  }

  /** Two rows collide under UNIQUE(year, index_number, discipline_id,
      language_id): SQLite treats NULLs as distinct, so only rows whose four
      key parts are all non-NULL and equal collide. */
  predicate Collide(a: Question, b: Question)
  {
    a.disciplineId.Some? && a.languageId.Some? &&
    KeyIs(b, a.year, a.index, a.disciplineId.value, a.languageId.value)
  }

  ghost predicate UniqueKeys(t: seq<Question>)
  {
    forall i, j :: 0 <= i < j < |t| ==> !Collide(t[i], t[j])
  }

  /** What the schema and its constraints guarantee about every state of the store. */
  ghost predicate Valid(db: Db)
  {
    && Keyed(Ids(db.exams, ExamId), db.nextExam)
    && Keyed(Ids(db.disciplines, LabelId), db.nextDiscipline)
    && Keyed(Ids(db.languages, LabelId), db.nextLanguage)
    && Keyed(Ids(db.questions, QuestionId), db.nextQuestion)
    && Keyed(Ids(db.alternatives, AlternativeId), db.nextAlternative)
    && Keyed(Ids(db.files, FileId), db.nextFile)
    && UniqueYears(db.exams)
    && UniqueValues(db.disciplines)
    && UniqueValues(db.languages)
    && UniqueKeys(db.questions)
    && (forall i :: 0 <= i < |db.alternatives| ==> db.alternatives[i].isCorrect in {0, 1})
  }

  predicate HasQuestion(t: seq<Question>, id: nat)
  {
    exists i :: 0 <= i < |t| && t[i].id == id
  }

  predicate HasLabelId(t: seq<LabelRow>, id: nat)
  {
    exists i :: 0 <= i < |t| && t[i].id == id
  }

  /** Referential integrity. The FOREIGN KEY clauses are not enforced by
      SQLite unless a pragma turns them on, so this is not a schema guarantee;
      the extractor keeps it by construction. */
  ghost predicate Linked(db: Db)
  {
    && (forall i :: 0 <= i < |db.questions| && db.questions[i].disciplineId.Some? ==>
          HasLabelId(db.disciplines, db.questions[i].disciplineId.value))
    && (forall i :: 0 <= i < |db.questions| && db.questions[i].languageId.Some? ==>
          HasLabelId(db.languages, db.questions[i].languageId.value))
    && (forall i :: 0 <= i < |db.alternatives| ==> HasQuestion(db.questions, db.alternatives[i].questionId))
    && (forall i :: 0 <= i < |db.files| ==> HasQuestion(db.questions, db.files[i].questionId))
  }

  /** `SELECT id FROM <labels> WHERE value = ?`, first row. */
  function FindLabel(t: seq<LabelRow>, value: string): (r: Option<nat>)
    ensures r.None? <==> forall i :: 0 <= i < |t| ==> t[i].value != value
    // the first row with that value
    ensures r.Some? ==> exists i :: 0 <= i < |t| && t[i].value == value && t[i].id == r.value &&
                                    forall j :: 0 <= j < i ==> t[j].value != value
  {
    if t == [] then None
    else if t[0].value == value then Some(t[0].id)
    else
      var r := FindLabel(t[1..], value);
      assert r.Some? ==> exists i :: 1 <= i < |t| && t[i].value == value && t[i].id == r.value &&
                                     forall j :: 0 <= j < i ==> t[j].value != value by {
        if r.Some? {
          var i :| 0 <= i < |t[1..]| && t[1..][i].value == value && t[1..][i].id == r.value &&
                   forall j :: 0 <= j < i ==> t[1..][j].value != value;
          assert t[i + 1] == t[1..][i];
          forall j | 0 <= j < i + 1 ensures t[j].value != value {
            if j > 0 { assert t[j] == t[1..][j - 1]; }
          }
        }
      }
      r
  }

  /** `SELECT id FROM questions WHERE year = ? AND index_number = ? AND
      discipline_id = ? AND language_id = ?`, first row, for a key with no NULL part. */
  function FindQuestionId(t: seq<Question>, year: int, index: int, d: nat, l: nat): (r: Option<nat>)
    ensures r.None? <==> forall i :: 0 <= i < |t| ==> !KeyIs(t[i], year, index, d, l)
    ensures r.Some? ==> exists i :: 0 <= i < |t| && KeyIs(t[i], year, index, d, l) && t[i].id == r.value
  {
    if t == [] then None
    else if KeyIs(t[0], year, index, d, l) then Some(t[0].id)
    else
      var r := FindQuestionId(t[1..], year, index, d, l);
      assert r.Some? ==> exists i :: 1 <= i < |t| && KeyIs(t[i], year, index, d, l) && t[i].id == r.value by {
        if r.Some? {
          var i :| 0 <= i < |t[1..]| && KeyIs(t[1..][i], year, index, d, l) && t[1..][i].id == r.value;
          assert t[i + 1] == t[1..][i];
        }
      }
      r
  }

  /** Appending rows whose ids ascend from the next id, possibly with gaps
      for ids that ignored inserts used up, keeps a table's ids keyed under
      the new counter. */
  lemma KeyedAppend<T>(t: seq<T>, rows: seq<T>, id: T -> nat, next: nat, next': nat)
    requires Keyed(Ids(t, id), next) && next <= next'
    requires forall i :: 0 <= i < |rows| ==> next <= id(rows[i]) < next'
    requires forall i, j :: 0 <= i < j < |rows| ==> id(rows[i]) < id(rows[j])
    ensures Keyed(Ids(t + rows, id), next')
  {
    var all := Ids(t + rows, id);
    forall i | 0 <= i < |all| ensures 1 <= all[i] < next' {
      if i >= |t| { assert (t + rows)[i] == rows[i - |t|]; } else { assert (t + rows)[i] == t[i]; }
    }
    forall i, j | 0 <= i < j < |all| ensures all[i] < all[j] {
      if j < |t| {
        assert (t + rows)[i] == t[i] && (t + rows)[j] == t[j];
        assert Ids(t, id)[i] < Ids(t, id)[j];
      } else if i < |t| {
        assert (t + rows)[i] == t[i] && (t + rows)[j] == rows[j - |t|];
        assert Ids(t, id)[i] < next;
      } else {
        assert (t + rows)[i] == rows[i - |t|] && (t + rows)[j] == rows[j - |t|];
      }
    }
  }
}
