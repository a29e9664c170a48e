/** `EnemQuestionViewer`: the Python reader of the store. It keeps no state
    of its own; every method reads one snapshot of the tables and builds its
    dictionaries row by row. */
module Viewer {
  import opened Tables
  import opened Order
  import opened Query

  /** `{'label': ..., 'value': ...}` (`name` holds the label); both are None when the join found no row. */
  datatype ViewLabel = ViewLabel(name: Option<string>, value: Option<string>)

  datatype ViewAlternative = ViewAlternative(letter: string, text: string, file: Option<string>, isCorrect: bool)

  /** One dictionary of `search_questions`. */
  datatype ViewSummary = ViewSummary(
    id: nat, title: string, index: int, year: int, discipline: ViewLabel, language: Option<ViewLabel>)

  /** The dictionary of `get_question_by_id` and of the export. */
  datatype ViewQuestion = ViewQuestion(
    id: nat, title: string, index: int, year: int,
    context: Option<string>, alternativesIntroduction: Option<string>, correctAlternative: Option<string>,
    discipline: ViewLabel, language: Option<ViewLabel>,
    alternatives: seq<ViewAlternative>, files: seq<string>)

  /** The `discipline` entry is always a dictionary, with None inside for a NULL join. */
  function DisciplineView(j: Joined): (r: ViewLabel)
    ensures j.discipline.Some? ==> r == ViewLabel(Some(j.discipline.value.name), Some(j.discipline.value.value))
    ensures j.discipline.None? ==> r == ViewLabel(None, None)
  {
    match j.discipline
    case None => ViewLabel(None, None)
    case Some(d) => ViewLabel(Some(d.name), Some(d.value))
  }

  /** `{...} if language_label else None`. */
  function LanguageView(j: Joined): (r: Option<ViewLabel>)
    ensures r.None? <==> j.language.None? || j.language.value.name == ""
    ensures r.Some? ==> r.value == ViewLabel(Some(j.language.value.name), Some(j.language.value.value))
  {
    if j.language.None? || j.language.value.name == "" then None
    else Some(ViewLabel(Some(j.language.value.name), Some(j.language.value.value)))
  }

  /** `bool(is_correct)`: any non-zero integer is true. */
  function AlternativeView(a: Alternative): (r: ViewAlternative)
    ensures r.isCorrect <==> a.isCorrect != 0
    ensures (r.letter, r.text, r.file) == (a.letter, a.text, a.filePath)
  {
    ViewAlternative(a.letter, a.text, a.filePath, a.isCorrect != 0)
  }

  function Summary(j: Joined): ViewSummary
  {
    ViewSummary(j.q.id, j.q.title, j.q.index, j.q.year, DisciplineView(j), LanguageView(j))
  }

  function AlternativeViews(rows: seq<Alternative>): (r: seq<ViewAlternative>)
    ensures |r| == |rows|
    ensures forall k :: 0 <= k < |rows| ==> r[k] == AlternativeView(rows[k])
  {
    seq(|rows|, k requires 0 <= k < |rows| => AlternativeView(rows[k]))
  }

  /** A question assembled with its alternatives (by letter) and its files. */
  function Full(db: Db, j: Joined): ViewQuestion
  {
    ViewQuestion(j.q.id, j.q.title, j.q.index, j.q.year,
                 j.q.context, j.q.alternativesIntroduction, j.q.correctAlternative,
                 DisciplineView(j), LanguageView(j),
                 AlternativeViews(OrderedAlternatives(db, j.q.id)), FilesOf(db.files, j.q.id))
  }

  /** The alternatives query and its loop, shared by the lookup and the export. */
  method ListAlternatives(db: Db, questionId: nat) returns (r: seq<ViewAlternative>)
    ensures r == AlternativeViews(OrderedAlternatives(db, questionId))
    ensures forall i, j :: 0 <= i < j < |r| ==> StrLe(r[i].letter, r[j].letter)
    ensures forall k :: 0 <= k < |r| ==> exists a :: a in db.alternatives && a.questionId == questionId && r[k] == AlternativeView(a)
  {
    var rows := OrderedAlternatives(db, questionId);
    r := ViewAll(rows);
    forall k | 0 <= k < |r|
      ensures exists a :: a in db.alternatives && a.questionId == questionId && r[k] == AlternativeView(a)
    {
      assert rows[k] in rows;
    }
  }

  /** The dictionary built for one selected row: its alternatives by
      letter, then its files. */
  method Assemble(db: Db, j: Joined) returns (v: ViewQuestion)
    ensures v == Full(db, j)
    ensures v.id == j.q.id && v.year == j.q.year && v.index == j.q.index
  {
    var alternatives := ListAlternatives(db, j.q.id);
    var files := FilesOf(db.files, j.q.id);
    v := ViewQuestion(j.q.id, j.q.title, j.q.index, j.q.year,
                      j.q.context, j.q.alternativesIntroduction, j.q.correctAlternative,
                      DisciplineView(j), LanguageView(j), alternatives, files);
  }

  /** The loop over the fetched alternative rows. */
  method ViewAll(rows: seq<Alternative>) returns (r: seq<ViewAlternative>)
    ensures r == AlternativeViews(rows)
  {
    r := [];
    for i := 0 to |rows|
      invariant |r| == i
      invariant forall k :: 0 <= k < i ==> r[k] == AlternativeView(rows[k])
    {
      r := r + [AlternativeView(rows[i])];
    }
  }

  /** `get_question_by_id`. */
  method GetQuestionById(db: Db, questionId: int) returns (r: Option<ViewQuestion>)
    ensures r.None? <==> questionId < 0 || !HasQuestion(db.questions, questionId)
    ensures r.Some? ==> QuestionById(db, questionId).Some? && r.value == Full(db, QuestionById(db, questionId).value)
    ensures r.Some? ==> r.value.id == questionId
  {
    var found := QuestionById(db, questionId);
    if found.None? {
      return None;
    }
    var v := Assemble(db, found.value);
    r := Some(v);
  }

  /** `search_questions`. */
  method SearchQuestions(db: Db, year: Option<int>, discipline: Option<string>, language: Option<string>, limit: int)
    returns (r: seq<ViewSummary>)
    // a prefix of the ordered matching rows, as long as the limit allows
    ensures var rows := Ordered(db, Criteria(year, discipline, language));
            && |r| == (if limit < 0 then |rows| else Min(limit, |rows|))
            && forall k :: 0 <= k < |r| ==> r[k] == Summary(rows[k])
    // every row matches every truthy filter
    ensures forall k :: 0 <= k < |r| ==>
              exists x :: x in Matching(db, Criteria(year, discipline, language)) && r[k] == Summary(x)
    // year descending, then index ascending
    ensures forall i, j :: 0 <= i < j < |r| ==> r[i].year > r[j].year || (r[i].year == r[j].year && r[i].index <= r[j].index)
  {
    var c := Criteria(year, discipline, language);
    var all := Ordered(db, c);
    var rows := Take(all, limit);
    r := SummarizeAll(rows);
    forall k | 0 <= k < |r| ensures exists x :: x in Matching(db, c) && r[k] == Summary(x) {
      assert rows[k] == all[k];
      assert all[k] in multiset(all);
    }
  }

  /** The search's loop over the fetched rows. */
  method SummarizeAll(rows: seq<Joined>) returns (r: seq<ViewSummary>)
    ensures |r| == |rows|
    ensures forall k :: 0 <= k < |r| ==> r[k] == Summary(rows[k])
  {
    r := [];
    for i := 0 to |rows|
      invariant |r| == i
      invariant forall k :: 0 <= k < i ==> r[k] == Summary(rows[k])
    {
      r := r + [Summary(rows[i])];
    }
  }

  /** `get_random_question`: `ORDER BY RANDOM() LIMIT 1` picks one of the
      rows matching the year and discipline filters; which one is the
      parameter `pick`. The chosen id is then looked up again. */
  method GetRandomQuestion(db: Db, year: Option<int>, discipline: Option<string>, pick: nat)
    returns (r: Option<ViewQuestion>)
    ensures r.None? <==> Matching(db, Criteria(year, discipline, None)) == []
    ensures r.Some? ==> exists x :: x in Matching(db, Criteria(year, discipline, None)) &&
                                    QuestionById(db, x.q.id).Some? && r.value == Full(db, QuestionById(db, x.q.id).value)
  {
    var candidates := Matching(db, Criteria(year, discipline, None));
    if candidates == [] {
      return None;
    }
    var chosen := candidates[pick % |candidates|];
    assert chosen in candidates;
    var i :| 0 <= i < |db.questions| && chosen == Join(db, db.questions[i]);
    assert db.questions[i].id == chosen.q.id;
    r := GetQuestionById(db, chosen.q.id);
  }

  /** The selection and assembly of `export_questions_to_json`: every
      matching row, no limit, in the ORDER BY order, each with its
      alternatives and files. */
  method ExportQuestions(db: Db, year: Option<int>, discipline: Option<string>) returns (r: seq<ViewQuestion>)
    ensures var rows := Ordered(db, Criteria(year, discipline, None));
            |r| == |rows| && forall k :: 0 <= k < |r| ==> r[k] == Full(db, rows[k])
    ensures forall i, j :: 0 <= i < j < |r| ==> r[i].year > r[j].year || (r[i].year == r[j].year && r[i].index <= r[j].index)
  {
    var rows := Ordered(db, Criteria(year, discipline, None));
    r := AssembleAll(db, rows);
  }

  /** The full records of the fetched rows, in order. */
  function FullAll(db: Db, rows: seq<Joined>): (r: seq<ViewQuestion>)
    ensures |r| == |rows|
    ensures forall k :: 0 <= k < |r| ==> r[k] == Full(db, rows[k])
    decreases |rows|
  {
    if rows == [] then []
    else
      var init := rows[..|rows| - 1];
      assert forall k :: 0 <= k < |init| ==> init[k] == rows[k];
      FullAll(db, init) + [Full(db, rows[|rows| - 1])]
  }

  /** One more fetched row: its record follows the earlier ones. */
  lemma FullAllStep(db: Db, rows: seq<Joined>, i: nat)
    requires i < |rows|
    ensures FullAll(db, rows[..i + 1]) == FullAll(db, rows[..i]) + [Full(db, rows[i])]
  {
    assert rows[..i + 1][..i] == rows[..i];
  }

  /** The export's loop over the fetched rows. */
  method AssembleAll(db: Db, rows: seq<Joined>) returns (r: seq<ViewQuestion>)
    ensures r == FullAll(db, rows)
  {
    r := [];
    for i := 0 to |rows|
      invariant r == FullAll(db, rows[..i])
    {
      var v := Assemble(db, rows[i]);
      FullAllStep(db, rows, i);
      r := r + [v];
    }
    assert rows[..|rows|] == rows;
  }

  /** In a store the extractor wrote, ids are unique, so looking a selected
      row up again by its id finds that same row. */
  lemma LookupFindsSameRow(db: Db, i: int)
    requires Valid(db) && 0 <= i < |db.questions|
    ensures QuestionById(db, db.questions[i].id) == Some(Join(db, db.questions[i]))
  {
    var id := db.questions[i].id;
    var ids := Ids(db.questions, QuestionId);
    assert ids[i] == id;
    var r := QuestionById(db, id);
    assert HasQuestion(db.questions, id);
    var k :| 0 <= k < |db.questions| && db.questions[k] == r.value.q;
    assert ids[k] == id;
  }
}
