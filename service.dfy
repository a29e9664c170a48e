/** `EnemService`: the HTTP API's read-only queries over the store. Each
    `async` query is a function of one snapshot of the tables; `Promise.all`
    only runs independent reads side by side. */
module Service {
  import opened Tables
  import opened Order
  import opened Query
  import opened Filter

  /** `{ label, value }` (`name` holds the label). */
  datatype LabelDto = LabelDto(name: string, value: string)

  datatype AlternativeDto = AlternativeDto(letter: string, text: string, filePath: Option<string>, isCorrect: bool)

  datatype QuestionDto = QuestionDto(
    id: nat, title: string, index: int, year: int,
    context: Option<string>, alternativesIntroduction: Option<string>, correctAlternative: Option<string>,
    discipline: Option<LabelDto>, language: Option<LabelDto>,
    alternatives: seq<AlternativeDto>, files: seq<string>)

  /** The object `getAllQuestions` resolves to. */
  datatype QuestionPage = QuestionPage(data: seq<QuestionDto>, total: nat, page: int, limit: int, totalPages: nat)

  /** `label ? { label, value } : null`: a NULL join and an empty label both give null. */
  function LabelOf(l: Option<LabelRow>): (r: Option<LabelDto>)
    ensures r.None? <==> l.None? || l.value.name == ""
    ensures r.Some? ==> r.value == LabelDto(l.value.name, l.value.value)
  {
    if l.None? || l.value.name == "" then None else Some(LabelDto(l.value.name, l.value.value))
  }

  /** `isCorrect: is_correct === 1`. */
  function AlternativeDtoOf(a: Alternative): (r: AlternativeDto)
    ensures r.isCorrect <==> a.isCorrect == 1
    ensures (r.letter, r.text, r.filePath) == (a.letter, a.text, a.filePath)
  {
    AlternativeDto(a.letter, a.text, a.filePath, a.isCorrect == 1)
  }

  /** `getAlternatives`: the question's alternatives ordered by letter. */
  function GetAlternatives(db: Db, questionId: nat): (r: seq<AlternativeDto>)
    ensures |r| == |OrderedAlternatives(db, questionId)|
    ensures forall k :: 0 <= k < |r| ==> r[k] == AlternativeDtoOf(OrderedAlternatives(db, questionId)[k])
    ensures forall i, j :: 0 <= i < j < |r| ==> StrLe(r[i].letter, r[j].letter)
  {
    var rows := OrderedAlternatives(db, questionId);
    seq(|rows|, k requires 0 <= k < |rows| => AlternativeDtoOf(rows[k]))
  }

  /** The mapping of one joined row to the response object. */
  function ToDto(db: Db, j: Joined): QuestionDto
  {
    QuestionDto(j.q.id, j.q.title, j.q.index, j.q.year,
                j.q.context, j.q.alternativesIntroduction, j.q.correctAlternative,
                LabelOf(j.discipline), LabelOf(j.language),
                GetAlternatives(db, j.q.id), FilesOf(db.files, j.q.id))
  }

  /** The filters of a request. A year that is not a finite number fails
      validation (`Filter.NonNumericYearRejected`) before the service runs,
      so the `NotFinite` case never arises here; it is mapped to no filter. */
  function CriteriaOf(f: FilterDto): Criteria
  {
    Criteria(if f.year.Some? && f.year.value.Finite? then Some(f.year.value.n) else None, f.discipline, f.language)
  }

  /** `Math.ceil(total / limit)` on whole numbers. */
  function CeilDiv(total: nat, limit: int): (r: nat)
    requires limit >= 1
    ensures total == 0 ==> r == 0
    ensures total > 0 ==> (r - 1) * limit < total <= r * limit
  {
    if total == 0 then 0
    else
      var q := (total - 1) / limit;
      assert q * limit + (total - 1) % limit == total - 1;
      assert (q + 1) * limit == q * limit + limit;
      q + 1
  }

  /** `getAllQuestions`. */
  function GetAllQuestions(db: Db, f: FilterDto): (r: QuestionPage)
    requires Filter.Valid(f)
    // total counts every match; it depends on the filters, not on page or limit
    ensures r.total == |Matching(db, CriteriaOf(f))|
    // page and limit are echoed
    ensures r.page == PageOf(f) && r.limit == LimitOf(f)
    ensures r.totalPages == CeilDiv(r.total, r.limit)
    // data is the slice [offset, offset + limit) of the ordered matches
    ensures var rows := Ordered(db, CriteriaOf(f));
            var offset := OffsetOf(f);
            && |r.data| == (if offset >= |rows| then 0 else Min(r.limit, |rows| - offset))
            && forall k :: 0 <= k < |r.data| ==> r.data[k] == ToDto(db, rows[offset + k])
    ensures |r.data| <= r.limit
  {
    var c := CriteriaOf(f);
    var page, limit, offset := PageOf(f), LimitOf(f), OffsetOf(f);
    var rows := Window(Ordered(db, c), offset, limit);
    var total := |Matching(db, c)|;
    QuestionPage(Dtos(db, rows), total, page, limit, CeilDiv(total, limit))
  }

  /** The `map` over the fetched rows. */
  function Dtos(db: Db, rows: seq<Joined>): (r: seq<QuestionDto>)
    ensures |r| == |rows|
    ensures forall k :: 0 <= k < |rows| ==> r[k] == ToDto(db, rows[k])
  {
    seq(|rows|, k requires 0 <= k < |rows| => ToDto(db, rows[k]))
  }

  /** Where page n + 1 starts: n whole pages in, counted page by page. */
  function PageStart(n: nat, limit: nat): nat
  {
    if n == 0 then 0 else PageStart(n - 1, limit) + limit
  }

  /** Counted page by page, the start is `(page - 1) * limit`. */
  lemma {:induction false} PageStartIsProduct(n: nat, limit: nat)
    ensures PageStart(n, limit) == n * limit
  {
    if n > 0 {
      PageStartIsProduct(n - 1, limit);
      assert n * limit == (n - 1) * limit + limit;
    }
  }

  /** The first n pages of a list, one after the other. */
  function PagesUpTo<T>(rows: seq<T>, limit: nat, n: nat): seq<T>
  {
    if n == 0 then []
    else PagesUpTo(rows, limit, n - 1) + Window(rows, PageStart(n - 1, limit), limit)
  }

  /** A page that starts inside the list continues the rows before it. */
  lemma WindowAfterPrefix<T>(rows: seq<T>, offset: nat, limit: nat)
    requires offset < |rows|
    ensures rows[..offset] + Window(rows, offset, limit) == rows[..Min(offset + limit, |rows|)]
  {
    assert rows[..Min(offset + limit, |rows|)] == rows[..offset] + rows[offset..Min(offset + limit, |rows|)];
  }

  /** Pages 1 to n hold exactly the first n * limit rows. */
  lemma {:induction false} PagesArePrefix<T>(rows: seq<T>, limit: nat, n: nat)
    ensures PagesUpTo(rows, limit, n) == rows[..Min(PageStart(n, limit), |rows|)]
  {
    if n > 0 {
      PagesArePrefix(rows, limit, n - 1);
      var offset := PageStart(n - 1, limit);
      if offset < |rows| {
        WindowAfterPrefix(rows, offset, limit);
      }
    }
  }

  /** Walking pages 1 to `totalPages` visits every matching row once, in order. */
  lemma PagesCoverAll<T>(rows: seq<T>, limit: nat)
    requires limit >= 1
    ensures PagesUpTo(rows, limit, CeilDiv(|rows|, limit)) == rows
  {
    PagesArePrefix(rows, limit, CeilDiv(|rows|, limit));
    PageStartIsProduct(CeilDiv(|rows|, limit), limit);
  }

  lemma {:induction false} MulMonotone(a: nat, b: nat, l: nat)
    requires b <= a
    ensures b * l <= a * l
    decreases a - b
  {
    if b < a {
      MulMonotone(a, b + 1, l);
      assert (b + 1) * l == b * l + l;
    }
  }

  /** A page after the last one is empty. */
  lemma PageAfterLastIsEmpty<T>(rows: seq<T>, page: nat, limit: nat)
    requires limit >= 1 && page > CeilDiv(|rows|, limit)
    ensures (page - 1) * limit >= |rows|
    ensures Window(rows, (page - 1) * limit, limit) == []
  {
    MulMonotone(page - 1, CeilDiv(|rows|, limit), limit);
  }

  /** Every page before the last is full. */
  lemma PageBeforeLastIsFull<T>(rows: seq<T>, page: nat, limit: nat)
    requires limit >= 1 && 1 <= page < CeilDiv(|rows|, limit)
    ensures |Window(rows, (page - 1) * limit, limit)| == limit
  {
    MulMonotone(CeilDiv(|rows|, limit) - 1, page, limit);
    assert page * limit == (page - 1) * limit + limit;
  }

  /** Asking for a page after the last gives no data, while `total` and
      `totalPages` are reported as for any other page. */
  lemma NoDataAfterLastPage(db: Db, f: FilterDto)
    requires Filter.Valid(f) && PageOf(f) > GetAllQuestions(db, f).totalPages
    ensures GetAllQuestions(db, f).data == []
  {
    var rows := Ordered(db, CriteriaOf(f));
    PageAfterLastIsEmpty(rows, PageOf(f), LimitOf(f));
    assert OffsetOf(f) == (PageOf(f) - 1) * LimitOf(f);
  }

  /** `getQuestionById`. */
  function GetQuestionById(db: Db, id: int): (r: Option<QuestionDto>)
    ensures r.None? <==> id < 0 || !HasQuestion(db.questions, id)
    ensures r.Some? ==> r.value.id == id && r.value == ToDto(db, QuestionById(db, id).value)
  {
    match QuestionById(db, id)
    case None => None
    case Some(j) => Some(ToDto(db, j))
  }

  /** `getRandomQuestion`: `ORDER BY RANDOM() LIMIT 1` over the rows matching
      all three filters; `pick` stands for the random choice. */
  function GetRandomQuestion(db: Db, f: FilterDto, pick: nat): (r: Option<QuestionDto>)
    ensures r.None? <==> Matching(db, CriteriaOf(f)) == []
    ensures r.Some? ==> exists x :: x in Matching(db, CriteriaOf(f)) && r == GetQuestionById(db, x.q.id)
  {
    var candidates := Matching(db, CriteriaOf(f));
    if candidates == [] then None
    else
      var chosen := candidates[pick % |candidates|];
      assert chosen in candidates;
      var i :| 0 <= i < |db.questions| && chosen == Join(db, db.questions[i]);
      assert db.questions[i].id == chosen.q.id;
      GetQuestionById(db, chosen.q.id)
  }

  function QuestionYears(t: seq<Question>): (r: seq<int>)
    ensures forall y :: y in r <==> exists k :: 0 <= k < |t| && t[k].year == y
  {
    var r := seq(|t|, k requires 0 <= k < |t| => t[k].year);
    assert forall k :: 0 <= k < |t| ==> r[k] == t[k].year;
    r
  }

  predicate AtLeast(a: int, b: int)
  {
    a >= b
  }

  /** `SELECT DISTINCT year FROM questions ORDER BY year DESC`. */
  function GetAvailableYears(db: Db): (r: seq<int>)
    ensures forall i, j :: 0 <= i < j < |r| ==> r[i] > r[j]
    ensures forall y :: y in r <==> exists k :: 0 <= k < |db.questions| && db.questions[k].year == y
  {
    SortDistinct(QuestionYears(db.questions), AtLeast)
  }

  function LabelDtos(t: seq<LabelRow>): (r: seq<LabelDto>)
    ensures forall x :: x in r <==> exists k :: 0 <= k < |t| && x == LabelDto(t[k].name, t[k].value)
  {
    var r := seq(|t|, k requires 0 <= k < |t| => LabelDto(t[k].name, t[k].value));
    assert forall k :: 0 <= k < |t| ==> r[k] == LabelDto(t[k].name, t[k].value);
    r
  }

  /** `ORDER BY label`. */
  predicate NameLe(a: LabelDto, b: LabelDto)
  {
    StrLe(a.name, b.name)
  }

  lemma NameTotal()
    ensures TotalPreorder(NameLe)
  {
    forall a: LabelDto, b: LabelDto ensures NameLe(a, b) || NameLe(b, a) {
      StrLeTotal(a.name, b.name);
    }
    forall a: LabelDto, b: LabelDto, c: LabelDto | NameLe(a, b) && NameLe(b, c) ensures NameLe(a, c) {
      StrLeTransitive(a.name, b.name, c.name);
    }
  }

  /** `SELECT DISTINCT label, value FROM <labels> ORDER BY label`. */
  function DistinctLabels(t: seq<LabelRow>): (r: seq<LabelDto>)
    ensures Sorted(r, NameLe)
    ensures NoDup(r)
    ensures forall x :: x in r <==> exists k :: 0 <= k < |t| && x == LabelDto(t[k].name, t[k].value)
  {
    NameTotal();
    SortDistinct(LabelDtos(t), NameLe)
  }

  /** `getAvailableDisciplines`. */
  function GetAvailableDisciplines(db: Db): (r: seq<LabelDto>)
    ensures Sorted(r, NameLe) && NoDup(r)
    ensures forall x :: x in r <==> exists k :: 0 <= k < |db.disciplines| && x == LabelDto(db.disciplines[k].name, db.disciplines[k].value)
  {
    DistinctLabels(db.disciplines)
  }

  /** `getAvailableLanguages`. */
  function GetAvailableLanguages(db: Db): (r: seq<LabelDto>)
    ensures Sorted(r, NameLe) && NoDup(r)
    ensures forall x :: x in r <==> exists k :: 0 <= k < |db.languages| && x == LabelDto(db.languages[k].name, db.languages[k].value)
  {
    DistinctLabels(db.languages)
  }

  /** On a store the extractor wrote, `is_correct` is 0 or 1, so the API's
      `=== 1` and the Python viewer's `bool(...)` agree on every alternative. */
  lemma CorrectFlagsAgree(db: Db, questionId: nat)
    requires Tables.Valid(db)
    ensures var rows := OrderedAlternatives(db, questionId);
            forall k :: 0 <= k < |rows| ==> (GetAlternatives(db, questionId)[k].isCorrect <==> rows[k].isCorrect != 0)
  {
    var rows := OrderedAlternatives(db, questionId);
    forall k | 0 <= k < |rows| ensures rows[k].isCorrect in {0, 1} {
      assert rows[k] in rows;
      var i :| 0 <= i < |db.alternatives| && db.alternatives[i] == rows[k];
    }
  }
}
