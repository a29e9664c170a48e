/** The selection semantics both readers of the store share: the LEFT JOIN of
    a question with its discipline and language, the optional filters, the
    ORDER BY clauses, LIMIT and OFFSET, and the per-question alternatives and
    files. */
module Query {
  import opened Tables
  import opened Order

  /** A question row with the discipline and language rows its LEFT JOINs
      find (None for NULL). */
  datatype Joined = Joined(q: Question, discipline: Option<LabelRow>, language: Option<LabelRow>)

  /** The first row of a label table with the given id. */
  function FindById(t: seq<LabelRow>, id: nat): (r: Option<LabelRow>)
    ensures r.Some? ==> r.value in t && r.value.id == id
    ensures r.None? <==> !HasLabelId(t, id)
  {
    if t == [] then None
    else if t[0].id == id then Some(t[0])
    else
      assert HasLabelId(t, id) ==> HasLabelId(t[1..], id) by {
        if HasLabelId(t, id) {
          var i :| 0 <= i < |t| && t[i].id == id;
          assert t[1..][i - 1] == t[i];
        }
      }
      FindById(t[1..], id)
  }

  /** `LEFT JOIN <labels> ON <foreign key> = <labels>.id`. */
  function JoinLabel(t: seq<LabelRow>, id: Option<nat>): (r: Option<LabelRow>)
    ensures r.Some? ==> id == Some(r.value.id) && r.value in t
    ensures r.None? <==> id.None? || !HasLabelId(t, id.value)
  {
    if id.None? then None else FindById(t, id.value)
  }

  function Join(db: Db, q: Question): Joined
  {
    Joined(q, JoinLabel(db.disciplines, q.disciplineId), JoinLabel(db.languages, q.languageId))
  }

  /** The optional filters of a query. */
  datatype Criteria = Criteria(year: Option<int>, discipline: Option<string>, language: Option<string>)

  const NoFilter: Criteria := Criteria(None, None, None)

  /** `if year:` — None and 0 apply no filter. */
  predicate YearSet(y: Option<int>)
  {
    y.Some? && y.value != 0
  }

  /** `if discipline:` — None and "" apply no filter. */
  predicate SlugSet(s: Option<string>)
  {
    s.Some? && s.value != ""
  }

  /** `AND q.year = ?`, `AND d.value = ?`, `AND l.value = ?` for each truthy
      filter. A NULL join never equals a slug, so a slug filter drops
      questions whose discipline or language is missing. */
  predicate Matches(c: Criteria, j: Joined)
  {
    && (YearSet(c.year) ==> j.q.year == c.year.value)
    && (SlugSet(c.discipline) ==> j.discipline.Some? && j.discipline.value.value == c.discipline.value)
    && (SlugSet(c.language) ==> j.language.Some? && j.language.value.value == c.language.value)
  }

  /** The joined rows of `qs` that match, in table order. */
  function Select(db: Db, c: Criteria, qs: seq<Question>): (r: seq<Joined>)
    ensures |r| <= |qs|
    ensures forall x :: x in r <==> Matches(c, x) && exists i :: 0 <= i < |qs| && x == Join(db, qs[i])
    decreases |qs|
  {
    if qs == [] then []
    else
      var init := qs[..|qs| - 1];
      var r := Select(db, c, init);
      var j := Join(db, qs[|qs| - 1]);
      assert forall i :: 0 <= i < |init| ==> init[i] == qs[i];
      if Matches(c, j) then r + [j] else r
  }

  /** The `WHERE` clause over the whole `questions` table. */
  function Matching(db: Db, c: Criteria): (r: seq<Joined>)
    ensures forall x :: x in r <==> Matches(c, x) && exists i :: 0 <= i < |db.questions| && x == Join(db, db.questions[i])
  {
    Select(db, c, db.questions)
  }

  /** One more question in the table adds its joined row exactly when it
      matches, after the rows already selected. */
  lemma {:induction false} SelectSnoc(db: Db, c: Criteria, qs: seq<Question>, q: Question)
    ensures Select(db, c, qs + [q]) == Select(db, c, qs) + (if Matches(c, Join(db, q)) then [Join(db, q)] else [])
  {
    assert (qs + [q])[..|qs|] == qs;
  }

  /** The selection distributes over concatenation: every matching question is
      selected once, in table order, and nothing else is. */
  lemma {:induction false} SelectAppend(db: Db, c: Criteria, qs: seq<Question>, rs: seq<Question>)
    ensures Select(db, c, qs + rs) == Select(db, c, qs) + Select(db, c, rs)
    decreases |rs|
  {
    if rs == [] {
      assert qs + rs == qs;
    } else {
      var init, last := rs[..|rs| - 1], rs[|rs| - 1];
      assert rs == init + [last];
      assert qs + rs == (qs + init) + [last];
      SelectAppend(db, c, qs, init);
      SelectSnoc(db, c, qs + init, last);
      SelectSnoc(db, c, init, last);
    }
  }

  /** A single question is selected once when it matches, otherwise not at all. */
  lemma SelectOne(db: Db, c: Criteria, q: Question)
    ensures Select(db, c, [q]) == if Matches(c, Join(db, q)) then [Join(db, q)] else []
  {
    SelectSnoc(db, c, [], q);
    assert [] + [q] == [q];
  }

  /** Distinct question rows give distinct selected rows: no question is
      selected twice. */
  lemma {:induction false} SelectNoDup(db: Db, c: Criteria, qs: seq<Question>)
    requires NoDup(qs)
    ensures NoDup(Select(db, c, qs))
    decreases |qs|
  {
    if qs != [] {
      var init, last := qs[..|qs| - 1], qs[|qs| - 1];
      assert qs == init + [last];
      assert NoDup(init) by {
        forall i, j | 0 <= i < j < |init| ensures init[i] != init[j] {
          assert init[i] == qs[i] && init[j] == qs[j];
        }
      }
      SelectNoDup(db, c, init);
      SelectSnoc(db, c, init, last);
      forall x | x in Select(db, c, init) ensures x != Join(db, last) {
        var i :| 0 <= i < |init| && x == Join(db, init[i]);
        assert init[i] == qs[i];
      }
    }
  }

  /** In a valid store the questions' primary keys are distinct, so the
      WHERE clause selects each matching question exactly once. */
  lemma MatchingNoDup(db: Db, c: Criteria)
    requires Valid(db)
    ensures NoDup(Matching(db, c))
  {
    var ids := Ids(db.questions, QuestionId);
    forall i, j | 0 <= i < j < |db.questions| ensures db.questions[i] != db.questions[j] {
      assert ids[i] < ids[j];
    }
    SelectNoDup(db, c, db.questions);
  }

  /** With no truthy filter every question is selected, once, in table order. */
  lemma {:induction false} SelectAll(db: Db, c: Criteria, qs: seq<Question>)
    requires !YearSet(c.year) && !SlugSet(c.discipline) && !SlugSet(c.language)
    ensures |Select(db, c, qs)| == |qs|
    ensures forall k :: 0 <= k < |qs| ==> Select(db, c, qs)[k] == Join(db, qs[k])
    decreases |qs|
  {
    if qs != [] {
      var init := qs[..|qs| - 1];
      SelectAll(db, c, init);
      assert forall k :: 0 <= k < |init| ==> init[k] == qs[k];
    }
  }

  /** `ORDER BY q.year DESC, q.index_number ASC`. */
  predicate Before(a: Joined, b: Joined)
  {
    a.q.year > b.q.year || (a.q.year == b.q.year && a.q.index <= b.q.index)
  }

  lemma BeforeTotal()
    ensures TotalPreorder(Before)
  {
  }

  /** The matching rows in the order of the ORDER BY clause. */
  function Ordered(db: Db, c: Criteria): (r: seq<Joined>)
    ensures Sorted(r, Before)
    ensures multiset(r) == multiset(Matching(db, c))
    ensures |r| == |Matching(db, c)|
  {
    BeforeTotal();
    SortBy(Matching(db, c), Before)
  }

  /** The ordered result holds exactly the matching rows. */
  lemma OrderedMembers(db: Db, c: Criteria, x: Joined)
    ensures x in Ordered(db, c) <==> Matches(c, x) && exists i :: 0 <= i < |db.questions| && x == Join(db, db.questions[i])
  {
    assert x in Ordered(db, c) <==> x in multiset(Ordered(db, c));
    assert x in Matching(db, c) <==> x in multiset(Matching(db, c));
  }

  function Min(a: int, b: int): int
  {
    if a <= b then a else b
  }

  /** `LIMIT n`: a negative limit means no limit. */
  function Take<T>(s: seq<T>, limit: int): (r: seq<T>)
    ensures limit < 0 ==> r == s
    ensures 0 <= limit ==> |r| == Min(limit, |s|)
    ensures r == s[..|r|]
  {
    if limit < 0 || limit >= |s| then s else s[..limit]
  }

  /** `LIMIT limit OFFSET offset` for a non-negative limit. */
  function Window<T>(s: seq<T>, offset: nat, limit: nat): (r: seq<T>)
    ensures |r| == if offset >= |s| then 0 else Min(limit, |s| - offset)
    ensures forall k :: 0 <= k < |r| ==> r[k] == s[offset + k]
    ensures offset < |s| ==> r == s[offset..offset + |r|]
  {
    if offset >= |s| then [] else Take(s[offset..], limit)
  }

  /** `SELECT ... FROM alternatives WHERE question_id = ?`, in table order. */
  function AlternativesOf(t: seq<Alternative>, questionId: nat): (r: seq<Alternative>)
    ensures forall a :: a in r <==> a in t && a.questionId == questionId
    decreases |t|
  {
    if t == [] then []
    else
      var init := t[..|t| - 1];
      var r := AlternativesOf(init, questionId);
      assert forall a :: a in init ==> a in t;
      assert forall a :: a in t ==> a in init || a == t[|t| - 1] by {
        assert t == init + [t[|t| - 1]];
      }
      if t[|t| - 1].questionId == questionId then r + [t[|t| - 1]] else r
  }

  /** Each of the question's rows is selected as often as the table holds it,
      and no other row. */
  lemma {:induction false} AlternativesOfCount(t: seq<Alternative>, questionId: nat)
    ensures forall a :: multiset(AlternativesOf(t, questionId))[a] == if a.questionId == questionId then multiset(t)[a] else 0
    decreases |t|
  {
    if t != [] {
      var init, last := t[..|t| - 1], t[|t| - 1];
      assert t == init + [last];
      AlternativesOfCount(init, questionId);
      AlternativesOfSnoc(init, last, questionId);
      assert multiset(t) == multiset(init) + multiset{last};
    }
  }

  /** One more row at the end of the table. */
  lemma AlternativesOfSnoc(t: seq<Alternative>, a: Alternative, questionId: nat)
    ensures AlternativesOf(t + [a], questionId) ==
              AlternativesOf(t, questionId) + if a.questionId == questionId then [a] else []
  {
    assert (t + [a])[..|t + [a]| - 1] == t;
  }

  /** The rows of two stretches of the table are those of the first, then
      those of the second. */
  lemma {:induction false} AlternativesOfAppend(t: seq<Alternative>, u: seq<Alternative>, questionId: nat)
    ensures AlternativesOf(t + u, questionId) == AlternativesOf(t, questionId) + AlternativesOf(u, questionId)
    decreases |u|
  {
    if u == [] {
      assert t + u == t;
      assert AlternativesOf(u, questionId) == [];
    } else {
      var init, last := u[..|u| - 1], u[|u| - 1];
      assert t + u == (t + init) + [last] && u == init + [last];
      AlternativesOfAppend(t, init, questionId);
      AlternativesOfSnoc(t + init, last, questionId);
      AlternativesOfSnoc(init, last, questionId);
      var rest := if last.questionId == questionId then [last] else [];
      assert AlternativesOf(t, questionId) + AlternativesOf(init, questionId) + rest ==
             AlternativesOf(t, questionId) + (AlternativesOf(init, questionId) + rest);
    }
  }

  /** `ORDER BY letter`. */
  predicate LetterLe(a: Alternative, b: Alternative)
  {
    StrLe(a.letter, b.letter)
  }

  lemma LetterTotal()
    ensures TotalPreorder(LetterLe)
  {
    forall a: Alternative, b: Alternative ensures LetterLe(a, b) || LetterLe(b, a) {
      StrLeTotal(a.letter, b.letter);
    }
    forall a: Alternative, b: Alternative, c: Alternative | LetterLe(a, b) && LetterLe(b, c) ensures LetterLe(a, c) {
      StrLeTransitive(a.letter, b.letter, c.letter);
    }
  }

  /** A question's alternatives ordered by letter. */
  function OrderedAlternatives(db: Db, questionId: nat): (r: seq<Alternative>)
    ensures Sorted(r, LetterLe)
    ensures multiset(r) == multiset(AlternativesOf(db.alternatives, questionId))
    ensures forall a :: a in r <==> a in db.alternatives && a.questionId == questionId
  {
    LetterTotal();
    var r := SortBy(AlternativesOf(db.alternatives, questionId), LetterLe);
    assert forall a :: a in r <==> a in multiset(r);
    assert forall a :: a in AlternativesOf(db.alternatives, questionId) <==> a in multiset(AlternativesOf(db.alternatives, questionId));
    r
  }

  /** `SELECT file_path FROM question_files WHERE question_id = ?`; there is
      no ORDER BY, and the rows come in table order. */
  function FilesOf(t: seq<QuestionFile>, questionId: nat): (r: seq<string>)
    ensures |r| <= |t|
    ensures forall p :: p in r <==> exists i :: 0 <= i < |t| && t[i].questionId == questionId && t[i].filePath == p
    decreases |t|
  {
    if t == [] then []
    else
      var init := t[..|t| - 1];
      var r := FilesOf(init, questionId);
      assert forall i :: 0 <= i < |init| ==> init[i] == t[i];
      var last := t[|t| - 1];
      if last.questionId == questionId then r + [last.filePath] else r
  }

  /** One more row at the end of the table. */
  lemma FilesOfSnoc(t: seq<QuestionFile>, f: QuestionFile, questionId: nat)
    ensures FilesOf(t + [f], questionId) == FilesOf(t, questionId) + if f.questionId == questionId then [f.filePath] else []
  {
    assert (t + [f])[..|t + [f]| - 1] == t;
  }

  /** The paths of two stretches of the table are those of the first, then
      those of the second. */
  lemma {:induction false} FilesOfAppend(t: seq<QuestionFile>, u: seq<QuestionFile>, questionId: nat)
    ensures FilesOf(t + u, questionId) == FilesOf(t, questionId) + FilesOf(u, questionId)
    decreases |u|
  {
    if u == [] {
      assert t + u == t;
      assert FilesOf(u, questionId) == [];
    } else {
      var init, last := u[..|u| - 1], u[|u| - 1];
      assert t + u == (t + init) + [last] && u == init + [last];
      FilesOfAppend(t, init, questionId);
      FilesOfSnoc(t + init, last, questionId);
      FilesOfSnoc(init, last, questionId);
      var rest := if last.questionId == questionId then [last.filePath] else [];
      assert FilesOf(t, questionId) + FilesOf(init, questionId) + rest ==
             FilesOf(t, questionId) + (FilesOf(init, questionId) + rest);
    }
  }

  /** `WHERE q.id = ?`, first row. */
  function QuestionById(db: Db, id: int): (r: Option<Joined>)
    ensures r.None? <==> id < 0 || !HasQuestion(db.questions, id)
    ensures r.Some? ==> r.value.q.id == id && r.value.q in db.questions && r.value == Join(db, r.value.q)
  {
    if id < 0 then None else FindQuestion(db, db.questions, id)
  }

  function FindQuestion(db: Db, t: seq<Question>, id: nat): (r: Option<Joined>)
    ensures r.None? <==> !HasQuestion(t, id)
    ensures r.Some? ==> r.value.q.id == id && r.value.q in t && r.value == Join(db, r.value.q)
  {
    if t == [] then None
    else if t[0].id == id then Some(Join(db, t[0]))
    else
      assert HasQuestion(t, id) ==> HasQuestion(t[1..], id) by {
        if HasQuestion(t, id) {
          var i :| 0 <= i < |t| && t[i].id == id;
          assert t[1..][i - 1] == t[i];
        }
      }
      FindQuestion(db, t[1..], id)
  }
}
