/** The `quiz-items` directory tree the extractor reads, as a value: one entry
    per year folder, in the order the directory listing yields them, each with
    its parsed `details.json` and its `questions` sub-folders. Reading and
    JSON parsing are not modelled; their outcomes are part of the value. */
module QuizItems {
  import opened Tables

  /** A key of a JSON object: missing, present with `null`, or present with a value. */
  datatype Field<+T> = Absent | Null | Present(value: T)

  /** `d.get(key)`: a missing key and a `null` both read as None. */
  function Get<T>(f: Field<T>): (r: Option<T>)
    ensures r.Some? <==> f.Present?
    ensures r.Some? ==> r.value == f.value
  {
    if f.Present? then Some(f.value) else None
  }

  /** `d.get(key, default)`: the default replaces a missing key, not a `null`. */
  function GetOr<T>(f: Field<T>, default: T): (r: Option<T>)
    ensures f.Absent? ==> r == Some(default)
    ensures f.Null? ==> r == None
    ensures f.Present? ==> r == Some(f.value)
  {
    match f
    case Absent => Some(default)
    case Null => None
    case Present(v) => Some(v)
  }

  /** One element of a question's `alternatives` list. */
  datatype RawAlternative = RawAlternative(
    letter: Field<string>, text: Field<string>, file: Field<string>, isCorrect: Field<bool>)

  /** A question's `details.json` object. `files` holds strings or `null`s. */
  datatype RawQuestion = RawQuestion(
    title: Field<string>, index: Field<int>, year: Field<int>,
    discipline: Field<string>, language: Field<string>,
    context: Field<string>, alternativesIntroduction: Field<string>,
    correctAlternative: Field<string>,
    alternatives: Field<seq<RawAlternative>>, files: Field<seq<Option<string>>>)

  /** The outcome of `json.load` on a file. */
  datatype Json<+T> = Malformed | Parsed(value: T)

  /** An entry of a year's `questions` folder; `details` is None when the
      entry has no `details.json`. */
  datatype QuestionEntry = QuestionEntry(name: string, isDir: bool, details: Option<Json<RawQuestion>>)

  /** A year's `details.json` object; only its `title` is read. */
  datatype ExamDetails = ExamDetails(title: Field<string>)

  /** An entry of `quiz-items`; `questions` is None when there is no `questions` folder. */
  datatype YearEntry = YearEntry(
    name: string, isDir: bool,
    details: Option<Json<ExamDetails>>, questions: Option<seq<QuestionEntry>>)

  /** `name.isdigit()`, for ASCII names: non-empty and all decimal digits. */
  predicate IsDigits(s: string)
  {
    |s| > 0 && forall i :: 0 <= i < |s| ==> '0' <= s[i] <= '9'
  }

  function DigitValue(c: char): nat
    requires '0' <= c <= '9'
  {
    c as int - '0' as int
  }

  function DigitChar(d: nat): (c: char)
    requires d < 10
    ensures '0' <= c <= '9' && DigitValue(c) == d
  {
    ('0' as int + d) as char
  }

  /** `int(name)` for a name of decimal digits. */
  function ParseDigits(s: string): nat
    requires forall i :: 0 <= i < |s| ==> '0' <= s[i] <= '9'
    decreases |s|
  {
    if s == [] then 0 else 10 * ParseDigits(s[..|s| - 1]) + DigitValue(s[|s| - 1])
  }

  /** `str(n)` for a natural number: no leading zeros. */
  function ShowNat(n: nat): (s: string)
    ensures IsDigits(s)
    ensures s[0] != '0' || s == "0"
  {
    if n < 10 then [DigitChar(n)] else ShowNat(n / 10) + [DigitChar(n % 10)]
  }

  /** `str(year)` for any integer. */
  function ShowInt(n: int): string
  {
    if n < 0 then "-" + ShowNat(-n) else ShowNat(n)
  }

  /** `str` inverts `int` on a digit string: reading back a shown number gives the number. */
  lemma {:induction false} ParseShow(n: nat)
    ensures ParseDigits(ShowNat(n)) == n
  {
    if n >= 10 {
      ParseShow(n / 10);
      var s := ShowNat(n / 10) + [DigitChar(n % 10)];
      assert s[..|s| - 1] == ShowNat(n / 10);
    }
  }

  lemma {:induction false} ParsePositive(s: string)
    requires IsDigits(s) && s[0] != '0'
    ensures ParseDigits(s) >= 1
    decreases |s|
  {
    if |s| > 1 {
      ParsePositive(s[..|s| - 1]);
    }
  }

  /** `str(int(name)) == name` exactly when the digit string has no leading
      zero (or is "0"); a folder named "02023" is therefore looked up as "2023". */
  lemma {:induction false} ShowParse(s: string)
    requires IsDigits(s)
    ensures ShowNat(ParseDigits(s)) == s <==> (s[0] != '0' || s == "0")
    decreases |s|
  {
    var p := s[..|s| - 1];
    var c := s[|s| - 1];
    if |s| == 1 {
      assert ShowNat(ParseDigits(s)) == [DigitChar(DigitValue(c))];
    } else if s[0] != '0' {
      assert p[0] == s[0];
      ShowParse(p);
      ParsePositive(p);
      var n := ParseDigits(s);
      assert n / 10 == ParseDigits(p) && n % 10 == DigitValue(c);
      assert s == p + [c];
    }
  }
}
