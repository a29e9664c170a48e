/** `FilterDto`: the query parameters of the questions endpoints after
    class-transformer has turned the numeric ones into numbers, and the
    class-validator rules the request must pass before the service runs. */
module Filter {
  import opened Tables

  /** A JavaScript number as the conversion leaves it: an integer, or a value
      that is not finite (`Number("abc")` is NaN). */
  datatype Num = Finite(n: int) | NotFinite

  /** Every field is optional (`@IsOptional()`). */
  datatype FilterDto = FilterDto(
    year: Option<Num>, discipline: Option<string>, language: Option<string>,
    page: Option<Num>, limit: Option<Num>)

  /** `@IsNumber()` rejects NaN and the infinities. */
  predicate IsNumber(x: Num)
  {
    x.Finite?
  }

  /** The decorators: `year` a number; `page` a number at least 1; `limit` a
      number from 1 to 100. */
  predicate Valid(f: FilterDto)
  {
    && (f.year.Some? ==> IsNumber(f.year.value))
    && (f.page.Some? ==> IsNumber(f.page.value) && f.page.value.n >= 1)
    && (f.limit.Some? ==> IsNumber(f.limit.value) && 1 <= f.limit.value.n <= 100)
  }

  /** `page = 1` when the field is absent. */
  function PageOf(f: FilterDto): (p: int)
    requires Valid(f)
    ensures p >= 1
    ensures f.page.None? ==> p == 1
    ensures f.page.Some? ==> f.page.value == Finite(p)
  {
    if f.page.None? then 1 else f.page.value.n
  }

  /** `limit = 10` when the field is absent. */
  function LimitOf(f: FilterDto): (l: int)
    requires Valid(f)
    ensures 1 <= l <= 100
    ensures f.limit.None? ==> l == 10
    ensures f.limit.Some? ==> f.limit.value == Finite(l)
  {
    if f.limit.None? then 10 else f.limit.value.n
  }

  /** `offset = (page - 1) * limit`: never negative for a valid filter, and
      at least one whole page further on for each later page. */
  function OffsetOf(f: FilterDto): (o: int)
    requires Valid(f)
    ensures o >= 0
    ensures PageOf(f) > 1 ==> o >= LimitOf(f)
  {
    var p, l := PageOf(f), LimitOf(f);
    assert (p - 1) * l >= 0;
    assert p > 1 ==> (p - 1) * l >= l;
    (p - 1) * l
  }

  /** A year that is not a number, such as `year=abc`, fails validation and
      the request is answered with status 400 before the service runs. */
  lemma NonNumericYearRejected(f: FilterDto)
    requires f.year == Some(NotFinite)
    ensures !Valid(f)
  {
  }
}
