/**
 * The vacancy record of a job-search client: how raw search results become
 * records, which records a set of optional criteria keeps, how a record is
 * serialized, and how two records are compared by their upper salary bound.
 */
module Integration {
  import opened Wrappers
  import opened Sequences
  import PyInt

  /** A posting's salary object: its `from` and `to` keys; a missing key or a JSON null is `None`. */
  datatype Salary = Salary(from: Option<int>, to: Option<int>)

  /** The five slots `Vacancy.__init__` assigns; `url` is the slot `_url`. */
  datatype Vacancy = Vacancy(
    name: Option<string>,
    url: Option<string>,
    salary: Option<Salary>,
    description: Option<string>,
    requirements: Option<string>)

  /** The `snippet` object of a raw search result. */
  datatype Snippet = Snippet(requirement: Option<string>)

  /** One element of the search response's `items`, with the keys the record reads. */
  datatype RawItem = RawItem(
    name: Option<string>,
    url: Option<string>,
    salary: Option<Salary>,
    description: Option<string>,
    snippet: Option<Snippet>)

  /** The search response: its `items` array, `None` when the key is absent. */
  datatype Payload = Payload(items: Option<seq<RawItem>>)

  /** What `json_to_object` raises: iterating a missing `items` (TypeError), or `.get` on a missing `snippet` (AttributeError). */
  datatype ConversionError = ItemsMissing | SnippetMissing

  /** Python truthiness of an optional string: `None` and `""` are false. */
  predicate TruthyText(s: Option<string>)
  {
    s.Some? && s.value != ""
  }

  /** Python truthiness of an optional number: `None` and `0` are false. */
  predicate TruthyNumber(n: Option<int>)
  {
    n.Some? && n.value != 0
  }

  // ---------------------------------------------------------------------------
  // Construction from the search response

  /** `Vacancy.__init__`: each slot holds the argument given for it. */
  function NewVacancy(name: Option<string>, url: Option<string>, salary: Option<Salary>,
                      description: Option<string>, requirements: Option<string>): (v: Vacancy)
    ensures v.name == name && v.url == url && v.salary == salary
    ensures v.description == description && v.requirements == requirements
  {
    Vacancy(name, url, salary, description, requirements)
  }

  /** The record one raw item becomes; `None` when the item has no `snippet`. */
  function FromRaw(item: RawItem): (r: Option<Vacancy>)
    ensures r.Some? <==> item.snippet.Some?
    ensures r.Some? ==> && r.value.name == item.name && r.value.url == item.url
                        && r.value.salary == item.salary && r.value.description == item.description
                        && r.value.requirements == item.snippet.value.requirement
  {
    if item.snippet.None? then None
    else Some(NewVacancy(item.name, item.url, item.salary, item.description, item.snippet.value.requirement))
  }

  /** The list comprehension over `items`: fails at the first item without a snippet. */
  function ConvertItems(items: seq<RawItem>): (r: Result<seq<Vacancy>, ConversionError>)
    ensures r.Ok? <==> forall i :: 0 <= i < |items| ==> items[i].snippet.Some?
    ensures r.Err? ==> r.error == SnippetMissing
    ensures r.Ok? ==> |r.value| == |items|
    ensures r.Ok? ==> forall i :: 0 <= i < |items| ==>
      && r.value[i].name == items[i].name
      && r.value[i].url == items[i].url
      && r.value[i].salary == items[i].salary
      && r.value[i].description == items[i].description
      && r.value[i].requirements == items[i].snippet.value.requirement
  {
    if items == [] then Ok([])
    else match (FromRaw(items[0]), ConvertItems(items[1..]))
      case (Some(v), Ok(rest)) => Ok([v] + rest)
      case (None, _) => Err(SnippetMissing)
      case (_, Err(e)) => Err(e)
  }

  /** `Vacancy.json_to_object`: one record per item of `items`, in order. */
  function JsonToObject(payload: Payload): (r: Result<seq<Vacancy>, ConversionError>)
    ensures payload.items.Some? ==>
      (r.Ok? <==> forall i :: 0 <= i < |payload.items.value| ==> payload.items.value[i].snippet.Some?)
    ensures r.Ok? ==> payload.items.Some? && |r.value| == |payload.items.value|
    ensures r.Ok? ==> forall i :: 0 <= i < |r.value| ==>
      var item := payload.items.value[i];
      r.value[i] == Vacancy(item.name, item.url, item.salary, item.description, item.snippet.value.requirement)
    ensures r.Err? ==> r.error == (if payload.items.None? then ItemsMissing else SnippetMissing)
    ensures payload.items.Some? ==> r == ConvertItems(payload.items.value)
  {
    match payload.items
    case None => Err(ItemsMissing)
    case Some(items) => ConvertItems(items)
  }

  // ---------------------------------------------------------------------------
  // The salary predicate

  /** A range admits a threshold when it has a truthy bound and every truthy bound admits it. */
  predicate Admits(s: Salary, threshold: int)
  {
    && (TruthyNumber(s.from) || TruthyNumber(s.to))
    && (TruthyNumber(s.from) ==> s.from.value <= threshold)
    && (TruthyNumber(s.to) ==> threshold <= s.to.value)
  }

  /** `Vacancy.is_filter_by_salary`; the fall-through that returns `None` is `false`. */
  function IsFilterBySalary(threshold: Option<int>, salary: Option<Salary>): (pass: bool)
    ensures pass <==> !TruthyNumber(threshold) || (salary.Some? && Admits(salary.value, threshold.value))
  {
    if !TruthyNumber(threshold) then true
    else if salary.None? then false
    else
      var source, destination := salary.value.from, salary.value.to;
      if TruthyNumber(source) && !TruthyNumber(destination) then threshold.value >= source.value
      else if !TruthyNumber(source) && TruthyNumber(destination) then threshold.value <= destination.value
      else if TruthyNumber(source) && TruthyNumber(destination) then
        source.value <= threshold.value <= destination.value
      else false
  }

  /** The thresholds a salary admits form an interval: one between two admitted thresholds is admitted. */
  lemma SalaryThresholdsConvex(salary: Option<Salary>, low: int, mid: int, high: int)
    requires low <= mid <= high && mid != 0
    requires low != 0 && IsFilterBySalary(Some(low), salary)
    requires high != 0 && IsFilterBySalary(Some(high), salary)
    ensures IsFilterBySalary(Some(mid), salary)
  {
  }

  /** The threshold a salary criterion imposes: `int(text)` when the text is non-empty, nothing when it does not parse. */
  function Threshold(text: Option<string>): (t: Option<int>)
    ensures t.Some? <==> TruthyText(text) && PyInt.ParseInt(text.value).Some?
    ensures t.Some? ==> t == PyInt.ParseInt(text.value)
  {
    if TruthyText(text) then PyInt.ParseInt(text.value) else None
  }

  /** Empty, unparseable and zero criteria impose no salary constraint. */
  lemma NoSalaryConstraint(text: Option<string>, salary: Option<Salary>)
    requires !TruthyText(text) || PyInt.ParseInt(text.value) in {None, Some(0)}
    ensures IsFilterBySalary(Threshold(text), salary)
  {
  }

  /** The decimal spelling of any number `n`, with whitespace around it as `input()` may leave, imposes exactly threshold `n`. */
  lemma ThresholdOfShow(pre: string, n: int, post: string)
    requires forall i :: 0 <= i < |pre| ==> PyInt.IsSpace(pre[i])
    requires forall i :: 0 <= i < |post| ==> PyInt.IsSpace(post[i])
    ensures Threshold(Some(pre + PyInt.Show(n) + post)) == Some(n)
  {
    PyInt.ParsePadded(pre, n, post);
    PyInt.ShowEnds(n);
    assert |pre + PyInt.Show(n) + post| > 0;
  }

  // ---------------------------------------------------------------------------
  // The filter engine

  /** The keyword arguments of `filter_by_fields`; a missing argument is `None`. */
  datatype Criteria = Criteria(
    name: Option<string>,
    url: Option<string>,
    salary: Option<string>,
    description: Option<string>,
    requirements: Option<string>)

  /**
   * A record satisfies every truthy criterion: exact equality for text, the range rules for
   * salary. A record matches exactly when every truthy text criterion equals its field and its
   * salary passes `is_filter_by_salary`; so without any truthy criterion every record matches,
   * and a salary criterion rejects a record without a salary.
   */
  predicate Matches(v: Vacancy, c: Criteria, threshold: Option<int>)
    ensures (&& !TruthyText(c.name) && !TruthyText(c.url) && !TruthyText(c.description)
             && !TruthyText(c.requirements) && !TruthyNumber(threshold)) ==> Matches(v, c, threshold)
    ensures Matches(v, c, threshold) ==>
              && (TruthyText(c.name) ==> v.name == c.name)
              && (TruthyText(c.url) ==> v.url == c.url)
              && (TruthyText(c.description) ==> v.description == c.description)
              && (TruthyText(c.requirements) ==> v.requirements == c.requirements)
    ensures Matches(v, c, threshold) ==> IsFilterBySalary(threshold, v.salary)
    ensures Matches(v, c, threshold) && TruthyNumber(threshold) ==> v.salary.Some?
    ensures (&& (TruthyText(c.name) ==> v.name == c.name)
             && (TruthyText(c.url) ==> v.url == c.url)
             && (TruthyText(c.description) ==> v.description == c.description)
             && (TruthyText(c.requirements) ==> v.requirements == c.requirements)
             && IsFilterBySalary(threshold, v.salary)) ==> Matches(v, c, threshold)
  {
    && (!TruthyText(c.name) || v.name == c.name)
    && (!TruthyText(c.url) || v.url == c.url)
    && IsFilterBySalary(threshold, v.salary)
    && (!TruthyText(c.description) || v.description == c.description)
    && (!TruthyText(c.requirements) || v.requirements == c.requirements)
  }

  /** The test the filter loop applies to each record, with the salary text parsed once. */
  function Criterion(c: Criteria): Vacancy -> bool
  {
    var threshold := Threshold(c.salary);
    v => Matches(v, c, threshold)
  }

  /** The records that satisfy the criteria, in input order. */
  function Kept(vs: seq<Vacancy>, c: Criteria): seq<Vacancy>
  {
    Keep(vs, Criterion(c))
  }

  /**
   * What `filter_by_fields` returns: the kept records, or the input itself when none is kept.
   * Every returned record comes from the input, a non-empty input never gives an empty result,
   * and a result other than the input holds matching records only.
   */
  function Filtered(vs: seq<Vacancy>, c: Criteria): (r: seq<Vacancy>)
    ensures forall i :: 0 <= i < |r| ==> r[i] in vs
    ensures r == [] ==> vs == []
    ensures r != vs ==> forall i :: 0 <= i < |r| ==> Matches(r[i], c, Threshold(c.salary))
  {
    if Kept(vs, c) == [] then vs else Kept(vs, c)
  }

  /** `Vacancy.filter_by_fields`: one pass that appends every matching record. */
  method FilterByFields(vacancies: seq<Vacancy>, c: Criteria) returns (r: seq<Vacancy>)
    ensures r == Filtered(vacancies, c)
  {
    var threshold := Threshold(c.salary);
    var filtered: seq<Vacancy> := [];
    for i := 0 to |vacancies|
      invariant filtered == Kept(vacancies[..i], c)
    {
      var vacancy := vacancies[i];
      KeepSnoc(vacancies[..i], vacancy, Criterion(c));
      assert vacancies[..i + 1] == vacancies[..i] + [vacancy];
      if Matches(vacancy, c, threshold) {
        filtered := filtered + [vacancy];
      }
    }
    assert vacancies[..|vacancies|] == vacancies;
    r := if filtered == [] then vacancies else filtered;
  }

  /** A record is among the kept ones exactly when it matches, and it is kept as often as it occurs. */
  lemma KeptExactly(vs: seq<Vacancy>, c: Criteria, v: Vacancy)
    ensures v in Kept(vs, c) <==> v in vs && Matches(v, c, Threshold(c.salary))
    ensures multiset(Kept(vs, c))[v] == if Matches(v, c, Threshold(c.salary)) then multiset(vs)[v] else 0
  {
    KeepCount(vs, Criterion(c), v);
  }

  /** The result is a subsequence of the input, never longer, and empty only for an empty input. */
  lemma FilteredShape(vs: seq<Vacancy>, c: Criteria)
    ensures IsSubsequence(Filtered(vs, c), vs)
    ensures |Filtered(vs, c)| <= |vs|
    ensures Filtered(vs, c) == [] <==> vs == []
  {
    KeepIsSubsequence(vs, Criterion(c));
    if vs == [] {
      assert IsSubsequence(vs, vs);
    } else if Kept(vs, c) == [] {
      SubsequenceReflexive(vs);
    }
  }

  /** When no record matches, the input comes back unchanged; otherwise only matching records come back. */
  lemma FilteredFallback(vs: seq<Vacancy>, c: Criteria)
    ensures (forall i :: 0 <= i < |vs| ==> !Matches(vs[i], c, Threshold(c.salary))) ==> Filtered(vs, c) == vs
    ensures (exists i :: 0 <= i < |vs| && Matches(vs[i], c, Threshold(c.salary))) ==>
      forall j :: 0 <= j < |Filtered(vs, c)| ==> Matches(Filtered(vs, c)[j], c, Threshold(c.salary))
  {
    if Kept(vs, c) == [] {
      assert forall i :: 0 <= i < |vs| ==> !Matches(vs[i], c, Threshold(c.salary));
    } else {
      var k := Kept(vs, c);
      assert k[0] in vs && Matches(k[0], c, Threshold(c.salary));
    }
  }

  /** Filtering an already filtered list with the same criteria changes nothing. */
  lemma FilteredIdempotent(vs: seq<Vacancy>, c: Criteria)
    ensures Filtered(Filtered(vs, c), c) == Filtered(vs, c)
  {
    if Kept(vs, c) != [] {
      KeepIdempotent(vs, Criterion(c));
    }
  }

  // ---------------------------------------------------------------------------
  // Serialization

  /** A value of the serialized mapping: a text field or the salary object. */
  datatype Field = Text(text: Option<string>) | Money(salary: Option<Salary>)

  /** The five keys of a serialized record. */
  const FIELD_NAMES: set<string> := {"name", "url", "salary", "description", "requirements"}

  /** `Vacancy.serialized_vacancy`: the record as a mapping with exactly the five keys. */
  function Serialized(v: Vacancy): (m: map<string, Field>)
    ensures m.Keys == FIELD_NAMES
  {
    map[
      "name" := Text(v.name),
      "url" := Text(v.url),
      "salary" := Money(v.salary),
      "description" := Text(v.description),
      "requirements" := Text(v.requirements)]
  }

  /** Reading a record back from a mapping; `None` unless every key holds a value of its kind. */
  function Deserialized(m: map<string, Field>): (r: Option<Vacancy>)
    ensures r.Some? ==> FIELD_NAMES <= m.Keys
  {
    if FIELD_NAMES <= m.Keys
       && m["name"].Text? && m["url"].Text? && m["salary"].Money?
       && m["description"].Text? && m["requirements"].Text?
    then Some(Vacancy(m["name"].text, m["url"].text, m["salary"].salary, m["description"].text, m["requirements"].text))
    else None
  }

  /** Serialization loses nothing: the record can be read back from its mapping. */
  lemma SerializedRoundTrip(v: Vacancy)
    ensures Deserialized(Serialized(v)) == Some(v)
  {
  }

  /** Two records with the same mapping are the same record. */
  lemma SerializedInjective(a: Vacancy, b: Vacancy)
    requires Serialized(a) == Serialized(b)
    ensures a == b
  {
    SerializedRoundTrip(a);
    SerializedRoundTrip(b);
  }

  /** Every converted record serializes to exactly the five keys, whatever the raw item omitted. */
  lemma ConvertedSerializedKeys(payload: Payload)
    requires JsonToObject(payload).Ok?
    ensures forall v :: v in JsonToObject(payload).value ==> Serialized(v).Keys == FIELD_NAMES
  {
  }

  /** `Vacancy.serialized_vacancies`: one mapping per record, in order. */
  function SerializedVacancies(vs: seq<Vacancy>): (ms: seq<map<string, Field>>)
    ensures |ms| == |vs|
    ensures forall i :: 0 <= i < |vs| ==> ms[i] == Serialized(vs[i]) && ms[i].Keys == FIELD_NAMES
    ensures forall i :: 0 <= i < |vs| ==> Deserialized(ms[i]) == Some(vs[i])
  {
    if vs == [] then []
    else
      SerializedRoundTrip(vs[0]);
      [Serialized(vs[0])] + SerializedVacancies(vs[1..])
  }

  /** Reading a list of records back; `None` if any mapping is not a record. */
  function DeserializedVacancies(ms: seq<map<string, Field>>): Option<seq<Vacancy>>
  {
    if ms == [] then Some([])
    else match (Deserialized(ms[0]), DeserializedVacancies(ms[1..]))
      case (Some(v), Some(rest)) => Some([v] + rest)
      case _ => None
  }

  /** The serialized list reads back as the original list. */
  lemma {:induction false} SerializedVacanciesRoundTrip(vs: seq<Vacancy>)
    ensures DeserializedVacancies(SerializedVacancies(vs)) == Some(vs)
  {
    if vs != [] {
      SerializedVacanciesRoundTrip(vs[1..]);
      var ms := SerializedVacancies(vs);
      assert ms[1..] == SerializedVacancies(vs[1..]);
      assert [vs[0]] + vs[1..] == vs;
    }
  }

  // ---------------------------------------------------------------------------
  // Comparison by upper salary bound

  /** What `__gt__` and `__lt__` return: the winning record, or the text 'Зарплата не указана'. */
  datatype Winner = Winner(vacancy: Vacancy) | SalaryNotSpecified

  /** When both records have a salary, both carry a numeric `to` (otherwise Python raises). */
  predicate Comparable(a: Vacancy, b: Vacancy)
  {
    a.salary.Some? && b.salary.Some? ==> a.salary.value.to.Some? && b.salary.value.to.Some?
  }

  function To(v: Vacancy): int
    requires v.salary.Some? && v.salary.value.to.Some?
  {
    v.salary.value.to.value
  }

  /** `a > b`: the record with the larger `to`; ties go to `b`. */
  function Greater(a: Vacancy, b: Vacancy): (r: Winner)
    requires Comparable(a, b)
    ensures r.SalaryNotSpecified? <==> a.salary.None? || b.salary.None?
    ensures r.Winner? ==> (r.vacancy == a || r.vacancy == b) && To(r.vacancy) >= To(a) && To(r.vacancy) >= To(b)
    ensures r.Winner? && To(a) == To(b) ==> r.vacancy == b
  {
    if a.salary.Some? && b.salary.Some? then
      if a.salary.value.to.value > b.salary.value.to.value then Winner(a) else Winner(b)
    else SalaryNotSpecified
  }

  /** `a < b`: the record with the smaller `to`; ties go to `b`. */
  function Less(a: Vacancy, b: Vacancy): (r: Winner)
    requires Comparable(a, b)
    ensures r.SalaryNotSpecified? <==> a.salary.None? || b.salary.None?
    ensures r.Winner? ==> (r.vacancy == a || r.vacancy == b) && To(r.vacancy) <= To(a) && To(r.vacancy) <= To(b)
    ensures r.Winner? && To(a) == To(b) ==> r.vacancy == b
  {
    if a.salary.Some? && b.salary.Some? then
      if a.salary.value.to.value < b.salary.value.to.value then Winner(a) else Winner(b)
    else SalaryNotSpecified
  }

  /** With distinct `to` values the order of the operands does not matter, and the two operators pick different records. */
  lemma CompareSymmetric(a: Vacancy, b: Vacancy)
    requires a.salary.Some? && b.salary.Some? && a.salary.value.to.Some? && b.salary.value.to.Some?
    requires To(a) != To(b)
    ensures Greater(a, b) == Greater(b, a) && Less(a, b) == Less(b, a)
    ensures {Greater(a, b).vacancy, Less(a, b).vacancy} == {a, b}
  {
  }
}
