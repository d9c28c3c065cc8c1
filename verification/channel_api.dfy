/**
 * The channel-list filter of `run_task` for the JSON source: each decoded
 * channel record is kept or dropped by five tests, and each kept record is
 * projected to five text fields, in input order. A `null` where the loop
 * iterates or calls a string method raises; the task catches it, reports
 * the failure and writes no CSV file.
 */
module ChannelApi {
  import opened Wrappers
  import opened Selection
  import opened Text
  import opened News

  /** A member of a decoded JSON object as `dict.get` sees it: absent, `null`, or a value. */
  datatype Field<T> = Missing | Null | Present(value: T)

  datatype Language = Language(code: Field<string>)
  datatype Category = Category(name: Field<string>)

  /** One decoded channel record; only the members the filter reads. */
  datatype Channel = Channel(
    id: Field<string>,
    name: Field<string>,
    network: Field<string>,
    country: Field<string>,
    logo: Field<string>,
    languages: Field<seq<Language>>,
    isNsfw: Field<bool>,
    categories: Field<seq<Category>>)

  /** One output row: the five projected fields. */
  datatype Row = Row(id: string, name: string, network: string, country: string, logo: string)

  /** The exceptions a record can raise: iterating `None`, `None.lower()`, `n in None`. */
  datatype Failure = NullLanguages | NullCategories | NullCategoryName | NullName

  /** What the loop body does with one record. */
  datatype Verdict = Keep(row: Row) | Skip | Crash(failure: Failure)

  const AllowedCountries: seq<string> := ["CA", "US", "GB", "AU"]
  const BlockedCategories: seq<string> := ["sports", "kids", "adult", "xxx"]

  /** `ch.get(key, "")` as the CSV writer renders it: `None` is written as "". */
  function TextOr(f: Field<string>): string
  {
    if f.Present? then f.value else ""
  }

  /**
   * The five fields written out for a kept record: each is the record's
   * value when it has one, and "" when the member is missing or `null`.
   */
  function Project(ch: Channel): (r: Row)
    ensures ch.id.Present? ==> r.id == ch.id.value
    ensures ch.name.Present? ==> r.name == ch.name.value
    ensures ch.network.Present? ==> r.network == ch.network.value
    ensures ch.country.Present? ==> r.country == ch.country.value
    ensures ch.logo.Present? ==> r.logo == ch.logo.value
    ensures !ch.id.Present? ==> r.id == ""
    ensures !ch.name.Present? ==> r.name == ""
    ensures !ch.network.Present? ==> r.network == ""
    ensures !ch.country.Present? ==> r.country == ""
    ensures !ch.logo.Present? ==> r.logo == ""
  {
    Row(TextOr(ch.id), TextOr(ch.name), TextOr(ch.network), TextOr(ch.country), TextOr(ch.logo))
  }

  /** `ch.get("languages", [])` once it is known not to be `null`. */
  function LanguageList(ch: Channel): seq<Language>
  {
    if ch.languages.Present? then ch.languages.value else []
  }

  /** `ch.get("categories", [])` once it is known not to be `null`. */
  function CategoryList(ch: Channel): seq<Category>
  {
    if ch.categories.Present? then ch.categories.value else []
  }

  /** `"eng" in [l.get("code", "") for l in languages]`. */
  predicate SpeaksEnglish(ch: Channel)
  {
    exists k :: 0 <= k < |LanguageList(ch)| && LanguageList(ch)[k].code == Present("eng")
  }

  /** `c.get("name", "").lower()` for a category whose name is not `null`. */
  function CategoryText(c: Category): string
  {
    Lower(TextOr(c.name))
  }

  /** Some lower-cased category name is exactly one of the blocked names. */
  predicate HasBlockedCategory(ch: Channel)
  {
    exists k :: 0 <= k < |CategoryList(ch)| && CategoryText(CategoryList(ch)[k]) in BlockedCategories
  }

  /** Some lower-cased category name is exactly "news". */
  predicate NewsTagged(ch: Channel)
  {
    exists k :: 0 <= k < |CategoryList(ch)| && CategoryText(CategoryList(ch)[k]) == "news"
  }

  /** Some category name is `null`, so building the lower-cased list raises. */
  predicate NullCategoryPresent(ch: Channel)
  {
    exists k :: 0 <= k < |CategoryList(ch)| && CategoryList(ch)[k].name.Null?
  }

  /** The first test: the country is one of the four. */
  predicate CountryAllowed(ch: Channel)
  {
    ch.country.Present? && ch.country.value in AllowedCountries
  }

  /** The tests before the categories are read: country, an English language code, not NSFW. */
  predicate PassesLanguageTests(ch: Channel)
  {
    CountryAllowed(ch) && ch.languages.Present? && SpeaksEnglish(ch) && ch.isNsfw != Present(true)
  }

  /** The category list can be lower-cased: it is not `null` and holds no `null` name. */
  predicate CategoriesReadable(ch: Channel)
  {
    !ch.categories.Null? && !NullCategoryPresent(ch)
  }

  /**
   * The records the filter keeps, stated as one conjunction: an allowed
   * country, an English language code, not flagged NSFW, a category list
   * that can be read and holds no blocked name, and, when tagged news, a
   * name that mentions an allowed network. Such a record's row carries its
   * country, and none of the reads that raise on `null` can raise on it.
   */
  predicate Admitted(ch: Channel)
    ensures Admitted(ch) ==>
              ch.country.Present? && Project(ch).country == ch.country.value && Project(ch).country in AllowedCountries
    ensures Admitted(ch) ==> !ch.languages.Null? && !ch.categories.Null?
    ensures Admitted(ch) ==> forall k :: 0 <= k < |CategoryList(ch)| ==> !CategoryList(ch)[k].name.Null?
    ensures Admitted(ch) && NewsTagged(ch) ==> !ch.name.Null?
  {
    && PassesLanguageTests(ch)
    && CategoriesReadable(ch)
    && !HasBlockedCategory(ch)
    && (NewsTagged(ch) ==> ch.name.Present? && NamesAllowedNetwork(ch.name.value))
  }

  /**
   * The loop body for one record, test by test in the source's order; a
   * `continue` is `Skip` and an exception is `Crash`.
   */
  function Decide(ch: Channel): (v: Verdict)
    ensures v.Keep? <==> Admitted(ch)
    ensures v.Keep? ==> v.row == Project(ch) && v.row.country in AllowedCountries
    ensures v.Crash? ==> ch.country.Present? && ch.country.value in AllowedCountries
  {
    if !(ch.country.Present? && ch.country.value in AllowedCountries) then Skip
    else if ch.languages.Null? then Crash(NullLanguages)
    else if !SpeaksEnglish(ch) then Skip
    else if ch.isNsfw == Present(true) then Skip
    else if ch.categories.Null? then Crash(NullCategories)
    else if NullCategoryPresent(ch) then Crash(NullCategoryName)
    else if HasBlockedCategory(ch) then Skip
    else if NewsTagged(ch) && ch.name.Null? then Crash(NullName)
    else if NewsTagged(ch) && !NamesAllowedNetwork(TextOr(ch.name)) then Skip
    else Keep(Project(ch))
  }

  /**
   * Which records raise, and with which failure: each `null` is met only
   * once every earlier test has passed.
   */
  lemma DecideRaisesExactly(ch: Channel)
    ensures Decide(ch) == Crash(NullLanguages) <==> CountryAllowed(ch) && ch.languages.Null?
    ensures Decide(ch) == Crash(NullCategories) <==> PassesLanguageTests(ch) && ch.categories.Null?
    ensures Decide(ch) == Crash(NullCategoryName) <==>
              PassesLanguageTests(ch) && !ch.categories.Null? && NullCategoryPresent(ch)
    ensures Decide(ch) == Crash(NullName) <==>
              PassesLanguageTests(ch) && CategoriesReadable(ch) && !HasBlockedCategory(ch) &&
              NewsTagged(ch) && ch.name.Null?
  {
  }

  /** The row each record position contributes: its projection when kept, nothing otherwise. */
  function KeptAt(data: seq<Channel>): nat -> Option<Row>
  {
    (k: nat) => if k < |data| && Decide(data[k]).Keep? then Some(Decide(data[k]).row) else None
  }

  /** The positions whose record raises, as a predicate on positions. */
  function CrashAt(data: seq<Channel>): nat -> bool
  {
    (k: nat) => k < |data| && Decide(data[k]).Crash?
  }

  /** Record k is kept, with its row, exactly when its verdict is Keep, and raises exactly when it is Crash. */
  lemma KeptAtIsVerdict(data: seq<Channel>, k: nat)
    requires k < |data|
    ensures KeptAt(data)(k) == if Decide(data[k]).Keep? then Some(Decide(data[k]).row) else None
    ensures CrashAt(data)(k) == Decide(data[k]).Crash?
  {
  }

  /** One step of the filter loop: the kept rows grow by record i's row exactly when it is kept. */
  lemma FilterStep(data: seq<Channel>, i: nat)
    requires i < |data|
    ensures CrashAt(data)(i) == Decide(data[i]).Crash?
    ensures Picks(KeptAt(data), i + 1) ==
              Picks(KeptAt(data), i) + (if Decide(data[i]).Keep? then [Decide(data[i]).row] else [])
  {
    KeptAtIsVerdict(data, i);
    PicksExtend(KeptAt(data), i, KeptAt(data)(i));
  }

  /** No record before i raises, stated through the position predicate the first-failure search uses. */
  lemma NoCrashBefore(data: seq<Channel>, i: nat)
    requires i <= |data|
    requires forall k :: 0 <= k < i ==> !Decide(data[k]).Crash?
    ensures forall q: nat :: q < i ==> !CrashAt(data)(q)
  {
  }

  /** The rows kept from data are the projections of exactly the admitted records, in order. */
  lemma KeptRowsAreAdmitted(data: seq<Channel>)
    ensures var rows := Picks(KeptAt(data), |data|);
            var idx := PickedIndices(KeptAt(data), |data|);
            |rows| == |idx| &&
            forall j :: 0 <= j < |idx| ==>
              idx[j] < |data| && Admitted(data[idx[j]]) && rows[j] == Project(data[idx[j]])
  {
    var f := KeptAt(data);
    PicksAreSelection(f, |data|);
  }

  /** Every admitted record is among the kept ones: the filter drops nothing it should keep. */
  lemma AdmittedRecordsAreKept(data: seq<Channel>, k: nat)
    requires k < |data| && Admitted(data[k])
    ensures k in PickedIndices(KeptAt(data), |data|)
  {
    assert KeptAt(data)(k).Some?;
    PickedIndicesComplete(KeptAt(data), |data|, k);
  }

  /**
   * The filter loop over the decoded list. It fails with the failure of the
   * first record that raises; otherwise it returns the kept rows in input
   * order.
   */
  method FilterChannels(data: seq<Channel>) returns (r: Result<seq<Row>, Failure>)
    ensures r.Ok? <==> FirstWhere(CrashAt(data), 0, |data|).None?
    ensures r.Failed? ==> FirstWhere(CrashAt(data), 0, |data|).Some? &&
                          Decide(data[FirstWhere(CrashAt(data), 0, |data|).value]) == Crash(r.error)
    ensures r.Ok? ==> r.value == Picks(KeptAt(data), |data|)
    ensures r.Ok? ==> forall j :: 0 <= j < |r.value| ==> r.value[j].country in AllowedCountries
  {
    var f := KeptAt(data);
    var rows: seq<Row> := [];
    var i := 0;
    while i < |data|
      invariant i <= |data|
      invariant forall k :: 0 <= k < i ==> !Decide(data[k]).Crash?
      invariant rows == Picks(f, i)
    {
      var verdict := Decide(data[i]);
      FilterStep(data, i);
      if verdict.Crash? {
        NoCrashBefore(data, i);
        FirstWhereIs(CrashAt(data), |data|, i);
        return Failed(verdict.failure);
      }
      if verdict.Keep? {
        rows := rows + [verdict.row];
      }
      i := i + 1;
    }
    NoCrashBefore(data, |data|);
    FirstWhereNone(CrashAt(data), |data|);
    KeptRowsAreAdmitted(data);
    return Ok(rows);
  }
}
