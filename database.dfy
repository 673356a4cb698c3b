/**
 * The relational store: the four tables as values (the `financial_data`
 * table as a map keyed on its UNIQUE (company_id, year, metric) columns),
 * the seeding rule of `setup_database`, the value cleaning and upsert of
 * `save_financial_data`, and the two selections the dashboard reads.
 */
module Database {

  import opened Options
  import opened Json
  import opened Text
  import opened Decimal
  import opened Tidy

  datatype User = User(id: int, username: string, password: string, role: string)

  datatype Company = Company(id: int, name: string, groupName: string)

  /** A row of `user_company_access`; a sub-select that finds nothing stores NULL. */
  datatype Access = Access(userId: Option<int>, companyId: Option<int>)

  /** The UNIQUE columns of `financial_data`. */
  datatype FinKey = FinKey(companyId: int, year: int, metric: string)

  datatype FinEntry = FinEntry(value: real, source: string)

  type FinTable = map<FinKey, FinEntry>

  /** The three users inserted into an empty `users` table; rowids start at 1. */
  const SeedUsers: seq<User> := [
    User(1, "analyst", "password123", "analyst"),
    User(2, "jio_ceo", "password123", "ceo"),
    User(3, "ambani", "password123", "top_management")
  ]

  /** The two companies inserted into an empty `companies` table. */
  const SeedCompanies: seq<Company> := [
    Company(1, "Reliance Jio", "Reliance"),
    Company(2, "Reliance Retail", "Reliance")
  ]

  // ----- Seeding (`setup_database`) -----

  /** A table keeps its rows, or receives the seed rows when it is empty. */
  function SeedIfEmpty<T>(table: seq<T>, seed: seq<T>): seq<T>
  {
    if table == [] then seed else table
  }

  /** `(SELECT id FROM users WHERE username = name)`. */
  function UserIdOf(users: seq<User>, name: string): (r: Option<int>)
    ensures r.Some? ==> exists i :: 0 <= i < |users| && users[i].username == name && users[i].id == r.value
    ensures r.None? ==> forall i :: 0 <= i < |users| ==> users[i].username != name
  {
    if users == [] then None
    else if users[0].username == name then Some(users[0].id)
    else
      var rest := UserIdOf(users[1..], name);
      assert forall i :: 1 <= i < |users| ==> users[i] == users[1..][i - 1];
      rest
  }

  /** `(SELECT id FROM companies WHERE name = name)`. */
  function CompanyIdOf(companies: seq<Company>, name: string): (r: Option<int>)
    ensures r.Some? ==> exists i :: 0 <= i < |companies| && companies[i].name == name && companies[i].id == r.value
    ensures r.None? ==> forall i :: 0 <= i < |companies| ==> companies[i].name != name
  {
    if companies == [] then None
    else if companies[0].name == name then Some(companies[0].id)
    else
      var rest := CompanyIdOf(companies[1..], name);
      assert forall i :: 1 <= i < |companies| ==> companies[i] == companies[1..][i - 1];
      rest
  }

  /** The access row seeded for the CEO user and the first company. */
  function SeedAccess(users: seq<User>, companies: seq<Company>): seq<Access>
  {
    [Access(UserIdOf(users, "jio_ceo"), CompanyIdOf(companies, "Reliance Jio"))]
  }

  /** Seeding a table that seeding already filled changes nothing: a second setup adds no row. */
  lemma SeedingIsIdempotent<T>(table: seq<T>, seed: seq<T>)
    requires seed != []
    ensures SeedIfEmpty(table, seed) != []
    ensures SeedIfEmpty(SeedIfEmpty(table, seed), seed) == SeedIfEmpty(table, seed)
  {
  }

  /** On a fresh store, setup gives the seeded jio_ceo user access to Reliance Jio (ids 2 and 1). */
  lemma FreshSetupLinksCeo()
    ensures SeedAccess(SeedUsers, SeedCompanies) == [Access(Some(2), Some(1))]
  {
    assert SeedUsers[1..][0].username == "jio_ceo";
  }

  // ----- Value cleaning (`float(str(v).replace(',', '').replace('(', '-').replace(')', ''))`) -----

  /** Thousands separators dropped, an opening parenthesis read as a minus sign, a closing one dropped. */
  function Normalised(s: string): string
  {
    RemoveChar(ReplaceChar(RemoveChar(s, ','), '(', '-'), ')')
  }

  /**
   * The number stored for a metric value, or None when `float()` raises. A
   * JSON number is its own value (`str` of a float reads back as the same
   * float); `str` of None, a boolean, a list or a dictionary is never a
   * number.
   */
  function Clean(v: JsonValue): Option<real>
  {
    match v
    case JNum(n) => Some(n)
    case JStr(s) => ParseDecimal(Normalised(s))
    case _ => None
  }

  /** A parenthesised amount is the negated amount. */
  lemma NormalisedParenthesised(d: string)
    requires ',' !in d && '(' !in d && ')' !in d
    ensures Normalised("(" + d + ")") == "-" + d
  {
    var minus := "-" + d;
    var s := "(" + d + ")";
    assert s == ['('] + d + [')'];
    assert ',' !in s;
    var t := ReplaceChar(s, '(', '-');
    assert t == minus + [')'] by {
      assert |t| == |minus + [')']|;
      forall i | 0 <= i < |t|
        ensures t[i] == (minus + [')'])[i]
      {
        if 0 < i <= |d| {
          assert s[i] == d[i - 1];
        }
      }
    }
    assert ')' !in minus;
    RemoveCharSnoc(minus, ')', ')');
  }

  /** `(d)` cleans to minus the value of `d`, for any unsigned decimal `d`. */
  lemma CleanParenthesisNegates(d: string, v: real)
    requires ',' !in d && '(' !in d && ')' !in d
    requires ParseUnsigned(d) == Some(v)
    ensures Clean(JStr(d)) == Some(v)
    ensures Clean(JStr("(" + d + ")")) == Some(-v)
  {
    NormalisedPlain(d);
    NormalisedParenthesised(d);
    ParseDecimalSigns(d, v);
    CleanString(d);
    CleanString("(" + d + ")");
  }

  lemma CleanString(s: string)
    ensures Clean(JStr(s)) == ParseDecimal(Normalised(s))
  {
  }

  /** A plain unsigned amount is left as it is. */
  lemma NormalisedPlain(d: string)
    requires ',' !in d && '(' !in d && ')' !in d
    ensures Normalised(d) == d
  {
    assert RemoveChar(d, ',') == d;
    var t := ReplaceChar(d, '(', '-');
    assert t == d;
  }

  /** Commas never change the cleaned value: `"1,234.56"` and `"1234.56"` clean alike. */
  lemma CleanIgnoresCommas(s: string)
    ensures Clean(JStr(s)) == Clean(JStr(RemoveChar(s, ',')))
  {
  }

  /** Digits and a decimal point hold none of the characters cleaning rewrites. */
  lemma PointNumberIsPlain(whole: string, fraction: string)
    requires AllDigits(whole) && AllDigits(fraction)
    ensures var d := whole + "." + fraction; ',' !in d && '(' !in d && ')' !in d
  {
    var d := whole + "." + fraction;
    assert forall i :: 0 <= i < |d| ==> d[i] == '.' || IsDigit(d[i]);
  }

  /** `whole.fraction` is a plain amount with the value `PointValue` gives it. */
  lemma PointNumberParses(whole: string, fraction: string)
    requires whole != [] && fraction != [] && AllDigits(whole) && AllDigits(fraction)
    ensures var d := whole + "." + fraction;
      ',' !in d && '(' !in d && ')' !in d && ParseUnsigned(d) == Some(PointValue(whole, fraction))
  {
    var d := whole + "." + fraction;
    assert ',' !in d && '(' !in d && ')' !in d by {
      PointNumberIsPlain(whole, fraction);
    }
    assert ParseUnsigned(d) == Some(PointValue(whole, fraction)) by {
      ParseUnsignedParts(whole, fraction);
    }
  }

  /** Text that is not a number, and a missing value, store nothing. */
  lemma CleanRejectsExample()
    ensures Clean(JStr("N/A")) == None
    ensures Clean(JNull) == None
  {
    NotANumberKept();
    NotANumberRejected();
    CleanString("N/A");
  }

  lemma NotANumberKept()
    ensures Normalised("N/A") == "N/A"
  {
    NormalisedPlain("N/A");
  }

  lemma NotANumberRejected()
    ensures ParseDecimal("N/A") == None
  {
    assert FirstIndex("N/A", '.') == None;
    assert !IsDigit("N/A"[0]);
  }

  // ----- The upsert (`save_financial_data`) -----

  /** A metric of the batch whose value cleans to a number. */
  predicate Storable(metrics: map<string, JsonValue>, metric: string)
  {
    metric in metrics && Clean(metrics[metric]).Some?
  }

  /** The table after `INSERT OR REPLACE` of the storable metrics among `done`. */
  function SavedKeys(table: FinTable, companyId: int, year: int, metrics: map<string, JsonValue>,
                     done: set<string>, source: string): FinTable
  {
    map k | k in table.Keys + (set m | m in done && Storable(metrics, m) :: FinKey(companyId, year, m)) ::
      if k.companyId == companyId && k.year == year && k.metric in done && Storable(metrics, k.metric)
      then FinEntry(Clean(metrics[k.metric]).value, source)
      else table[k]
  }

  /** The table after saving a whole batch. */
  function Saved(table: FinTable, companyId: int, year: int, metrics: map<string, JsonValue>, source: string): FinTable
  {
    SavedKeys(table, companyId, year, metrics, metrics.Keys, source)
  }

  /** Handling one more metric of the batch is one map update, or none if its value does not clean. */
  lemma SavedKeysStep(table: FinTable, companyId: int, year: int, metrics: map<string, JsonValue>,
                      done: set<string>, metric: string, source: string)
    requires metric in metrics && metric !in done
    ensures SavedKeys(table, companyId, year, metrics, done + {metric}, source)
         == if Storable(metrics, metric)
            then SavedKeys(table, companyId, year, metrics, done, source)[FinKey(companyId, year, metric) := FinEntry(Clean(metrics[metric]).value, source)]
            else SavedKeys(table, companyId, year, metrics, done, source)
  {
  }

  /**
   * After a save, every storable metric's row holds its cleaned value and the
   * source document, replacing any earlier row; a metric whose value does
   * not clean (such as "N/A" or None) adds no row and changes none, and
   * every key outside the batch keeps its row or its absence.
   */
  lemma SavedUpserts(table: FinTable, companyId: int, year: int, metrics: map<string, JsonValue>, source: string)
    ensures forall m :: Storable(metrics, m) ==>
      var k := FinKey(companyId, year, m);
      k in Saved(table, companyId, year, metrics, source)
      && Saved(table, companyId, year, metrics, source)[k] == FinEntry(Clean(metrics[m]).value, source)
    ensures forall k: FinKey :: !(k.companyId == companyId && k.year == year && Storable(metrics, k.metric)) ==>
      (k in Saved(table, companyId, year, metrics, source) <==> k in table)
      && (k in table ==> Saved(table, companyId, year, metrics, source)[k] == table[k])
  {
  }

  /** Saving the same batch twice leaves the table as saving it once. */
  lemma SaveIsIdempotent(table: FinTable, companyId: int, year: int, metrics: map<string, JsonValue>, source: string)
    ensures Saved(Saved(table, companyId, year, metrics, source), companyId, year, metrics, source)
         == Saved(table, companyId, year, metrics, source)
  {
    var once := Saved(table, companyId, year, metrics, source);
    var twice := Saved(once, companyId, year, metrics, source);
    assert twice.Keys == once.Keys;
  }

  // ----- The store -----

  class Store {
    var users: seq<User>
    var companies: seq<Company>
    var access: seq<Access>
    var financial: FinTable

    /** A database file with the four tables created and no rows. */
    constructor ()
      ensures users == [] && companies == [] && access == [] && financial == map[]
    {
      users, companies, access, financial := [], [], [], map[];
    }

    /** `setup_database()`: each table is seeded only when it is empty. */
    method Setup()
      modifies this
      ensures users == SeedIfEmpty(old(users), SeedUsers)
      ensures companies == SeedIfEmpty(old(companies), SeedCompanies)
      ensures access == SeedIfEmpty(old(access), SeedAccess(users, companies))
      ensures financial == old(financial)
    {
      if |users| == 0 {
        users := SeedUsers;
      }
      if |companies| == 0 {
        companies := SeedCompanies;
      }
      if |access| == 0 {
        access := [Access(UserIdOf(users, "jio_ceo"), CompanyIdOf(companies, "Reliance Jio"))];
      }
    }

    /** `save_financial_data(company_id, year, metrics, source_document)`. */
    method SaveFinancialData(companyId: int, year: int, metrics: map<string, JsonValue>, source: string)
      modifies this
      ensures financial == Saved(old(financial), companyId, year, metrics, source)
      ensures users == old(users) && companies == old(companies) && access == old(access)
    {
      var pending := metrics.Keys;
      ghost var done: set<string> := {};
      while pending != {}
        invariant pending !! done && pending + done == metrics.Keys
        invariant financial == SavedKeys(old(financial), companyId, year, metrics, done, source)
        invariant users == old(users) && companies == old(companies) && access == old(access)
        decreases pending
      {
        var metric :| metric in pending;
        SavedKeysStep(old(financial), companyId, year, metrics, done, metric, source);
        var cleaned := Clean(metrics[metric]);
        if cleaned.Some? {
          financial := financial[FinKey(companyId, year, metric) := FinEntry(cleaned.value, source)];
        }
        pending := pending - {metric};
        done := done + {metric};
      }
    }
  }

  // ----- Who sees which companies (`get_user_accessible_companies`) -----

  predicate NameSorted(cs: seq<Company>)
  {
    forall i, j :: 0 <= i < j < |cs| ==> StrLe(cs[i].name, cs[j].name)
  }

  function InsertByName(c: Company, cs: seq<Company>): (r: seq<Company>)
    requires NameSorted(cs)
    ensures NameSorted(r)
    ensures multiset(r) == multiset(cs) + multiset{c}
  {
    if cs == [] || StrLe(c.name, cs[0].name) then
      InsertByNameFront(c, cs);
      [c] + cs
    else
      var rest := InsertByName(c, cs[1..]);
      assert cs == [cs[0]] + cs[1..];
      StrLtTransitive(c.name, cs[0].name, c.name);
      StrLtIrreflexive(c.name);
      InsertByNameBound(c, cs, rest);
      [cs[0]] + rest
  }

  lemma InsertByNameFront(c: Company, cs: seq<Company>)
    requires NameSorted(cs) && (cs == [] || StrLe(c.name, cs[0].name))
    ensures NameSorted([c] + cs)
  {
    forall j | 0 <= j < |cs|
      ensures StrLe(c.name, cs[j].name)
    {
      if j > 0 {
        StrLeTransitive(c.name, cs[0].name, cs[j].name);
      }
    }
  }

  lemma InsertByNameBound(c: Company, cs: seq<Company>, rest: seq<Company>)
    requires NameSorted(cs) && cs != [] && StrLe(cs[0].name, c.name)
    requires multiset(rest) == multiset(cs[1..]) + multiset{c}
    ensures forall i :: 0 <= i < |rest| ==> StrLe(cs[0].name, rest[i].name)
  {
    forall i | 0 <= i < |rest|
      ensures StrLe(cs[0].name, rest[i].name)
    {
      assert rest[i] in multiset(rest);
      if rest[i] != c {
        assert rest[i] in multiset(cs[1..]);
        var k :| 0 <= k < |cs[1..]| && cs[1..][k] == rest[i];
        assert cs[k + 1] == rest[i];
      }
    }
  }

  /** `ORDER BY name`. */
  function SortByName(cs: seq<Company>): (r: seq<Company>)
    ensures NameSorted(r)
    ensures multiset(r) == multiset(cs)
  {
    if cs == [] then []
    else
      assert cs == [cs[0]] + cs[1..];
      InsertByName(cs[0], SortByName(cs[1..]))
  }

  /** The access table links the user to the company. */
  predicate Linked(access: seq<Access>, userId: int, companyId: int)
  {
    Access(Some(userId), Some(companyId)) in access
  }

  /** The join of `companies` with the user's access rows, in table order. */
  function LinkedCompanies(companies: seq<Company>, access: seq<Access>, userId: int): (r: seq<Company>)
    ensures forall c :: c in r <==> c in companies && Linked(access, userId, c.id)
  {
    if companies == [] then []
    else
      var rest := LinkedCompanies(companies[1..], access, userId);
      assert forall c :: c in companies <==> c == companies[0] || c in companies[1..];
      if Linked(access, userId, companies[0].id) then [companies[0]] + rest else rest
  }

  /**
   * Management and analysts see every company, ordered by name; a CEO sees
   * exactly the companies the access table links to that user; every other
   * role sees none.
   */
  function AccessibleCompanies(companies: seq<Company>, access: seq<Access>, userId: int, role: string)
    : (r: seq<Company>)
    ensures (role == "top_management" || role == "analyst") ==>
      NameSorted(r) && multiset(r) == multiset(companies)
    ensures role == "ceo" ==>
      forall c :: c in r <==> c in companies && Linked(access, userId, c.id)
    ensures role != "top_management" && role != "analyst" && role != "ceo" ==> r == []
  {
    if role == "top_management" || role == "analyst" then SortByName(companies)
    else if role == "ceo" then LinkedCompanies(companies, access, userId)
    else []
  }

  // ----- One company's figures (`get_company_financials`) -----

  /** `ORDER BY year, metric` on (year, metric) pairs. */
  predicate PairLt(a: (int, string), b: (int, string))
  {
    a.0 < b.0 || (a.0 == b.0 && StrLt(a.1, b.1))
  }

  lemma PairLtTransitive(a: (int, string), b: (int, string), c: (int, string))
    requires PairLt(a, b) && PairLt(b, c)
    ensures PairLt(a, c)
  {
    StrLtTransitive(a.1, b.1, c.1);
  }

  lemma PairLtTotal(a: (int, string), b: (int, string))
    requires a != b
    ensures PairLt(a, b) || PairLt(b, a)
  {
    if a.0 == b.0 {
      StrLtTotal(a.1, b.1);
    }
  }

  predicate PairsSorted(s: seq<(int, string)>)
  {
    forall i, j :: 0 <= i < j < |s| ==> PairLt(s[i], s[j])
  }

  function InsertPair(p: (int, string), s: seq<(int, string)>): (r: seq<(int, string)>)
    requires PairsSorted(s) && p !in s
    ensures PairsSorted(r)
    ensures forall q :: q in r <==> q == p || q in s
  {
    if s == [] || PairLt(p, s[0]) then
      forall j | 0 <= j < |s|
        ensures PairLt(p, s[j])
      {
        if j > 0 {
          PairLtTransitive(p, s[0], s[j]);
        }
      }
      [p] + s
    else
      PairLtTotal(p, s[0]);
      var rest := InsertPair(p, s[1..]);
      assert forall q :: q in s <==> q == s[0] || q in s[1..];
      forall j | 0 <= j < |rest|
        ensures PairLt(s[0], rest[j])
      {
        if rest[j] != p {
          assert rest[j] in s[1..];
          var k :| 0 <= k < |s[1..]| && s[1..][k] == rest[j];
          assert s[k + 1] == rest[j];
        }
      }
      [s[0]] + rest
  }

  /** The pairs of a finite set as a strictly increasing sequence. */
  ghost function SortPairs(ps: set<(int, string)>): (r: seq<(int, string)>)
    ensures PairsSorted(r)
    ensures forall q :: q in r <==> q in ps
    decreases |ps|
  {
    if ps == {} then []
    else
      var p :| p in ps;
      InsertPair(p, SortPairs(ps - {p}))
  }

  /** The table holds `row`'s value for the company, year and metric. */
  predicate StoredRow(financial: FinTable, companyId: int, row: Row)
  {
    FinKey(companyId, row.year, row.metric) in financial
    && financial[FinKey(companyId, row.year, row.metric)].value == row.value
  }

  /** The (year, metric) pairs the table holds for one company. */
  ghost function KeyPairs(financial: FinTable, companyId: int): (r: set<(int, string)>)
    ensures forall q: (int, string) :: q in r <==> FinKey(companyId, q.0, q.1) in financial
  {
    var r := set k | k in financial && k.companyId == companyId :: (k.year, k.metric);
    assert forall q: (int, string) :: FinKey(companyId, q.0, q.1) in financial ==> q in r by {
      forall q: (int, string) | FinKey(companyId, q.0, q.1) in financial
        ensures q in r
      {
        var k := FinKey(companyId, q.0, q.1);
        assert (k.year, k.metric) == q;
      }
    }
    r
  }

  /** The stored row of each pair, in the order of the pairs. */
  function RowsAt(financial: FinTable, companyId: int, pairs: seq<(int, string)>): (r: seq<Row>)
    requires forall q :: q in pairs ==> FinKey(companyId, q.0, q.1) in financial
    ensures |r| == |pairs|
    ensures forall i :: 0 <= i < |r| ==> r[i].year == pairs[i].0 && r[i].metric == pairs[i].1
    ensures forall i :: 0 <= i < |r| ==> StoredRow(financial, companyId, r[i])
  {
    seq(|pairs|, i requires 0 <= i < |pairs| =>
      assert pairs[i] in pairs;
      Row(pairs[i].0, pairs[i].1, financial[FinKey(companyId, pairs[i].0, pairs[i].1)].value))
  }

  /** Listing every stored pair lists every stored row. */
  lemma RowsAtComplete(financial: FinTable, companyId: int, pairs: seq<(int, string)>)
    requires forall q: (int, string) :: q in pairs <==> FinKey(companyId, q.0, q.1) in financial
    ensures forall row: Row :: row in RowsAt(financial, companyId, pairs) <==> StoredRow(financial, companyId, row)
  {
    var r := RowsAt(financial, companyId, pairs);
    forall row: Row | StoredRow(financial, companyId, row)
      ensures row in r
    {
      var i :| 0 <= i < |pairs| && pairs[i] == (row.year, row.metric);
      assert r[i] == row;
    }
  }

  /**
   * The (year, metric, value) rows stored for one company, strictly ordered
   * by year and then metric, and exactly those rows.
   */
  ghost function CompanyFinancials(financial: FinTable, companyId: int): (r: seq<Row>)
    ensures forall i, j :: 0 <= i < j < |r| ==>
      r[i].year < r[j].year || (r[i].year == r[j].year && StrLt(r[i].metric, r[j].metric))
    ensures forall row: Row :: row in r <==> StoredRow(financial, companyId, row)
  {
    var pairs := SortPairs(KeyPairs(financial, companyId));
    RowsAtComplete(financial, companyId, pairs);
    RowsAt(financial, companyId, pairs)
  }

}
