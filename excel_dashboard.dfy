/**
 * The formula evaluators of the Excel learning dashboard: an exact-match
 * VLOOKUP over a product table, the nested-IF grade ladder, COUNTIF over a
 * sales table and the "sales by category" pivot aggregation.
 *
 * The tables are parameters; the dashboard's fixed sample tables are the
 * constants ProductTable, SalesData and SamplePivotData.
 */
module ExcelDashboard {

  datatype Option<T> = None | Some(value: T)

  /** A sequence with no element occurring twice. */
  ghost predicate Distinct(xs: seq<string>) {
    forall i, j :: 0 <= i < j < |xs| ==> xs[i] != xs[j]
  }

  // ---------------------------------------------------------------------------
  // VLOOKUP(key, table, price column, FALSE)
  // ---------------------------------------------------------------------------

  datatype Product = Product(id: string, product: string, price: int)

  /** A found price, or the "N/A" the dashboard shows for a missing key. */
  datatype LookupResult = Found(price: int) | NotAvailable

  /** Row i is the first row of the table whose id is exactly key. */
  ghost predicate IsFirstMatch(table: seq<Product>, key: string, i: int) {
    0 <= i < |table| && table[i].id == key &&
    forall j :: 0 <= j < i ==> table[j].id != key
  }

  /** The lookup scans the rows in order and returns the price of the first
      row whose id equals key; no such row gives NotAvailable. */
  function Vlookup(table: seq<Product>, key: string): (r: LookupResult)
    ensures forall i :: IsFirstMatch(table, key, i) ==> r == Found(table[i].price)
    ensures (forall j :: 0 <= j < |table| ==> table[j].id != key) ==> r == NotAvailable
  {
    if |table| == 0 then NotAvailable
    else if table[0].id == key then Found(table[0].price)
    else
      assert forall i :: IsFirstMatch(table, key, i) ==> IsFirstMatch(table[1..], key, i - 1);
      assert forall j :: 0 < j < |table| ==> table[j] == table[1..][j - 1];
      Vlookup(table[1..], key)
  }

  /** Ids of a table are unique. */
  ghost predicate UniqueIds(table: seq<Product>) {
    forall i, j :: 0 <= i < j < |table| ==> table[i].id != table[j].id
  }

  /** NotAvailable exactly when no row carries the key. */
  lemma VlookupNotAvailable(table: seq<Product>, key: string)
    ensures Vlookup(table, key) == NotAvailable <==> forall j :: 0 <= j < |table| ==> table[j].id != key
  {
    if exists j :: 0 <= j < |table| && table[j].id == key {
      var k := FirstMatchExists(table, key);
      assert Vlookup(table, key) == Found(table[k].price);
    }
  }

  /** Whenever some row has the key, a first such row exists. */
  lemma FirstMatchExists(table: seq<Product>, key: string) returns (k: nat)
    requires exists j :: 0 <= j < |table| && table[j].id == key
    ensures IsFirstMatch(table, key, k)
  {
    var j :| 0 <= j < |table| && table[j].id == key;
    k := 0;
    while table[k].id != key
      invariant k <= j
      decreases j - k
      invariant forall m :: 0 <= m < k ==> table[m].id != key
    {
      k := k + 1;
    }
  }

  /** With unique ids, the row carrying the key is the one found. */
  lemma VlookupUniqueIds(table: seq<Product>, key: string, i: int)
    requires UniqueIds(table)
    requires 0 <= i < |table| && table[i].id == key
    ensures Vlookup(table, key) == Found(table[i].price)
  {
    assert IsFirstMatch(table, key, i);
  }

  /** Looking up in a concatenation: the first table wins when it has the key. */
  lemma {:induction false} VlookupAppend(t1: seq<Product>, t2: seq<Product>, key: string)
    ensures Vlookup(t1 + t2, key) ==
            if Vlookup(t1, key).Found? then Vlookup(t1, key) else Vlookup(t2, key)
  {
    if |t1| == 0 {
      assert t1 + t2 == t2;
    } else {
      assert (t1 + t2)[0] == t1[0];
      assert (t1 + t2)[1..] == t1[1..] + t2;
      if t1[0].id != key {
        VlookupAppend(t1[1..], t2, key);
      }
    }
  }

  /** The product table of the VLOOKUP example. */
  const ProductTable: seq<Product> := [
    Product("B001", "Laptop", 999),
    Product("B002", "Monitor", 299),
    Product("B003", "Keyboard", 89),
    Product("B004", "Mouse", 49),
    Product("B005", "Headphones", 129)
  ]

  /** The VLOOKUP example of the dashboard: lookupValue against ProductTable. */
  function CalculateVlookup(lookupValue: string): (r: LookupResult)
    ensures r == NotAvailable <==> lookupValue !in {"B001", "B002", "B003", "B004", "B005"}
  {
    VlookupNotAvailable(ProductTable, lookupValue);
    Vlookup(ProductTable, lookupValue)
  }

  /** The five product ids map to their prices. */
  lemma ProductTablePrices()
    ensures CalculateVlookup("B001") == Found(999)
    ensures CalculateVlookup("B002") == Found(299)
    ensures CalculateVlookup("B003") == Found(89)
    ensures CalculateVlookup("B004") == Found(49)
    ensures CalculateVlookup("B005") == Found(129)
  {
    assert UniqueIds(ProductTable);
    VlookupUniqueIds(ProductTable, "B001", 0);
    VlookupUniqueIds(ProductTable, "B002", 1);
    VlookupUniqueIds(ProductTable, "B003", 2);
    VlookupUniqueIds(ProductTable, "B004", 3);
    VlookupUniqueIds(ProductTable, "B005", 4);
  }

  // ---------------------------------------------------------------------------
  // IF: the grade ladder
  // ---------------------------------------------------------------------------

  datatype Grade = A | B | C | D | F

  /** Position of a grade on the scale, F lowest. */
  function Rank(g: Grade): (r: nat) {
    match g
    case F => 0
    case D => 1
    case C => 2
    case B => 3
    case A => 4
  }

  datatype GradeResult = InvalidInput | Letter(grade: Grade)

  /** The nested IF. The score is the parsed input, None when it is not a
      number. Each band has an inclusive lower bound. */
  function CalculateIf(score: Option<real>): (r: GradeResult)
    ensures r == InvalidInput <==> score.None?
    ensures r == Letter(A) <==> score.Some? && 90.0 <= score.value
    ensures r == Letter(B) <==> score.Some? && 80.0 <= score.value < 90.0
    ensures r == Letter(C) <==> score.Some? && 70.0 <= score.value < 80.0
    ensures r == Letter(D) <==> score.Some? && 60.0 <= score.value < 70.0
    ensures r == Letter(F) <==> score.Some? && score.value < 60.0
  {
    if score.None? then InvalidInput
    else if score.value >= 90.0 then Letter(A)
    else if score.value >= 80.0 then Letter(B)
    else if score.value >= 70.0 then Letter(C)
    else if score.value >= 60.0 then Letter(D)
    else Letter(F)
  }

  /** The text the dashboard shows for a grade result. */
  function GradeText(r: GradeResult): (t: string)
    ensures t == "Invalid input" <==> r == InvalidInput
    ensures r.Letter? ==> |t| == 1
  {
    match r
    case InvalidInput => "Invalid input"
    case Letter(A) => "A"
    case Letter(B) => "B"
    case Letter(C) => "C"
    case Letter(D) => "D"
    case Letter(F) => "F"
  }

  /** Distinct results are shown as distinct texts. */
  lemma GradeTextInjective(r1: GradeResult, r2: GradeResult)
    ensures GradeText(r1) == GradeText(r2) ==> r1 == r2
  {
  }

  /** The letter the dashboard displays for a parsed score, band by band. */
  lemma GradeTextOfScore(s: real)
    ensures GradeText(CalculateIf(Some(s))) == "A" <==> 90.0 <= s
    ensures GradeText(CalculateIf(Some(s))) == "B" <==> 80.0 <= s < 90.0
    ensures GradeText(CalculateIf(Some(s))) == "C" <==> 70.0 <= s < 80.0
    ensures GradeText(CalculateIf(Some(s))) == "D" <==> 60.0 <= s < 70.0
    ensures GradeText(CalculateIf(Some(s))) == "F" <==> s < 60.0
  {
  }

  /** The pass marks of the ladder, lowest first. */
  const Thresholds: seq<real> := [60.0, 70.0, 80.0, 90.0]

  /** How many of the marks in ts the score reaches. */
  function MarksReached(ts: seq<real>, s: real): (n: nat)
    ensures n <= |ts|
  {
    if |ts| == 0 then 0
    else (if ts[0] <= s then 1 else 0) + MarksReached(ts[1..], s)
  }

  /** A reference definition of the ladder: a valid score's grade is one
      rank up for every pass mark it reaches. */
  lemma GradeRankIsMarksReached(s: real)
    ensures CalculateIf(Some(s)).Letter?
    ensures Rank(CalculateIf(Some(s)).grade) == MarksReached(Thresholds, s)
  {
    assert Thresholds[1..] == [70.0, 80.0, 90.0];
    assert [70.0, 80.0, 90.0][1..] == [80.0, 90.0];
    assert [80.0, 90.0][1..] == [90.0];
    assert [90.0][1..] == [];
    assert MarksReached([90.0], s) == if 90.0 <= s then 1 else 0;
    assert MarksReached([80.0, 90.0], s) == (if 80.0 <= s then 1 else 0) + MarksReached([90.0], s);
    assert MarksReached([70.0, 80.0, 90.0], s) == (if 70.0 <= s then 1 else 0) + MarksReached([80.0, 90.0], s);
    assert MarksReached(Thresholds, s) == (if 60.0 <= s then 1 else 0) + MarksReached([70.0, 80.0, 90.0], s);
  }

  /** A higher score reaches at least as many marks. */
  lemma {:induction false} MarksReachedMonotone(ts: seq<real>, s1: real, s2: real)
    requires s1 <= s2
    ensures MarksReached(ts, s1) <= MarksReached(ts, s2)
  {
    if |ts| > 0 {
      MarksReachedMonotone(ts[1..], s1, s2);
    }
  }

  /** Raising a score never lowers its grade. */
  lemma GradeMonotone(s1: real, s2: real)
    requires s1 <= s2
    ensures Rank(CalculateIf(Some(s1)).grade) <= Rank(CalculateIf(Some(s2)).grade)
  {
    GradeRankIsMarksReached(s1);
    GradeRankIsMarksReached(s2);
    MarksReachedMonotone(Thresholds, s1, s2);
  }

  /** The boundary and sample values of the ladder. */
  lemma GradeSamples()
    ensures CalculateIf(Some(90.0)) == Letter(A)
    ensures CalculateIf(Some(89.999)) == Letter(B)
    ensures CalculateIf(Some(80.0)) == Letter(B)
    ensures CalculateIf(Some(75.0)) == Letter(C)
    ensures CalculateIf(Some(60.0)) == Letter(D)
    ensures CalculateIf(Some(-5.0)) == Letter(F)
    ensures GradeText(CalculateIf(None)) == "Invalid input"
  {
  }

  // ---------------------------------------------------------------------------
  // COUNTIF(region range, region)
  // ---------------------------------------------------------------------------

  datatype SalesRow = SalesRow(region: string, sales: int)

  /** The regions column, in row order. */
  function Regions(rows: seq<SalesRow>): (rs: seq<string>)
    ensures |rs| == |rows|
    ensures forall i :: 0 <= i < |rows| ==> rs[i] == rows[i].region
  {
    if |rows| == 0 then [] else [rows[0].region] + Regions(rows[1..])
  }

  /** The rows of the given region, in order: Array.prototype.filter. */
  function FilterRegion(rows: seq<SalesRow>, region: string): (r: seq<SalesRow>)
    ensures |r| <= |rows|
    ensures forall i :: 0 <= i < |r| ==> r[i].region == region && r[i] in rows
    ensures forall i :: 0 <= i < |rows| && rows[i].region == region ==> rows[i] in r
  {
    if |rows| == 0 then []
    else
      var rest := FilterRegion(rows[1..], region);
      assert forall i :: 0 < i < |rows| ==> rows[i] == rows[1..][i - 1];
      if rows[0].region == region then [rows[0]] + rest else rest
  }

  /** Filtering keeps every matching row as often as it occurs, and no other row. */
  lemma {:induction false} FilterRegionMultiset(rows: seq<SalesRow>, region: string)
    ensures forall x :: multiset(FilterRegion(rows, region))[x] ==
                        if x.region == region then multiset(rows)[x] else 0
  {
    if |rows| > 0 {
      FilterRegionMultiset(rows[1..], region);
      assert rows == [rows[0]] + rows[1..];
    }
  }

  /** Filtering keeps table order: the filter of a concatenation is the
      concatenation of the filters. */
  lemma {:induction false} FilterRegionAppend(r1: seq<SalesRow>, r2: seq<SalesRow>, region: string)
    ensures FilterRegion(r1 + r2, region) == FilterRegion(r1, region) + FilterRegion(r2, region)
  {
    if |r1| == 0 {
      assert r1 + r2 == r2;
    } else {
      assert (r1 + r2)[0] == r1[0];
      assert (r1 + r2)[1..] == r1[1..] + r2;
      FilterRegionAppend(r1[1..], r2, region);
    }
  }

  /** A single row is kept exactly when it has the region. */
  lemma FilterRegionSingle(x: SalesRow, region: string)
    ensures FilterRegion([x], region) == if x.region == region then [x] else []
  {
    assert [x][1..] == [];
  }

  /** The number of rows whose region is exactly region; a region no row
      has counts 0. */
  function CountIf(rows: seq<SalesRow>, region: string): (n: nat)
    ensures n <= |rows|
    ensures n == 0 <==> forall i :: 0 <= i < |rows| ==> rows[i].region != region
  {
    var r := FilterRegion(rows, region);
    assert |r| > 0 ==> r[0] in rows;
    |r|
  }

  /** An independent reference for COUNTIF: the multiplicity of region in
      the regions column. */
  lemma {:induction false} CountIfIsMultiplicity(rows: seq<SalesRow>, region: string)
    ensures CountIf(rows, region) == multiset(Regions(rows))[region]
  {
    if |rows| > 0 {
      CountIfIsMultiplicity(rows[1..], region);
      assert Regions(rows) == [rows[0].region] + Regions(rows[1..]);
    }
  }

  /** Counting over two tables is the sum of the counts. */
  lemma {:induction false} CountIfAppend(r1: seq<SalesRow>, r2: seq<SalesRow>, region: string)
    ensures CountIf(r1 + r2, region) == CountIf(r1, region) + CountIf(r2, region)
  {
    if |r1| == 0 {
      assert r1 + r2 == r2;
    } else {
      assert (r1 + r2)[0] == r1[0];
      assert (r1 + r2)[1..] == r1[1..] + r2;
      CountIfAppend(r1[1..], r2, region);
    }
  }

  /** Counting from row i on: row i, then the rows after it. */
  lemma CountIfFrom(rows: seq<SalesRow>, i: nat, region: string)
    requires i < |rows|
    ensures CountIf(rows[i..], region) ==
            (if rows[i].region == region then 1 else 0) + CountIf(rows[i + 1..], region)
  {
    assert rows[i..][0] == rows[i];
    assert rows[i..][1..] == rows[i + 1..];
  }

  /** The sales table of the COUNTIF example. */
  const SalesData: seq<SalesRow> := [
    SalesRow("East", 5000),
    SalesRow("West", 7500),
    SalesRow("East", 6200),
    SalesRow("North", 4800),
    SalesRow("South", 8100),
    SalesRow("East", 5900),
    SalesRow("West", 7100)
  ]

  /** The counts on the sample table: East 3, West 2, North and South 1,
      every other region 0. */
  lemma SalesDataCounts(region: string)
    ensures CountIf(SalesData, region) ==
            if region == "East" then 3
            else if region == "West" then 2
            else if region == "North" || region == "South" then 1
            else 0
  {
    var r := SalesData;
    CountIfFrom(r, 0, region);
    CountIfFrom(r, 1, region);
    CountIfFrom(r, 2, region);
    CountIfFrom(r, 3, region);
    CountIfFrom(r, 4, region);
    CountIfFrom(r, 5, region);
    CountIfFrom(r, 6, region);
    assert r[0..] == r;
    assert r[7..] == [];
  }

  /** The COUNTIF example of the dashboard: countIfValue against SalesData. */
  function CalculateCountIf(countIfValue: string): (n: nat)
    ensures n <= |SalesData|
    ensures n == if countIfValue == "East" then 3
                 else if countIfValue == "West" then 2
                 else if countIfValue == "North" || countIfValue == "South" then 1
                 else 0
  {
    SalesDataCounts(countIfValue);
    CountIf(SalesData, countIfValue)
  }

  // ---------------------------------------------------------------------------
  // Pivot: total sales by category
  // ---------------------------------------------------------------------------

  datatype PivotRow = PivotRow(product: string, category: string, region: string, sales: int)

  /** Some row of rows has category c. */
  ghost predicate HasCategory(rows: seq<PivotRow>, c: string) {
    exists i :: 0 <= i < |rows| && rows[i].category == c
  }

  /** The categories of rows, each once, in order of first occurrence:
      the key order of the dictionary the pivot loop builds. */
  function Categories(rows: seq<PivotRow>): (r: seq<string>)
    decreases |rows|
  {
    if |rows| == 0 then []
    else
      var cs := Categories(rows[..|rows| - 1]);
      var c := rows[|rows| - 1].category;
      if c in cs then cs else cs + [c]
  }

  /** The pivot's keys are exactly the categories of the rows, each once. */
  lemma {:induction false} CategoriesMembers(rows: seq<PivotRow>)
    ensures forall c :: c in Categories(rows) <==> HasCategory(rows, c)
    ensures Distinct(Categories(rows))
    decreases |rows|
  {
    if |rows| > 0 {
      var init := rows[..|rows| - 1];
      CategoriesMembers(init);
      assert forall i :: 0 <= i < |init| ==> init[i] == rows[i];
      assert forall d :: HasCategory(rows, d) <==> HasCategory(init, d) || d == rows[|rows| - 1].category;
    }
  }

  /** Total sales of the rows of category c. */
  function SalesFor(rows: seq<PivotRow>, c: string): (r: int)
    decreases |rows|
  {
    if |rows| == 0 then 0
    else SalesFor(rows[..|rows| - 1], c) + (if rows[|rows| - 1].category == c then rows[|rows| - 1].sales else 0)
  }

  /** A category no row has totals 0. */
  lemma {:induction false} SalesForAbsent(rows: seq<PivotRow>, c: string)
    requires !HasCategory(rows, c)
    ensures SalesFor(rows, c) == 0
    decreases |rows|
  {
    if |rows| > 0 {
      var init := rows[..|rows| - 1];
      assert forall i :: 0 <= i < |init| ==> init[i] == rows[i];
      SalesForAbsent(init, c);
    }
  }

  /** Total sales of all rows. */
  function TotalSales(rows: seq<PivotRow>): (r: int)
    decreases |rows|
  {
    if |rows| == 0 then 0 else TotalSales(rows[..|rows| - 1]) + rows[|rows| - 1].sales
  }

  /** Sum of the dictionary's values over the given keys. */
  function SumOver(keys: seq<string>, totals: map<string, int>): (r: int)
    requires forall k :: k in keys ==> k in totals
    decreases |keys|
  {
    if |keys| == 0 then 0
    else SumOver(keys[..|keys| - 1], totals) + totals[keys[|keys| - 1]]
  }

  lemma {:induction false} SumOverSame(keys: seq<string>, m1: map<string, int>, m2: map<string, int>)
    requires forall k :: k in keys ==> k in m1 && k in m2 && m1[k] == m2[k]
    ensures SumOver(keys, m1) == SumOver(keys, m2)
    decreases |keys|
  {
    if |keys| > 0 {
      SumOverSame(keys[..|keys| - 1], m1, m2);
    }
  }

  /** Adding s to the entry of one key adds s to the sum over distinct keys. */
  lemma {:induction false} SumOverBump(keys: seq<string>, m: map<string, int>, m': map<string, int>,
                                       c: string, s: int)
    requires forall k :: k in keys ==> k in m && k in m'
    requires forall k :: k in keys && k != c ==> m'[k] == m[k]
    requires Distinct(keys) && c in keys && m'[c] == m[c] + s
    ensures SumOver(keys, m') == SumOver(keys, m) + s
    decreases |keys|
  {
    var init := keys[..|keys| - 1];
    if keys[|keys| - 1] == c {
      forall j | 0 <= j < |init|
        ensures init[j] != c
      {
        assert init[j] == keys[j];
      }
      SumOverSame(init, m', m);
    } else {
      assert c in init by {
        var j :| 0 <= j < |keys| && keys[j] == c;
        assert init[j] == c;
      }
      SumOverBump(init, m, m', c, s);
    }
  }

  /** The dictionary as Object.entries lists it, given its keys in insertion
      order: every entry of the dictionary exactly once, in that order. */
  function Entries(keys: seq<string>, totals: map<string, int>): (es: seq<(string, int)>)
    requires Distinct(keys) && forall k :: k in totals <==> k in keys
    ensures forall i :: 0 <= i < |es| ==> es[i].0 in totals && es[i].1 == totals[es[i].0]
    ensures forall c :: c in totals ==> exists i :: 0 <= i < |es| && es[i] == (c, totals[c])
    ensures forall i, j :: 0 <= i < j < |es| ==> es[i].0 != es[j].0
    ensures |es| == |keys| && forall i :: 0 <= i < |es| ==> es[i].0 == keys[i]
  {
    var es := seq(|keys|, i requires 0 <= i < |keys| => (keys[i], totals[keys[i]]));
    assert forall c :: c in totals ==> exists i :: 0 <= i < |es| && es[i] == (c, totals[c]) by {
      forall c | c in totals
        ensures exists i :: 0 <= i < |es| && es[i] == (c, totals[c])
      {
        var i :| 0 <= i < |keys| && keys[i] == c;
        assert es[i] == (c, totals[c]);
      }
    }
    es
  }

  /** The pivot loop's invariant after the first i rows: the keys are their
      categories in first-occurrence order, the dictionary has exactly those
      keys, each with its category's total, and the totals add up to the
      sales of those rows. */
  ghost predicate PivotInvariant(rows: seq<PivotRow>, i: nat, keys: seq<string>, totals: map<string, int>)
    requires i <= |rows|
  {
    && keys == Categories(rows[..i])
    && (forall c :: c in totals <==> c in keys)
    && (forall c :: c in totals ==> totals[c] == SalesFor(rows[..i], c))
    && SumOver(keys, totals) == TotalSales(rows[..i])
  }

  /** keys' and totals' are keys and totals after the loop body ran on row. */
  ghost predicate RowAdded(keys: seq<string>, totals: map<string, int>, row: PivotRow,
                           keys': seq<string>, totals': map<string, int>)
  {
    && keys' == (if row.category in keys then keys else keys + [row.category])
    && totals'.Keys == totals.Keys + {row.category}
    && totals'[row.category] == (if row.category in totals then totals[row.category] else 0) + row.sales
    && (forall k :: k in totals && k != row.category ==> totals'[k] == totals[k])
  }

  /** One iteration of the pivot loop keeps the invariant. */
  lemma PivotStep(rows: seq<PivotRow>, i: nat, keys: seq<string>, totals: map<string, int>,
                  keys': seq<string>, totals': map<string, int>)
    requires i < |rows| && PivotInvariant(rows, i, keys, totals)
    requires RowAdded(keys, totals, rows[i], keys', totals')
    ensures PivotInvariant(rows, i + 1, keys', totals')
  {
    PivotKeysStep(rows, i, keys, keys');
    PivotTotalsStep(rows, i, keys, totals, totals');
    assert Distinct(keys) by { CategoriesMembers(rows[..i]); }
    assert TotalSales(rows[..i + 1]) == TotalSales(rows[..i]) + rows[i].sales by { PrefixStep(rows, i); }
    PivotSumStep(keys, totals, rows[i], keys', totals');
  }

  /** The key list stays the categories in first-occurrence order. */
  lemma PivotKeysStep(rows: seq<PivotRow>, i: nat, keys: seq<string>, keys': seq<string>)
    requires i < |rows| && keys == Categories(rows[..i])
    requires keys' == if rows[i].category in keys then keys else keys + [rows[i].category]
    ensures keys' == Categories(rows[..i + 1])
  {
    PrefixStep(rows, i);
  }

  /** Each entry stays the total of its category. */
  lemma PivotTotalsStep(rows: seq<PivotRow>, i: nat, keys: seq<string>,
                        totals: map<string, int>, totals': map<string, int>)
    requires i < |rows| && keys == Categories(rows[..i])
    requires forall c :: c in totals <==> c in keys
    requires forall c :: c in totals ==> totals[c] == SalesFor(rows[..i], c)
    requires totals'.Keys == totals.Keys + {rows[i].category}
    requires totals'[rows[i].category] ==
             (if rows[i].category in totals then totals[rows[i].category] else 0) + rows[i].sales
    requires forall k :: k in totals && k != rows[i].category ==> totals'[k] == totals[k]
    ensures forall c :: c in totals' ==> totals'[c] == SalesFor(rows[..i + 1], c)
  {
    if rows[i].category !in totals {
      CategoriesMembers(rows[..i]);
      SalesForAbsent(rows[..i], rows[i].category);
    }
    forall c | c in totals'
      ensures totals'[c] == SalesFor(rows[..i + 1], c)
    {
      SalesForStep(rows, i, c);
    }
  }

  /** Adding a row raises the sum of the entries by the row's sales. */
  lemma PivotSumStep(keys: seq<string>, totals: map<string, int>, row: PivotRow,
                     keys': seq<string>, totals': map<string, int>)
    requires Distinct(keys) && forall c :: c in totals <==> c in keys
    requires RowAdded(keys, totals, row, keys', totals')
    ensures forall c :: c in keys' ==> c in totals'
    ensures SumOver(keys', totals') == SumOver(keys, totals) + row.sales
  {
    if row.category in keys {
      SumOverBump(keys, totals, totals', row.category, row.sales);
    } else {
      SumOverNewKey(keys, totals, totals', row.category);
    }
  }

  /** How the pivot's specification functions grow by one row. */
  lemma PrefixStep(rows: seq<PivotRow>, i: nat)
    requires i < |rows|
    ensures Categories(rows[..i + 1]) ==
            if rows[i].category in Categories(rows[..i]) then Categories(rows[..i])
            else Categories(rows[..i]) + [rows[i].category]
    ensures TotalSales(rows[..i + 1]) == TotalSales(rows[..i]) + rows[i].sales
  {
    assert rows[..i + 1][..i] == rows[..i];
    assert rows[..i + 1][i] == rows[i];
  }

  lemma SalesForStep(rows: seq<PivotRow>, i: nat, c: string)
    requires i < |rows|
    ensures SalesFor(rows[..i + 1], c) ==
            SalesFor(rows[..i], c) + (if rows[i].category == c then rows[i].sales else 0)
  {
    assert rows[..i + 1][..i] == rows[..i];
    assert rows[..i + 1][i] == rows[i];
  }

  /** Appending a new key adds its entry to the sum. */
  lemma SumOverNewKey(keys: seq<string>, m: map<string, int>, m': map<string, int>, c: string)
    requires forall k :: k in keys ==> k in m && k in m' && k != c && m'[k] == m[k]
    requires c in m'
    ensures SumOver(keys + [c], m') == SumOver(keys, m) + m'[c]
  {
    assert (keys + [c])[..|keys|] == keys;
    SumOverSame(keys, m, m');
  }

  /** The body of the pivot loop for one row: a missing entry, or a zero one
      (zero is falsy too), is set to 0, then the row's sales are added to it.
      A key enters the order when it is first assigned. */
  method AddRow(keys: seq<string>, totals: map<string, int>, row: PivotRow)
    returns (keys': seq<string>, totals': map<string, int>)
    requires forall k :: k in totals <==> k in keys
    ensures RowAdded(keys, totals, row, keys', totals')
  {
    var c := row.category;
    keys', totals' := keys, totals;
    if c !in totals' || totals'[c] == 0 {
      if c !in totals' {
        keys' := keys' + [c];
      }
      totals' := totals'[c := 0];
    }
    totals' := totals'[c := totals'[c] + row.sales];
  }

  /** The pivot loop: for each row, a missing (or zero, hence falsy) entry is
      set to 0, then the row's sales are added to it. The key order is the
      insertion order of the dictionary. */
  method PivotByCategory(rows: seq<PivotRow>) returns (keys: seq<string>, totals: map<string, int>)
    ensures keys == Categories(rows)
    ensures forall c :: c in totals <==> HasCategory(rows, c)
    ensures forall c :: c in totals <==> c in keys
    ensures forall c :: c in totals ==> totals[c] == SalesFor(rows, c)
    ensures SumOver(keys, totals) == TotalSales(rows)
  {
    keys, totals := [], map[];
    var i := 0;
    while i < |rows|
      invariant 0 <= i <= |rows|
      invariant PivotInvariant(rows, i, keys, totals)
    {
      var keys', totals' := AddRow(keys, totals, rows[i]);
      PivotStep(rows, i, keys, totals, keys', totals');
      keys, totals := keys', totals';
      i := i + 1;
    }
    assert rows[..i] == rows;
    CategoriesMembers(rows);
  }

  /** The first row of rows with category c. */
  function FirstIndex(rows: seq<PivotRow>, c: string): (i: nat)
    requires HasCategory(rows, c)
    ensures i < |rows| && rows[i].category == c
    ensures forall j :: 0 <= j < i ==> rows[j].category != c
  {
    if rows[0].category == c then 0
    else
      assert HasCategory(rows[1..], c) by {
        var j :| 0 <= j < |rows| && rows[j].category == c;
        assert rows[1..][j - 1] == rows[j];
      }
      var k := FirstIndex(rows[1..], c);
      assert forall j :: 0 < j <= k ==> rows[j] == rows[1..][j - 1];
      k + 1
  }

  /** Adding rows at the end does not move a category's first occurrence. */
  lemma FirstIndexPrefix(rows: seq<PivotRow>, n: nat, c: string)
    requires n <= |rows| && HasCategory(rows[..n], c)
    ensures HasCategory(rows, c)
    ensures FirstIndex(rows, c) == FirstIndex(rows[..n], c)
  {
    var k := FirstIndex(rows[..n], c);
    assert rows[..n][k] == rows[k];
    assert forall j :: 0 <= j < k ==> rows[..n][j] == rows[j];
  }

  /** The pivot's keys are in first-occurrence order. */
  lemma {:induction false} CategoriesInFirstOccurrenceOrder(rows: seq<PivotRow>)
    ensures forall a, b :: 0 <= a < b < |Categories(rows)| ==>
              && HasCategory(rows, Categories(rows)[a]) && HasCategory(rows, Categories(rows)[b])
              && FirstIndex(rows, Categories(rows)[a]) < FirstIndex(rows, Categories(rows)[b])
    decreases |rows|
  {
    if |rows| > 0 {
      var n := |rows| - 1;
      var init := rows[..n];
      var c := rows[n].category;
      var cs := Categories(init);
      var cs' := Categories(rows);
      CategoriesMembers(init);
      CategoriesMembers(rows);
      CategoriesInFirstOccurrenceOrder(init);
      forall x | x in cs
        ensures HasCategory(rows, x) && FirstIndex(rows, x) == FirstIndex(init, x) < n
      {
        FirstIndexPrefix(rows, n, x);
      }
      if c !in cs {
        forall j | 0 <= j < n
          ensures rows[j].category != c
        {
          assert init[j] == rows[j];
        }
        assert cs' == cs + [c];
      } else {
        assert cs' == cs;
      }
      forall a, b | 0 <= a < b < |cs'|
        ensures HasCategory(rows, cs'[a]) && HasCategory(rows, cs'[b])
        ensures FirstIndex(rows, cs'[a]) < FirstIndex(rows, cs'[b])
      {
        assert cs'[a] == cs[a] && cs'[a] in cs && cs'[b] in cs';
        if b < |cs| {
          assert cs'[b] == cs[b];
        } else {
          assert cs'[b] == c && FirstIndex(rows, c) == n;
        }
      }
    } else {
      assert Categories(rows) == [];
    }
  }

  /** The fixed rows of the pivot example. */
  const SamplePivotData: seq<PivotRow> := [
    PivotRow("Laptop", "Electronics", "East", 5400),
    PivotRow("Monitor", "Electronics", "West", 3200),
    PivotRow("Keyboard", "Accessories", "East", 1800),
    PivotRow("Mouse", "Accessories", "South", 1400),
    PivotRow("Laptop", "Electronics", "West", 6100),
    PivotRow("Headphones", "Accessories", "North", 2300),
    PivotRow("Monitor", "Electronics", "East", 2900)
  ]

  /** The pivot example as rendered: category rows in order, with totals. */
  method SamplePivot() returns (entries: seq<(string, int)>)
    ensures entries == [("Electronics", 17600), ("Accessories", 5500)]
  {
    var keys, totals := PivotByCategory(SamplePivotData);
    SamplePivotCategories();
    SamplePivotTotals();
    assert Distinct(keys) by { CategoriesMembers(SamplePivotData); }
    entries := Entries(keys, totals);
  }

  /** Categories of the sample rows. */
  lemma SamplePivotCategories()
    ensures Categories(SamplePivotData) == ["Electronics", "Accessories"]
  {
    CategoriesOfTwoKinds(SamplePivotData, "Electronics", "Accessories");
  }

  /** Categories of seven rows whose category column reads e, e, a, a, e, a, e
      (the shape of the sample rows), worked out prefix by prefix. */
  lemma CategoriesOfTwoKinds(rows: seq<PivotRow>, e: string, a: string)
    requires e != a && |rows| == 7
    requires rows[0].category == e && rows[1].category == e && rows[2].category == a
    requires rows[3].category == a && rows[4].category == e && rows[5].category == a
    requires rows[6].category == e
    ensures Categories(rows) == [e, a]
  {
    assert Categories(rows[..1]) == [e] by { assert rows[..0] == []; PrefixStep(rows, 0); }
    assert Categories(rows[..2]) == [e] by { PrefixStep(rows, 1); }
    assert Categories(rows[..3]) == [e, a] by { PrefixStep(rows, 2); }
    assert Categories(rows[..4]) == [e, a] by { PrefixStep(rows, 3); }
    assert Categories(rows[..5]) == [e, a] by { PrefixStep(rows, 4); }
    assert Categories(rows[..6]) == [e, a] by { PrefixStep(rows, 5); }
    assert Categories(rows[..7]) == [e, a] by { PrefixStep(rows, 6); }
    assert rows[..7] == rows;
  }

  /** Totals of the sample rows per category. */
  lemma SamplePivotTotals()
    ensures SalesFor(SamplePivotData, "Electronics") == 17600
    ensures SalesFor(SamplePivotData, "Accessories") == 5500
  {
    var r := SamplePivotData;
    SalesForOfSeven(r, "Electronics", [5400, 3200, 0, 0, 6100, 0, 2900]);
    SalesForOfSeven(r, "Accessories", [0, 0, 1800, 1400, 0, 2300, 0]);
  }

  /** SalesFor of seven rows, given what each row adds to category c. */
  lemma SalesForOfSeven(rows: seq<PivotRow>, c: string, adds: seq<int>)
    requires |rows| == 7 && |adds| == 7
    requires forall i :: 0 <= i < 7 ==> adds[i] == if rows[i].category == c then rows[i].sales else 0
    ensures SalesFor(rows, c) == adds[0] + adds[1] + adds[2] + adds[3] + adds[4] + adds[5] + adds[6]
  {
    assert SalesFor(rows[..1], c) == adds[0] by { assert rows[..0] == []; SalesForStep(rows, 0, c); }
    SalesForStep(rows, 1, c);
    SalesForStep(rows, 2, c);
    SalesForStep(rows, 3, c);
    SalesForStep(rows, 4, c);
    SalesForStep(rows, 5, c);
    SalesForStep(rows, 6, c);
    assert rows[..7] == rows;
  }
}
