/** `transform_dim_date`: one row per distinct raw order, ship or due date,
    with its calendar attributes and a `DATE` key numbered from 1. */
module DateDim {
  import opened Wrappers
  import opened Text
  import opened Dates
  import opened KeyGen
  import opened SalesSource

  /** A `dim_date` row without its key (`month_name` left out). */
  datatype DateRow = DateRow(fullDate: Option<int>, day: Option<int>, month: Option<int>, quarter: Option<int>, year: Option<int>)

  const Prefix: string := "DATE"

  /** `pd.concat([sls_order_dt, sls_ship_dt, sls_due_dt])`. */
  function RawDates(sales: seq<SalesRecord>): (r: seq<Option<int>>)
    ensures |r| == 3 * |sales|
    ensures forall i :: 0 <= i < |sales| ==>
      r[i] == sales[i].orderDate && r[|sales| + i] == sales[i].shipDate && r[2 * |sales| + i] == sales[i].dueDate
  {
    seq(|sales|, i requires 0 <= i < |sales| => sales[i].orderDate)
    + seq(|sales|, i requires 0 <= i < |sales| => sales[i].shipDate)
    + seq(|sales|, i requires 0 <= i < |sales| => sales[i].dueDate)
  }

  /** `.dropna()`. */
  function Present(s: seq<Option<int>>): (r: seq<int>)
    ensures forall x :: x in r <==> Some(x) in s
  {
    if s == [] then []
    else
      assert forall x :: Some(x) in s <==> Some(x) == s[0] || Some(x) in s[1..];
      (if s[0].Some? then [s[0].value] else []) + Present(s[1..])
  }

  /** `.unique()`: each value once, in order of first appearance. */
  function Distinct(s: seq<int>): (r: seq<int>)
    ensures forall x :: x in r <==> x in s
    ensures forall i, j :: 0 <= i < j < |r| ==> r[i] != r[j]
  {
    if s == [] then []
    else
      var u := Distinct(s[..|s| - 1]);
      assert s == s[..|s| - 1] + [s[|s| - 1]];
      if s[|s| - 1] in u then u else u + [s[|s| - 1]]
  }

  /** The calendar attributes of one raw value; a value that is not a day
      gives NaT and missing attributes. */
  function CalendarRow(raw: int): (d: DateRow)
    ensures d.fullDate.Some? <==> IsYmd(raw)
    ensures d.fullDate.Some? ==> (d.fullDate == Some(raw) && d.year == Some(raw / 10000)
      && d.month.Some? && 1 <= d.month.value <= 12 && d.day.Some? && 1 <= d.day.value <= 31
      && d.quarter.Some? && 1 <= d.quarter.value <= 4)
    ensures d.fullDate.Some? ==> d.day == Some(raw % 100) && d.month == Some((raw / 100) % 100)
    ensures d.fullDate.Some? ==> d.quarter == Some(((raw / 100) % 100 + 2) / 3)
    ensures d.fullDate.None? ==> d.day.None? && d.month.None? && d.quarter.None? && d.year.None?
  {
    var f := ParseYmd(Some(raw));
    if f.Some? then
      QuarterRange(raw);
      DateRow(f, Some(DayOfMonth(raw)), Some(Month(raw)), Some(Quarter(raw)), Some(Year(raw)))
    else DateRow(None, None, None, None, None)
  }

  /** The distinct raw dates the dimension is built from. */
  function DistinctDates(sales: seq<SalesRecord>): seq<int> {
    Distinct(Present(RawDates(sales)))
  }

  /** The keyed date dimension. There is no current frame, so keys always
      start at `DATE1`. */
  function DimDate(sales: seq<SalesRecord>): (r: seq<Keyed<DateRow>>)
    ensures |r| == |DistinctDates(sales)|
    ensures forall i :: 0 <= i < |r| ==>
      r[i] == Keyed(FormatKey(Prefix, i + 1), CalendarRow(DistinctDates(sales)[i]))
  {
    var rows := seq(|DistinctDates(sales)|, i requires 0 <= i < |DistinctDates(sales)| => CalendarRow(DistinctDates(sales)[i]));
    GenerateSk(rows, [], Prefix).value
  }

  /** A raw value is in the dimension exactly when some sale has it as its
      order, ship or due date. */
  lemma DistinctDatesCover(sales: seq<SalesRecord>, x: int)
    ensures x in DistinctDates(sales) <==>
      exists i :: 0 <= i < |sales| && (sales[i].orderDate == Some(x) || sales[i].shipDate == Some(x) || sales[i].dueDate == Some(x))
  {
    var raw := RawDates(sales);
    if Some(x) in raw {
      var p :| 0 <= p < |raw| && raw[p] == Some(x);
      if p < |sales| {
        assert sales[p].orderDate == Some(x);
      } else if p < 2 * |sales| {
        assert sales[p - |sales|].shipDate == Some(x);
      } else {
        assert sales[p - 2 * |sales|].dueDate == Some(x);
      }
    }
    if i :| 0 <= i < |sales| && (sales[i].orderDate == Some(x) || sales[i].shipDate == Some(x) || sales[i].dueDate == Some(x)) {
      if sales[i].orderDate == Some(x) {
        assert raw[i] == Some(x);
      } else if sales[i].shipDate == Some(x) {
        assert raw[|sales| + i] == Some(x);
      } else {
        assert raw[2 * |sales| + i] == Some(x);
      }
    }
  }

  /** Valid days appear once each, so a lookup on a valid full date finds at
      most one row; only NaT can repeat. */
  lemma FullDatesDistinct(sales: seq<SalesRecord>)
    ensures forall i, j :: 0 <= i < j < |DimDate(sales)| && DimDate(sales)[i].row.fullDate.Some? ==>
      DimDate(sales)[i].row.fullDate != DimDate(sales)[j].row.fullDate
  {
  }

  /** The keys of the date dimension are pairwise distinct. */
  lemma DateKeysDistinct(sales: seq<SalesRecord>)
    ensures forall i, j :: 0 <= i < j < |DimDate(sales)| ==> DimDate(sales)[i].sk != DimDate(sales)[j].sk
  {
    NumberedKeysDistinct(DimDate(sales), Prefix, 1);
  }

  /** One sale dated 2024-01-01 (ordered and shipped) and due 2024-01-05
      gives two rows, `DATE1` and `DATE2`. */
  lemma TwoDistinctDays()
    ensures var d := DimDate([SalesRecord("SO1", "P", "C", Some(20240101), Some(20240101), Some(20240105), None, None, None)]);
      && |d| == 2
      && d[0].sk == Labelled("DATE1") && d[0].row.fullDate == Some(20240101)
      && d[1].sk == Labelled("DATE2") && d[1].row.fullDate == Some(20240105)
  {
    var s := [SalesRecord("SO1", "P", "C", Some(20240101), Some(20240101), Some(20240105), None, None, None)];
    ExampleDates(s);
    ExampleRows();
    var d := DimDate(s);
    assert d[0] == Keyed(Labelled(Prefix + IntToString(1)), CalendarRow(20240101));
    assert d[1] == Keyed(Labelled(Prefix + IntToString(2)), CalendarRow(20240105));
  }

  lemma ExampleRows()
    ensures CalendarRow(20240101).fullDate == Some(20240101) && CalendarRow(20240105).fullDate == Some(20240105)
    ensures Prefix + IntToString(1) == "DATE1" && Prefix + IntToString(2) == "DATE2"
  {
    assert IsYmd(20240101) && IsYmd(20240105);
    assert IntToString(1) == "1" && IntToString(2) == "2";
  }

  lemma ExampleDates(s: seq<SalesRecord>)
    requires s == [SalesRecord("SO1", "P", "C", Some(20240101), Some(20240101), Some(20240105), None, None, None)]
    ensures DistinctDates(s) == [20240101, 20240105]
  {
    var raw := RawDates(s);
    assert raw == [Some(20240101), Some(20240101), Some(20240105)];
    ExamplePresent(raw);
    ExampleDistinct();
  }

  lemma ExamplePresent(raw: seq<Option<int>>)
    requires raw == [Some(20240101), Some(20240101), Some(20240105)]
    ensures Present(raw) == [20240101, 20240101, 20240105]
  {
    var r1, r2 := raw[1..], raw[2..];
    assert r2 == [Some(20240105)] && r2[1..] == [];
    assert Present(r2) == [20240105];
    assert r1 == [Some(20240101)] + r2 && r1[1..] == r2;
    assert Present(r1) == [20240101, 20240105];
  }

  lemma ExampleDistinct()
    ensures Distinct([20240101, 20240101, 20240105]) == [20240101, 20240105]
  {
    var p := [20240101, 20240101, 20240105];
    assert p[..|p| - 1] == [20240101, 20240101];
    assert p[..2][..1] == [20240101];
    assert p[..2][..1][..0] == [];
    assert Distinct([20240101]) == [20240101];
    assert Distinct([20240101, 20240101]) == [20240101];
    assert 20240105 !in [20240101];
  }
}
