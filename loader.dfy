/** The incremental loads: which rows each load keeps against its
    watermark, the expiry updates it issues, and how the watermark moves. */
module Loader {
  import opened Wrappers
  import opened Frames
  import opened Dates
  import opened KeyGen
  import opened Scd
  import opened ChangeDetect
  import CustomerDim
  import ProductDim
  import DateDim
  import FactSales

  /** The tracker's names for the four tables. */
  const CustomerTable: string := "dim_customer"
  const ProductTable: string := "dim_product"
  const DateTable: string := "dim_date"
  const FactTable: string := "fact_sales"

  /** `1900-01-01`, the watermark of a dimension or date table never loaded. */
  const DefaultWatermark: int := 19000101

  /** What a load does to the warehouse: one `to_sql(..., if_exists='append')`
      per table, or one `UPDATE ... SET <end date> = :end, current_flag = 'N'
      WHERE <sk> = :sk`. */
  datatype Effect =
    | AppendCustomers(customers: seq<Keyed<Versioned<CustomerDim.Customer>>>)
    | AppendProducts(products: seq<Keyed<Versioned<ProductDim.Product>>>)
    | AppendDates(dates: seq<Keyed<DateDim.DateRow>>)
    | AppendFacts(facts: seq<Keyed<FactSales.FactRow>>)
    | UpdateExpiry(table: string, sk: Key, endDate: int)

  // ---------------------------------------------------------------------
  // Row filters

  /** `df[mask]`: the rows that pass, in order. */
  function Filter<T(==,!new)>(s: seq<T>, p: T -> bool): (r: seq<T>)
    ensures |r| <= |s|
    ensures forall x :: x in r <==> x in s && p(x)
  {
    if s == [] then []
    else
      assert forall x :: x in s <==> x == s[0] || x in s[1..];
      (if p(s[0]) then [s[0]] else []) + Filter(s[1..], p)
  }

  /** Filtering twice by the same mask is filtering once. */
  lemma {:induction false} FilterIdempotent<T(!new)>(s: seq<T>, p: T -> bool)
    ensures Filter(Filter(s, p), p) == Filter(s, p)
  {
    if s != [] {
      FilterIdempotent(s[1..], p);
      var t := Filter(s[1..], p);
      if p(s[0]) {
        assert Filter(s, p) == [s[0]] + t;
        assert (([s[0]] + t)[1..]) == t;
      } else {
        assert Filter(s, p) == t;
      }
    }
  }

  lemma FilterNone<T(!new)>(s: seq<T>, p: T -> bool)
    requires forall x :: x in s ==> !p(x)
    ensures Filter(s, p) == []
  {
    if Filter(s, p) != [] {
      assert Filter(s, p)[0] in Filter(s, p);
    }
  }

  /** `((new == True) & (effective_date > last)) | (new == False)`. */
  predicate DimRowKept<A>(x: Keyed<Candidate<A>>, last: int) {
    (x.row.isNew && After(x.row.row.effectiveDate, last)) || !x.row.isNew
  }

  /** The dimension rows a load keeps: a new row only when it is dated after
      the watermark, a changed row always. */
  function DimKept<A(==,!new)>(rows: seq<Keyed<Candidate<A>>>, last: int): (r: seq<Keyed<Candidate<A>>>)
    ensures forall x :: x in r <==> x in rows && (x.row.isNew ==> After(x.row.row.effectiveDate, last))
  {
    Filter(rows, (x: Keyed<Candidate<A>>) => DimRowKept(x, last))
  }

  /** `df['full_date'] > last`; NaT is never after anything. */
  function DatesKept(rows: seq<Keyed<DateDim.DateRow>>, last: int): (r: seq<Keyed<DateDim.DateRow>>)
    ensures forall x :: x in r <==> x in rows && After(x.row.fullDate, last)
  {
    Filter(rows, (x: Keyed<DateDim.DateRow>) => After(x.row.fullDate, last))
  }

  /** Without a watermark every fact row; otherwise those created after it. */
  function FactsKept(rows: seq<Keyed<FactSales.FactRow>>, last: Option<int>): (r: seq<Keyed<FactSales.FactRow>>)
    ensures last.None? ==> r == rows
    ensures last.Some? ==> forall x :: x in r <==> x in rows && x.row.createdDate > last.value
  {
    if last.None? then rows
    else Filter(rows, (x: Keyed<FactSales.FactRow>) => x.row.createdDate > last.value)
  }

  // ---------------------------------------------------------------------
  // Watermarks

  function EffectiveDay<A>(x: Keyed<Candidate<A>>): Option<int> {
    x.row.row.effectiveDate
  }

  function FullDay(x: Keyed<DateDim.DateRow>): Option<int> {
    x.row.fullDate
  }

  function CreatedDay(x: Keyed<FactSales.FactRow>): Option<int> {
    Some(x.row.createdDate)
  }

  /** Every row has a day in the column. */
  predicate AllDated<T(==,!new)>(s: seq<T>, day: T -> Option<int>) {
    forall x :: x in s ==> day(x).Some?
  }

  /** `df[column].max()` over rows that all have a day. */
  function MaxDay<T(==,!new)>(s: seq<T>, day: T -> Option<int>): (m: int)
    requires |s| > 0 && AllDated(s, day)
    ensures exists i :: 0 <= i < |s| && day(s[i]) == Some(m)
    ensures forall x :: x in s ==> day(x).value <= m
  {
    if |s| == 1 then day(s[0]).value
    else
      assert forall x :: x in s ==> x == s[0] || x in s[1..];
      assert s[0] in s;
      var rest := MaxDay(s[1..], day);
      if day(s[0]).value >= rest then day(s[0]).value else rest
  }

  /** The watermark after a load that kept `kept`: unchanged when nothing was
      kept. */
  function NextMark<T(==,!new)>(kept: seq<T>, day: T -> Option<int>, last: int): (r: int)
    requires AllDated(kept, day)
    ensures kept == [] ==> r == last
    ensures kept != [] ==> exists i :: 0 <= i < |kept| && day(kept[i]) == Some(r)
    ensures forall x :: x in kept ==> day(x).value <= r
  {
    if kept == [] then last else MaxDay(kept, day)
  }

  /** `tracker.get(table, '1900-01-01')`. */
  function LastMark(tracker: map<string, int>, table: string): int {
    if table in tracker then tracker[table] else DefaultWatermark
  }

  // ---------------------------------------------------------------------
  // Expiry updates

  /** One update per snapshot row whose end date is set, in row order. */
  function ExpiryUpdates<A>(table: string, snapshot: seq<Keyed<Versioned<A>>>): (r: seq<Effect>)
    ensures |r| <= |snapshot|
    ensures forall i :: 0 <= i < |r| ==> r[i].UpdateExpiry? && r[i].table == table
  {
    if snapshot == [] then []
    else
      var last := snapshot[|snapshot| - 1];
      ExpiryUpdates(table, snapshot[..|snapshot| - 1])
      + (if last.row.scdEnd.Some? then [UpdateExpiry(table, last.sk, last.row.scdEnd.value)] else [])
  }

  /** An update is issued exactly for a snapshot row with an end date, by its
      key and with that end date, and there is one per such row. */
  lemma {:induction false} ExpiryUpdatesExact<A(!new)>(table: string, snapshot: seq<Keyed<Versioned<A>>>)
    ensures |ExpiryUpdates(table, snapshot)| == |Filter(snapshot, (s: Keyed<Versioned<A>>) => s.row.scdEnd.Some?)|
    ensures forall e :: e in ExpiryUpdates(table, snapshot) <==>
      exists i :: 0 <= i < |snapshot| && snapshot[i].row.scdEnd.Some? && e == UpdateExpiry(table, snapshot[i].sk, snapshot[i].row.scdEnd.value)
  {
    ExpiryUpdatesCount(table, snapshot);
    if snapshot != [] {
      var n := |snapshot| - 1;
      var front := snapshot[..n];
      ExpiryUpdatesExact(table, front);
      forall e ensures e in ExpiryUpdates(table, snapshot) <==>
        exists i :: 0 <= i < |snapshot| && snapshot[i].row.scdEnd.Some? && e == UpdateExpiry(table, snapshot[i].sk, snapshot[i].row.scdEnd.value)
      {
        if e in ExpiryUpdates(table, front) {
          var i :| 0 <= i < |front| && front[i].row.scdEnd.Some? && e == UpdateExpiry(table, front[i].sk, front[i].row.scdEnd.value);
          assert snapshot[i] == front[i];
        }
        if exists i :: 0 <= i < |snapshot| && snapshot[i].row.scdEnd.Some? && e == UpdateExpiry(table, snapshot[i].sk, snapshot[i].row.scdEnd.value) {
          var i :| 0 <= i < |snapshot| && snapshot[i].row.scdEnd.Some? && e == UpdateExpiry(table, snapshot[i].sk, snapshot[i].row.scdEnd.value);
          if i < n {
            assert front[i] == snapshot[i];
          }
        }
      }
    }
  }

  lemma {:induction false} ExpiryUpdatesCount<A(!new)>(table: string, snapshot: seq<Keyed<Versioned<A>>>)
    ensures |ExpiryUpdates(table, snapshot)| == |Filter(snapshot, (s: Keyed<Versioned<A>>) => s.row.scdEnd.Some?)|
  {
    if snapshot != [] {
      var n := |snapshot| - 1;
      var front := snapshot[..n];
      ExpiryUpdatesCount(table, front);
      FilterSnoc(front, snapshot[n], (s: Keyed<Versioned<A>>) => s.row.scdEnd.Some?);
      assert snapshot == front + [snapshot[n]];
    }
  }

  lemma {:induction false} FilterSnoc<T(!new)>(s: seq<T>, x: T, p: T -> bool)
    ensures |Filter(s + [x], p)| == |Filter(s, p)| + (if p(x) then 1 else 0)
  {
    if s == [] {
      assert [x][1..] == [];
    } else {
      assert (s + [x])[1..] == s[1..] + [x];
      FilterSnoc(s[1..], x, p);
    }
  }

  // ---------------------------------------------------------------------
  // The warehouse and its tracker

  /** The store as the loads see it: the tracker of watermarks (days as
      `yyyymmdd`) and the log of what was written. */
  class Warehouse {
    var tracker: map<string, int>
    var effects: seq<Effect>

    /** `load_tracker()` with `saved` as the file's contents; nothing written yet. */
    constructor (saved: map<string, int>)
      ensures tracker == saved && effects == []
    {
      tracker := saved;
      effects := [];
    }

    function Last(table: string): int
      reads this
    {
      LastMark(tracker, table)
    }

    /** The loop of `UPDATE`s over the snapshot rows with an end date. */
    method IssueExpiries<A>(table: string, snapshot: seq<Keyed<Versioned<A>>>)
      modifies this
      ensures tracker == old(tracker)
      ensures effects == old(effects) + ExpiryUpdates(table, snapshot)
    {
      var i := 0;
      while i < |snapshot|
        invariant 0 <= i <= |snapshot|
        invariant tracker == old(tracker)
        invariant effects == old(effects) + ExpiryUpdates(table, snapshot[..i])
      {
        assert snapshot[..i + 1][..i] == snapshot[..i];
        if snapshot[i].row.scdEnd.Some? {
          effects := effects + [UpdateExpiry(table, snapshot[i].sk, snapshot[i].row.scdEnd.value)];
        }
        i := i + 1;
      }
      assert snapshot[..|snapshot|] == snapshot;
    }

    /** `load_dim_customer`: expire, then append the kept rows without their
        `new` column (even when there are none), then move the watermark. */
    method LoadDimCustomer(dfNew: seq<Keyed<Candidate<CustomerDim.Customer>>>,
                           current: seq<Keyed<Versioned<CustomerDim.Customer>>>)
      requires AllDated(dfNew, EffectiveDay)
      modifies this
      ensures var kept := DimKept(dfNew, old(Last(CustomerTable)));
        && effects == old(effects) + ExpiryUpdates(CustomerTable, current) + [AppendCustomers(Stored(kept))]
        && tracker == (if kept == [] then old(tracker) else old(tracker)[CustomerTable := MaxDay(kept, EffectiveDay)])
    {
      var kept := DimKept(dfNew, Last(CustomerTable));
      IssueExpiries(CustomerTable, current);
      effects := effects + [AppendCustomers(Stored(kept))];
      if kept != [] {
        tracker := tracker[CustomerTable := MaxDay(kept, EffectiveDay)];
      }
    }

    /** `load_dim_product`: expire, then append and move the watermark only
        when some row is kept. */
    method LoadDimProduct(dfNew: seq<Keyed<Candidate<ProductDim.Product>>>,
                          current: seq<Keyed<Versioned<ProductDim.Product>>>)
      requires AllDated(dfNew, EffectiveDay)
      modifies this
      ensures var kept := DimKept(dfNew, old(Last(ProductTable)));
        && effects == old(effects) + ExpiryUpdates(ProductTable, current) + (if kept == [] then [] else [AppendProducts(Stored(kept))])
        && tracker == (if kept == [] then old(tracker) else old(tracker)[ProductTable := MaxDay(kept, EffectiveDay)])
    {
      var kept := DimKept(dfNew, Last(ProductTable));
      IssueExpiries(ProductTable, current);
      if kept != [] {
        effects := effects + [AppendProducts(Stored(kept))];
        tracker := tracker[ProductTable := MaxDay(kept, EffectiveDay)];
      }
    }

    /** `load_dim_date`. */
    method LoadDimDate(df: seq<Keyed<DateDim.DateRow>>)
      modifies this
      ensures var kept := DatesKept(df, old(Last(DateTable)));
        && effects == old(effects) + (if kept == [] then [] else [AppendDates(kept)])
        && tracker == (if kept == [] then old(tracker) else old(tracker)[DateTable := MaxDay(kept, FullDay)])
    {
      var kept := DatesKept(df, Last(DateTable));
      if kept != [] {
        effects := effects + [AppendDates(kept)];
        tracker := tracker[DateTable := MaxDay(kept, FullDay)];
      }
    }

    /** `load_fact_sales`: `tracker.get('fact_sales', None)`. */
    method LoadFactSales(df: seq<Keyed<FactSales.FactRow>>)
      modifies this
      ensures var kept := FactsKept(df, if FactTable in old(tracker) then Some(old(tracker)[FactTable]) else None);
        && effects == old(effects) + (if kept == [] then [] else [AppendFacts(kept)])
        && tracker == (if kept == [] then old(tracker) else old(tracker)[FactTable := MaxDay(kept, CreatedDay)])
    {
      var last := if FactTable in tracker then Some(tracker[FactTable]) else None;
      var kept := FactsKept(df, last);
      if kept != [] {
        effects := effects + [AppendFacts(kept)];
        tracker := tracker[FactTable := MaxDay(kept, CreatedDay)];
      }
    }
  }

  // ---------------------------------------------------------------------
  // Re-running a load

  /** A second load of the same dimension rows, once the watermark has moved
      to the day they were stamped with, keeps no new row; every changed row
      is kept again. */
  lemma DimRerunKeepsNoNew<A(!new)>(rows: seq<Keyed<Candidate<A>>>, last: int, today: int)
    requires forall x :: x in rows ==> x.row.row.effectiveDate == Some(today)
    ensures var next := NextMark(DimKept(rows, last), EffectiveDay, last);
      && (forall x :: x in DimKept(rows, next) ==> !x.row.isNew)
      && (forall x :: x in rows && !x.row.isNew ==> x in DimKept(rows, next))
  {
    var kept := DimKept(rows, last);
    if kept != [] {
      var m := MaxDay(kept, EffectiveDay);
      var i :| 0 <= i < |kept| && EffectiveDay(kept[i]) == Some(m);
      assert kept[i] in rows;
    }
  }

  /** Re-loading the same date rows after the watermark has moved keeps
      nothing: the filter is a strict `>`. */
  lemma DatesRerunKeepsNothing(rows: seq<Keyed<DateDim.DateRow>>, last: int)
    ensures var kept := DatesKept(rows, last);
      DatesKept(rows, NextMark(kept, FullDay, last)) == []
  {
    var kept := DatesKept(rows, last);
    var next := NextMark(kept, FullDay, last);
    if kept != [] {
      var i :| 0 <= i < |kept| && FullDay(kept[i]) == Some(next);
      assert kept[i] in kept;
      assert next > last;
    }
    FilterNone(rows, (x: Keyed<DateDim.DateRow>) => After(x.row.fullDate, next));
  }

  /** Re-loading the same facts after the watermark has been set keeps
      nothing, also after a first load with no watermark. */
  lemma FactsRerunKeepsNothing(rows: seq<Keyed<FactSales.FactRow>>, last: Option<int>)
    ensures var kept := FactsKept(rows, last);
      kept != [] ==> FactsKept(rows, Some(MaxDay(kept, CreatedDay))) == []
  {
    var kept := FactsKept(rows, last);
    if kept != [] {
      var next := MaxDay(kept, CreatedDay);
      forall x | x in rows ensures x.row.createdDate <= next {
        if last.Some? && x.row.createdDate > last.value {
          assert x in kept;
        } else if last.Some? {
          var i :| 0 <= i < |kept| && CreatedDay(kept[i]) == Some(next);
          assert kept[i] in kept;
        } else {
          assert x in kept;
        }
      }
      FilterNone(rows, (x: Keyed<FactSales.FactRow>) => x.row.createdDate > next);
    }
  }

  /** The date watermark only moves forward, and strictly when something is kept. */
  lemma DateMarkAdvances(rows: seq<Keyed<DateDim.DateRow>>, last: int)
    ensures var kept := DatesKept(rows, last);
      && NextMark(kept, FullDay, last) >= last
      && (kept != [] ==> NextMark(kept, FullDay, last) > last)
  {
    var kept := DatesKept(rows, last);
    if kept != [] {
      var i :| 0 <= i < |kept| && FullDay(kept[i]) == Some(MaxDay(kept, FullDay));
      assert kept[i] in kept;
    }
  }

  /** A dimension watermark can move backwards: when only changed rows
      dated before the watermark are kept, their latest day replaces it. */
  lemma DimMarkCanRecede()
    ensures var rows := [Keyed(Plain(1), Candidate(Versioned(0, Some(20200101), None, "Y"), false))];
      NextMark(DimKept(rows, 20240101), EffectiveDay, 20240101) == 20200101
  {
    var rows := [Keyed(Plain(1), Candidate(Versioned(0, Some(20200101), None, "Y"), false))];
    var kept := DimKept(rows, 20240101);
    assert rows[0] in kept;
    assert kept == rows by {
      assert |kept| <= 1;
    }
  }

  /** The transforms stamp every row they hand to a dimension load, so the
      load's precondition holds for their output. */
  lemma StampedOutputDated<A(!new), K>(cands: seq<Versioned<A>>, snapshot: seq<Keyed<Versioned<A>>>, key: A -> K,
                                 tracked: A -> seq<Cell>, today: int, prefix: string)
    requires forall i :: 0 <= i < |cands| ==> IsOpenVersion(cands[i], today)
    requires ScdResult(cands, snapshot, key, tracked, prefix).Ok?
    ensures AllDated(ScdResult(cands, snapshot, key, tracked, prefix).value, EffectiveDay)
  {
    var out := ScdOutput(cands, snapshot, key, tracked);
    var keyed := ScdResult(cands, snapshot, key, tracked, prefix).value;
    forall x | x in keyed ensures EffectiveDay(x).Some? {
      var i :| 0 <= i < |keyed| && keyed[i] == x;
      assert x.row == out[i];
      ScdOutputMember(cands, snapshot, key, tracked, out[i]);
      assert out[i] in out;
      var j :| 0 <= j < |cands| && cands[j] == out[i].row;
    }
  }
}
