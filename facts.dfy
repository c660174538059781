/** `transform_fact_sales`: the sales rows with their customer, product and
    three date keys looked up in the dimensions, and a `SALES` key each. */
module FactSales {
  import opened Wrappers
  import opened Text
  import opened Frames
  import opened Dates
  import opened KeyGen
  import opened Scd
  import opened SalesSource
  import CustomerDim
  import ProductDim
  import DateDim

  /** A `fact_sales` row without its key. */
  datatype FactRow = FactRow(orderNum: string, customerSk: Option<Key>, productSk: Option<Key>,
                             orderDateSk: Option<Key>, shipDateSk: Option<Key>, dueDateSk: Option<Key>,
                             quantity: Option<int>, price: Option<int>, sales: Option<int>, createdDate: int)

  type DimCustomerRow = Keyed<Versioned<CustomerDim.Customer>>
  type DimProductRow = Keyed<Versioned<ProductDim.Product>>
  type DimDateRow = Keyed<DateDim.DateRow>

  const FactPrefix: string := "SALES"

  // ---------------------------------------------------------------------
  // Key normalisation, made in the caller's frames

  function StripCustId(s: SalesRecord): SalesRecord {
    s.(custId := Strip(s.custId))
  }

  /** `sales['sls_cust_id'].str.startswith('AW').all()`. */
  predicate AllAW(sales: seq<SalesRecord>) {
    forall i :: 0 <= i < |sales| ==> StartsWith(sales[i].custId, "AW")
  }

  function PrefixAW(s: SalesRecord): SalesRecord {
    s.(custId := "AW" + ZFill(s.custId, 8))
  }

  /** Unless every id already starts with "AW", every id gets "AW" and is
      zero-filled to eight characters, those with "AW" included. */
  function CustomerIds(sales: seq<SalesRecord>): (r: seq<SalesRecord>)
    ensures |r| == |sales|
    ensures AllAW(r)
    ensures forall i :: 0 <= i < |sales| ==> r[i] == sales[i].(custId := r[i].custId)
  {
    if AllAW(sales) then sales else MapSeq(sales, PrefixAW)
  }

  function StripCustomerKey(d: DimCustomerRow): DimCustomerRow {
    Keyed(d.sk, d.row.(attrs := d.row.attrs.(key := Strip(d.row.attrs.key))))
  }

  /** `key.split('-')[2:]` joined by `-`: the key without its first two
      segments. */
  function ShortKey(k: string): (r: string)
    ensures '-' !in k ==> r == ""
  {
    var parts := Split(k, '-');
    Join("-", if |parts| <= 2 then [] else parts[2..])
  }

  function ShortenProductKey(d: DimProductRow): DimProductRow {
    Keyed(d.sk, d.row.(attrs := d.row.attrs.(key := ShortKey(Strip(d.row.attrs.key)))))
  }

  /** The overwrites of `sls_cust_id`, `customer_key` and `product_key`. */
  method NormalizeKeys(sales: array<SalesRecord>, dimCustomer: array<DimCustomerRow>, dimProduct: array<DimProductRow>)
    modifies sales, dimCustomer, dimProduct
    ensures sales[..] == CustomerIds(MapSeq(old(sales[..]), StripCustId))
    ensures dimCustomer[..] == MapSeq(old(dimCustomer[..]), StripCustomerKey)
    ensures dimProduct[..] == MapSeq(old(dimProduct[..]), ShortenProductKey)
  {
    MapInPlace(sales, StripCustId);
    MapInPlace(dimCustomer, StripCustomerKey);
    if !AllAW(sales[..]) {
      MapInPlace(sales, PrefixAW);
    }
    MapInPlace(dimProduct, ShortenProductKey);
  }

  /** After the normalisation every id starts with "AW"; only the id
      changes, and when some id lacked "AW" each is "AW" + its zero-fill. */
  lemma CustomerIdsStartWithAW(sales: seq<SalesRecord>)
    ensures |CustomerIds(sales)| == |sales|
    ensures AllAW(sales) ==> CustomerIds(sales) == sales
    ensures forall i :: 0 <= i < |sales| ==>
      && StartsWith(CustomerIds(sales)[i].custId, "AW")
      && CustomerIds(sales)[i] == sales[i].(custId := CustomerIds(sales)[i].custId)
      && (!AllAW(sales) ==> CustomerIds(sales)[i].custId == "AW" + ZFill(sales[i].custId, 8))
  {
  }

  /** A bare number gets the prefix and its zeros: "1" becomes "AW00000001". */
  lemma PrefixAWExample()
    ensures PrefixAW(SalesRecord("SO1", "P", "1", None, None, None, None, None, None)).custId == "AW00000001"
  {
    assert Repeat('0', 7) == "0000000";
  }

  /** In a mixed column an id that already has the prefix gets it twice:
      "AW11000" becomes "AW0AW11000". */
  lemma PrefixAWDoubles()
    ensures PrefixAW(SalesRecord("SO1", "P", "AW11000", None, None, None, None, None, None)).custId == "AW0AW11000"
  {
    assert Repeat('0', 1) == "0";
  }

  /** The product key loses its first two segments whatever they are. */
  lemma ShortKeyOfSegments(a: string, b: string, rest: string)
    requires '-' !in a && '-' !in b
    ensures ShortKey(a + "-" + b + "-" + rest) == rest
  {
    SplitAfterSegment(b, rest, '-');
    assert a + "-" + b + "-" + rest == a + ['-'] + (b + ['-'] + rest);
    SplitAfterSegment(a, b + ['-'] + rest, '-');
    var ps := Split(a + "-" + b + "-" + rest, '-');
    assert ps == [a, b] + Split(rest, '-');
    assert ps[2..] == Split(rest, '-');
    JoinSplit(rest, '-');
  }

  lemma ShortKeyExample()
    ensures ShortKey("CO-RF-FR-R92B-58") == "FR-R92B-58"
  {
    assert "CO-RF-FR-R92B-58" == "CO" + "-" + "RF" + "-" + "FR-R92B-58";
    ShortKeyOfSegments("CO", "RF", "FR-R92B-58");
  }

  // ---------------------------------------------------------------------
  // Lookups

  /** A sales row on its way through the merges. */
  datatype Stage = Stage(sale: SalesRecord, customerSk: Option<Key>, productSk: Option<Key>,
                         orderDateSk: Option<Key>, shipDateSk: Option<Key>, dueDateSk: Option<Key>)

  function SkOf<R>(m: Option<Keyed<R>>): Option<Key> {
    if m.Some? then Some(m.value.sk) else None
  }

  /** One `sales.merge(dim[[sk, key]], left_on=..., right_on=..., how='left')`,
      the matched key stored by `put`. */
  function Lookup<R, K(==)>(rows: seq<Stage>, dim: seq<Keyed<R>>, lk: Stage -> K, rk: Keyed<R> -> K,
                            put: (Stage, Option<Key>) -> Stage): (r: seq<Stage>)
    ensures |r| >= |rows|
  {
    LeftJoinGrows(rows, dim, lk, rk);
    MapSeq(LeftJoin(rows, dim, lk, rk), (j: Joined<Stage, Keyed<R>>) => put(j.left, SkOf(j.right)))
  }

  /** The key of the first dimension row whose lookup key is `k`. */
  function SkFor<R, K(==)>(dim: seq<Keyed<R>>, rk: Keyed<R> -> K, k: K): (r: Option<Key>)
    ensures r.None? <==> forall i :: 0 <= i < |dim| ==> rk(dim[i]) != k
    ensures r.Some? ==> exists i :: 0 <= i < |dim| && rk(dim[i]) == k && dim[i].sk == r.value
  {
    if dim == [] then None
    else if rk(dim[0]) == k then Some(dim[0].sk)
    else
      assert forall i :: 1 <= i < |dim| ==> dim[1..][i - 1] == dim[i];
      SkFor(dim[1..], rk, k)
  }

  /** With distinct lookup keys the row that has the key is the one found. */
  lemma {:induction false} SkForUnique<R, K>(dim: seq<Keyed<R>>, rk: Keyed<R> -> K, d: Keyed<R>)
    requires UniqueKeys(dim, rk) && d in dim
    ensures SkFor(dim, rk, rk(d)) == Some(d.sk)
  {
    if dim[0] != d {
      assert d in dim[1..];
      var p :| 0 <= p < |dim| && dim[p] == d;
      assert rk(dim[0]) != rk(d);
      assert UniqueKeys(dim[1..], rk) by {
        forall i, j | 0 <= i < j < |dim| - 1 ensures rk(dim[1..][i]) != rk(dim[1..][j]) {
          assert dim[1..][i] == dim[i + 1] && dim[1..][j] == dim[j + 1];
        }
      }
      SkForUnique(dim[1..], rk, d);
    }
  }

  /** With distinct lookup keys a lookup is row for row and stores the key of
      the one matching row, or nothing. */
  lemma LookupRowForRow<R, K>(rows: seq<Stage>, dim: seq<Keyed<R>>, lk: Stage -> K, rk: Keyed<R> -> K,
                              put: (Stage, Option<Key>) -> Stage)
    requires UniqueKeys(dim, rk)
    ensures var out := Lookup(rows, dim, lk, rk, put);
      |out| == |rows| && forall i :: 0 <= i < |rows| ==> out[i] == put(rows[i], SkFor(dim, rk, lk(rows[i])))
  {
    var joined := LeftJoin(rows, dim, lk, rk);
    LeftJoinOneToOne(rows, dim, lk, rk);
    forall i | 0 <= i < |rows| ensures SkOf(joined[i].right) == SkFor(dim, rk, lk(rows[i])) {
      if joined[i].right.Some? {
        SkForUnique(dim, rk, joined[i].right.value);
      } else {
        forall p | 0 <= p < |dim| ensures rk(dim[p]) != lk(rows[i]) {
          assert dim[p] in dim;
        }
      }
    }
  }

  function SaleCustomer(st: Stage): string {
    st.sale.custId
  }

  function DimCustomerKey(d: DimCustomerRow): string {
    d.row.attrs.key
  }

  /** `sls_prd_key`, stripped in the merged frame. */
  function SaleProduct(st: Stage): string {
    Strip(st.sale.prdKey)
  }

  function DimProductKey(d: DimProductRow): string {
    d.row.attrs.key
  }

  /** The sales dates after `pd.to_datetime(..., format='%Y%m%d', errors='coerce')`. */
  function SaleOrder(st: Stage): Option<int> {
    ParseYmd(st.sale.orderDate)
  }

  function SaleShip(st: Stage): Option<int> {
    ParseYmd(st.sale.shipDate)
  }

  function SaleDue(st: Stage): Option<int> {
    ParseYmd(st.sale.dueDate)
  }

  function FullDate(d: DimDateRow): Option<int> {
    d.row.fullDate
  }

  function PutCustomer(st: Stage, k: Option<Key>): Stage {
    st.(customerSk := k)
  }

  function PutProduct(st: Stage, k: Option<Key>): Stage {
    st.(productSk := k)
  }

  function PutOrder(st: Stage, k: Option<Key>): Stage {
    st.(orderDateSk := k)
  }

  function PutShip(st: Stage, k: Option<Key>): Stage {
    st.(shipDateSk := k)
  }

  function PutDue(st: Stage, k: Option<Key>): Stage {
    st.(dueDateSk := k)
  }

  function Start(s: SalesRecord): Stage {
    Stage(s, None, None, None, None, None)
  }

  /** The customer and product merges. */
  function WithDims(sales: seq<SalesRecord>, dimC: seq<DimCustomerRow>, dimP: seq<DimProductRow>): seq<Stage> {
    Lookup(Lookup(MapSeq(sales, Start), dimC, SaleCustomer, DimCustomerKey, PutCustomer),
           dimP, SaleProduct, DimProductKey, PutProduct)
  }

  /** The three date merges against one `date_map`. */
  function WithDates(rows: seq<Stage>, dimD: seq<DimDateRow>): seq<Stage> {
    Lookup(Lookup(Lookup(rows, dimD, SaleOrder, FullDate, PutOrder), dimD, SaleShip, FullDate, PutShip),
           dimD, SaleDue, FullDate, PutDue)
  }

  function ToFact(st: Stage, today: int): FactRow {
    FactRow(st.sale.orderNum, st.customerSk, st.productSk, st.orderDateSk, st.shipDateSk, st.dueDateSk,
            st.sale.quantity, st.sale.price, st.sale.sales, today)
  }

  function ToFacts(rows: seq<Stage>, today: int): seq<FactRow> {
    MapSeq(rows, (st: Stage) => ToFact(st, today))
  }

  /** `generate_sk(fact, None, 'SALES')`: with no existing keys the rows
      are numbered from one. */
  function KeyFacts(rows: seq<FactRow>): (r: seq<Keyed<FactRow>>)
    ensures |r| == |rows|
    ensures forall i :: 0 <= i < |rows| ==> r[i] == Keyed(FormatKey(FactPrefix, i + 1), rows[i])
  {
    GenerateSk(rows, [], FactPrefix).value
  }

  /** The fact table, keyed `SALES1..` in row order on every call. */
  function FactTable(sales: seq<SalesRecord>, dimC: seq<DimCustomerRow>, dimP: seq<DimProductRow>,
                     dimD: seq<DimDateRow>, today: int): seq<Keyed<FactRow>> {
    KeyFacts(ToFacts(WithDates(WithDims(sales, dimC, dimP), dimD), today))
  }

  /** The whole transform: the keys are normalised in the caller's frames,
      then the fact rows are built from the normalised frames. */
  method TransformFactSales(sales: array<SalesRecord>, dimCustomer: array<DimCustomerRow>, dimProduct: array<DimProductRow>,
                            dimDate: seq<DimDateRow>, today: int)
    returns (facts: seq<Keyed<FactRow>>)
    modifies sales, dimCustomer, dimProduct
    ensures sales[..] == CustomerIds(MapSeq(old(sales[..]), StripCustId))
    ensures dimCustomer[..] == MapSeq(old(dimCustomer[..]), StripCustomerKey)
    ensures dimProduct[..] == MapSeq(old(dimProduct[..]), ShortenProductKey)
    ensures facts == FactTable(sales[..], dimCustomer[..], dimProduct[..], dimDate, today)
  {
    NormalizeKeys(sales, dimCustomer, dimProduct);
    facts := FactTable(sales[..], dimCustomer[..], dimProduct[..], dimDate, today);
  }

  // ---------------------------------------------------------------------
  // One fact per sale

  /** The row a sale gives when every lookup finds at most one match. */
  function ExpectedFact(s: SalesRecord, dimC: seq<DimCustomerRow>, dimP: seq<DimProductRow>, dimD: seq<DimDateRow>, today: int): FactRow {
    FactRow(s.orderNum, SkFor(dimC, DimCustomerKey, s.custId), SkFor(dimP, DimProductKey, Strip(s.prdKey)),
            SkFor(dimD, FullDate, ParseYmd(s.orderDate)), SkFor(dimD, FullDate, ParseYmd(s.shipDate)),
            SkFor(dimD, FullDate, ParseYmd(s.dueDate)), s.quantity, s.price, s.sales, today)
  }

  lemma WithDimsRowForRow(sales: seq<SalesRecord>, dimC: seq<DimCustomerRow>, dimP: seq<DimProductRow>)
    requires UniqueKeys(dimC, DimCustomerKey) && UniqueKeys(dimP, DimProductKey)
    ensures var out := WithDims(sales, dimC, dimP);
      |out| == |sales| && forall i :: 0 <= i < |sales| ==>
        out[i] == Stage(sales[i], SkFor(dimC, DimCustomerKey, sales[i].custId),
                        SkFor(dimP, DimProductKey, Strip(sales[i].prdKey)), None, None, None)
  {
    var s0 := MapSeq(sales, Start);
    var s1 := Lookup(s0, dimC, SaleCustomer, DimCustomerKey, PutCustomer);
    LookupRowForRow(s0, dimC, SaleCustomer, DimCustomerKey, PutCustomer);
    LookupRowForRow(s1, dimP, SaleProduct, DimProductKey, PutProduct);
  }

  lemma WithDatesRowForRow(rows: seq<Stage>, dimD: seq<DimDateRow>)
    requires UniqueKeys(dimD, FullDate)
    ensures var out := WithDates(rows, dimD);
      |out| == |rows| && forall i :: 0 <= i < |rows| ==>
        out[i] == rows[i].(orderDateSk := SkFor(dimD, FullDate, ParseYmd(rows[i].sale.orderDate)),
                           shipDateSk := SkFor(dimD, FullDate, ParseYmd(rows[i].sale.shipDate)),
                           dueDateSk := SkFor(dimD, FullDate, ParseYmd(rows[i].sale.dueDate)))
  {
    var s3 := Lookup(rows, dimD, SaleOrder, FullDate, PutOrder);
    var s4 := Lookup(s3, dimD, SaleShip, FullDate, PutShip);
    LookupRowForRow(rows, dimD, SaleOrder, FullDate, PutOrder);
    LookupRowForRow(s3, dimD, SaleShip, FullDate, PutShip);
    LookupRowForRow(s4, dimD, SaleDue, FullDate, PutDue);
  }

  /** When the dimension lookup keys are distinct, the fact table has one row
      per sale, in order, keyed `SALES<i+1>`, each carrying the key of the
      matching dimension row or nothing. */
  lemma OneFactPerSale(sales: seq<SalesRecord>, dimC: seq<DimCustomerRow>, dimP: seq<DimProductRow>,
                       dimD: seq<DimDateRow>, today: int)
    requires UniqueKeys(dimC, DimCustomerKey) && UniqueKeys(dimP, DimProductKey) && UniqueKeys(dimD, FullDate)
    ensures var facts := FactTable(sales, dimC, dimP, dimD, today);
      |facts| == |sales| && forall i :: 0 <= i < |sales| ==>
        facts[i] == Keyed(FormatKey(FactPrefix, i + 1), ExpectedFact(sales[i], dimC, dimP, dimD, today))
  {
    var staged := WithDims(sales, dimC, dimP);
    WithDimsRowForRow(sales, dimC, dimP);
    WithDatesRowForRow(staged, dimD);
  }

  /** The fact transform is given only current dimension rows. With at most
      one current row per customer key and keys already stripped by the
      customer transform, the stripped keys it looks up in are distinct. */
  lemma CurrentCustomersUnique(dimC: seq<DimCustomerRow>)
    requires forall i :: 0 <= i < |dimC| ==> IsCurrent(dimC[i].row)
    requires OneCurrentPerKey(dimC, CustomerDim.CustomerKey)
    requires forall i :: 0 <= i < |dimC| ==> Strip(dimC[i].row.attrs.key) == dimC[i].row.attrs.key
    ensures UniqueKeys(MapSeq(dimC, StripCustomerKey), DimCustomerKey)
  {
    var m := MapSeq(dimC, StripCustomerKey);
    forall i, j | 0 <= i < j < |m| ensures DimCustomerKey(m[i]) != DimCustomerKey(m[j]) {
      assert CustomerDim.CustomerKey(dimC[i].row.attrs) != CustomerDim.CustomerKey(dimC[j].row.attrs);
    }
  }

  // ---------------------------------------------------------------------
  // Raw dates that are not days

  /** `date_map` without its NaT rows: no sale date can match them. */
  function ValidDays(dimD: seq<DimDateRow>): (r: seq<DimDateRow>)
    ensures forall d :: d in r <==> d in dimD && d.row.fullDate.Some?
  {
    if dimD == [] then []
    else (if dimD[0].row.fullDate.Some? then [dimD[0]] else []) + ValidDays(dimD[1..])
  }

  /** The date lookups as intended: only real days are matched. */
  function FactTableValidDates(sales: seq<SalesRecord>, dimC: seq<DimCustomerRow>, dimP: seq<DimProductRow>,
                               dimD: seq<DimDateRow>, today: int): seq<Keyed<FactRow>> {
    FactTable(sales, dimC, dimP, ValidDays(dimD), today)
  }

  /** Dropping the NaT rows keeps the real days distinct. */
  lemma {:induction false} ValidDaysKeepsDistinct(dimD: seq<DimDateRow>)
    requires forall i, j :: 0 <= i < j < |dimD| && dimD[i].row.fullDate.Some? ==> dimD[i].row.fullDate != dimD[j].row.fullDate
    ensures UniqueKeys(ValidDays(dimD), FullDate)
  {
    if dimD != [] {
      var t := ValidDays(dimD[1..]);
      assert forall i, j :: 0 <= i < j < |dimD[1..]| ==> dimD[1..][i] == dimD[i + 1] && dimD[1..][j] == dimD[j + 1];
      ValidDaysKeepsDistinct(dimD[1..]);
      if dimD[0].row.fullDate.Some? {
        forall x | x in t ensures FullDate(x) != FullDate(dimD[0]) {
          var q :| 0 <= q < |dimD[1..]| && dimD[1..][q] == x;
          assert dimD[q + 1] == x;
        }
        var v := ValidDays(dimD);
        assert v == [dimD[0]] + t;
        forall i, j | 0 <= i < j < |v| ensures FullDate(v[i]) != FullDate(v[j]) {
          assert v[j] == t[j - 1];
          if i > 0 {
            assert v[i] == t[i - 1];
          } else {
            assert t[j - 1] in t;
          }
        }
      }
    }
  }

  /** The real days of the date dimension are distinct keys. */
  lemma ValidDaysUnique(sales: seq<SalesRecord>)
    ensures UniqueKeys(ValidDays(DateDim.DimDate(sales)), FullDate)
  {
    DateDim.FullDatesDistinct(sales);
    ValidDaysKeepsDistinct(DateDim.DimDate(sales));
  }

  /** With the NaT rows left out of the lookup, the date dimension built
      from the same sales gives one fact per sale, and each of its date keys
      is present exactly when that raw date is a real day. */
  lemma OneFactPerSaleValidDates(sales: seq<SalesRecord>, dimC: seq<DimCustomerRow>, dimP: seq<DimProductRow>, today: int)
    requires UniqueKeys(dimC, DimCustomerKey) && UniqueKeys(dimP, DimProductKey)
    ensures var facts := FactTableValidDates(sales, dimC, dimP, DateDim.DimDate(sales), today);
      && |facts| == |sales|
      && forall i :: 0 <= i < |sales| ==>
        && facts[i] == Keyed(FormatKey(FactPrefix, i + 1), ExpectedFact(sales[i], dimC, dimP, ValidDays(DateDim.DimDate(sales)), today))
        && (facts[i].row.orderDateSk.Some? <==> ParseYmd(sales[i].orderDate).Some?)
        && (facts[i].row.shipDateSk.Some? <==> ParseYmd(sales[i].shipDate).Some?)
        && (facts[i].row.dueDateSk.Some? <==> ParseYmd(sales[i].dueDate).Some?)
  {
    ValidDaysUnique(sales);
    OneFactPerSale(sales, dimC, dimP, ValidDays(DateDim.DimDate(sales)), today);
    forall i | 0 <= i < |sales|
      ensures && (SkFor(ValidDays(DateDim.DimDate(sales)), FullDate, ParseYmd(sales[i].orderDate)).Some? <==> ParseYmd(sales[i].orderDate).Some?)
              && (SkFor(ValidDays(DateDim.DimDate(sales)), FullDate, ParseYmd(sales[i].shipDate)).Some? <==> ParseYmd(sales[i].shipDate).Some?)
              && (SkFor(ValidDays(DateDim.DimDate(sales)), FullDate, ParseYmd(sales[i].dueDate)).Some? <==> ParseYmd(sales[i].dueDate).Some?)
    {
      ValidDayFound(sales, i, sales[i].orderDate);
      ValidDayFound(sales, i, sales[i].shipDate);
      ValidDayFound(sales, i, sales[i].dueDate);
    }
  }

  /** A raw date of some sale finds a real day of the date dimension exactly
      when it parses as one. */
  lemma ValidDayFound(sales: seq<SalesRecord>, i: nat, raw: Option<int>)
    requires i < |sales| && (raw == sales[i].orderDate || raw == sales[i].shipDate || raw == sales[i].dueDate)
    ensures SkFor(ValidDays(DateDim.DimDate(sales)), FullDate, ParseYmd(raw)).Some? <==> ParseYmd(raw).Some?
  {
    var v := ValidDays(DateDim.DimDate(sales));
    if ParseYmd(raw).None? {
      forall p | 0 <= p < |v| ensures FullDate(v[p]) != None {
        assert v[p] in v;
      }
    } else {
      var x := raw.value;
      DateDim.DistinctDatesCover(sales, x);
      var ds := DateDim.DistinctDates(sales);
      var k :| 0 <= k < |ds| && ds[k] == x;
      var row := DateDim.DimDate(sales)[k];
      assert row.row == DateDim.CalendarRow(x);
      assert row in DateDim.DimDate(sales);
      assert row in v;
      var q :| 0 <= q < |v| && v[q] == row;
      assert FullDate(v[q]) == ParseYmd(raw);
    }
  }

  /** As written, every raw date that is not a day becomes a NaT row of the
      date dimension, and a NaT sale date matches each of them: one sale
      with raw dates 0, 1 and 1 gives two NaT rows and more than one fact. */
  lemma NaTDatesDuplicateFacts(today: int)
    ensures var s := [SalesRecord("SO1", "P", "AW1", Some(0), Some(1), Some(1), None, None, None)];
      |FactTable(s, [], [], DateDim.DimDate(s), today)| > |s|
  {
    var s := [SalesRecord("SO1", "P", "AW1", Some(0), Some(1), Some(1), None, None, None)];
    var dimD := DateDim.DimDate(s);
    NaTExampleDim(s);
    var rows := WithDims(s, [], []);
    WithDimsRowForRow(s, [], []);
    assert |rows| == 1 && SaleOrder(rows[0]) == None;
    var s3 := Lookup(rows, dimD, SaleOrder, FullDate, PutOrder);
    LookupDoubles(rows, dimD, SaleOrder, FullDate, PutOrder);
    var s4 := Lookup(s3, dimD, SaleShip, FullDate, PutShip);
  }

  /** A row that two dimension rows match comes out of the merge twice. */
  lemma LookupDoubles<R, K>(rows: seq<Stage>, dim: seq<Keyed<R>>, lk: Stage -> K, rk: Keyed<R> -> K,
                            put: (Stage, Option<Key>) -> Stage)
    requires |rows| == 1 && |dim| == 2 && dim[0] != dim[1]
    requires rk(dim[0]) == lk(rows[0]) && rk(dim[1]) == lk(rows[0])
    ensures |Lookup(rows, dim, lk, rk, put)| >= 2
  {
    var ms := Matches(rows[0], dim, lk, rk);
    assert dim[0] in ms && dim[1] in ms;
    MatchesTwo(ms, dim[0], dim[1]);
    assert rows[1..] == [];
    assert LeftJoin(rows, dim, lk, rk) == JoinOne(rows[0], dim, lk, rk) + [];
  }

  lemma MatchesTwo<T>(ms: seq<T>, a: T, b: T)
    requires a in ms && b in ms && a != b
    ensures |ms| >= 2
  {
  }

  lemma NaTExampleDim(s: seq<SalesRecord>)
    requires s == [SalesRecord("SO1", "P", "AW1", Some(0), Some(1), Some(1), None, None, None)]
    ensures |DateDim.DimDate(s)| == 2 && DateDim.DimDate(s)[0] != DateDim.DimDate(s)[1]
    ensures FullDate(DateDim.DimDate(s)[0]) == None && FullDate(DateDim.DimDate(s)[1]) == None
  {
    NaTExampleDates(s);
    DateDim.DateKeysDistinct(s);
    assert !IsYmd(0) && !IsYmd(1);
  }

  lemma NaTExampleDates(s: seq<SalesRecord>)
    requires s == [SalesRecord("SO1", "P", "AW1", Some(0), Some(1), Some(1), None, None, None)]
    ensures DateDim.DistinctDates(s) == [0, 1]
  {
    var raw := DateDim.RawDates(s);
    assert raw == [Some(0), Some(1), Some(1)];
    NaTPresent(raw);
    NaTDistinct();
  }

  lemma NaTPresent(raw: seq<Option<int>>)
    requires raw == [Some(0), Some(1), Some(1)]
    ensures DateDim.Present(raw) == [0, 1, 1]
  {
    var r1, r2 := raw[1..], raw[2..];
    assert r2 == [Some(1)] && r2[1..] == [];
    assert DateDim.Present(r2) == [1];
    assert r1 == [Some(1)] + r2 && r1[1..] == r2;
    assert DateDim.Present(r1) == [1, 1];
  }

  lemma NaTDistinct()
    ensures DateDim.Distinct([0, 1, 1]) == [0, 1]
  {
    var p := [0, 1, 1];
    assert p[..|p| - 1] == [0, 1];
    assert p[..2][..1] == [0];
    assert p[..2][..1][..0] == [];
    assert DateDim.Distinct([0]) == [0];
    assert 1 !in [0];
    assert DateDim.Distinct([0, 1]) == [0, 1];
  }

  /** Every version of a product is a current row with its own id, and the
      shortened key of all versions is the same, so a sale of a product with
      two versions gets two fact rows. */
  lemma ProductVersionsDuplicateFacts(today: int)
    ensures var s := [SalesRecord("SO1", "FR-R92B-58", "AW1", None, None, None, None, None, None)];
      var p := [Keyed(Labelled("PROD1"), Versioned(ProductVersion(1, 20200101), Some(today), None, CurrentFlag)),
                Keyed(Labelled("PROD2"), Versioned(ProductVersion(2, 20210101), Some(today), None, CurrentFlag))];
      |FactTable(s, [], p, [], today)| > |s|
  {
    var s := [SalesRecord("SO1", "FR-R92B-58", "AW1", None, None, None, None, None, None)];
    var p := [Keyed(Labelled("PROD1"), Versioned(ProductVersion(1, 20200101), Some(today), None, CurrentFlag)),
              Keyed(Labelled("PROD2"), Versioned(ProductVersion(2, 20210101), Some(today), None, CurrentFlag))];
    var s0 := MapSeq(s, Start);
    var s1 := Lookup(s0, [], SaleCustomer, DimCustomerKey, PutCustomer);
    LookupRowForRow(s0, [], SaleCustomer, DimCustomerKey, PutCustomer);
    assert |s1| == 1 && s1[0].sale == s[0];
    StripOfKey();
    LookupDoubles(s1, p, SaleProduct, DimProductKey, PutProduct);
    var s2 := WithDims(s, [], p);
    var s3 := Lookup(s2, [], SaleOrder, FullDate, PutOrder);
    var s4 := Lookup(s3, [], SaleShip, FullDate, PutShip);
  }

  /** Two versions of the product keyed `FR-R92B-58` after shortening. */
  function ProductVersion(id: int, start: int): ProductDim.Product {
    ProductDim.Product(Some(id), "FR-R92B-58", None, None, None, None, None, None, Some(start), None)
  }

  lemma StripOfKey()
    ensures Strip("FR-R92B-58") == "FR-R92B-58"
  {
    var k := "FR-R92B-58";
    assert !IsSpace(k[0]) && !IsSpace(k[|k| - 1]);
    StripUnique([], k, []);
    assert [] + k + [] == k;
  }

  /** A lookup never drops a row. */
  lemma {:induction false} LeftJoinGrows<L, R, K>(left: seq<L>, right: seq<R>, lk: L -> K, rk: R -> K)
    ensures |LeftJoin(left, right, lk, rk)| >= |left|
  {
    if left != [] {
      LeftJoinGrows(left[1..], right, lk, rk);
    }
  }
}
