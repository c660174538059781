/** `transform_dim_product`: the product master with its category key and
    version end dates, merged with the category file, standardised, stamped
    and run through the SCD Type 2 step on `product_id`. */
module ProductDim {
  import opened Wrappers
  import opened Text
  import opened Frames
  import opened KeyGen
  import opened ChangeDetect
  import opened Scd

  /** A row of the CRM product file (`prd_*`), start date already parsed. */
  datatype ProductInfo = ProductInfo(id: Option<int>, key: string, name: Option<string>, cost: Option<int>,
                                     line: Option<string>, startDate: Option<int>)

  /** A row of the ERP category file (`ID`, `CAT`, `SUBCAT`, `MAINTENANCE`). */
  datatype ProductCategory = ProductCategory(id: string, category: Option<string>, subcategory: Option<string>,
                                             maintenance: Option<string>)

  /** The business columns of `dim_product`, `product_id` to `end_date`. */
  datatype Product = Product(id: Option<int>, key: string, name: Option<string>, cost: Option<int>, line: Option<string>,
                             category: Option<string>, subcategory: Option<string>, maintenance: Option<string>,
                             startDate: Option<int>, endDate: Option<int>)

  /** A product row with its derived `prd_end_dt`. */
  datatype Dated = Dated(info: ProductInfo, endDate: Option<int>)

  const Prefix: string := "PROD"

  // ---------------------------------------------------------------------
  // Category key

  /** `prd_key.split('-', n=2)[:2]` joined by `_`. */
  function CatId(key: string): (r: string)
    ensures '-' !in r
    ensures '-' !in key ==> r == key
  {
    var parts := Split(key, '-');
    var kept := if |parts| <= 2 then parts else parts[..2];
    JoinAvoids("_", kept, '-');
    Join("_", kept)
  }

  /** The category key is the first two hyphen segments joined by `_`;
      whatever follows the second hyphen is ignored. */
  lemma CatIdOfSegments(a: string, b: string, rest: string)
    requires '-' !in a && '-' !in b
    ensures CatId(a + "-" + b + "-" + rest) == a + "_" + b
  {
    SplitAfterSegment(b, rest, '-');
    assert a + "-" + b + "-" + rest == a + ['-'] + (b + ['-'] + rest);
    SplitAfterSegment(a, b + ['-'] + rest, '-');
    var ps := Split(a + "-" + b + "-" + rest, '-');
    assert ps == [a, b] + Split(rest, '-');
    assert ps[..2] == [a, b];
    JoinTwo(a, b);
  }

  lemma JoinTwo(a: string, b: string)
    ensures Join("_", [a, b]) == a + "_" + b
  {
    assert [a, b][1..] == [b];
  }

  /** Keys with fewer than two hyphens: the whole key, or its two segments
      joined by `_`. */
  lemma CatIdShortKeys(a: string, b: string)
    requires '-' !in a && '-' !in b
    ensures CatId(a) == a
    ensures CatId(a + "-" + b) == a + "_" + b
  {
    assert a + "-" + b == a + ['-'] + b;
    SplitAfterSegment(a, b, '-');
    JoinTwo(a, b);
  }

  lemma CatIdExample(k: string)
    requires k == "CO-RF-FR-R92B-58"
    ensures CatId(k) == "CO_RF"
  {
    assert k == "CO" + "-" + "RF" + "-" + "FR-R92B-58";
    CatIdOfSegments("CO", "RF", "FR-R92B-58");
  }

  // ---------------------------------------------------------------------
  // Sort and end dates

  /** `prd_start_dt` ascending, missing dates last. */
  predicate StartNoLater(a: Option<int>, b: Option<int>) {
    b.None? || (a.Some? && a.value <= b.value)
  }

  /** `sort_values(['prd_key', 'prd_start_dt'])`. */
  predicate KeyThenStart(a: ProductInfo, b: ProductInfo) {
    if a.key == b.key then StartNoLater(a.startDate, b.startDate) else LexLe(a.key, b.key)
  }

  lemma KeyThenStartTotal()
    ensures TotalPreorder(KeyThenStart)
  {
    forall x: ProductInfo, y: ProductInfo ensures KeyThenStart(x, y) || KeyThenStart(y, x) {
      LexTotal(x.key, y.key);
    }
    forall x: ProductInfo, y: ProductInfo, z: ProductInfo | KeyThenStart(x, y) && KeyThenStart(y, z)
      ensures KeyThenStart(x, z)
    {
      if x.key != y.key && y.key != z.key {
        LexTrans(x.key, y.key, z.key);
        if x.key == z.key {
          LexAntisym(x.key, y.key);
        }
      } else if x.key != y.key || y.key != z.key {
        if x.key == z.key {
          assert false;
        }
      }
    }
  }

  /** The start date of the first row of `rest` with key `key`: one step of
      `groupby('prd_key')['prd_start_dt'].shift(-1)`. */
  function NextStart(rest: seq<ProductInfo>, key: string): (r: Option<int>)
    ensures r.Some? ==> exists j :: 0 <= j < |rest| && rest[j].key == key && rest[j].startDate == r
  {
    if rest == [] then None
    else if rest[0].key == key then rest[0].startDate
    else
      var r := NextStart(rest[1..], key);
      assert r.Some? ==> exists j :: 1 <= j < |rest| && rest[j].key == key && rest[j].startDate == r by {
        if r.Some? {
          var j :| 0 <= j < |rest| - 1 && rest[1..][j].key == key && rest[1..][j].startDate == r;
          assert rest[j + 1] == rest[1..][j];
        }
      }
      r
  }

  /** `NextStart` is the start of the first row with the key. */
  lemma {:induction false} NextStartIsFirst(rest: seq<ProductInfo>, key: string, j: nat)
    requires j < |rest| && rest[j].key == key
    requires forall t :: 0 <= t < j ==> rest[t].key != key
    ensures NextStart(rest, key) == rest[j].startDate
  {
    if j > 0 {
      assert rest[0].key != key;
      forall t | 0 <= t < j - 1 ensures rest[1..][t].key != key {
        assert rest[1..][t] == rest[t + 1];
      }
      NextStartIsFirst(rest[1..], key, j - 1);
    }
  }

  /** No later row with the key, no end date. */
  lemma {:induction false} NextStartNone(rest: seq<ProductInfo>, key: string)
    requires forall t :: 0 <= t < |rest| ==> rest[t].key != key
    ensures NextStart(rest, key) == None
  {
    if rest != [] {
      assert rest[0].key != key;
      forall t | 0 <= t < |rest| - 1 ensures rest[1..][t].key != key {
        assert rest[1..][t] == rest[t + 1];
      }
      NextStartNone(rest[1..], key);
    }
  }

  /** `prd_end_dt`: the start of the next version of the same key, in the
      sorted order. */
  function WithEndDates(s: seq<ProductInfo>): (r: seq<Dated>)
    ensures |r| == |s| && forall i :: 0 <= i < |s| ==> r[i].info == s[i]
  {
    seq(|s|, i requires 0 <= i < |s| => Dated(s[i], NextStart(s[i + 1..], s[i].key)))
  }

  /** The sorted product rows. */
  function Ordered(info: seq<ProductInfo>): seq<ProductInfo> {
    SortBy(info, KeyThenStart)
  }

  /** Versions of one key follow each other: in the sorted order a version
      ends when the next version of its key starts, and never before its own
      start; the last version of a key stays open. */
  lemma EndNotBeforeStart(info: seq<ProductInfo>, i: nat)
    requires i < |info|
    ensures |Ordered(info)| == |info|
    ensures var d := WithEndDates(Ordered(info))[i];
      && (d.endDate.Some? ==> d.info.startDate.Some? && d.info.startDate.value <= d.endDate.value)
      && ((forall j :: i < j < |info| ==> Ordered(info)[j].key != d.info.key) ==> d.endDate == None)
  {
    KeyThenStartTotal();
    SortBySorted(info, KeyThenStart);
    SortedEndDate(Ordered(info), i);
  }

  /** The end dates of any sequence sorted by key, then start. */
  lemma SortedEndDate(s: seq<ProductInfo>, i: nat)
    requires SortedBy(s, KeyThenStart) && i < |s|
    ensures var d := WithEndDates(s)[i];
      && (d.endDate.Some? ==> d.info.startDate.Some? && d.info.startDate.value <= d.endDate.value)
      && ((forall j :: i < j < |s| ==> s[j].key != d.info.key) ==> d.endDate == None)
  {
    var rest := s[i + 1..];
    assert WithEndDates(s)[i] == Dated(s[i], NextStart(rest, s[i].key));
    if j :| 0 <= j < |rest| && rest[j].key == s[i].key {
      var first := FirstWithKey(rest, s[i].key, j);
      NextStartIsFirst(rest, s[i].key, first);
      assert rest[first] == s[i + 1 + first];
      assert KeyThenStart(s[i], s[i + 1 + first]);
    } else {
      forall j | i < j < |s| ensures s[j].key != s[i].key {
        assert rest[j - i - 1] == s[j];
      }
      NextStartNone(rest, s[i].key);
    }
  }

  /** The first row with a given key, once some row has it. */
  lemma FirstWithKey(rest: seq<ProductInfo>, key: string, j: nat) returns (first: nat)
    requires j < |rest| && rest[j].key == key
    ensures first <= j && rest[first].key == key && forall t :: 0 <= t < first ==> rest[t].key != key
  {
    first := j;
    while first > 0 && exists t :: 0 <= t < first && rest[t].key == key
      invariant first <= j && rest[first].key == key
      decreases first
    {
      var t :| 0 <= t < first && rest[t].key == key;
      first := t;
    }
  }

  // ---------------------------------------------------------------------
  // Merge and standardisation

  function Standardize(j: Joined<Dated, ProductCategory>): (p: Product)
    ensures p.id == j.left.info.id && p.key == j.left.info.key && p.startDate == j.left.info.startDate
    ensures p.endDate == j.left.endDate
  {
    var pi := j.left.info;
    Product(pi.id, pi.key, if pi.name.Some? then Some(Strip(pi.name.value)) else None, pi.cost,
            if pi.line.Some? then Some(Upper(pi.line.value)) else None,
            if j.right.Some? then j.right.value.category else None,
            if j.right.Some? then j.right.value.subcategory else None,
            if j.right.Some? then j.right.value.maintenance else None,
            pi.startDate, j.left.endDate)
  }

  function DatedCat(d: Dated): string {
    CatId(d.info.key)
  }

  function CategoryId(c: ProductCategory): string {
    c.id
  }

  /** `product_info.merge(product_cat, left_on='cat_id', right_on='ID',
      how='left')`, standardised and stamped. */
  function Candidates(info: seq<ProductInfo>, cats: seq<ProductCategory>, today: int): seq<Versioned<Product>> {
    Stamp(MapSeq(LeftJoin(WithEndDates(Ordered(info)), cats, DatedCat, CategoryId), Standardize), today)
  }

  function ProductId(p: Product): Option<int> {
    p.id
  }

  /** The eight tracked columns, the derived `end_date` among them. */
  function Tracked(p: Product): (cells: seq<Cell>)
    ensures |cells| == 8
  {
    [StrCell(p.name), NumCell(p.cost), StrCell(p.line), StrCell(p.category), StrCell(p.subcategory),
     StrCell(p.maintenance), DayCell(p.startDate), DayCell(p.endDate)]
  }

  /** The whole transform: the snapshot (if any) is expired in place,
      `end_date_histroy` being its end-date column, and the new or changed
      rows come back with `PROD` keys. */
  method TransformDimProduct(productInfo: seq<ProductInfo>, productCat: seq<ProductCategory>,
                             current: array?<Keyed<Versioned<Product>>>, today: int)
    returns (r: Result<seq<Keyed<Candidate<Product>>>, KeyError>)
    modifies current
    ensures current != null ==>
      current[..] == ScdSnapshot(Candidates(productInfo, productCat, today), old(current[..]), ProductId, Tracked, today)
    ensures r == ScdResult(Candidates(productInfo, productCat, today), if current == null then [] else old(current[..]),
                           ProductId, Tracked, Prefix)
  {
    var cands := Candidates(productInfo, productCat, today);
    r := ApplyScd(cands, current, ProductId, Tracked, today, Prefix);
  }

  // ---------------------------------------------------------------------
  // Properties of the candidates

  /** With distinct category ids the merge is row for row: one stamped
      candidate per product row, in sorted order, carrying its own
      ids, dates and derived end date. */
  lemma CandidatesRowForRow(info: seq<ProductInfo>, cats: seq<ProductCategory>, today: int)
    requires UniqueKeys(cats, CategoryId)
    ensures var cs := Candidates(info, cats, today);
      && |cs| == |info|
      && forall i :: 0 <= i < |info| ==>
           && IsOpenVersion(cs[i], today)
           && cs[i].attrs.id == Ordered(info)[i].id && cs[i].attrs.key == Ordered(info)[i].key
           && cs[i].attrs.startDate == Ordered(info)[i].startDate
           && cs[i].attrs.endDate == WithEndDates(Ordered(info))[i].endDate
  {
    var dated := WithEndDates(Ordered(info));
    assert |Ordered(info)| == |info| by {
      assert |multiset(Ordered(info))| == |multiset(info)|;
    }
    LeftJoinOneToOne(dated, cats, DatedCat, CategoryId);
  }

  function InfoId(p: ProductInfo): Option<int> {
    p.id
  }

  /** Distinct product ids and category ids give candidates with distinct
      match keys. */
  lemma CandidatesUnique(info: seq<ProductInfo>, cats: seq<ProductCategory>, today: int)
    requires UniqueKeys(info, InfoId)
    requires UniqueKeys(cats, CategoryId)
    ensures UniqueKeys(Candidates(info, cats, today), CandKey(ProductId))
  {
    SortByUnique(info, KeyThenStart, InfoId);
    CandidatesRowForRow(info, cats, today);
    SameIdsUnique(Candidates(info, cats, today), Ordered(info));
  }

  lemma SameIdsUnique(cs: seq<Versioned<Product>>, o: seq<ProductInfo>)
    requires |cs| == |o| && forall i :: 0 <= i < |o| ==> cs[i].attrs.id == o[i].id
    requires UniqueKeys(o, InfoId)
    ensures UniqueKeys(cs, CandKey(ProductId))
  {
    forall i, j | 0 <= i < j < |cs| ensures CandKey(ProductId)(cs[i]) != CandKey(ProductId)(cs[j]) {
      assert CandKey(ProductId)(cs[i]) == ProductId(cs[i].attrs) == o[i].id;
      assert CandKey(ProductId)(cs[j]) == ProductId(cs[j].attrs) == o[j].id;
      assert InfoId(o[i]) != InfoId(o[j]);
    }
  }

  /** The quirk of matching on `product_id`: on the initial load every
      version of a `prd_key` is output as new and current, so one key can
      have several current rows once they are stored. */
  lemma InitialLoadKeepsEveryVersion(info: seq<ProductInfo>, cats: seq<ProductCategory>, today: int, i: nat, j: nat)
    requires UniqueKeys(cats, CategoryId)
    requires i < j < |info| && Ordered(info)[i].key == Ordered(info)[j].key
    ensures var out := ScdOutput(Candidates(info, cats, today), [], ProductId, Tracked);
      && |out| == |info|
      && out[i].isNew && out[j].isNew && IsCurrent(out[i].row) && IsCurrent(out[j].row)
      && out[i].row.attrs.key == out[j].row.attrs.key
  {
    CandidatesRowForRow(info, cats, today);
    var cs := Candidates(info, cats, today);
    var out := ScdOutput(cs, [], ProductId, Tracked);
    assert out == AllNew(cs);
    assert out[i].row == cs[i] && out[j].row == cs[j];
  }

  /** SCD Type 2 exclusivity for `dim_product`, per `product_id`. */
  lemma ProductExclusive(info: seq<ProductInfo>, cats: seq<ProductCategory>, today: int, snapshot: seq<Keyed<Versioned<Product>>>)
    requires UniqueKeys(info, InfoId)
    requires UniqueKeys(cats, CategoryId)
    requires OneCurrentPerKey(snapshot, ProductId)
    requires ScdResult(Candidates(info, cats, today), snapshot, ProductId, Tracked, Prefix).Ok?
    ensures OneCurrentPerKey(ScdSnapshot(Candidates(info, cats, today), snapshot, ProductId, Tracked, today)
                             + Stored(ScdResult(Candidates(info, cats, today), snapshot, ProductId, Tracked, Prefix).value),
                             ProductId)
  {
    CandidatesUnique(info, cats, today);
    ScdExclusive(Candidates(info, cats, today), snapshot, ProductId, Tracked, today, Prefix);
  }
}
