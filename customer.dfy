/** `transform_dim_customer`: the CRM customers merged with the ERP birth
    dates and countries, standardised, future create dates clamped, one row
    per customer key, stamped and run through the SCD Type 2 step. */
module CustomerDim {
  import opened Wrappers
  import opened Text
  import opened Frames
  import opened Dates
  import opened KeyGen
  import opened ChangeDetect
  import opened Scd

  /** A row of the CRM customer file (`cst_*`). */
  datatype CrmCustomer = CrmCustomer(id: Option<int>, key: string, firstName: Option<string>, lastName: Option<string>,
                                     maritalStatus: Option<string>, gender: Option<string>, createDate: Option<int>)

  /** A row of the ERP customer file (`CID`, `BDATE`). */
  datatype ErpCustomer = ErpCustomer(cid: string, birthDate: Option<int>)

  /** A row of the ERP location file (`CID`, `CNTRY`). */
  datatype ErpLocation = ErpLocation(cid: string, country: Option<string>)

  /** The business columns of `dim_customer`, `customer_id` to
      `customer_create_date`. */
  datatype Customer = Customer(id: Option<int>, key: string, firstName: Option<string>, lastName: Option<string>,
                               gender: Option<string>, maritalStatus: Option<string>, birthDate: Option<int>,
                               country: Option<string>, createDate: Option<int>)

  const Prefix: string := "CUST"

  // ---------------------------------------------------------------------
  // Key cleanup of the three source frames

  function CleanLocation(l: ErpLocation): ErpLocation {
    l.(cid := RemoveAll(l.cid, "-"))
  }

  function CleanInfo(c: CrmCustomer): CrmCustomer {
    c.(key := Strip(c.key))
  }

  function CleanErp(e: ErpCustomer): ErpCustomer {
    e.(cid := Strip(e.cid))
  }

  /** The three key overwrites, made in the caller's frames. */
  method CleanKeys(customer: array<ErpCustomer>, customerLoc: array<ErpLocation>, customerInfo: array<CrmCustomer>)
    modifies customer, customerLoc, customerInfo
    ensures customerLoc[..] == MapSeq(old(customerLoc[..]), CleanLocation)
    ensures customerInfo[..] == MapSeq(old(customerInfo[..]), CleanInfo)
    ensures customer[..] == MapSeq(old(customer[..]), CleanErp)
  {
    MapInPlace(customerLoc, CleanLocation);
    MapInPlace(customerInfo, CleanInfo);
    MapInPlace(customer, CleanErp);
  }

  /** The cleaned location ids hold no hyphen, and cleaning the keys a second
      time changes nothing. */
  lemma CleanKeysSettle(l: ErpLocation, c: CrmCustomer, e: ErpCustomer)
    ensures '-' !in CleanLocation(l).cid
    ensures CleanInfo(CleanInfo(c)) == CleanInfo(c)
    ensures CleanErp(CleanErp(e)) == CleanErp(e)
  {
    RemoveAllGone(l.cid, '-');
    StripIdempotent(c.key);
    StripIdempotent(e.cid);
  }

  // ---------------------------------------------------------------------
  // Merge and standardisation

  function StripOpt(o: Option<string>): Option<string> {
    if o.Some? then Some(Strip(o.value)) else None
  }

  function UpperOpt(o: Option<string>): Option<string> {
    if o.Some? then Some(Upper(o.value)) else None
  }

  /** One row of the double merge, standardised and renamed. */
  function Standardize(j: Joined<Joined<CrmCustomer, ErpCustomer>, ErpLocation>): (c: Customer)
    ensures c.id == j.left.left.id && c.key == j.left.left.key && c.createDate == j.left.left.createDate
  {
    var crm := j.left.left;
    Customer(crm.id, crm.key, StripOpt(crm.firstName), StripOpt(crm.lastName), UpperOpt(crm.gender),
             UpperOpt(crm.maritalStatus),
             if j.left.right.Some? then j.left.right.value.birthDate else None,
             if j.right.Some? then j.right.value.country else None,
             crm.createDate)
  }

  function WithErp(info: seq<CrmCustomer>, erp: seq<ErpCustomer>): seq<Joined<CrmCustomer, ErpCustomer>> {
    LeftJoin(info, erp, (c: CrmCustomer) => c.key, (e: ErpCustomer) => e.cid)
  }

  /** `customer_info.merge(customer, ...)` then `.merge(customer_loc, ...)`,
      both on `cst_key`, and the standardised columns. */
  function Sources(info: seq<CrmCustomer>, erp: seq<ErpCustomer>, loc: seq<ErpLocation>): seq<Customer> {
    var withLoc := LeftJoin(WithErp(info, erp), loc, (j: Joined<CrmCustomer, ErpCustomer>) => j.left.key, (l: ErpLocation) => l.cid);
    MapSeq(withLoc, Standardize)
  }

  /** `df.loc[create_date > today, 'customer_create_date'] = today`. */
  function ClampCreateDate(c: Customer, today: int): (r: Customer)
    ensures !After(r.createDate, today)
    ensures After(c.createDate, today) ==> r.createDate == Some(today)
    ensures !After(c.createDate, today) ==> r == c
    ensures r.(createDate := c.createDate) == c
  {
    if After(c.createDate, today) then c.(createDate := Some(today)) else c
  }

  // ---------------------------------------------------------------------
  // Sort and dedup

  /** `sort_values('customer_create_date')`: ascending, missing dates last. */
  predicate CreatedNoLater(a: Customer, b: Customer) {
    b.createDate.None? || (a.createDate.Some? && a.createDate.value <= b.createDate.value)
  }

  lemma CreatedOrderTotal()
    ensures TotalPreorder(CreatedNoLater)
  {
  }

  function CustomerKey(c: Customer): string {
    c.key
  }

  /** The merged, clamped rows in create-date order. */
  function Ordered(info: seq<CrmCustomer>, erp: seq<ErpCustomer>, loc: seq<ErpLocation>, today: int): seq<Customer> {
    SortBy(MapSeq(Sources(info, erp, loc), (c: Customer) => ClampCreateDate(c, today)), CreatedNoLater)
  }

  /** `drop_duplicates(subset=['customer_key'], keep='last')` and the stamp. */
  function Candidates(info: seq<CrmCustomer>, erp: seq<ErpCustomer>, loc: seq<ErpLocation>, today: int): seq<Versioned<Customer>> {
    Stamp(DedupLast(Ordered(info, erp, loc, today), CustomerKey), today)
  }

  /** The tracked columns: names, gender, marital status, birth date, country. */
  function Tracked(c: Customer): (cells: seq<Cell>)
    ensures |cells| == 6
  {
    [StrCell(c.firstName), StrCell(c.lastName), StrCell(c.gender), StrCell(c.maritalStatus), DayCell(c.birthDate),
     StrCell(c.country)]
  }

  /** The whole transform. The keys of the three source frames are cleaned
      in place, the snapshot (if any) is expired in place, and the new or
      changed rows come back with `CUST` keys. */
  method TransformDimCustomer(customer: array<ErpCustomer>, customerLoc: array<ErpLocation>, customerInfo: array<CrmCustomer>,
                              current: array?<Keyed<Versioned<Customer>>>, today: int)
    returns (r: Result<seq<Keyed<Candidate<Customer>>>, KeyError>)
    modifies customer, customerLoc, customerInfo, current
    ensures customerLoc[..] == MapSeq(old(customerLoc[..]), CleanLocation)
    ensures customerInfo[..] == MapSeq(old(customerInfo[..]), CleanInfo)
    ensures customer[..] == MapSeq(old(customer[..]), CleanErp)
    ensures current != null ==>
      current[..] == ScdSnapshot(Candidates(customerInfo[..], customer[..], customerLoc[..], today), old(current[..]), CustomerKey, Tracked, today)
    ensures r == ScdResult(Candidates(customerInfo[..], customer[..], customerLoc[..], today),
                           if current == null then [] else old(current[..]), CustomerKey, Tracked, Prefix)
  {
    CleanKeys(customer, customerLoc, customerInfo);
    var cands := Candidates(customerInfo[..], customer[..], customerLoc[..], today);
    r := ApplyScd(cands, current, CustomerKey, Tracked, today, Prefix);
  }

  // ---------------------------------------------------------------------
  // Properties of the candidates

  /** Every candidate carries the stamp and no create date after `today`. */
  lemma CandidatesStamped(info: seq<CrmCustomer>, erp: seq<ErpCustomer>, loc: seq<ErpLocation>, today: int)
    ensures forall v :: v in Candidates(info, erp, loc, today) ==> IsOpenVersion(v, today) && !After(v.attrs.createDate, today)
  {
    var clamped := MapSeq(Sources(info, erp, loc), (c: Customer) => ClampCreateDate(c, today));
    var sorted := Ordered(info, erp, loc, today);
    var deduped := DedupLast(sorted, CustomerKey);
    forall v | v in Candidates(info, erp, loc, today) ensures IsOpenVersion(v, today) && !After(v.attrs.createDate, today) {
      var i :| 0 <= i < |deduped| && Candidates(info, erp, loc, today)[i] == v;
      DedupLastIsLast(sorted, CustomerKey, deduped[i]);
      assert deduped[i] in multiset(clamped);
    }
  }

  /** After the dedup, each customer key has one candidate. */
  lemma CandidatesUnique(info: seq<CrmCustomer>, erp: seq<ErpCustomer>, loc: seq<ErpLocation>, today: int)
    ensures UniqueKeys(Candidates(info, erp, loc, today), CandKey(CustomerKey))
  {
    var deduped := DedupLast(Ordered(info, erp, loc, today), CustomerKey);
    DedupLastUnique(Ordered(info, erp, loc, today), CustomerKey);
    var cs := Candidates(info, erp, loc, today);
    forall i, j | 0 <= i < j < |cs| ensures CandKey(CustomerKey)(cs[i]) != CandKey(CustomerKey)(cs[j]) {
      assert cs[i].attrs == deduped[i] && cs[j].attrs == deduped[j];
    }
  }

  /** Every cleaned CRM key still has a row after the merges, the clamp and
      the sort. */
  lemma OrderedKeepsKeys(info: seq<CrmCustomer>, erp: seq<ErpCustomer>, loc: seq<ErpLocation>, today: int, crm: CrmCustomer)
    requires crm in info
    ensures HasKey(Ordered(info, erp, loc, today), CustomerKey, crm.key)
  {
    var withErp := WithErp(info, erp);
    LeftJoinKeepsLeft(info, erp, (c: CrmCustomer) => c.key, (e: ErpCustomer) => e.cid, crm);
    var j1 :| j1 in withErp && j1.left == crm;
    var lk := (j: Joined<CrmCustomer, ErpCustomer>) => j.left.key;
    var rk := (l: ErpLocation) => l.cid;
    var withLoc := LeftJoin(withErp, loc, lk, rk);
    LeftJoinKeepsLeft(withErp, loc, lk, rk, j1);
    var j2 :| j2 in withLoc && j2.left == j1;
    var p :| 0 <= p < |withLoc| && withLoc[p] == j2;
    var src := Sources(info, erp, loc);
    assert src[p] == Standardize(j2);
    var clamped := MapSeq(src, (c: Customer) => ClampCreateDate(c, today));
    assert clamped[p].key == crm.key;
    assert clamped[p] in multiset(Ordered(info, erp, loc, today));
  }

  /** Every customer key of the cleaned CRM frame gets exactly one
      candidate, and no other key gets one. */
  lemma CandidateKeys(info: seq<CrmCustomer>, erp: seq<ErpCustomer>, loc: seq<ErpLocation>, today: int, k: string)
    ensures (exists i :: 0 <= i < |info| && info[i].key == k) <==>
            (exists i :: 0 <= i < |Candidates(info, erp, loc, today)| && Candidates(info, erp, loc, today)[i].attrs.key == k)
  {
    var sorted := Ordered(info, erp, loc, today);
    var deduped := DedupLast(sorted, CustomerKey);
    var cs := Candidates(info, erp, loc, today);
    DedupLastKeys(sorted, CustomerKey, k);
    if i :| 0 <= i < |info| && info[i].key == k {
      OrderedKeepsKeys(info, erp, loc, today, info[i]);
      var q :| 0 <= q < |deduped| && CustomerKey(deduped[q]) == k;
      assert cs[q].attrs == deduped[q];
    }
    if q :| 0 <= q < |cs| && cs[q].attrs.key == k {
      assert CustomerKey(deduped[q]) == k;
      var t :| 0 <= t < |sorted| && CustomerKey(sorted[t]) == k;
      SourceKeyFromInfo(info, erp, loc, today, sorted[t]);
    }
  }

  /** Every merged row belongs to a CRM row with its key. */
  lemma SourceKeyFromInfo(info: seq<CrmCustomer>, erp: seq<ErpCustomer>, loc: seq<ErpLocation>, today: int, c: Customer)
    requires c in Ordered(info, erp, loc, today)
    ensures exists i :: 0 <= i < |info| && info[i].key == c.key
  {
    var src := Sources(info, erp, loc);
    var clamped := MapSeq(src, (x: Customer) => ClampCreateDate(x, today));
    assert c in multiset(clamped);
    var p :| 0 <= p < |clamped| && clamped[p] == c;
    var lk := (j: Joined<CrmCustomer, ErpCustomer>) => j.left.key;
    var rk := (l: ErpLocation) => l.cid;
    var withLoc := LeftJoin(WithErp(info, erp), loc, lk, rk);
    LeftJoinMember(WithErp(info, erp), loc, lk, rk, withLoc[p]);
    LeftJoinMember(info, erp, (x: CrmCustomer) => x.key, (e: ErpCustomer) => e.cid, withLoc[p].left);
    var i :| 0 <= i < |info| && info[i] == withLoc[p].left.left;
  }

  /** The candidate of a key is the latest row of that key in create-date
      order (`keep='last'` after the sort). */
  lemma CandidateIsLatest(info: seq<CrmCustomer>, erp: seq<ErpCustomer>, loc: seq<ErpLocation>, today: int, v: Versioned<Customer>)
    requires v in Candidates(info, erp, loc, today)
    ensures SortedBy(Ordered(info, erp, loc, today), CreatedNoLater)
    ensures exists i :: (0 <= i < |Ordered(info, erp, loc, today)| && Ordered(info, erp, loc, today)[i] == v.attrs
      && !HasKey(Ordered(info, erp, loc, today)[i + 1..], CustomerKey, v.attrs.key))
  {
    var sorted := Ordered(info, erp, loc, today);
    var deduped := DedupLast(sorted, CustomerKey);
    CreatedOrderTotal();
    SortBySorted(MapSeq(Sources(info, erp, loc), (c: Customer) => ClampCreateDate(c, today)), CreatedNoLater);
    var q :| 0 <= q < |deduped| && Candidates(info, erp, loc, today)[q] == v;
    DedupLastIsLast(sorted, CustomerKey, deduped[q]);
  }

  /** SCD Type 2 exclusivity for `dim_customer`: a snapshot with at most one
      current row per customer key keeps that property once its expired rows
      and the new keyed rows are stored. */
  lemma CustomerExclusive(info: seq<CrmCustomer>, erp: seq<ErpCustomer>, loc: seq<ErpLocation>, today: int,
                          snapshot: seq<Keyed<Versioned<Customer>>>)
    requires OneCurrentPerKey(snapshot, CustomerKey)
    requires ScdResult(Candidates(info, erp, loc, today), snapshot, CustomerKey, Tracked, Prefix).Ok?
    ensures OneCurrentPerKey(ScdSnapshot(Candidates(info, erp, loc, today), snapshot, CustomerKey, Tracked, today)
                             + Stored(ScdResult(Candidates(info, erp, loc, today), snapshot, CustomerKey, Tracked, Prefix).value),
                             CustomerKey)
  {
    CandidatesUnique(info, erp, loc, today);
    ScdExclusive(Candidates(info, erp, loc, today), snapshot, CustomerKey, Tracked, today, Prefix);
  }
}
