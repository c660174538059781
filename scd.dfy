/** The SCD Type 2 step shared by both dimension transforms: merge the
    stamped candidates with the current snapshot on the match key, run the
    change detector on every merged row, expire the superseded snapshot rows
    in place, hand the changed rows to the key generator. */
module Scd {
  import opened Wrappers
  import opened Frames
  import opened KeyGen
  import opened ChangeDetect

  const CurrentFlag: string := "Y"
  const ExpiredFlag: string := "N"

  /** A dimension row with its SCD Type 2 columns: `effective_date`, the end
      date of the version (`end_date` of customers, `end_date_histroy` of
      products) and `current_flag`. */
  datatype Versioned<A> = Versioned(attrs: A, effectiveDate: Option<int>, scdEnd: Option<int>, currentFlag: string)

  /** A row of `df_new`: the candidate and its `new` column. */
  datatype Candidate<A> = Candidate(row: Versioned<A>, isNew: bool)

  /** The stamp every candidate gets before change detection. */
  predicate IsOpenVersion<A>(v: Versioned<A>, today: int) {
    v.effectiveDate == Some(today) && v.scdEnd == None && v.currentFlag == CurrentFlag
  }

  /** `df['effective_date'] = today; df[<end>] = pd.NaT; df['current_flag'] = 'Y'`. */
  function Stamp<A>(rows: seq<A>, today: int): (vs: seq<Versioned<A>>)
    ensures |vs| == |rows|
    ensures forall i :: 0 <= i < |rows| ==> vs[i].attrs == rows[i] && IsOpenVersion(vs[i], today)
  {
    seq(|rows|, i requires 0 <= i < |rows| => Versioned(rows[i], Some(today), None, CurrentFlag))
  }

  /** The match key of a candidate and of a stored row. */
  function CandKey<A, K>(key: A -> K): Versioned<A> -> K {
    (v: Versioned<A>) => key(v.attrs)
  }

  function StoredKey<A, K>(key: A -> K): Keyed<Versioned<A>> -> K {
    (s: Keyed<Versioned<A>>) => key(s.row.attrs)
  }

  /** `df.merge(current[[sk, key] + tracked + ['current_flag']], on=key, how='left')`. */
  function Merge<A, K(==)>(cands: seq<Versioned<A>>, snapshot: seq<Keyed<Versioned<A>>>, key: A -> K): seq<Joined<Versioned<A>, Keyed<Versioned<A>>>> {
    LeftJoin(cands, snapshot, CandKey(key), StoredKey(key))
  }

  /** The `_old` columns of a merged row, or nothing when no row matched. */
  function PriorOf<A>(m: Joined<Versioned<A>, Keyed<Versioned<A>>>, tracked: A -> seq<Cell>): Option<Prior> {
    match m.right
    case None => None
    case Some(s) => Some(Prior(s.row.currentFlag, tracked(s.row.attrs)))
  }

  /** `merged['is_changed']` of one merged row. */
  predicate RowChanged<A>(m: Joined<Versioned<A>, Keyed<Versioned<A>>>, tracked: A -> seq<Cell>) {
    IsChanged(PriorOf(m, tracked), tracked(m.left.attrs))
  }

  /** `merged[merged['is_changed']][df.columns + ['new']]` with
      `new = is_changed & sk.isna()`. */
  function ChangedRows<A>(merged: seq<Joined<Versioned<A>, Keyed<Versioned<A>>>>, tracked: A -> seq<Cell>): (out: seq<Candidate<A>>)
    ensures |out| <= |merged|
  {
    if merged == [] then []
    else
      (if RowChanged(merged[0], tracked) then [Candidate(merged[0].left, merged[0].right.None?)] else [])
      + ChangedRows(merged[1..], tracked)
  }

  /** The `customer_sk` / `product_sk` of `merged[is_changed & sk.notna()]`,
      in merged order. */
  function ExpiredKeys<A>(merged: seq<Joined<Versioned<A>, Keyed<Versioned<A>>>>, tracked: A -> seq<Cell>): (ks: seq<Key>)
    ensures |ks| <= |ChangedRows(merged, tracked)|
  {
    if merged == [] then []
    else
      (if RowChanged(merged[0], tracked) && merged[0].right.Some? then [merged[0].right.value.sk] else [])
      + ExpiredKeys(merged[1..], tracked)
  }

  function ExpireRow<A>(r: Keyed<Versioned<A>>, sks: seq<Key>, today: int): Keyed<Versioned<A>> {
    if r.sk in sks then Keyed(r.sk, r.row.(scdEnd := Some(today), currentFlag := ExpiredFlag)) else r
  }

  /** The snapshot after the expiry loop: the rows whose key is listed get
      end date `today` and flag 'N'; nothing else changes. */
  function Expire<A>(snapshot: seq<Keyed<Versioned<A>>>, sks: seq<Key>, today: int): (r: seq<Keyed<Versioned<A>>>)
    ensures |r| == |snapshot|
    ensures forall i :: 0 <= i < |snapshot| ==>
      && r[i].sk == snapshot[i].sk
      && r[i].row.attrs == snapshot[i].row.attrs
      && r[i].row.effectiveDate == snapshot[i].row.effectiveDate
      && (snapshot[i].sk in sks ==> r[i].row.scdEnd == Some(today) && r[i].row.currentFlag == ExpiredFlag)
      && (snapshot[i].sk !in sks ==> r[i] == snapshot[i])
  {
    seq(|snapshot|, i requires 0 <= i < |snapshot| => ExpireRow(snapshot[i], sks, today))
  }

  /** `df['new'] = True; df_new = df.copy()`: the initial load. */
  function AllNew<A>(cands: seq<Versioned<A>>): (r: seq<Candidate<A>>)
    ensures |r| == |cands| && forall i :: 0 <= i < |cands| ==> r[i] == Candidate(cands[i], true)
  {
    seq(|cands|, i requires 0 <= i < |cands| => Candidate(cands[i], true))
  }

  /** The rows handed to the key generator; an empty snapshot makes every
      candidate new. */
  function ScdOutput<A, K(==)>(cands: seq<Versioned<A>>, snapshot: seq<Keyed<Versioned<A>>>, key: A -> K, tracked: A -> seq<Cell>): seq<Candidate<A>> {
    if snapshot == [] then AllNew(cands) else ChangedRows(Merge(cands, snapshot, key), tracked)
  }

  /** The snapshot as the transform returns it. */
  function ScdSnapshot<A, K(==)>(cands: seq<Versioned<A>>, snapshot: seq<Keyed<Versioned<A>>>, key: A -> K, tracked: A -> seq<Cell>, today: int): seq<Keyed<Versioned<A>>> {
    if snapshot == [] then snapshot else Expire(snapshot, ExpiredKeys(Merge(cands, snapshot, key), tracked), today)
  }

  /** The result of the transform: the changed rows with fresh keys. */
  function ScdResult<A, K(==)>(cands: seq<Versioned<A>>, snapshot: seq<Keyed<Versioned<A>>>, key: A -> K, tracked: A -> seq<Cell>, prefix: string): Result<seq<Keyed<Candidate<A>>>, KeyError> {
    GenerateSk(ScdOutput(cands, snapshot, key, tracked), KeysOf(snapshot), prefix)
  }

  /** The expiry loop: for every listed key, every snapshot row with that
      key gets end date `today` and flag 'N', through `.loc`. */
  method ExpireInPlace<A>(a: array<Keyed<Versioned<A>>>, sks: seq<Key>, today: int)
    modifies a
    ensures a[..] == Expire(old(a[..]), sks, today)
  {
    ghost var orig := a[..];
    for k := 0 to |sks|
      invariant a[..] == Expire(orig, sks[..k], today)
    {
      assert sks[..k + 1] == sks[..k] + [sks[k]];
      for j := 0 to a.Length
        invariant forall t :: 0 <= t < j ==> a[t] == Expire(orig, sks[..k + 1], today)[t]
        invariant forall t :: j <= t < a.Length ==> a[t] == Expire(orig, sks[..k], today)[t]
      {
        if a[j].sk == sks[k] {
          a[j] := Keyed(a[j].sk, a[j].row.(scdEnd := Some(today), currentFlag := ExpiredFlag));
        }
      }
      assert a[..] == Expire(orig, sks[..k + 1], today);
    }
    assert sks[..|sks|] == sks;
  }

  /** Step 5 of both dimension transforms, against the snapshot the caller
      passed (`None` being `null`): the snapshot is expired in place and the
      changed rows come back keyed. */
  method ApplyScd<A, K(==)>(cands: seq<Versioned<A>>, current: array?<Keyed<Versioned<A>>>, key: A -> K,
                            tracked: A -> seq<Cell>, today: int, prefix: string)
    returns (r: Result<seq<Keyed<Candidate<A>>>, KeyError>)
    modifies current
    ensures current != null ==> current[..] == ScdSnapshot(cands, old(current[..]), key, tracked, today)
    ensures r == ScdResult(cands, if current == null then [] else old(current[..]), key, tracked, prefix)
  {
    if current == null || current.Length == 0 {
      r := GenerateSk(AllNew(cands), [], prefix);
      return;
    }
    var snapshot := current[..];
    var merged := Merge(cands, snapshot, key);
    var out, expired := DetectAll(merged, tracked);
    ExpireInPlace(current, expired, today);
    assert KeysOf(current[..]) == KeysOf(snapshot);
    r := GenerateSk(out, KeysOf(current[..]), prefix);
  }

  /** `merged.apply(is_changed, axis=1)` and the two selections made with
      it: the changed rows with their `new` flag, and the surrogate keys of
      the snapshot rows to expire. */
  method DetectAll<A>(merged: seq<Joined<Versioned<A>, Keyed<Versioned<A>>>>, tracked: A -> seq<Cell>)
    returns (out: seq<Candidate<A>>, expired: seq<Key>)
    ensures out == ChangedRows(merged, tracked)
    ensures expired == ExpiredKeys(merged, tracked)
  {
    out, expired := [], [];
    for i := 0 to |merged|
      invariant out + ChangedRows(merged[i..], tracked) == ChangedRows(merged, tracked)
      invariant expired + ExpiredKeys(merged[i..], tracked) == ExpiredKeys(merged, tracked)
    {
      var m := merged[i];
      var changed := DetectChange(PriorOf(m, tracked), tracked(m.left.attrs));
      assert changed == RowChanged(m, tracked);
      var h := if changed then [Candidate(m.left, m.right.None?)] else [];
      var e := if changed && m.right.Some? then [m.right.value.sk] else [];
      SelectionStep(merged, i, tracked);
      ghost var restC := ChangedRows(merged[i + 1..], tracked);
      ghost var restE := ExpiredKeys(merged[i + 1..], tracked);
      assert ChangedRows(merged[i..], tracked) == h + restC;
      assert ExpiredKeys(merged[i..], tracked) == e + restE;
      SeqAssoc(out, h, restC);
      SeqAssoc(expired, e, restE);
      out := out + h;
      expired := expired + e;
    }
    assert merged[|merged|..] == [];
  }

  lemma SeqAssoc<T>(a: seq<T>, b: seq<T>, c: seq<T>)
    ensures a + b + c == a + (b + c)
  {
  }

  /** One merged row's share of both selections. */
  lemma SelectionStep<A>(merged: seq<Joined<Versioned<A>, Keyed<Versioned<A>>>>, i: nat, tracked: A -> seq<Cell>)
    requires i < |merged|
    ensures ChangedRows(merged[i..], tracked)
      == (if RowChanged(merged[i], tracked) then [Candidate(merged[i].left, merged[i].right.None?)] else [])
         + ChangedRows(merged[i + 1..], tracked)
    ensures ExpiredKeys(merged[i..], tracked)
      == (if RowChanged(merged[i], tracked) && merged[i].right.Some? then [merged[i].right.value.sk] else [])
         + ExpiredKeys(merged[i + 1..], tracked)
  {
    assert merged[i..][0] == merged[i] && merged[i..][1..] == merged[i + 1..];
  }

  // ---------------------------------------------------------------------
  // What the output and the expiry contain

  lemma {:induction false} ChangedRowsAppend<A>(a: seq<Joined<Versioned<A>, Keyed<Versioned<A>>>>, b: seq<Joined<Versioned<A>, Keyed<Versioned<A>>>>, tracked: A -> seq<Cell>)
    ensures ChangedRows(a + b, tracked) == ChangedRows(a, tracked) + ChangedRows(b, tracked)
  {
    if a == [] {
      assert a + b == b;
    } else {
      assert (a + b)[0] == a[0];
      assert (a + b)[1..] == a[1..] + b;
      ChangedRowsAppend(a[1..], b, tracked);
      var h := if RowChanged(a[0], tracked) then [Candidate(a[0].left, a[0].right.None?)] else [];
      assert ChangedRows(a + b, tracked) == h + ChangedRows(a[1..] + b, tracked);
      assert ChangedRows(a, tracked) == h + ChangedRows(a[1..], tracked);
    }
  }

  lemma {:induction false} ChangedRowsMember<A>(merged: seq<Joined<Versioned<A>, Keyed<Versioned<A>>>>, tracked: A -> seq<Cell>, c: Candidate<A>)
    ensures c in ChangedRows(merged, tracked) <==>
      exists i :: 0 <= i < |merged| && RowChanged(merged[i], tracked) && c == Candidate(merged[i].left, merged[i].right.None?)
  {
    if merged != [] {
      ChangedRowsMember(merged[1..], tracked, c);
      if c in ChangedRows(merged[1..], tracked) {
        var i :| 0 <= i < |merged[1..]| && RowChanged(merged[1..][i], tracked) && c == Candidate(merged[1..][i].left, merged[1..][i].right.None?);
        assert merged[i + 1] == merged[1..][i];
      }
      if exists i :: 0 < i < |merged| && RowChanged(merged[i], tracked) && c == Candidate(merged[i].left, merged[i].right.None?) {
        var i :| 0 < i < |merged| && RowChanged(merged[i], tracked) && c == Candidate(merged[i].left, merged[i].right.None?);
        assert merged[1..][i - 1] == merged[i];
      }
    }
  }

  lemma {:induction false} ExpiredKeysMember<A>(merged: seq<Joined<Versioned<A>, Keyed<Versioned<A>>>>, tracked: A -> seq<Cell>, k: Key)
    ensures k in ExpiredKeys(merged, tracked) <==>
      exists i :: 0 <= i < |merged| && RowChanged(merged[i], tracked) && merged[i].right.Some? && merged[i].right.value.sk == k
  {
    if merged != [] {
      ExpiredKeysMember(merged[1..], tracked, k);
      if k in ExpiredKeys(merged[1..], tracked) {
        var i :| 0 <= i < |merged[1..]| && RowChanged(merged[1..][i], tracked) && merged[1..][i].right.Some? && merged[1..][i].right.value.sk == k;
        assert merged[i + 1] == merged[1..][i];
      }
      if exists i :: 0 < i < |merged| && RowChanged(merged[i], tracked) && merged[i].right.Some? && merged[i].right.value.sk == k {
        var i :| 0 < i < |merged| && RowChanged(merged[i], tracked) && merged[i].right.Some? && merged[i].right.value.sk == k;
        assert merged[1..][i - 1] == merged[i];
      }
    }
  }

  /** No snapshot row has the candidate's match key. */
  predicate Unmatched<A, K(==)>(v: Versioned<A>, snapshot: seq<Keyed<Versioned<A>>>, key: A -> K) {
    forall t :: 0 <= t < |snapshot| ==> key(snapshot[t].row.attrs) != key(v.attrs)
  }

  /** The current snapshot row `y` has the candidate's key and differs from
      it in a tracked column. */
  predicate Supersedes<A, K(==)>(v: Versioned<A>, y: Keyed<Versioned<A>>, key: A -> K, tracked: A -> seq<Cell>) {
    && key(y.row.attrs) == key(v.attrs)
    && y.row.currentFlag == CurrentFlag
    && ColumnsDiffer(tracked(y.row.attrs), tracked(v.attrs))
  }

  /** What `ScdOutput` promises about one of its rows. */
  ghost predicate OutputRowOk<A, K>(cands: seq<Versioned<A>>, snapshot: seq<Keyed<Versioned<A>>>, key: A -> K, tracked: A -> seq<Cell>, c: Candidate<A>) {
    && c.row in cands
    && (c.isNew <==> Unmatched(c.row, snapshot, key))
    && (!c.isNew ==> exists t :: 0 <= t < |snapshot| && Supersedes(c.row, snapshot[t], key, tracked))
  }

  lemma OutputRowSound<A, K>(cands: seq<Versioned<A>>, snapshot: seq<Keyed<Versioned<A>>>, key: A -> K, tracked: A -> seq<Cell>, c: Candidate<A>)
    requires c in ChangedRows(Merge(cands, snapshot, key), tracked)
    ensures OutputRowOk(cands, snapshot, key, tracked, c)
  {
    var merged := Merge(cands, snapshot, key);
    var lk, rk := CandKey(key), StoredKey(key);
    ChangedRowsMember(merged, tracked, c);
    var i :| 0 <= i < |merged| && RowChanged(merged[i], tracked) && c == Candidate(merged[i].left, merged[i].right.None?);
    var m := merged[i];
    LeftJoinMember(cands, snapshot, lk, rk, m);
    if m.right.None? {
      forall t | 0 <= t < |snapshot| ensures key(snapshot[t].row.attrs) != key(c.row.attrs) {
        assert rk(snapshot[t]) != lk(m.left);
      }
    } else {
      var t :| 0 <= t < |snapshot| && snapshot[t] == m.right.value;
      assert Supersedes(c.row, snapshot[t], key, tracked);
      assert !Unmatched(c.row, snapshot, key);
    }
  }

  lemma OutputRowComplete<A, K>(cands: seq<Versioned<A>>, snapshot: seq<Keyed<Versioned<A>>>, key: A -> K, tracked: A -> seq<Cell>, c: Candidate<A>)
    requires OutputRowOk(cands, snapshot, key, tracked, c)
    ensures c in ChangedRows(Merge(cands, snapshot, key), tracked)
  {
    var merged := Merge(cands, snapshot, key);
    var lk, rk := CandKey(key), StoredKey(key);
    var m: Joined<Versioned<A>, Keyed<Versioned<A>>>;
    if c.isNew {
      m := Joined(c.row, None);
      forall r | r in snapshot ensures rk(r) != lk(c.row) {
        var t :| 0 <= t < |snapshot| && snapshot[t] == r;
      }
    } else {
      var t :| 0 <= t < |snapshot| && Supersedes(c.row, snapshot[t], key, tracked);
      m := Joined(c.row, Some(snapshot[t]));
    }
    LeftJoinMember(cands, snapshot, lk, rk, m);
    var i :| 0 <= i < |merged| && merged[i] == m;
    assert RowChanged(merged[i], tracked);
    ChangedRowsMember(merged, tracked, c);
  }

  /** The rows handed to the key generator are exactly the candidates that
      match no snapshot row, flagged new, and the candidates that differ from
      a current snapshot row with their key, flagged not new. A candidate that
      matches only historical rows, or equals its current row, is dropped. */
  lemma ScdOutputMember<A, K>(cands: seq<Versioned<A>>, snapshot: seq<Keyed<Versioned<A>>>, key: A -> K, tracked: A -> seq<Cell>, c: Candidate<A>)
    ensures c in ScdOutput(cands, snapshot, key, tracked) <==>
      && c.row in cands
      && (c.isNew <==> Unmatched(c.row, snapshot, key))
      && (!c.isNew ==> exists t :: 0 <= t < |snapshot| && Supersedes(c.row, snapshot[t], key, tracked))
  {
    if snapshot == [] {
      var out := AllNew(cands);
      if c.row in cands && c.isNew {
        var i :| 0 <= i < |cands| && cands[i] == c.row;
        assert out[i] == c;
      }
    } else {
      if c in ScdOutput(cands, snapshot, key, tracked) {
        OutputRowSound(cands, snapshot, key, tracked, c);
      }
      if OutputRowOk(cands, snapshot, key, tracked, c) {
        OutputRowComplete(cands, snapshot, key, tracked, c);
      }
    }
  }

  lemma ExpiredKeySound<A, K>(cands: seq<Versioned<A>>, snapshot: seq<Keyed<Versioned<A>>>, key: A -> K, tracked: A -> seq<Cell>, k: Key)
    requires k in ExpiredKeys(Merge(cands, snapshot, key), tracked)
    ensures exists c, t :: c in cands && 0 <= t < |snapshot| && snapshot[t].sk == k && Supersedes(c, snapshot[t], key, tracked)
  {
    var merged := Merge(cands, snapshot, key);
    var lk, rk := CandKey(key), StoredKey(key);
    ExpiredKeysMember(merged, tracked, k);
    var j :| 0 <= j < |merged| && RowChanged(merged[j], tracked) && merged[j].right.Some? && merged[j].right.value.sk == k;
    var m := merged[j];
    LeftJoinMember(cands, snapshot, lk, rk, m);
    var t :| 0 <= t < |snapshot| && snapshot[t] == m.right.value;
    assert Supersedes(m.left, snapshot[t], key, tracked);
  }

  lemma ExpiredKeyComplete<A, K>(cands: seq<Versioned<A>>, snapshot: seq<Keyed<Versioned<A>>>, key: A -> K, tracked: A -> seq<Cell>, c: Versioned<A>, t: nat)
    requires c in cands && t < |snapshot| && Supersedes(c, snapshot[t], key, tracked)
    ensures snapshot[t].sk in ExpiredKeys(Merge(cands, snapshot, key), tracked)
  {
    var merged := Merge(cands, snapshot, key);
    var lk, rk := CandKey(key), StoredKey(key);
    var m := Joined(c, Some(snapshot[t]));
    LeftJoinMember(cands, snapshot, lk, rk, m);
    var j :| 0 <= j < |merged| && merged[j] == m;
    assert RowChanged(merged[j], tracked);
    ExpiredKeysMember(merged, tracked, snapshot[t].sk);
  }

  /** Expiry touches only snapshot rows that share their surrogate key with a
      current row superseded by a candidate, and touches all of those. */
  lemma ExpiryTargets<A, K>(cands: seq<Versioned<A>>, snapshot: seq<Keyed<Versioned<A>>>, key: A -> K, tracked: A -> seq<Cell>, today: int, i: nat)
    requires snapshot != [] && i < |snapshot|
    ensures var ex := ExpiredKeys(Merge(cands, snapshot, key), tracked);
      snapshot[i].sk in ex <==>
        exists c, t :: c in cands && 0 <= t < |snapshot| && snapshot[t].sk == snapshot[i].sk && Supersedes(c, snapshot[t], key, tracked)
  {
    var ex := ExpiredKeys(Merge(cands, snapshot, key), tracked);
    if snapshot[i].sk in ex {
      ExpiredKeySound(cands, snapshot, key, tracked, snapshot[i].sk);
    }
    if exists c, t :: c in cands && 0 <= t < |snapshot| && snapshot[t].sk == snapshot[i].sk && Supersedes(c, snapshot[t], key, tracked) {
      var c, t :| c in cands && 0 <= t < |snapshot| && snapshot[t].sk == snapshot[i].sk && Supersedes(c, snapshot[t], key, tracked);
      ExpiredKeyComplete(cands, snapshot, key, tracked, c, t);
    }
  }

  // ---------------------------------------------------------------------
  // At most one current row per key

  predicate IsCurrent<A>(v: Versioned<A>) {
    v.currentFlag == CurrentFlag
  }

  /** No match key has two current rows. */
  predicate OneCurrentPerKey<A, K(==)>(rows: seq<Keyed<Versioned<A>>>, key: A -> K) {
    forall i, j :: 0 <= i < j < |rows| && IsCurrent(rows[i].row) && IsCurrent(rows[j].row) ==>
      key(rows[i].row.attrs) != key(rows[j].row.attrs)
  }

  /** The keyed rows as they are appended to the table, without `new`. */
  function Stored<A>(out: seq<Keyed<Candidate<A>>>): (r: seq<Keyed<Versioned<A>>>)
    ensures |r| == |out| && forall i :: 0 <= i < |out| ==> r[i] == Keyed(out[i].sk, out[i].row.row)
  {
    seq(|out|, i requires 0 <= i < |out| => Keyed(out[i].sk, out[i].row.row))
  }

  /** Two current rows in a candidate set never share a key. */
  predicate OneCurrentOut<A, K(==)>(out: seq<Candidate<A>>, key: A -> K) {
    forall i, j :: 0 <= i < j < |out| && IsCurrent(out[i].row) && IsCurrent(out[j].row) ==>
      key(out[i].row.attrs) != key(out[j].row.attrs)
  }

  lemma {:induction false} OneCurrentTail<A, K>(rows: seq<Keyed<Versioned<A>>>, key: A -> K)
    requires rows != [] && OneCurrentPerKey(rows, key)
    ensures OneCurrentPerKey(rows[1..], key)
  {
    forall i, j | 0 <= i < j < |rows| - 1 && IsCurrent(rows[1..][i].row) && IsCurrent(rows[1..][j].row)
      ensures key(rows[1..][i].row.attrs) != key(rows[1..][j].row.attrs)
    {
      assert rows[1..][i] == rows[i + 1] && rows[1..][j] == rows[j + 1];
    }
  }

  /** A current first row has no current rival of its key further on. */
  lemma CurrentHeadAlone<A, K>(snapshot: seq<Keyed<Versioned<A>>>, key: A -> K, x: Keyed<Versioned<A>>)
    requires OneCurrentPerKey(snapshot, key)
    requires snapshot != [] && x in snapshot[1..] && IsCurrent(snapshot[0].row)
    requires key(x.row.attrs) == key(snapshot[0].row.attrs)
    ensures !IsCurrent(x.row)
  {
    var t :| 0 <= t < |snapshot[1..]| && snapshot[1..][t] == x;
    assert snapshot[t + 1] == x;
  }

  /** At most one of the rows is current. */
  predicate AtMostOneCurrent<A>(rows: seq<Keyed<Versioned<A>>>) {
    forall i, j :: 0 <= i < j < |rows| ==> !(IsCurrent(rows[i].row) && IsCurrent(rows[j].row))
  }

  /** Among the snapshot rows one candidate matches, at most one is current. */
  lemma {:induction false} MatchesOneCurrent<A, K>(l: Versioned<A>, snapshot: seq<Keyed<Versioned<A>>>, key: A -> K)
    requires OneCurrentPerKey(snapshot, key)
    ensures AtMostOneCurrent(Matches(l, snapshot, CandKey(key), StoredKey(key)))
  {
    var lk, rk := CandKey(key), StoredKey(key);
    if snapshot != [] {
      OneCurrentTail(snapshot, key);
      MatchesOneCurrent(l, snapshot[1..], key);
      var rest := Matches(l, snapshot[1..], lk, rk);
      if rk(snapshot[0]) == lk(l) {
        assert Matches(l, snapshot, lk, rk) == [snapshot[0]] + rest;
        if IsCurrent(snapshot[0].row) {
          forall x | x in rest ensures !IsCurrent(x.row) {
            CurrentHeadAlone(snapshot, key, x);
          }
        }
        ConsOneCurrent(snapshot[0], rest);
      } else {
        assert Matches(l, snapshot, lk, rk) == [] + rest;
        assert [] + rest == rest;
      }
    }
  }

  lemma ConsOneCurrent<A>(h: Keyed<Versioned<A>>, rest: seq<Keyed<Versioned<A>>>)
    requires AtMostOneCurrent(rest)
    requires IsCurrent(h.row) ==> forall x :: x in rest ==> !IsCurrent(x.row)
    ensures AtMostOneCurrent([h] + rest)
  {
    var ms := [h] + rest;
    forall i, j | 0 <= i < j < |ms| ensures !(IsCurrent(ms[i].row) && IsCurrent(ms[j].row)) {
      assert ms[j] == rest[j - 1];
      if i > 0 {
        assert ms[i] == rest[i - 1];
      } else {
        assert rest[j - 1] in rest;
      }
    }
  }

  /** Merged rows that all carry a match, no two of them current, contain
      at most one changed row. */
  lemma {:induction false} ChangedOfMatched<A>(m: seq<Joined<Versioned<A>, Keyed<Versioned<A>>>>, tracked: A -> seq<Cell>)
    requires forall i :: 0 <= i < |m| ==> m[i].right.Some?
    requires forall i, j :: 0 <= i < j < |m| ==> !(IsCurrent(m[i].right.value.row) && IsCurrent(m[j].right.value.row))
    ensures |ChangedRows(m, tracked)| <= 1
    ensures (forall i :: 0 <= i < |m| ==> !IsCurrent(m[i].right.value.row)) ==> ChangedRows(m, tracked) == []
  {
    if m != [] {
      var rest := m[1..];
      assert forall i :: 0 <= i < |rest| ==> rest[i] == m[i + 1];
      ChangedOfMatched(rest, tracked);
      if IsCurrent(m[0].right.value.row) {
        assert forall i :: 0 <= i < |rest| ==> !IsCurrent(rest[i].right.value.row);
      }
    }
  }

  /** A candidate yields at most one changed row. */
  lemma ChangedOfOneCandidate<A, K>(c: Versioned<A>, snapshot: seq<Keyed<Versioned<A>>>, key: A -> K, tracked: A -> seq<Cell>)
    requires OneCurrentPerKey(snapshot, key)
    ensures var out := ChangedRows(JoinOne(c, snapshot, CandKey(key), StoredKey(key)), tracked);
      |out| <= 1 && forall i :: 0 <= i < |out| ==> out[i].row == c
  {
    var lk, rk := CandKey(key), StoredKey(key);
    var m := JoinOne(c, snapshot, lk, rk);
    var ms := Matches(c, snapshot, lk, rk);
    if ms != [] {
      MatchesOneCurrent(c, snapshot, key);
      assert |m| == |ms| && forall i :: 0 <= i < |m| ==> m[i] == Joined(c, Some(ms[i]));
      forall i, j | 0 <= i < j < |m| ensures !(IsCurrent(m[i].right.value.row) && IsCurrent(m[j].right.value.row)) {
        assert m[i].right.value == ms[i] && m[j].right.value == ms[j];
      }
      ChangedOfMatched(m, tracked);
    }
    var out := ChangedRows(m, tracked);
    forall i | 0 <= i < |out| ensures out[i].row == c {
      ChangedRowsMember(m, tracked, out[i]);
      var k :| 0 <= k < |m| && RowChanged(m[k], tracked) && out[i] == Candidate(m[k].left, m[k].right.None?);
      JoinOneMember(c, snapshot, lk, rk, m[k]);
    }
  }

  lemma UniqueKeysTail<T, K>(s: seq<T>, key: T -> K)
    requires s != [] && UniqueKeys(s, key)
    ensures UniqueKeys(s[1..], key)
    ensures forall t :: 0 <= t < |s[1..]| ==> key(s[1..][t]) != key(s[0])
  {
    forall i, j | 0 <= i < j < |s| - 1 ensures key(s[1..][i]) != key(s[1..][j]) {
      assert s[1..][i] == s[i + 1] && s[1..][j] == s[j + 1];
    }
    forall t | 0 <= t < |s[1..]| ensures key(s[1..][t]) != key(s[0]) {
      assert s[1..][t] == s[t + 1];
    }
  }

  /** The changed rows of later candidates carry other keys than the first. */
  lemma LaterKeysDiffer<A, K>(cands: seq<Versioned<A>>, snapshot: seq<Keyed<Versioned<A>>>, key: A -> K, tracked: A -> seq<Cell>)
    requires cands != [] && UniqueKeys(cands, CandKey(key))
    ensures var tail := ChangedRows(Merge(cands[1..], snapshot, key), tracked);
      forall j :: 0 <= j < |tail| ==> key(tail[j].row.attrs) != key(cands[0].attrs)
  {
    var rest := cands[1..];
    var tail := ChangedRows(Merge(rest, snapshot, key), tracked);
    UniqueKeysTail(cands, CandKey(key));
    forall j | 0 <= j < |tail| ensures key(tail[j].row.attrs) != key(cands[0].attrs) {
      OutputRowSound(rest, snapshot, key, tracked, tail[j]);
      var t :| 0 <= t < |rest| && rest[t] == tail[j].row;
      assert CandKey(key)(rest[t]) != CandKey(key)(cands[0]);
    }
  }

  /** With candidates of distinct keys, the changed rows never hold two
      current rows of one key. */
  lemma {:induction false} ChangedRowsOneCurrent<A, K>(cands: seq<Versioned<A>>, snapshot: seq<Keyed<Versioned<A>>>, key: A -> K, tracked: A -> seq<Cell>)
    requires OneCurrentPerKey(snapshot, key)
    requires UniqueKeys(cands, CandKey(key))
    ensures OneCurrentOut(ChangedRows(Merge(cands, snapshot, key), tracked), key)
  {
    var lk, rk := CandKey(key), StoredKey(key);
    if cands != [] {
      var rest := cands[1..];
      UniqueKeysTail(cands, lk);
      ChangedRowsOneCurrent(rest, snapshot, key, tracked);
      var one := JoinOne(cands[0], snapshot, lk, rk);
      var first := ChangedRows(one, tracked);
      var tail := ChangedRows(Merge(rest, snapshot, key), tracked);
      ChangedOfOneCandidate(cands[0], snapshot, key, tracked);
      LaterKeysDiffer(cands, snapshot, key, tracked);
      assert Merge(cands, snapshot, key) == one + Merge(rest, snapshot, key);
      ChangedRowsAppend(one, Merge(rest, snapshot, key), tracked);
      ConcatOneCurrent(first, tail, key, key(cands[0].attrs));
    }
  }

  lemma ConcatOneCurrent<A, K>(first: seq<Candidate<A>>, tail: seq<Candidate<A>>, key: A -> K, k0: K)
    requires |first| <= 1
    requires forall i :: 0 <= i < |first| ==> key(first[i].row.attrs) == k0
    requires forall j :: 0 <= j < |tail| ==> key(tail[j].row.attrs) != k0
    requires OneCurrentOut(tail, key)
    ensures OneCurrentOut(first + tail, key)
  {
    var out := first + tail;
    forall i, j | 0 <= i < j < |out| && IsCurrent(out[i].row) && IsCurrent(out[j].row)
      ensures key(out[i].row.attrs) != key(out[j].row.attrs)
    {
      if i < |first| {
        assert out[i] == first[0] && out[j] == tail[j - |first|];
      } else {
        assert out[i] == tail[i - |first|] && out[j] == tail[j - |first|];
      }
    }
  }

  lemma OneCurrentOfAllNew<A, K>(cands: seq<Versioned<A>>, key: A -> K)
    requires UniqueKeys(cands, CandKey(key))
    ensures OneCurrentOut(AllNew(cands), key)
  {
    var out := AllNew(cands);
    forall i, j | 0 <= i < j < |out| ensures key(out[i].row.attrs) != key(out[j].row.attrs) {
      assert CandKey(key)(cands[i]) != CandKey(key)(cands[j]);
    }
  }

  /** A current row left in the snapshot after expiry has no current
      counterpart among the changed rows. */
  lemma NoCurrentClash<A, K>(cands: seq<Versioned<A>>, snapshot: seq<Keyed<Versioned<A>>>, key: A -> K, tracked: A -> seq<Cell>, today: int, i: nat, c: Candidate<A>)
    requires OneCurrentPerKey(snapshot, key)
    requires snapshot != [] && i < |snapshot|
    requires IsCurrent(ScdSnapshot(cands, snapshot, key, tracked, today)[i].row)
    requires c in ScdOutput(cands, snapshot, key, tracked)
    ensures key(ScdSnapshot(cands, snapshot, key, tracked, today)[i].row.attrs) != key(c.row.attrs)
  {
    var merged := Merge(cands, snapshot, key);
    var ex := ExpiredKeys(merged, tracked);
    var after := Expire(snapshot, ex, today);
    assert snapshot[i].sk !in ex && after[i] == snapshot[i];
    OutputRowSound(cands, snapshot, key, tracked, c);
    if !c.isNew {
      var t :| 0 <= t < |snapshot| && Supersedes(c.row, snapshot[t], key, tracked);
      ExpiredKeyComplete(cands, snapshot, key, tracked, c.row, t);
      assert t != i;
      CurrentRivals(snapshot, key, i, t);
    }
  }

  lemma CurrentRivals<A, K>(snapshot: seq<Keyed<Versioned<A>>>, key: A -> K, i: nat, t: nat)
    requires OneCurrentPerKey(snapshot, key)
    requires i < |snapshot| && t < |snapshot| && i != t
    requires IsCurrent(snapshot[i].row) && IsCurrent(snapshot[t].row)
    ensures key(snapshot[i].row.attrs) != key(snapshot[t].row.attrs)
  {
    if t < i {
      assert key(snapshot[t].row.attrs) != key(snapshot[i].row.attrs);
    }
  }

  /** Expiry never makes a row current. */
  lemma OneCurrentAfterExpire<A, K>(snapshot: seq<Keyed<Versioned<A>>>, sks: seq<Key>, today: int, key: A -> K)
    requires OneCurrentPerKey(snapshot, key)
    ensures OneCurrentPerKey(Expire(snapshot, sks, today), key)
  {
    var after := Expire(snapshot, sks, today);
    forall i, j | 0 <= i < j < |after| && IsCurrent(after[i].row) && IsCurrent(after[j].row)
      ensures key(after[i].row.attrs) != key(after[j].row.attrs)
    {
      assert after[i] == snapshot[i] && after[j] == snapshot[j];
    }
  }

  lemma OneCurrentStored<A, K>(keyed: seq<Keyed<Candidate<A>>>, out: seq<Candidate<A>>, key: A -> K)
    requires |keyed| == |out| && forall p :: 0 <= p < |out| ==> keyed[p].row == out[p]
    requires OneCurrentOut(out, key)
    ensures OneCurrentPerKey(Stored(keyed), key)
  {
    var added := Stored(keyed);
    forall i, j | 0 <= i < j < |added| && IsCurrent(added[i].row) && IsCurrent(added[j].row)
      ensures key(added[i].row.attrs) != key(added[j].row.attrs)
    {
      assert added[i].row == out[i].row && added[j].row == out[j].row;
    }
  }

  lemma OneCurrentConcat<A, K>(after: seq<Keyed<Versioned<A>>>, added: seq<Keyed<Versioned<A>>>, key: A -> K)
    requires OneCurrentPerKey(after, key) && OneCurrentPerKey(added, key)
    requires forall i, p :: 0 <= i < |after| && 0 <= p < |added| && IsCurrent(after[i].row) && IsCurrent(added[p].row) ==>
      key(after[i].row.attrs) != key(added[p].row.attrs)
    ensures OneCurrentPerKey(after + added, key)
  {
    var table := after + added;
    forall i, j | 0 <= i < j < |table| && IsCurrent(table[i].row) && IsCurrent(table[j].row)
      ensures key(table[i].row.attrs) != key(table[j].row.attrs)
    {
      if j < |after| {
        assert table[i] == after[i] && table[j] == after[j];
      } else if i < |after| {
        assert table[i] == after[i] && table[j] == added[j - |after|];
      } else {
        assert table[i] == added[i - |after|] && table[j] == added[j - |after|];
      }
    }
  }

  /** SCD Type 2 exclusivity: when the snapshot has at most one current row
      per match key and the candidates have distinct match keys, the table
      after the expiry and the append of the keyed rows still has at most one
      current row per match key. */
  lemma ScdExclusive<A, K>(cands: seq<Versioned<A>>, snapshot: seq<Keyed<Versioned<A>>>, key: A -> K, tracked: A -> seq<Cell>, today: int, prefix: string)
    requires OneCurrentPerKey(snapshot, key)
    requires UniqueKeys(cands, CandKey(key))
    requires ScdResult(cands, snapshot, key, tracked, prefix).Ok?
    ensures OneCurrentPerKey(ScdSnapshot(cands, snapshot, key, tracked, today) + Stored(ScdResult(cands, snapshot, key, tracked, prefix).value), key)
  {
    var after := ScdSnapshot(cands, snapshot, key, tracked, today);
    var out := ScdOutput(cands, snapshot, key, tracked);
    var keyed := ScdResult(cands, snapshot, key, tracked, prefix).value;
    var added := Stored(keyed);
    if snapshot == [] {
      OneCurrentOfAllNew(cands, key);
    } else {
      ChangedRowsOneCurrent(cands, snapshot, key, tracked);
      OneCurrentAfterExpire(snapshot, ExpiredKeys(Merge(cands, snapshot, key), tracked), today, key);
    }
    OneCurrentStored(keyed, out, key);
    forall i, p | 0 <= i < |after| && 0 <= p < |added| && IsCurrent(after[i].row) && IsCurrent(added[p].row)
      ensures key(after[i].row.attrs) != key(added[p].row.attrs)
    {
      assert added[p].row == out[p].row && out[p] in out;
      NoCurrentClash(cands, snapshot, key, tracked, today, i, out[p]);
    }
    OneCurrentConcat(after, added, key);
  }

  // ---------------------------------------------------------------------
  // End dates and flags

  /** A row has an end date exactly when its flag is 'N'. */
  predicate EndDateIffExpired<A>(rows: seq<Keyed<Versioned<A>>>) {
    forall i :: 0 <= i < |rows| ==> (rows[i].row.scdEnd.Some? <==> rows[i].row.currentFlag == ExpiredFlag)
  }

  /** The transform keeps "end date iff flag 'N'": expiry sets both, the
      appended rows carry the stamp (no end date, flag 'Y'). */
  lemma EndDateIffExpiredKept<A, K>(cands: seq<Versioned<A>>, snapshot: seq<Keyed<Versioned<A>>>, key: A -> K, tracked: A -> seq<Cell>, today: int, prefix: string)
    requires EndDateIffExpired(snapshot)
    requires forall i :: 0 <= i < |cands| ==> IsOpenVersion(cands[i], today)
    requires ScdResult(cands, snapshot, key, tracked, prefix).Ok?
    ensures EndDateIffExpired(ScdSnapshot(cands, snapshot, key, tracked, today) + Stored(ScdResult(cands, snapshot, key, tracked, prefix).value))
  {
    var after := ScdSnapshot(cands, snapshot, key, tracked, today);
    var added := Stored(ScdResult(cands, snapshot, key, tracked, prefix).value);
    assert EndDateIffExpired(after) by {
      forall p | 0 <= p < |after| ensures after[p].row.scdEnd.Some? <==> after[p].row.currentFlag == ExpiredFlag {
      }
    }
    AppendedOpen(cands, snapshot, key, tracked, today, prefix);
    EndDateIffExpiredConcat(after, added);
  }

  /** The appended rows carry neither an end date nor flag 'N'. */
  lemma AppendedOpen<A, K>(cands: seq<Versioned<A>>, snapshot: seq<Keyed<Versioned<A>>>, key: A -> K, tracked: A -> seq<Cell>, today: int, prefix: string)
    requires forall i :: 0 <= i < |cands| ==> IsOpenVersion(cands[i], today)
    requires ScdResult(cands, snapshot, key, tracked, prefix).Ok?
    ensures EndDateIffExpired(Stored(ScdResult(cands, snapshot, key, tracked, prefix).value))
  {
    var out := ScdOutput(cands, snapshot, key, tracked);
    var added := Stored(ScdResult(cands, snapshot, key, tracked, prefix).value);
    forall q | 0 <= q < |added| ensures added[q].row.scdEnd.Some? <==> added[q].row.currentFlag == ExpiredFlag {
      assert added[q].row == out[q].row;
      assert out[q] in out;
      ScdOutputMember(cands, snapshot, key, tracked, out[q]);
    }
  }

  lemma EndDateIffExpiredConcat<A>(a: seq<Keyed<Versioned<A>>>, b: seq<Keyed<Versioned<A>>>)
    requires EndDateIffExpired(a) && EndDateIffExpired(b)
    ensures EndDateIffExpired(a + b)
  {
    forall p | 0 <= p < |a + b| ensures (a + b)[p].row.scdEnd.Some? <==> (a + b)[p].row.currentFlag == ExpiredFlag {
      if p >= |a| {
        assert (a + b)[p] == b[p - |a|];
      }
    }
  }
}
