/** The surrogate-key generator (`generate_sk`): new rows get consecutive
    keys `prefix + n` that continue after the highest key already stored. */
module KeyGen {
  import opened Wrappers
  import opened Text

  /** A surrogate key cell: the text `prefix + n`, or the bare integer `n`
      when the prefix is empty. */
  datatype Key = Labelled(text: string) | Plain(n: int)

  /** A row with its surrogate-key column. */
  datatype Keyed<T> = Keyed(sk: Key, row: T)

  /** `int(...)` raised `ValueError` on this stored key. */
  datatype KeyError = UnparsableKey(key: Key)

  /** `str(x)` of a key cell. */
  function KeyText(k: Key): string {
    match k
    case Labelled(s) => s
    case Plain(n) => IntToString(n)
  }

  /** `int(str(x).replace(prefix, ''))`: the sequence number of a stored key,
      or `None` where `int` raises. */
  function KeySuffix(k: Key, prefix: string): Option<int> {
    ParseInt(RemoveAll(KeyText(k), prefix))
  }

  /** `f"{prefix}{n}"`, or `n` itself for an empty prefix (`if prefix:`). */
  function FormatKey(prefix: string, n: int): (r: Key)
    ensures prefix == "" ==> r == Plain(n)
    ensures prefix != "" ==> r.Labelled? && StartsWith(KeyText(r), prefix)
  {
    if prefix != "" then Labelled(prefix + IntToString(n)) else Plain(n)
  }

  /** A prefix that cannot be confused with the number after it. All four
      prefixes the ETL uses ("CUST", "PROD", "DATE", "SALES") are such. */
  predicate PrefixOk(prefix: string) {
    prefix == "" || (!IsDigit(prefix[0]) && prefix[0] != '-')
  }

  /** `df_current[sk_col].apply(lambda x: int(str(x).replace(prefix, '')))`:
      the sequence number of every stored key, `None` where `int` raises. */
  function Suffixes(existing: seq<Key>, prefix: string): (ps: seq<Option<int>>)
    ensures |ps| == |existing| && forall i :: 0 <= i < |existing| ==> ps[i] == KeySuffix(existing[i], prefix)
  {
    seq(|existing|, i requires 0 <= i < |existing| => KeySuffix(existing[i], prefix))
  }

  /** `.max()` of the parsed numbers. `apply` stops at the first key that
      does not parse, so the error is the position of the first `None`. */
  function MaxSuffix(ps: seq<Option<int>>): (r: Result<int, nat>)
    requires |ps| > 0
    ensures r.Ok? <==> forall i :: 0 <= i < |ps| ==> ps[i].Some?
    ensures r.Ok? ==> forall i :: 0 <= i < |ps| ==> ps[i].value <= r.value
    ensures r.Ok? ==> exists i :: 0 <= i < |ps| && ps[i] == Some(r.value)
    ensures r.Err? ==> r.error < |ps| && ps[r.error].None? && forall j :: 0 <= j < r.error ==> ps[j].Some?
  {
    match ps[0]
    case None => Err(0)
    case Some(v) =>
      if |ps| == 1 then Ok(v)
      else
        match MaxSuffix(ps[1..])
        case Err(e) =>
          assert forall i :: 1 <= i < |ps| ==> ps[1..][i - 1] == ps[i];
          Err(e + 1)
        case Ok(m) =>
          assert forall i :: 1 <= i < |ps| ==> ps[1..][i - 1] == ps[i];
          Ok(if v >= m then v else m)
  }

  /** The number the next key continues from: the stored maximum, or 0 when
      nothing is stored; the first stored key that does not parse raises. */
  function LastSequence(existing: seq<Key>, prefix: string): (r: Result<int, KeyError>)
    ensures existing == [] ==> r == Ok(0)
    ensures existing != [] && r.Ok? ==> MaxSuffix(Suffixes(existing, prefix)) == Ok(r.value)
    ensures r.Ok? ==> forall i :: 0 <= i < |existing| ==>
      KeySuffix(existing[i], prefix).Some? && KeySuffix(existing[i], prefix).value <= r.value
    ensures existing != [] && r.Ok? ==> exists i :: 0 <= i < |existing| && KeySuffix(existing[i], prefix) == Some(r.value)
    ensures r.Err? <==> exists i :: 0 <= i < |existing| && KeySuffix(existing[i], prefix).None?
    ensures r.Err? ==> exists i :: (0 <= i < |existing| && r.error == UnparsableKey(existing[i])
      && KeySuffix(existing[i], prefix).None?)
  {
    if existing == [] then Ok(0)
    else
      match MaxSuffix(Suffixes(existing, prefix))
      case Err(i) => Err(UnparsableKey(existing[i]))
      case Ok(m) => Ok(m)
  }

  /** `generate_sk(df_new, df_current, sk_col, prefix)`. `existing` is the
      `sk_col` column of `df_current`, and `[]` when there is no current frame,
      it is empty or it lacks that column. The rows come back unchanged and in
      order, each with one key; numbering continues after `LastSequence`. */
  function GenerateSk<T>(rows: seq<T>, existing: seq<Key>, prefix: string): (r: Result<seq<Keyed<T>>, KeyError>)
    ensures r.Err? <==> LastSequence(existing, prefix).Err?
    ensures r.Err? ==> r.error == LastSequence(existing, prefix).error
    ensures r.Ok? ==> |r.value| == |rows| && forall i :: 0 <= i < |rows| ==>
      r.value[i] == Keyed(FormatKey(prefix, LastSequence(existing, prefix).value + 1 + i), rows[i])
  {
    match LastSequence(existing, prefix)
    case Err(e) => Err(e)
    case Ok(m) => Ok(seq(|rows|, i requires 0 <= i < |rows| => Keyed(FormatKey(prefix, m + 1 + i), rows[i])))
  }

  lemma IntToStringChars(n: int)
    ensures forall i :: 0 <= i < |IntToString(n)| ==> IsDigit(IntToString(n)[i]) || IntToString(n)[i] == '-'
  {
  }

  /** A generated key parses back to its sequence number. */
  lemma FormatKeySuffix(prefix: string, n: int)
    requires PrefixOk(prefix)
    ensures KeySuffix(FormatKey(prefix, n), prefix) == Some(n)
  {
    ParseIntToString(n);
    if prefix != "" {
      IntToStringChars(n);
      RemoveLeadingPattern(prefix, IntToString(n));
    }
  }

  /** Different sequence numbers give different keys, whatever the prefix. */
  lemma FormatKeyInjective(prefix: string, a: int, b: int)
    requires FormatKey(prefix, a) == FormatKey(prefix, b)
    ensures a == b
  {
    if prefix != "" {
      assert (prefix + IntToString(a))[|prefix|..] == IntToString(a);
      assert (prefix + IntToString(b))[|prefix|..] == IntToString(b);
      IntToStringInjective(a, b);
    }
  }

  /** Rows numbered one after another carry pairwise distinct keys. */
  lemma NumberedKeysDistinct<T>(rows: seq<Keyed<T>>, prefix: string, first: int)
    requires forall k :: 0 <= k < |rows| ==> rows[k].sk == FormatKey(prefix, first + k)
    ensures forall i, j :: 0 <= i < j < |rows| ==> rows[i].sk != rows[j].sk
  {
    forall i, j | 0 <= i < j < |rows| ensures rows[i].sk != rows[j].sk {
      if rows[i].sk == rows[j].sk {
        FormatKeyInjective(prefix, first + i, first + j);
      }
    }
  }

  /** The keys handed out in one call are pairwise distinct. */
  lemma GeneratedKeysDistinct<T>(rows: seq<T>, existing: seq<Key>, prefix: string)
    requires GenerateSk(rows, existing, prefix).Ok?
    ensures var out := GenerateSk(rows, existing, prefix).value;
      forall i, j :: 0 <= i < j < |out| ==> out[i].sk != out[j].sk
  {
    var out := GenerateSk(rows, existing, prefix).value;
    NumberedKeysDistinct(out, prefix, LastSequence(existing, prefix).value + 1);
  }

  /** Every new key's number is above every stored key's number, so new keys
      never collide with the stored ones, historical rows included. */
  lemma GeneratedKeysAboveExisting<T>(rows: seq<T>, existing: seq<Key>, prefix: string)
    requires PrefixOk(prefix)
    requires GenerateSk(rows, existing, prefix).Ok?
    ensures var out := GenerateSk(rows, existing, prefix).value;
      && (forall i :: 0 <= i < |out| ==> KeySuffix(out[i].sk, prefix).Some?)
      && (forall i, j :: 0 <= i < |out| && 0 <= j < |existing| ==>
            KeySuffix(existing[j], prefix).value < KeySuffix(out[i].sk, prefix).value)
      && (forall i, j :: 0 <= i < |out| && 0 <= j < |existing| ==> out[i].sk != existing[j])
  {
    var out := GenerateSk(rows, existing, prefix).value;
    var m := LastSequence(existing, prefix).value;
    forall i | 0 <= i < |out| ensures KeySuffix(out[i].sk, prefix) == Some(m + 1 + i) {
      assert out[i].sk == FormatKey(prefix, m + 1 + i);
      FormatKeySuffix(prefix, m + 1 + i);
    }
    SuffixesAbove(out, existing, prefix, m);
  }

  lemma SuffixesAbove<T>(out: seq<Keyed<T>>, existing: seq<Key>, prefix: string, m: int)
    requires forall i :: 0 <= i < |out| ==> KeySuffix(out[i].sk, prefix) == Some(m + 1 + i)
    requires forall j :: 0 <= j < |existing| ==> KeySuffix(existing[j], prefix).Some? && KeySuffix(existing[j], prefix).value <= m
    ensures forall i :: 0 <= i < |out| ==> KeySuffix(out[i].sk, prefix).Some?
    ensures forall i, j :: 0 <= i < |out| && 0 <= j < |existing| ==>
      KeySuffix(existing[j], prefix).value < KeySuffix(out[i].sk, prefix).value
    ensures forall i, j :: 0 <= i < |out| && 0 <= j < |existing| ==> out[i].sk != existing[j]
  {
  }

  /** The keys of a generated batch, as they are stored. */
  function KeysOf<T>(rows: seq<Keyed<T>>): (ks: seq<Key>)
    ensures |ks| == |rows| && forall i :: 0 <= i < |rows| ==> ks[i] == rows[i].sk
  {
    seq(|rows|, i requires 0 <= i < |rows| => rows[i].sk)
  }

  /** The stored maximum is unique: a number at least every stored number
      and equal to one of them is the maximum. */
  lemma LastSequenceIs(existing: seq<Key>, prefix: string, b: int, w: nat)
    requires w < |existing| && KeySuffix(existing[w], prefix) == Some(b)
    requires forall i :: 0 <= i < |existing| ==> KeySuffix(existing[i], prefix).Some? && KeySuffix(existing[i], prefix).value <= b
    ensures LastSequence(existing, prefix) == Ok(b)
  {
    var r := LastSequence(existing, prefix);
    assert r.Ok?;
    var i :| 0 <= i < |existing| && KeySuffix(existing[i], prefix) == Some(r.value);
    assert r.value <= b && b <= r.value;
  }

  /** Key monotonicity across runs: once a batch's keys are stored, the
      next call continues above all of them. */
  lemma NextRunContinues<T, U>(rows1: seq<T>, rows2: seq<U>, existing: seq<Key>, prefix: string)
    requires PrefixOk(prefix)
    requires GenerateSk(rows1, existing, prefix).Ok?
    ensures var stored := existing + KeysOf(GenerateSk(rows1, existing, prefix).value);
      var r2 := GenerateSk(rows2, stored, prefix);
      && r2.Ok?
      && forall i, j :: 0 <= i < |r2.value| && 0 <= j < |stored| ==>
           && KeySuffix(stored[j], prefix).Some? && KeySuffix(r2.value[i].sk, prefix).Some?
           && KeySuffix(stored[j], prefix).value < KeySuffix(r2.value[i].sk, prefix).value
  {
    var out1 := GenerateSk(rows1, existing, prefix).value;
    GeneratedKeysAboveExisting(rows1, existing, prefix);
    assert LastSequence(existing, prefix).Ok?;
    var stored := existing + KeysOf(out1);
    StoredKeysParse(existing, out1, prefix);
    assert LastSequence(stored, prefix).Ok?;
    GeneratedKeysAboveExisting(rows2, stored, prefix);
  }

  lemma StoredKeysParse<T>(existing: seq<Key>, out: seq<Keyed<T>>, prefix: string)
    requires forall j :: 0 <= j < |existing| ==> KeySuffix(existing[j], prefix).Some?
    requires forall i :: 0 <= i < |out| ==> KeySuffix(out[i].sk, prefix).Some?
    ensures forall j :: 0 <= j < |existing + KeysOf(out)| ==> KeySuffix((existing + KeysOf(out))[j], prefix).Some?
  {
    var stored := existing + KeysOf(out);
    forall j | 0 <= j < |stored| ensures KeySuffix(stored[j], prefix).Some? {
      if j >= |existing| {
        assert stored[j] == out[j - |existing|].sk;
      }
    }
  }
}
