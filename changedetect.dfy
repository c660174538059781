/** The row predicate `is_changed` of both dimension transforms: does a
    candidate row differ from the snapshot row it was merged with? */
module ChangeDetect {
  import opened Wrappers
  import opened Text

  /** One tracked cell as the merged frame holds it: missing (NaN / NaT /
      `None`), a string, a number or an already parsed day. */
  datatype Cell = Null | Str(s: string) | Num(n: int) | Day(d: int)

  /** The normalisation applied to both sides before comparing: strings are
      stripped and upper-cased, everything else is compared as it is. */
  function Normalize(c: Cell): Cell {
    match c
    case Str(s) => Str(Upper(Strip(s)))
    case _ => c
  }

  /** A string column cell; NaN is missing. */
  function StrCell(o: Option<string>): Cell {
    if o.Some? then Str(o.value) else Null
  }

  /** A numeric column cell; NaN is missing. */
  function NumCell(o: Option<int>): Cell {
    if o.Some? then Num(o.value) else Null
  }

  /** A date column cell after `pd.to_datetime`; NaT is missing. */
  function DayCell(o: Option<int>): Cell {
    if o.Some? then Day(o.value) else Null
  }

  /** Two cells that `is_changed` does not tell apart: both missing, or equal
      after normalisation. */
  predicate SameValue(a: Cell, b: Cell) {
    Normalize(a) == Normalize(b)
  }

  /** `row.get(c + '_old')`: a column the snapshot does not supply reads as `None`. */
  function ColumnAt(cells: seq<Cell>, i: nat): Cell {
    if i < |cells| then cells[i] else Null
  }

  /** Some tracked column differs between the stored and the candidate row. */
  predicate ColumnsDiffer(olds: seq<Cell>, news: seq<Cell>) {
    exists i :: 0 <= i < |news| && !SameValue(ColumnAt(olds, i), news[i])
  }

  /** What the merge supplies from the snapshot row: its current flag and
      its tracked columns. */
  datatype Prior = Prior(currentFlag: string, tracked: seq<Cell>)

  /** A candidate is changed when no snapshot row matched it, and otherwise
      only when the matched row is the current one and some tracked column
      differs. A match with a historical row never counts. */
  predicate IsChanged(prior: Option<Prior>, news: seq<Cell>)
    ensures IsChanged(prior, news) && prior.Some? ==> prior.value.currentFlag == "Y"
    ensures prior.Some? && (forall i :: 0 <= i < |news| ==> SameValue(ColumnAt(prior.value.tracked, i), news[i]))
      ==> !IsChanged(prior, news)
  {
    || prior.None?
    || (prior.value.currentFlag == "Y" && ColumnsDiffer(prior.value.tracked, news))
  }

  /** `is_changed(row)`: the loop over the tracked columns with its early
      returns. */
  method DetectChange(prior: Option<Prior>, news: seq<Cell>) returns (changed: bool)
    ensures prior.None? ==> changed
    ensures prior.Some? && prior.value.currentFlag != "Y" ==> !changed
    ensures prior.Some? && prior.value.currentFlag == "Y" ==>
      (changed <==> exists i :: 0 <= i < |news| && !SameValue(ColumnAt(prior.value.tracked, i), news[i]))
    ensures changed == IsChanged(prior, news)
  {
    if prior.None? {
      return true;
    }
    if prior.value.currentFlag != "Y" {
      return false;
    }
    for i := 0 to |news|
      invariant forall j :: 0 <= j < i ==> SameValue(ColumnAt(prior.value.tracked, j), news[j])
    {
      var oldVal := Normalize(ColumnAt(prior.value.tracked, i));
      var newVal := Normalize(news[i]);
      if oldVal.Null? && newVal.Null? {
        continue;
      }
      if oldVal != newVal {
        return true;
      }
    }
    return false;
  }

  lemma UpperIdempotent(s: string)
    ensures Upper(Upper(s)) == Upper(s)
  {
    assert forall i :: 0 <= i < |s| ==> Upper(Upper(s))[i] == Upper(s)[i];
  }

  /** Whitespace around a string and the case of its letters do not count
      as a change. */
  lemma PaddingAndCaseIgnored(pre: string, s: string, post: string)
    requires AllSpace(pre) && AllSpace(post)
    ensures SameValue(Str(pre + s + post), Str(Upper(s)))
    ensures SameValue(Str(pre + s + post), Str(s))
  {
    StripIgnoresPadding(pre, s, post);
    StripUpperCommute(s);
    UpperIdempotent(Strip(s));
  }

  /** A missing value on one side only is a change. */
  lemma NullAgainstValue(c: Cell)
    requires c != Null
    ensures !SameValue(Null, c) && !SameValue(c, Null)
  {
  }

  /** With both sides missing in every column the current row is unchanged;
      one column differing is enough for a change. */
  lemma ChangeNeedsADifference(p: Prior, news: seq<Cell>)
    requires p.currentFlag == "Y"
    ensures IsChanged(Some(p), news) <==> exists i :: 0 <= i < |news| && !SameValue(ColumnAt(p.tracked, i), news[i])
    ensures (forall i :: 0 <= i < |news| ==> news[i] == Null && ColumnAt(p.tracked, i) == Null) ==> !IsChanged(Some(p), news)
  {
  }

  /** A stored name "  john " and a candidate "JOHN" are the same value. */
  lemma NameExample(padded: string, upper: string)
    requires padded == "  john " && upper == "JOHN"
    ensures SameValue(Str(padded), Str(upper))
  {
    var pre, post := "  ", " ";
    assert AllSpace(pre) && AllSpace(post);
    assert padded == pre + "john" + post;
    PaddingAndCaseIgnored(pre, "john", post);
    var u := Upper("john");
    assert u[0] == 'J' && u[1] == 'O' && u[2] == 'H' && u[3] == 'N';
    assert u == "JOHN";
  }
}
