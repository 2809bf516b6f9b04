/**
 * The slice of pandas' DataFrame behaviour that the reshaper relies on.
 *
 * A table is a sequence of labels (repeats allowed, as pandas allows them)
 * and a sequence of rows; a row holds one cell per label and a cell is a
 * value or missing (NaN / None).  Rows are addressed by position: the row
 * index that pandas carries alongside is not modelled.
 */
module Tables {
  import opened Wrappers

  datatype Value = Num(n: real) | Text(s: string)

  type Cell = Option<Value>

  type Row = seq<Cell>

  datatype Table = Table(columns: seq<string>, rows: seq<Row>)

  /** Every row has exactly one cell per column label. */
  predicate WellFormed(t: Table) {
    forall i :: 0 <= i < |t.rows| ==> |t.rows[i]| == |t.columns|
  }

  /** What pandas or Python raises on the paths the model follows. */
  datatype Error =
    | MissingLabel(name: string)    // KeyError: no column carries this label
    | AmbiguousLabel(name: string)  // the label names several columns where one Series is needed
    | ReindexDuplicates              // concat had to realign a part whose labels repeat
    | NonNumeric(name: string)      // TypeError: arithmetic on a text cell of this column
    | EmptyStatus                    // IndexError: `status[0]` of an empty list
    | UnknownKeep(keep: string)      // KeyError: `keep` is neither "first" nor "last"
    | EmptyDupKey                    // ValueError: `duplicated` over no column at all
    | ScalarIntoEmpty(name: string) // ValueError: a scalar set into a new column of a frame without rows

  // ---------------------------------------------------------------------------
  // Sequences

  predicate Distinct<T(==)>(s: seq<T>) {
    forall i, j :: 0 <= i < j < |s| ==> s[i] != s[j]
  }

  /** The position of the first occurrence of `x`. */
  function IndexOf<T(==)>(s: seq<T>, x: T): (r: nat)
    requires x in s
    ensures r < |s| && s[r] == x
    ensures forall j :: 0 <= j < r ==> s[j] != x
  {
    if s[0] == x then 0 else 1 + IndexOf(s[1..], x)
  }

  /** The position of the last occurrence of `x`. */
  function LastIndexOf<T(==)>(s: seq<T>, x: T): (r: nat)
    requires x in s
    ensures r < |s| && s[r] == x
    ensures forall j :: r < j < |s| ==> s[j] != x
  {
    var n := |s| - 1;
    if s[n] == x then n
    else
      assert x in s[..n] by {
        var i :| 0 <= i < |s| && s[i] == x;
        assert s[..n][i] == x;
      }
      LastIndexOf(s[..n], x)
  }

  /** In a sequence without repeats the first occurrence of `s[k]` is `k` itself. */
  lemma IndexOfDistinct<T>(s: seq<T>, k: nat)
    requires Distinct(s) && k < |s|
    ensures IndexOf(s, s[k]) == k
  {
  }

  /** `drop_duplicates()`: the first occurrence of every element, in their original order. */
  function Dedup<T(==)>(s: seq<T>): (r: seq<T>)
    ensures forall i :: 0 <= i < |s| ==> s[i] in r
    ensures forall k :: 0 <= k < |r| ==> r[k] in s
    ensures Distinct(r)
    ensures |r| <= |s|
  {
    if s == [] then []
    else
      var init := s[..|s| - 1];
      assert s == init + [s[|s| - 1]];
      if s[|s| - 1] in init then Dedup(init) else Dedup(init) + [s[|s| - 1]]
  }

  /** The elements of `s` whose flag in `drop` is false, in order (`df.loc[~drop]`). */
  function Filter<T>(s: seq<T>, drop: seq<bool>): (r: seq<T>)
    requires |drop| == |s|
    ensures |r| <= |s|
  {
    if s == [] then []
    else
      Filter(s[..|s| - 1], drop[..|s| - 1]) + (if drop[|s| - 1] then [] else [s[|s| - 1]])
  }

  /** The positions whose flag is false, in increasing order. */
  function Kept(drop: seq<bool>): (r: seq<nat>)
    ensures forall k :: 0 <= k < |r| ==> r[k] < |drop| && !drop[r[k]]
    ensures forall k, l :: 0 <= k < l < |r| ==> r[k] < r[l]
    ensures forall i :: 0 <= i < |drop| && !drop[i] ==> i in r
  {
    if drop == [] then []
    else Kept(drop[..|drop| - 1]) + (if drop[|drop| - 1] then [] else [|drop| - 1])
  }

  /** Filtering keeps exactly the unflagged elements, in order. */
  lemma {:induction false} FilterAt<T>(s: seq<T>, drop: seq<bool>)
    requires |drop| == |s|
    ensures |Filter(s, drop)| == |Kept(drop)|
    ensures forall k :: 0 <= k < |Kept(drop)| ==> Filter(s, drop)[k] == s[Kept(drop)[k]]
  {
    if s != [] {
      var n := |s| - 1;
      var f0, k0 := Filter(s[..n], drop[..n]), Kept(drop[..n]);
      FilterAt(s[..n], drop[..n]);
      assert drop[..n] == drop[..|drop| - 1];
      assert Filter(s, drop) == f0 + (if drop[n] then [] else [s[n]]);
      assert Kept(drop) == k0 + (if drop[n] then [] else [n]);
      forall k | 0 <= k < |Kept(drop)|
        ensures Filter(s, drop)[k] == s[Kept(drop)[k]]
      {
        if k < |k0| {
          assert Filter(s, drop)[k] == f0[k] == s[..n][k0[k]];
          assert Kept(drop)[k] == k0[k];
        }
      }
    }
  }

  /** Filtering the rows of a well-formed table leaves it well-formed and no longer. */
  lemma {:induction false} FilterRowsWellFormed(t: Table, drop: seq<bool>)
    requires WellFormed(t) && |drop| == |t.rows|
    ensures WellFormed(Table(t.columns, Filter(t.rows, drop)))
    ensures |Filter(t.rows, drop)| <= |t.rows|
    decreases |t.rows|
  {
    if t.rows != [] {
      var n := |t.rows| - 1;
      FilterRowsWellFormed(Table(t.columns, t.rows[..n]), drop[..n]);
    }
  }

  /**
   * `duplicated(keep="first")` when `first` (a position is flagged when an
   * earlier one holds an equal key), `duplicated(keep="last")` otherwise (when
   * a later one does).
   */
  function DupFlags<T(==)>(keys: seq<T>, first: bool): (r: seq<bool>)
    ensures |r| == |keys|
    ensures keys != [] ==> !r[if first then 0 else |keys| - 1]
  {
    seq(|keys|, i requires 0 <= i < |keys| => DupAt(keys, i, first))
  }

  /** Whether position `i` is a duplicate when the first (`first`) or the last occurrence is kept. */
  predicate DupAt<T(==)>(keys: seq<T>, i: nat, first: bool)
    requires i < |keys|
    ensures DupAt(keys, i, first) ==> exists j :: 0 <= j < |keys| && j != i && keys[j] == keys[i]
    ensures (if first then i == 0 else i == |keys| - 1) ==> !DupAt(keys, i, first)
  {
    if first then exists j | 0 <= j < i :: keys[j] == keys[i]
    else exists j | i < j < |keys| :: keys[j] == keys[i]
  }

  /** Flags kept from the first occurrence depend only on what precedes them. */
  lemma FirstFlagsPrefix<T>(s: seq<T>, n: nat)
    requires n <= |s|
    ensures DupFlags(s, true)[..n] == DupFlags(s[..n], true)
  {
    var a := DupFlags(s, true)[..n];
    var b := DupFlags(s[..n], true);
    forall i | 0 <= i < n ensures a[i] == b[i] {
      assert a[i] == DupAt(s, i, true);
      assert b[i] == DupAt(s[..n], i, true);
      assert forall j :: 0 <= j < i ==> s[..n][j] == s[j];
    }
  }

  /** The last position is a duplicate exactly when its value occurs before it. */
  lemma FirstFlagLast<T>(s: seq<T>)
    requires s != []
    ensures DupFlags(s, true)[|s| - 1] <==> s[|s| - 1] in s[..|s| - 1]
  {
    var n := |s| - 1;
    assert DupFlags(s, true)[n] == DupAt(s, n, true);
    if s[n] in s[..n] {
      var j := IndexOf(s[..n], s[n]);
      assert s[j] == s[n];
    }
  }

  /** `drop_duplicates()` is `loc[~duplicated(keep="first")]`. */
  lemma {:induction false} DedupIsFilterFirst<T>(s: seq<T>)
    ensures Dedup(s) == Filter(s, DupFlags(s, true))
  {
    if s != [] {
      var n := |s| - 1;
      DedupIsFilterFirst(s[..n]);
      FirstFlagsPrefix(s, n);
      FirstFlagLast(s);
    }
  }

  /**
   * Under either direction every key keeps a representative: the first
   * occurrence of the key when the first is kept, its last one otherwise.
   */
  function Representative<T(==)>(keys: seq<T>, i: nat, first: bool): (k: nat)
    requires i < |keys|
    ensures k < |keys| && keys[k] == keys[i] && !DupAt(keys, k, first)
  {
    if first then IndexOf(keys, keys[i]) else LastIndexOf(keys, keys[i])
  }

  /** Under either direction no two unflagged positions hold equal keys. */
  lemma AtMostOneSurvivor<T>(keys: seq<T>, first: bool, i: nat, k: nat)
    requires i < k < |keys| && !DupAt(keys, i, first) && !DupAt(keys, k, first)
    ensures keys[i] != keys[k]
  {
  }

  /**
   * For an unflagged position, being flagged in the opposite direction means
   * exactly that some other position holds an equal key.
   */
  lemma OppositeFlagMeansShared<T>(keys: seq<T>, first: bool, i: nat)
    requires i < |keys| && !DupAt(keys, i, first)
    ensures DupAt(keys, i, !first) <==> exists j :: 0 <= j < |keys| && j != i && keys[j] == keys[i]
  {
  }


  // ---------------------------------------------------------------------------
  // Labels

  /** The positions that carry `lbl`, in increasing order. */
  function Positions(cols: seq<string>, lbl: string): (r: seq<nat>)
    ensures forall k :: 0 <= k < |r| ==> r[k] < |cols| && cols[r[k]] == lbl
    ensures forall k, l :: 0 <= k < l < |r| ==> r[k] < r[l]
    ensures lbl in cols <==> |r| > 0
  {
    if cols == [] then []
    else
      var n := |cols| - 1;
      assert cols == cols[..n] + [cols[n]];
      Positions(cols[..n], lbl) + (if cols[n] == lbl then [n] else [])
  }

  /** Every position carrying `lbl` is among its positions. */
  lemma {:induction false} PositionsComplete(cols: seq<string>, lbl: string, j: nat)
    requires j < |cols| && cols[j] == lbl
    ensures j in Positions(cols, lbl)
  {
    var n := |cols| - 1;
    if j < n {
      PositionsComplete(cols[..n], lbl, j);
    }
  }

  /** The labels of `b` that `a` lacks, in `b`'s order. */
  function Without(b: seq<string>, a: seq<string>): (r: seq<string>)
    ensures forall c :: c in r <==> c in b && c !in a
  {
    if b == [] then []
    else
      var n := |b| - 1;
      assert b == b[..n] + [b[n]];
      Without(b[..n], a) + (if b[n] in a then [] else [b[n]])
  }

  /** The elements of `s` at positions `ps`, in the order of `ps`. */
  function Pick<T>(s: seq<T>, ps: seq<nat>): (r: seq<T>)
    requires forall k :: 0 <= k < |ps| ==> ps[k] < |s|
    ensures |r| == |ps|
  {
    seq(|ps|, k requires 0 <= k < |ps| => s[ps[k]])
  }

  // ---------------------------------------------------------------------------
  // Column access

  /** For each label in turn, every position that carries it. */
  function LabelPositions(cols: seq<string>, labels: seq<string>): (r: seq<nat>)
    ensures forall k :: 0 <= k < |r| ==> r[k] < |cols|
  {
    if labels == [] then []
    else LabelPositions(cols, labels[..|labels| - 1]) + Positions(cols, labels[|labels| - 1])
  }

  /**
   * `t.loc[:, labels]`: for each requested label, every column carrying it; a
   * label requested twice yields its columns twice.
   */
  function LocColumns(t: Table, labels: seq<string>): (r: Table)
    requires WellFormed(t)
    ensures WellFormed(r) && |r.rows| == |t.rows|
  {
    var ps := LabelPositions(t.columns, labels);
    Table(Pick(t.columns, ps), seq(|t.rows|, i requires 0 <= i < |t.rows| => Pick(t.rows[i], ps)))
  }

  /** Over distinct labels a label that occurs sits at exactly one position. */
  lemma PositionsDistinct(cols: seq<string>, lbl: string)
    requires Distinct(cols) && lbl in cols
    ensures |Positions(cols, lbl)| == 1
  {
    var r := Positions(cols, lbl);
    forall k | 0 <= k < |r|
      ensures r[k] == r[0]
    {
      assert cols[r[k]] == cols[r[0]];
    }
  }

  /** Over distinct labels, selecting labels that all occur yields one position per label, carrying that label. */
  lemma {:induction false} LabelPositionsDistinct(cols: seq<string>, labels: seq<string>)
    requires Distinct(cols)
    requires forall k :: 0 <= k < |labels| ==> labels[k] in cols
    ensures |LabelPositions(cols, labels)| == |labels|
    ensures forall k :: 0 <= k < |labels| ==> cols[LabelPositions(cols, labels)[k]] == labels[k]
  {
    if labels != [] {
      var n := |labels| - 1;
      var init := labels[..n];
      assert forall k :: 0 <= k < n ==> init[k] == labels[k];
      LabelPositionsDistinct(cols, init);
      PositionsDistinct(cols, labels[n]);
      var a := LabelPositions(cols, init);
      var r := LabelPositions(cols, labels);
      assert r == a + Positions(cols, labels[n]);
      forall k | 0 <= k < |labels|
        ensures cols[r[k]] == labels[k]
      {
        if k < n {
          assert r[k] == a[k];
          assert init[k] == labels[k];
        } else {
          var ps := Positions(cols, labels[n]);
          assert r[k] == ps[0];
        }
      }
    }
  }

  /** Over distinct labels, `t.loc[:, labels]` carries exactly the requested labels, in order. */
  lemma LocColumnsDistinct(t: Table, labels: seq<string>)
    requires WellFormed(t) && Distinct(t.columns)
    requires forall k :: 0 <= k < |labels| ==> labels[k] in t.columns
    ensures LocColumns(t, labels).columns == labels
  {
    LabelPositionsDistinct(t.columns, labels);
  }

  /** `t.loc[:, labels]` carries every requested label that `t` has. */
  lemma LocColumnsPresent(t: Table, labels: seq<string>, c: string)
    requires WellFormed(t) && c in labels && c in t.columns
    ensures c in LocColumns(t, labels).columns
  {
    var ps := LabelPositions(t.columns, labels);
    var k := LabelPositionsPresent(t.columns, labels, c);
    assert LocColumns(t, labels).columns[k] == t.columns[ps[k]];
  }

  /** A requested label that occurs has a position among the selected ones. */
  lemma {:induction false} LabelPositionsPresent(cols: seq<string>, labels: seq<string>, c: string) returns (k: nat)
    requires c in labels && c in cols
    ensures k < |LabelPositions(cols, labels)| && cols[LabelPositions(cols, labels)[k]] == c
  {
    var n := |labels| - 1;
    var a := LabelPositions(cols, labels[..n]);
    var ps := Positions(cols, labels[n]);
    assert LabelPositions(cols, labels) == a + ps;
    if labels[n] == c {
      k := |a|;
    } else {
      assert labels == labels[..n] + [labels[n]];
      k := LabelPositionsPresent(cols, labels[..n], c);
    }
  }

  /**
   * `t[lbl] = vals`: every column carrying `lbl` takes the values, or a
   * new column `lbl` is appended when none does.
   */
  function SetColumn(t: Table, lbl: string, vals: seq<Cell>): (r: Table)
    requires WellFormed(t) && |vals| == |t.rows|
    ensures WellFormed(r) && |r.rows| == |t.rows|
    ensures r.columns == if lbl in t.columns then t.columns else t.columns + [lbl]
    ensures forall i, j :: 0 <= i < |r.rows| && 0 <= j < |r.columns| ==>
      r.rows[i][j] == if r.columns[j] == lbl then vals[i] else t.rows[i][j]
  {
    if lbl in t.columns then
      Table(t.columns, seq(|t.rows|, i requires 0 <= i < |t.rows| =>
        seq(|t.columns|, j requires 0 <= j < |t.columns| =>
          if t.columns[j] == lbl then vals[i] else t.rows[i][j])))
    else
      Table(t.columns + [lbl], seq(|t.rows|, i requires 0 <= i < |t.rows| => t.rows[i] + [vals[i]]))
  }

  /**
   * `t.loc[mask, lbl] = v`: the masked rows take `v` in every column
   * carrying `lbl`; an absent label becomes a new column that is missing
   * outside the mask. A frame without rows has no index to set a scalar
   * against, so an absent label there raises ValueError.
   */
  function AssignMasked(t: Table, mask: seq<bool>, lbl: string, v: Value): (r: Result<Table, Error>)
    requires WellFormed(t) && |mask| == |t.rows|
    ensures r.Err? <==> |t.rows| == 0 && lbl !in t.columns
    ensures r.Err? ==> r.error == ScalarIntoEmpty(lbl)
    ensures r.Ok? ==> WellFormed(r.value) && |r.value.rows| == |t.rows|
    ensures r.Ok? ==> r.value.columns == if lbl in t.columns then t.columns else t.columns + [lbl]
    ensures r.Ok? ==> forall i, j :: 0 <= i < |r.value.rows| && 0 <= j < |r.value.columns| ==>
      r.value.rows[i][j] == if r.value.columns[j] == lbl && mask[i] then Some(v)
                            else if j < |t.columns| then t.rows[i][j] else None
  {
    if lbl in t.columns then
      Ok(Table(t.columns, seq(|t.rows|, i requires 0 <= i < |t.rows| =>
        seq(|t.columns|, j requires 0 <= j < |t.columns| =>
          if t.columns[j] == lbl && mask[i] then Some(v) else t.rows[i][j]))))
    else if |t.rows| == 0 then
      Err(ScalarIntoEmpty(lbl))
    else
      Ok(Table(t.columns + [lbl], seq(|t.rows|, i requires 0 <= i < |t.rows| =>
        t.rows[i] + [if mask[i] then Some(v) else None])))
  }

  /** The row mask `:` of `t.loc[:, lbl]`: every one of `n` rows. */
  function EveryRow(n: nat): (r: seq<bool>)
    ensures |r| == n && forall i :: 0 <= i < n ==> r[i]
  {
    seq(n, _ => true)
  }

  /** `t[lbl]` as a single Series: the label must name exactly one column. */
  function ColumnValues(t: Table, lbl: string): (r: Result<seq<Cell>, Error>)
    requires WellFormed(t)
    ensures r.Ok? <==> |Positions(t.columns, lbl)| == 1
    ensures r.Err? ==> r.error == if lbl in t.columns then AmbiguousLabel(lbl) else MissingLabel(lbl)
    ensures r.Ok? ==> |r.value| == |t.rows| && lbl in t.columns
    ensures r.Ok? ==> forall i :: 0 <= i < |t.rows| ==> r.value[i] == t.rows[i][IndexOf(t.columns, lbl)]
  {
    if lbl !in t.columns then
      Err(MissingLabel(lbl))
    else
      var j := IndexOf(t.columns, lbl);
      PositionsComplete(t.columns, lbl, j);
      if |Positions(t.columns, lbl)| > 1 then Err(AmbiguousLabel(lbl))
      else Ok(seq(|t.rows|, i requires 0 <= i < |t.rows| => t.rows[i][j]))
  }

  // ---------------------------------------------------------------------------
  // Concatenation

  /**
   * The labels of `pd.concat([a, b])`: the labels of the column-less initial
   * frame's partner as they are; two equal label sequences as they are;
   * otherwise the labels of `a`, then the new labels of `b`, each once.
   */
  function LabelUnion(a: seq<string>, b: seq<string>): (u: seq<string>)
    ensures forall c :: c in u <==> c in a || c in b
  {
    if a == [] then b
    else if a == b then a
    else Dedup(a) + Dedup(Without(b, a))
  }

  /**
   * Realigns the rows of `t` on the labels `u`: unchanged when the labels
   * already agree, refused when they do not and `t`'s labels repeat,
   * otherwise each cell is taken from the column of the same label and an
   * absent label gives a missing cell.
   */
  function Reindex(t: Table, u: seq<string>): (r: Result<seq<Row>, Error>)
    requires WellFormed(t)
    ensures r.Ok? <==> t.columns == u || Distinct(t.columns)
    ensures r.Err? ==> r.error == ReindexDuplicates
    ensures r.Ok? ==> |r.value| == |t.rows| && forall i :: 0 <= i < |r.value| ==> |r.value[i]| == |u|
    ensures r.Ok? && t.columns == u ==> r.value == t.rows
  {
    if t.columns == u then Ok(t.rows)
    else if !Distinct(t.columns) then Err(ReindexDuplicates)
    else
      Ok(seq(|t.rows|, i requires 0 <= i < |t.rows| =>
        seq(|u|, k requires 0 <= k < |u| =>
          if u[k] in t.columns then t.rows[i][IndexOf(t.columns, u[k])] else None)))
  }

  /**
   * Over distinct labels each realigned cell comes from the column of the
   * same label, and a label `t` lacks gives a missing cell.
   */
  lemma ReindexCell(t: Table, u: seq<string>, i: nat, k: nat)
    requires WellFormed(t) && Distinct(t.columns) && i < |t.rows| && k < |u|
    ensures Reindex(t, u).Ok?
    ensures Reindex(t, u).value[i][k] ==
      if u[k] in t.columns then t.rows[i][IndexOf(t.columns, u[k])] else None
  {
    if t.columns == u {
      IndexOfDistinct(t.columns, k);
    }
  }

  /** Realigning on labels that include all of `t`'s keeps distinct rows distinct. */
  lemma ReindexKeepsDistinct(t: Table, u: seq<string>)
    requires WellFormed(t) && Reindex(t, u).Ok?
    requires forall c :: c in t.columns ==> c in u
    requires Distinct(t.rows)
    ensures Distinct(Reindex(t, u).value)
  {
    var r := Reindex(t, u).value;
    if t.columns != u {
      forall i, l | 0 <= i < l < |r| ensures r[i] != r[l] {
        assert t.rows[i] != t.rows[l];
        var j :| 0 <= j < |t.columns| && t.rows[i][j] != t.rows[l][j];
        var k := IndexOf(u, t.columns[j]);
        IndexOfDistinct(t.columns, j);
        ReindexCell(t, u, i, k);
        ReindexCell(t, u, l, k);
      }
    }
  }

  /** `pd.concat([a, b])`: the rows of `a`, then those of `b`, realigned on the union of their labels. */
  function Concat(a: Table, b: Table): (r: Result<Table, Error>)
    requires WellFormed(a) && WellFormed(b)
    ensures r.Ok? <==> (a.columns == LabelUnion(a.columns, b.columns) || Distinct(a.columns)) &&
                       (b.columns == LabelUnion(a.columns, b.columns) || Distinct(b.columns))
    ensures r.Ok? ==> WellFormed(r.value) && r.value.columns == LabelUnion(a.columns, b.columns)
    ensures r.Ok? ==> r.value.rows == Reindex(a, r.value.columns).value + Reindex(b, r.value.columns).value
  {
    var u := LabelUnion(a.columns, b.columns);
    var ra :- Reindex(a, u);
    var rb :- Reindex(b, u);
    Ok(Table(u, ra + rb))
  }

  /**
   * Concatenation does not look across its two parts: over the same labels it
   * stacks the rows as they are, so a row present in both parts stays twice.
   */
  lemma ConcatKeepsCrossDuplicates(a: Table, b: Table, x: Row)
    requires WellFormed(a) && WellFormed(b) && a.columns == b.columns
    ensures Concat(a, b) == Ok(Table(a.columns, a.rows + b.rows))
    ensures multiset(Concat(a, b).value.rows)[x] == multiset(a.rows)[x] + multiset(b.rows)[x]
    ensures x in a.rows && x in b.rows ==> multiset(Concat(a, b).value.rows)[x] >= 2
  {
    assert LabelUnion(a.columns, b.columns) == a.columns;
  }
}
