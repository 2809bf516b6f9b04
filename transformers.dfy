/**
 * The event-table reshaper and coordinate projector of the demo viewer.
 *
 * `TransformCoord` / `TransformCoords` project world coordinates onto the
 * 1024-pixel map image; `TransformActions` turns one wide row per event,
 * with a block of columns per role (`attacker_...`, `victim_...`), into a
 * long table with one row per role.
 */
module Transformers {
  import opened Wrappers
  import opened Strings
  import opened Tables

  // ---------------------------------------------------------------------------
  // Projection

  /** `image_dim`: the edge of the square map image, in pixels. */
  const ImageDim: int := 1024

  /** A map's calibration: the world position of the image's top-left corner and world units per pixel. */
  datatype MapData = MapData(posX: real, posY: real, scale: real)

  datatype Axis = X | Y

  /** The pixel coordinate of world coordinate `v` on `axis`. */
  function Project(m: MapData, axis: Axis, v: real): (r: real)
    requires m.scale != 0.0
    ensures Unproject(m, axis, r) == v
  {
    match axis
    case X => (v - m.posX) / m.scale
    case Y => ImageDim as real - (m.posY - v) / m.scale
  }

  /** The world coordinate whose pixel coordinate on `axis` is `p`. */
  function Unproject(m: MapData, axis: Axis, p: real): real {
    match axis
    case X => p * m.scale + m.posX
    case Y => m.posY - (ImageDim as real - p) * m.scale
  }

  /** For a non-zero scale the projection is a bijection, undone by `Unproject`. */
  lemma ProjectionInvertible(m: MapData, axis: Axis, v: real, p: real)
    requires m.scale != 0.0
    ensures Unproject(m, axis, Project(m, axis, v)) == v
    ensures Project(m, axis, Unproject(m, axis, p)) == p
  {
    var s := m.scale;
    match axis
    case X =>
      assert (v - m.posX) / s * s == v - m.posX;
      assert (p * s + m.posX - m.posX) / s == p * s / s == p;
    case Y =>
      var d := m.posY - v;
      assert d / s * s == d;
      assert (ImageDim as real - d / s) - ImageDim as real == -(d / s);
      var e := (ImageDim as real - p) * s;
      assert m.posY - (m.posY - e) == e;
      assert e / s == ImageDim as real - p;
  }

  /** The identity calibration leaves `x` as it is but moves `y` by the image height. */
  lemma IdentityCalibration(x: real, y: real)
    ensures Project(MapData(0.0, 0.0, 1.0), X, x) == x
    ensures Project(MapData(0.0, 0.0, 1.0), Y, y) == ImageDim as real + y
  {
  }

  /** The calibration whose projection is the inverse of `m`'s. */
  function Inverse(m: MapData): (r: MapData)
    requires m.scale != 0.0
    ensures r.scale != 0.0
  {
    MapData(-m.posX / m.scale, (ImageDim as real * (1.0 + m.scale) - m.posY) / m.scale, 1.0 / m.scale)
  }

  /** Projecting with `Inverse(m)` is unprojecting with `m`. */
  lemma InverseUnprojects(m: MapData, axis: Axis, p: real)
    requires m.scale != 0.0
    ensures Project(Inverse(m), axis, p) == Unproject(m, axis, p)
  {
    var s := m.scale;
    var n := ImageDim as real;
    var i := Inverse(m);
    assert i.scale * s == 1.0;
    match axis
    case X =>
      assert (p - i.posX) * (1.0 / s) * s == p - i.posX;
      assert (p - i.posX) / i.scale == (p - i.posX) * s;
      assert i.posX * s == -m.posX;
    case Y =>
      assert (i.posY - p) / i.scale == (i.posY - p) * s;
      assert i.posY * s == n * (1.0 + s) - m.posY;
  }

  /** The projected cell: a number is moved, a missing cell stays missing, text is left for the caller to refuse. */
  function ProjectCell(m: MapData, axis: Axis, c: Cell): (r: Cell)
    requires m.scale != 0.0
    ensures r.None? <==> c.None?
    ensures (r.Some? && r.value.Text?) <==> (c.Some? && c.value.Text?)
    ensures c.Some? && c.value.Text? ==> r == c
    ensures c.Some? && c.value.Num? ==> r.Some? && r.value.Num? && Unproject(m, axis, r.value.n) == c.value.n
  {
    match c
    case Some(Num(v)) => Some(Num(Project(m, axis, v)))
    case _ => c
  }

  /** Some column carrying `lbl` holds a text cell, which pandas arithmetic refuses. */
  predicate HasText(t: Table, lbl: string)
    requires WellFormed(t)
  {
    exists i, j :: 0 <= i < |t.rows| && 0 <= j < |t.columns| && t.columns[j] == lbl && t.rows[i][j].Some? && t.rows[i][j].value.Text?
  }

  /** `result[lbl] = <projected result[lbl]>`: every column carrying `lbl` is projected on `axis`. */
  function ProjectColumn(m: MapData, t: Table, lbl: string, axis: Axis): (r: Result<Table, Error>)
    requires m.scale != 0.0 && WellFormed(t)
    ensures r.Ok? <==> lbl in t.columns && !HasText(t, lbl)
    ensures r.Err? ==> r.error == if lbl in t.columns then NonNumeric(lbl) else MissingLabel(lbl)
    ensures r.Ok? ==> WellFormed(r.value) && r.value.columns == t.columns && |r.value.rows| == |t.rows|
    ensures r.Ok? ==> forall i, j :: 0 <= i < |t.rows| && 0 <= j < |t.columns| ==>
      r.value.rows[i][j] == if t.columns[j] == lbl then ProjectCell(m, axis, t.rows[i][j]) else t.rows[i][j]
  {
    if lbl !in t.columns then Err(MissingLabel(lbl))
    else if HasText(t, lbl) then Err(NonNumeric(lbl))
    else
      Ok(Table(t.columns, seq(|t.rows|, i requires 0 <= i < |t.rows| =>
        seq(|t.columns|, j requires 0 <= j < |t.columns| =>
          if t.columns[j] == lbl then ProjectCell(m, axis, t.rows[i][j]) else t.rows[i][j]))))
  }

  /** The cell that `transform_coord` leaves in a column labelled `lbl`. */
  function CoordCell(m: MapData, lbl: string, xCol: string, yCol: string, c: Cell): Cell
    requires m.scale != 0.0
  {
    var afterX := if lbl == xCol then ProjectCell(m, X, c) else c;
    if lbl == yCol then ProjectCell(m, Y, afterX) else afterX
  }

  /** Projecting never turns a cell into text or text into anything else. */
  lemma ProjectColumnKeepsText(m: MapData, t: Table, lbl: string, axis: Axis, other: string)
    requires m.scale != 0.0 && WellFormed(t) && ProjectColumn(m, t, lbl, axis).Ok?
    ensures HasText(ProjectColumn(m, t, lbl, axis).value, other) == HasText(t, other)
  {
    var r := ProjectColumn(m, t, lbl, axis).value;
    if HasText(t, other) {
      var i, j :| 0 <= i < |t.rows| && 0 <= j < |t.columns| && t.columns[j] == other && t.rows[i][j].Some? && t.rows[i][j].value.Text?;
      assert r.rows[i][j] == t.rows[i][j];
    }
    if HasText(r, other) {
      var i, j :| 0 <= i < |r.rows| && 0 <= j < |r.columns| && r.columns[j] == other && r.rows[i][j].Some? && r.rows[i][j].value.Text?;
      assert t.rows[i][j].Some? && t.rows[i][j].value.Text?;
    }
  }

  /**
   * `transform_coord(map_data, player_loc, x_col, y_col)`: the `x_col`
   * columns, then the `y_col` columns, are projected; every other column is
   * left as it is.  Missing labels and text cells raise, `x_col` first.
   */
  function TransformCoord(m: MapData, t: Table, xCol: string, yCol: string): (r: Result<Table, Error>)
    requires m.scale != 0.0 && WellFormed(t)
    ensures r.Ok? <==> xCol in t.columns && !HasText(t, xCol) && yCol in t.columns && !HasText(t, yCol)
    ensures r.Err? ==> r.error == (if xCol !in t.columns then MissingLabel(xCol)
                                   else if HasText(t, xCol) then NonNumeric(xCol)
                                   else if yCol !in t.columns then MissingLabel(yCol)
                                   else NonNumeric(yCol))
    ensures r.Ok? ==> WellFormed(r.value) && r.value.columns == t.columns && |r.value.rows| == |t.rows|
    ensures r.Ok? ==> forall i, j :: 0 <= i < |t.rows| && 0 <= j < |t.columns| ==>
      r.value.rows[i][j] == CoordCell(m, t.columns[j], xCol, yCol, t.rows[i][j])
  {
    var afterX :- ProjectColumn(m, t, xCol, X);
    ProjectColumnKeepsText(m, t, xCol, X, yCol);
    ProjectColumn(m, afterX, yCol, Y)
  }

  /** With distinct coordinate labels, projecting with the inverse calibration restores the table. */
  lemma TransformCoordRoundTrip(m: MapData, t: Table, xCol: string, yCol: string)
    requires m.scale != 0.0 && WellFormed(t) && xCol != yCol
    requires TransformCoord(m, t, xCol, yCol).Ok?
    ensures TransformCoord(Inverse(m), TransformCoord(m, t, xCol, yCol).value, xCol, yCol) == Ok(t)
  {
    var p := TransformCoord(m, t, xCol, yCol).value;
    var inv := Inverse(m);
    forall i, j | 0 <= i < |t.rows| && 0 <= j < |t.columns|
      ensures CoordCell(inv, t.columns[j], xCol, yCol, p.rows[i][j]) == t.rows[i][j]
    {
      var c := t.rows[i][j];
      if c.Some? && c.value.Num? {
        var axis := if t.columns[j] == xCol then X else Y;
        InverseUnprojects(m, axis, Project(m, axis, c.value.n));
        ProjectionInvertible(m, axis, c.value.n, 0.0);
      }
    }
    ProjectColumnKeepsText(m, t, xCol, X, yCol);
    var afterX := ProjectColumn(m, t, xCol, X).value;
    assert !HasText(p, xCol) by {
      ProjectColumnKeepsText(m, t, xCol, X, xCol);
      ProjectColumnKeepsText(m, afterX, yCol, Y, xCol);
    }
    ProjectColumnKeepsText(m, afterX, yCol, Y, yCol);
    var back := TransformCoord(inv, p, xCol, yCol).value;
    assert back.rows == t.rows by {
      forall i | 0 <= i < |t.rows| ensures back.rows[i] == t.rows[i] {
      }
    }
  }

  /** The label of status `st`'s coordinate on `axis`: `f"{st}_x"` or `f"{st}_y"`. */
  function CoordLabel(st: string, axis: Axis): (r: string)
    ensures |r| == |st| + 2 && StartsWith(r, st)
    ensures r[|st|] == '_' && r[|st| + 1] == (if axis == X then 'x' else 'y')
  {
    st + (if axis == X then "_x" else "_y")
  }

  /** `transform_coords`: `transform_coord` on each status's `_x` / `_y` pair in turn. */
  function ProjectedStatuses(m: MapData, t: Table, status: seq<string>): (r: Result<Table, Error>)
    requires m.scale != 0.0 && WellFormed(t)
    ensures r.Ok? ==> WellFormed(r.value) && r.value.columns == t.columns && |r.value.rows| == |t.rows|
  {
    if status == [] then Ok(t)
    else
      var st := status[|status| - 1];
      var tf :- ProjectedStatuses(m, t, status[..|status| - 1]);
      TransformCoord(m, tf, CoordLabel(st, X), CoordLabel(st, Y))
  }

  /** A failed projection stops the loop: the error found on a prefix is the error of the whole call. */
  lemma {:induction false} ProjectedStatusesErr(m: MapData, t: Table, status: seq<string>, k: nat)
    requires m.scale != 0.0 && WellFormed(t) && k <= |status|
    requires ProjectedStatuses(m, t, status[..k]).Err?
    ensures ProjectedStatuses(m, t, status) == ProjectedStatuses(m, t, status[..k])
    decreases |status| - k
  {
    if k < |status| {
      var n := |status| - 1;
      if k < n {
        assert status[..n][..k] == status[..k];
        ProjectedStatusesErr(m, t, status[..n], k);
      } else {
        assert status[..n] == status[..k];
      }
    } else {
      assert status[..k] == status;
    }
  }

  /** `transform_coords(map_data, player_loc, status)`. */
  method TransformCoords(m: MapData, playerLoc: Table, status: seq<string>) returns (r: Result<Table, Error>)
    requires m.scale != 0.0 && WellFormed(playerLoc)
    ensures r == ProjectedStatuses(m, playerLoc, status)
  {
    var tf := playerLoc;
    var k := 0;
    while k < |status|
      invariant k <= |status|
      invariant ProjectedStatuses(m, playerLoc, status[..k]) == Ok(tf)
    {
      var st := status[k];
      assert status[..k + 1][..k] == status[..k];
      var next := TransformCoord(m, tf, CoordLabel(st, X), CoordLabel(st, Y));
      if next.Err? {
        ProjectedStatusesErr(m, playerLoc, status, k + 1);
        return next;
      }
      tf := next.value;
      k := k + 1;
    }
    assert status[..k] == status;
    r := Ok(tf);
  }

  /** The labels `transform_coords` projects on `axis`. */
  function CoordLabels(status: seq<string>, axis: Axis): set<string> {
    set k | 0 <= k < |status| :: CoordLabel(status[k], axis)
  }

  /** Every status's coordinate columns are present and hold no text. */
  predicate CoordsNumeric(t: Table, status: seq<string>)
    requires WellFormed(t)
  {
    forall k, axis :: 0 <= k < |status| ==>
      CoordLabel(status[k], axis) in t.columns && !HasText(t, CoordLabel(status[k], axis))
  }

  /** The table where every `_x` column of a status is projected on X and every `_y` column on Y. */
  function ProjectedByName(m: MapData, t: Table, status: seq<string>): (r: Table)
    requires m.scale != 0.0 && WellFormed(t)
    ensures WellFormed(r) && r.columns == t.columns && |r.rows| == |t.rows|
  {
    Table(t.columns, seq(|t.rows|, i requires 0 <= i < |t.rows| =>
      seq(|t.columns|, j requires 0 <= j < |t.columns| =>
        var lbl := t.columns[j];
        if lbl in CoordLabels(status, X) then ProjectCell(m, X, t.rows[i][j])
        else if lbl in CoordLabels(status, Y) then ProjectCell(m, Y, t.rows[i][j])
        else t.rows[i][j])))
  }

  /** Different statuses have different coordinate labels. */
  lemma CoordLabelInjective(a: string, b: string, p: Axis, q: Axis)
    ensures CoordLabel(a, p) == CoordLabel(b, q) ==> a == b && p == q
  {
    var la, lb := CoordLabel(a, p), CoordLabel(b, q);
    if la == lb {
      assert |a| == |la| - 2 == |b|;
      assert a == la[..|a|] && b == lb[..|b|];
      assert la[|la| - 1] == (if p == X then 'x' else 'y');
      assert lb[|lb| - 1] == (if q == X then 'x' else 'y');
    }
  }

  /** Projecting by name never creates or removes text. */
  lemma ProjectedByNameKeepsText(m: MapData, t: Table, status: seq<string>, lbl: string)
    requires m.scale != 0.0 && WellFormed(t)
    ensures HasText(ProjectedByName(m, t, status), lbl) == HasText(t, lbl)
  {
    var r := ProjectedByName(m, t, status);
    if HasText(t, lbl) {
      var i, j :| 0 <= i < |t.rows| && 0 <= j < |t.columns| && t.columns[j] == lbl && t.rows[i][j].Some? && t.rows[i][j].value.Text?;
      assert r.rows[i][j] == t.rows[i][j];
    }
    if HasText(r, lbl) {
      var i, j :| 0 <= i < |r.rows| && 0 <= j < |r.columns| && r.columns[j] == lbl && r.rows[i][j].Some? && r.rows[i][j].value.Text?;
      assert t.rows[i][j].Some? && t.rows[i][j].value.Text?;
    }
  }

  /** The coordinate columns of `init + [st]` are those of `init` and those of `st`. */
  lemma CoordsNumericSnoc(t: Table, status: seq<string>)
    requires WellFormed(t) && status != []
    ensures var st := status[|status| - 1];
      CoordsNumeric(t, status) <==>
        (CoordsNumeric(t, status[..|status| - 1]) &&
         CoordLabel(st, X) in t.columns && !HasText(t, CoordLabel(st, X)) &&
         CoordLabel(st, Y) in t.columns && !HasText(t, CoordLabel(st, Y)))
  {
    var n := |status| - 1;
    var init := status[..n];
    assert forall k :: 0 <= k < n ==> init[k] == status[k];
    if CoordsNumeric(t, status) {
      assert CoordLabel(status[n], X) in t.columns && !HasText(t, CoordLabel(status[n], X));
      assert CoordLabel(status[n], Y) in t.columns && !HasText(t, CoordLabel(status[n], Y));
    }
  }

  /** The labels projected for `init + [st]` are those for `init` and `st`'s own. */
  lemma CoordLabelsSnoc(status: seq<string>, axis: Axis)
    requires status != []
    ensures CoordLabels(status, axis) == CoordLabels(status[..|status| - 1], axis) + {CoordLabel(status[|status| - 1], axis)}
  {
    var n := |status| - 1;
    var init := status[..n];
    assert forall k :: 0 <= k < n ==> init[k] == status[k];
    forall lbl | lbl in CoordLabels(status, axis)
      ensures lbl in CoordLabels(init, axis) + {CoordLabel(status[n], axis)}
    {
      var k :| 0 <= k < |status| && lbl == CoordLabel(status[k], axis);
      if k < n {
        assert lbl == CoordLabel(init[k], axis);
      }
    }
  }

  /** Under distinct statuses the last one's labels are not among the others'. */
  lemma LastCoordLabelsFresh(status: seq<string>, p: Axis, q: Axis)
    requires status != [] && Distinct(status)
    ensures CoordLabel(status[|status| - 1], p) !in CoordLabels(status[..|status| - 1], q)
  {
    var n := |status| - 1;
    var init := status[..n];
    forall k | 0 <= k < |init| ensures CoordLabel(init[k], q) != CoordLabel(status[n], p) {
      CoordLabelInjective(init[k], status[n], q, p);
      assert init[k] == status[k] != status[n];
    }
  }

  /** One status's `_x` label is never its `_y` label. */
  lemma CoordLabelsDiffer(st: string)
    ensures CoordLabel(st, X) != CoordLabel(st, Y)
  {
    CoordLabelInjective(st, st, X, Y);
  }

  /** The step of `ProjectedStatusesByName`: projecting the last status on top of the others. */
  lemma ProjectedByNameSnoc(m: MapData, t: Table, status: seq<string>)
    requires m.scale != 0.0 && WellFormed(t) && status != [] && Distinct(status)
    ensures var st := status[|status| - 1];
      var a := ProjectedByName(m, t, status[..|status| - 1]);
      TransformCoord(m, a, CoordLabel(st, X), CoordLabel(st, Y)).Ok? ==>
        TransformCoord(m, a, CoordLabel(st, X), CoordLabel(st, Y)).value == ProjectedByName(m, t, status)
  {
    var n := |status| - 1;
    var init := status[..n];
    var st := status[n];
    var xl, yl := CoordLabel(st, X), CoordLabel(st, Y);
    var a := ProjectedByName(m, t, init);
    var r := TransformCoord(m, a, xl, yl);
    if r.Ok? {
      var b := ProjectedByName(m, t, status);
      CoordLabelsSnoc(status, X);
      CoordLabelsSnoc(status, Y);
      LastCoordLabelsFresh(status, X, X);
      LastCoordLabelsFresh(status, X, Y);
      LastCoordLabelsFresh(status, Y, X);
      LastCoordLabelsFresh(status, Y, Y);
      CoordLabelsDiffer(st);
      forall i | 0 <= i < |t.rows| ensures r.value.rows[i] == b.rows[i] {
        forall j | 0 <= j < |t.columns| ensures r.value.rows[i][j] == b.rows[i][j] {
        }
      }
    }
  }

  /**
   * For distinct statuses `transform_coords` succeeds exactly when every
   * coordinate column is present and numeric, and then projects each
   * status's `_x` and `_y` columns once and touches nothing else.
   */
  lemma {:induction false} ProjectedStatusesByName(m: MapData, t: Table, status: seq<string>)
    requires m.scale != 0.0 && WellFormed(t) && Distinct(status)
    ensures ProjectedStatuses(m, t, status).Ok? <==> CoordsNumeric(t, status)
    ensures ProjectedStatuses(m, t, status).Ok? ==> ProjectedStatuses(m, t, status).value == ProjectedByName(m, t, status)
  {
    if status == [] {
      var b := ProjectedByName(m, t, status);
      forall i | 0 <= i < |t.rows| ensures b.rows[i] == t.rows[i] {
      }
    } else {
      var n := |status| - 1;
      var init := status[..n];
      var st := status[n];
      ProjectedStatusesByName(m, t, init);
      CoordsNumericSnoc(t, status);
      ProjectedByNameKeepsText(m, t, init, CoordLabel(st, X));
      ProjectedByNameKeepsText(m, t, init, CoordLabel(st, Y));
      ProjectedByNameSnoc(m, t, status);
    }
  }

  /**
   * For distinct statuses the order of `status` does not matter: both orders
   * succeed or both fail, and on success they give the same table.  (Which
   * error is raised first does depend on the order.)
   */
  lemma ProjectedStatusesOrderFree(m: MapData, t: Table, s1: seq<string>, s2: seq<string>)
    requires m.scale != 0.0 && WellFormed(t) && Distinct(s1) && Distinct(s2)
    requires forall st :: st in s1 <==> st in s2
    ensures ProjectedStatuses(m, t, s1).Ok? == ProjectedStatuses(m, t, s2).Ok?
    ensures ProjectedStatuses(m, t, s1).Ok? ==> ProjectedStatuses(m, t, s1) == ProjectedStatuses(m, t, s2)
  {
    ProjectedStatusesByName(m, t, s1);
    ProjectedStatusesByName(m, t, s2);
    CoordsNumericSameMembers(t, s1, s2);
    CoordsNumericSameMembers(t, s2, s1);
    SameCoordLabels(s1, s2, X);
    SameCoordLabels(s1, s2, Y);
  }

  /** Whether the coordinate columns are numeric depends only on which statuses are listed. */
  lemma CoordsNumericSameMembers(t: Table, s1: seq<string>, s2: seq<string>)
    requires WellFormed(t) && forall st :: st in s1 ==> st in s2
    ensures CoordsNumeric(t, s2) ==> CoordsNumeric(t, s1)
  {
    if CoordsNumeric(t, s2) {
      forall k, axis | 0 <= k < |s1|
        ensures CoordLabel(s1[k], axis) in t.columns && !HasText(t, CoordLabel(s1[k], axis))
      {
        assert s1[k] in s2;
        var k2 :| 0 <= k2 < |s2| && s2[k2] == s1[k];
      }
    }
  }

  /** Statuses with the same members have the same coordinate labels. */
  lemma SameCoordLabels(s1: seq<string>, s2: seq<string>, axis: Axis)
    requires forall st :: st in s1 <==> st in s2
    ensures CoordLabels(s1, axis) == CoordLabels(s2, axis)
  {
    forall lbl | lbl in CoordLabels(s1, axis) ensures lbl in CoordLabels(s2, axis) {
      var k :| 0 <= k < |s1| && lbl == CoordLabel(s1[k], axis);
      assert s1[k] in s2;
      var k2 :| 0 <= k2 < |s2| && s2[k2] == s1[k];
    }
    forall lbl | lbl in CoordLabels(s2, axis) ensures lbl in CoordLabels(s1, axis) {
      var k :| 0 <= k < |s2| && lbl == CoordLabel(s2[k], axis);
      assert s2[k] in s1;
      var k1 :| 0 <= k1 < |s1| && s1[k1] == s2[k];
    }
  }

  // ---------------------------------------------------------------------------
  // Reshaping actions: selection, status stamp and renaming

  /** The keyword arguments of `transform_actions` that the code reads. */
  datatype ActionOptions = ActionOptions(
    statusExtraCols: map<string, seq<string>>,
    statusCode: map<string, string>,
    commonExtraCols: seq<string>,
    renameCol: map<string, string>,
    checkDupWithoutCols: seq<string>,
    keep: string,
    assignDup: seq<(string, Value)>)

  /** `status_extra_cols.get(st, [])` */
  function ExtraCols(opts: ActionOptions, st: string): seq<string> {
    if st in opts.statusExtraCols then opts.statusExtraCols[st] else []
  }

  /** How many of the three selection tests `col` passes: the plain prefix `st`, the extra list, the common list. */
  function PassedTests(col: string, st: string, extra: seq<string>, common: seq<string>): nat {
    (if StartsWith(col, st) then 1 else 0) + (if col in extra then 1 else 0) + (if col in common then 1 else 0)
  }

  /**
   * The labels selected for status `st`, in the order of `cols`, each
   * label once for every test it passes.
   */
  function SelectedLabels(cols: seq<string>, st: string, extra: seq<string>, common: seq<string>): (r: seq<string>)
    ensures |r| <= 3 * |cols|
  {
    if cols == [] then []
    else
      var n := |cols| - 1;
      SelectedLabels(cols[..n], st, extra, common) + Selections(cols[n], st, extra, common)
  }

  /** One more pass of the column loop appends that column's selections. */
  lemma SelectedLabelsSnoc(cols: seq<string>, st: string, extra: seq<string>, common: seq<string>, k: nat)
    requires k < |cols|
    ensures SelectedLabels(cols[..k + 1], st, extra, common) ==
      SelectedLabels(cols[..k], st, extra, common) + Selections(cols[k], st, extra, common)
  {
    var p := cols[..k + 1];
    assert p[..|p| - 1] == cols[..k] && p[|p| - 1] == cols[k];
  }

  /** A column of `actions` is selected exactly when it passes at least one of the tests. */
  lemma {:induction false} SelectedLabelsMembers(cols: seq<string>, st: string, extra: seq<string>, common: seq<string>)
    ensures forall c :: c in SelectedLabels(cols, st, extra, common) <==>
      c in cols && (StartsWith(c, st) || c in extra || c in common)
  {
    if cols != [] {
      var n := |cols| - 1;
      SelectedLabelsMembers(cols[..n], st, extra, common);
      SelectionsMembers(cols[n], st, extra, common);
      assert cols == cols[..n] + [cols[n]];
    }
  }

  /** What the loop body appends for one column: the column once per test it passes. */
  function Selections(col: string, st: string, extra: seq<string>, common: seq<string>): (r: seq<string>)
    ensures |r| <= 3
    ensures r == [] <==> !StartsWith(col, st) && col !in extra && col !in common
  {
    (if StartsWith(col, st) then [col] else [])
      + (if col in extra then [col] else [])
      + (if col in common then [col] else [])
  }

  /** The column's selections hold that column only, and hold it iff it passes a test. */
  lemma SelectionsMembers(col: string, st: string, extra: seq<string>, common: seq<string>)
    ensures forall c :: c in Selections(col, st, extra, common) <==>
      c == col && (StartsWith(c, st) || c in extra || c in common)
  {
  }

  /** The number of occurrences of `x` in `s`. */
  function Count<T(==)>(s: seq<T>, x: T): nat {
    if s == [] then 0 else Count(s[..|s| - 1], x) + (if s[|s| - 1] == x then 1 else 0)
  }

  lemma {:induction false} CountConcat<T>(a: seq<T>, b: seq<T>, x: T)
    ensures Count(a + b, x) == Count(a, x) + Count(b, x)
    decreases |b|
  {
    if b != [] {
      var n := |b| - 1;
      assert (a + b)[..|a + b| - 1] == a + b[..n];
      CountConcat(a, b[..n], x);
    } else {
      assert a + b == a;
    }
  }

  /** A label occurs in the selection once per occurrence in `cols` and per test it passes. */
  lemma {:induction false} SelectedLabelsCount(cols: seq<string>, st: string, extra: seq<string>, common: seq<string>, c: string)
    ensures Count(SelectedLabels(cols, st, extra, common), c) == Count(cols, c) * PassedTests(c, st, extra, common)
  {
    if cols != [] {
      var n := |cols| - 1;
      var col := cols[n];
      var p := PassedTests(c, st, extra, common);
      var a := Count(cols[..n], c);
      var d := if col == c then 1 else 0;
      var init := SelectedLabels(cols[..n], st, extra, common);
      var last := Selections(col, st, extra, common);
      assert SelectedLabels(cols, st, extra, common) == init + last;
      SelectedLabelsCount(cols[..n], st, extra, common, c);
      assert Count(init, c) == a * p;
      CountConcat(init, last, c);
      SelectionsCount(col, st, extra, common, c);
      assert Count(last, c) == d * p;
      assert Count(cols, c) == a + d;
      Distribute(a, d, p, Count(cols, c), Count(SelectedLabels(cols, st, extra, common), c));
    }
  }

  lemma Distribute(a: nat, d: nat, p: nat, total: nat, sum: nat)
    requires total == a + d && sum == a * p + d * p
    ensures sum == total * p
  {
  }

  lemma SelectionsCount(col: string, st: string, extra: seq<string>, common: seq<string>, c: string)
    ensures Count(Selections(col, st, extra, common), c) == if col == c then PassedTests(c, st, extra, common) else 0
  {
    var b1 := if StartsWith(col, st) then [col] else [];
    var b2 := if col in extra then [col] else [];
    var b3 := if col in common then [col] else [];
    CountConcat(b1, b2, c);
    CountConcat(b1 + b2, b3, c);
    CountSingle(col, c);
  }

  lemma CountSingle<T>(x: T, c: T)
    ensures Count([x], c) == if x == c then 1 else 0
  {
    assert [x][..0] == [];
  }

  /** Which columns pass none of the tests. */
  function Unselected(cols: seq<string>, st: string, extra: seq<string>, common: seq<string>): (r: seq<bool>)
    ensures |r| == |cols|
  {
    seq(|cols|, j requires 0 <= j < |cols| => PassedTests(cols[j], st, extra, common) == 0)
  }

  /**
   * When no column passes two tests, the selection is the columns that pass
   * one, in their original order.
   */
  lemma {:induction false} SelectedLabelsInOrder(cols: seq<string>, st: string, extra: seq<string>, common: seq<string>)
    requires forall j :: 0 <= j < |cols| ==> PassedTests(cols[j], st, extra, common) <= 1
    ensures SelectedLabels(cols, st, extra, common) == Filter(cols, Unselected(cols, st, extra, common))
  {
    if cols != [] {
      var n := |cols| - 1;
      assert forall j :: 0 <= j < n ==> cols[..n][j] == cols[j];
      SelectedLabelsInOrder(cols[..n], st, extra, common);
      var drop := Unselected(cols, st, extra, common);
      assert drop[..n] == Unselected(cols[..n], st, extra, common);
      assert Selections(cols[n], st, extra, common) == if drop[n] then [] else [cols[n]];
      assert Filter(cols, drop) == Filter(cols[..n], drop[..n]) + if drop[n] then [] else [cols[n]];
    }
  }

  /** The body of the column loop: `col` is appended once per test it passes. */
  method AppendSelections(stCols: seq<string>, col: string, st: string, extra: seq<string>, common: seq<string>)
    returns (r: seq<string>)
    ensures r == stCols + Selections(col, st, extra, common)
  {
    r := stCols;
    ghost var added := [];
    if StartsWith(col, st) {
      r, added := r + [col], added + [col];
    }
    if col in extra {
      r, added := r + [col], added + [col];
    }
    if col in common {
      r, added := r + [col], added + [col];
    }
    assert r == stCols + added;
  }

  /** The selection loop of `transform_actions` (`st_cols`). */
  method SelectColumns(cols: seq<string>, st: string, extra: seq<string>, common: seq<string>) returns (stCols: seq<string>)
    ensures stCols == SelectedLabels(cols, st, extra, common)
  {
    stCols := [];
    var k := 0;
    while k < |cols|
      invariant k <= |cols|
      invariant stCols == SelectedLabels(cols[..k], st, extra, common)
    {
      stCols := AppendSelections(stCols, cols[k], st, extra, common);
      SelectedLabelsSnoc(cols, st, extra, common, k);
      k := k + 1;
    }
    assert cols[..k] == cols;
  }

  /** `status_code.get(st)`, or `st` itself when it has no code. */
  function StatusValue(st: string, codes: map<string, string>): (r: string)
    ensures r == st || r in codes.Values
    ensures st !in codes ==> r == st
  {
    if st in codes then codes[st] else st
  }

  /**
   * The slice `actions.loc[:, st_cols]` with the status stamped in its
   * `status` column by `.loc[:, "status"] = ...`, which raises on a slice
   * without rows unless `status` was itself selected.
   */
  function StampedSlice(actions: Table, st: string, opts: ActionOptions): (r: Result<Table, Error>)
    requires WellFormed(actions)
    ensures r.Err? <==> |actions.rows| == 0 && "status" !in SelectedLabels(actions.columns, st, ExtraCols(opts, st), opts.commonExtraCols)
    ensures r.Err? ==> r.error == ScalarIntoEmpty("status")
    ensures r.Ok? ==> WellFormed(r.value) && |r.value.rows| == |actions.rows| && "status" in r.value.columns
    ensures r.Ok? ==> forall i, j :: 0 <= i < |r.value.rows| && 0 <= j < |r.value.columns| && r.value.columns[j] == "status" ==>
      r.value.rows[i][j] == Some(Text(StatusValue(st, opts.statusCode)))
    ensures r.Ok? ==> forall c :: c in r.value.columns ==>
      c == "status" || (c in actions.columns && (StartsWith(c, st) || c in ExtraCols(opts, st) || c in opts.commonExtraCols))
  {
    var extra := ExtraCols(opts, st);
    var labels := SelectedLabels(actions.columns, st, extra, opts.commonExtraCols);
    var sliced := LocColumns(actions, labels);
    LocColumnsLabels(actions, labels);
    SelectedLabelsMembers(actions.columns, st, extra, opts.commonExtraCols);
    assert "status" in labels ==> "status" in sliced.columns by {
      if "status" in labels {
        LocColumnsPresent(actions, labels, "status");
      }
    }
    AssignMasked(sliced, EveryRow(|sliced.rows|), "status", Text(StatusValue(st, opts.statusCode)))
  }

  /** `t.loc[:, labels]` carries only labels that were asked for. */
  lemma {:induction false} LocColumnsLabels(t: Table, labels: seq<string>)
    requires WellFormed(t)
    ensures forall c :: c in LocColumns(t, labels).columns ==> c in labels
  {
    LabelPositionsLabels(t.columns, labels);
  }

  lemma {:induction false} LabelPositionsLabels(cols: seq<string>, labels: seq<string>)
    ensures forall k :: 0 <= k < |LabelPositions(cols, labels)| ==> cols[LabelPositions(cols, labels)[k]] in labels
  {
    if labels != [] {
      var n := |labels| - 1;
      LabelPositionsLabels(cols, labels[..n]);
      assert forall l :: l in labels[..n] ==> l in labels;
    }
  }

  /**
   * The new label of `col` in status `st`'s slice: `{st}_side` keeps its
   * name; any other label loses every `{st}_` and is looked up in `rename`.
   */
  function RenameLabel(col: string, st: string, rename: map<string, string>): (r: string)
    ensures col == SideLabel(st) ==> r == col
    ensures r !in rename.Values ==> |r| <= |col|
  {
    if col == st + "_side" then col
    else
      var replaced := RemoveAll(col, st + "_");
      if replaced in rename then rename[replaced] else replaced
  }

  /**
   * Renaming strips the role prefix and then renames: `{st}_side` stays,
   * `{st}_attr` becomes `rename.get(attr, attr)` and a label without the
   * prefix anywhere is only renamed.
   */
  lemma RenameLabelRule(st: string, attr: string, col: string, rename: map<string, string>)
    ensures RenameLabel(st + "_side", st, rename) == st + "_side"
    ensures attr != "side" && !Contains(attr, st + "_") ==>
      RenameLabel(st + "_" + attr, st, rename) == if attr in rename then rename[attr] else attr
    ensures !Contains(col, st + "_") ==>
      RenameLabel(col, st, rename) == if col in rename then rename[col] else col
  {
    var pre := st + "_";
    if attr != "side" && !Contains(attr, pre) {
      assert (pre + attr)[|pre|..] == attr;
      assert (pre + "side")[|pre|..] == "side";
      RemoveAllPrefix(pre, attr);
    }
    if !Contains(col, pre) {
      RemoveAllAbsent(col, pre);
    }
  }

  /** The renaming loop of `transform_actions` (`new_cols`). */
  method RenameColumns(cols: seq<string>, st: string, rename: map<string, string>) returns (newCols: seq<string>)
    ensures |newCols| == |cols|
    ensures forall j :: 0 <= j < |cols| ==> newCols[j] == RenameLabel(cols[j], st, rename)
  {
    newCols := [];
    var k := 0;
    while k < |cols|
      invariant k <= |cols| && |newCols| == k
      invariant forall j :: 0 <= j < k ==> newCols[j] == RenameLabel(cols[j], st, rename)
    {
      var col := cols[k];
      if col == st + "_side" {
        newCols := newCols + [col];
      } else {
        var replaced := RemoveAll(col, st + "_");
        newCols := newCols + [if replaced in rename then rename[replaced] else replaced];
      }
      k := k + 1;
    }
  }

  /** Status `st`'s slice of `actions`, stamped and renamed (`st_df`). */
  function StatusSlice(actions: Table, st: string, opts: ActionOptions): (r: Result<Table, Error>)
    requires WellFormed(actions)
    ensures r.Err? <==> StampedSlice(actions, st, opts).Err?
    ensures r.Err? ==> r.error == StampedSlice(actions, st, opts).error
    ensures r.Ok? ==> WellFormed(r.value) && |r.value.rows| == |actions.rows|
    ensures r.Ok? ==> |r.value.columns| == |StampedSlice(actions, st, opts).value.columns|
    ensures r.Ok? ==> r.value.rows == StampedSlice(actions, st, opts).value.rows
  {
    var stamped :- StampedSlice(actions, st, opts);
    Ok(Table(seq(|stamped.columns|, j requires 0 <= j < |stamped.columns| => RenameLabel(stamped.columns[j], st, opts.renameCol)), stamped.rows))
  }

  // ---------------------------------------------------------------------------
  // Reshaping actions: accumulation

  /** `t.drop_duplicates()`: the first of every group of equal rows, in order. */
  function DedupRows(t: Table): (r: Table)
    requires WellFormed(t)
    ensures WellFormed(r) && r.columns == t.columns && r.rows == Dedup(t.rows)
  {
    Table(t.columns, Dedup(t.rows))
  }

  /**
   * One pass of the status loop: `pd.concat([result.drop_duplicates(),
   * st_df.drop_duplicates()])`.
   */
  function MergeStep(acc: Table, actions: Table, st: string, opts: ActionOptions): (r: Result<Table, Error>)
    requires WellFormed(acc) && WellFormed(actions)
    ensures |actions.rows| == 0 && "status" !in SelectedLabels(actions.columns, st, ExtraCols(opts, st), opts.commonExtraCols) ==>
      r == Err(ScalarIntoEmpty("status"))
    ensures r.Ok? ==> WellFormed(r.value)
  {
    var slice :- StatusSlice(actions, st, opts);
    Concat(DedupRows(acc), DedupRows(slice))
  }

  /**
   * The status loop run from pass `k` on with accumulator `acc`: the first
   * failing `concat` ends it with its error.
   */
  function MergedFrom(actions: Table, status: seq<string>, opts: ActionOptions, acc: Table, k: nat): (r: Result<Table, Error>)
    requires WellFormed(actions) && WellFormed(acc) && k <= |status|
    ensures r.Ok? ==> WellFormed(r.value)
    decreases |status| - k
  {
    if k == |status| then Ok(acc)
    else
      var next :- MergeStep(acc, actions, status[k], opts);
      MergedFrom(actions, status, opts, next, k + 1)
  }

  /** The accumulator after the whole status loop, starting from the empty frame. */
  function Merged(actions: Table, status: seq<string>, opts: ActionOptions): (r: Result<Table, Error>)
    requires WellFormed(actions)
    ensures r.Ok? ==> WellFormed(r.value)
  {
    MergedFrom(actions, status, opts, Table([], []), 0)
  }

  /**
   * On an `actions` table without rows, the status loop fails once it
   * reaches a status whose selection has no `status` column, unless an
   * earlier `concat` has failed first.
   */
  lemma {:induction false} MergedFromNoRows(actions: Table, status: seq<string>, opts: ActionOptions, acc: Table, k: nat, m: nat)
    requires WellFormed(actions) && WellFormed(acc) && k <= m < |status| && |actions.rows| == 0
    requires "status" !in SelectedLabels(actions.columns, status[m], ExtraCols(opts, status[m]), opts.commonExtraCols)
    ensures MergedFrom(actions, status, opts, acc, k).Err?
    decreases m - k
  {
    var step := MergeStep(acc, actions, status[k], opts);
    if step.Ok? {
      assert k != m;
      MergedFromNoRows(actions, status, opts, step.value, k + 1, m);
      assert MergedFrom(actions, status, opts, acc, k) == MergedFrom(actions, status, opts, step.value, k + 1);
    } else {
      assert MergedFrom(actions, status, opts, acc, k) == Err(step.error);
    }
  }

  /**
   * Each step removes exact duplicates within the accumulator and within the
   * slice, not across the two: the rows are the realigned de-duplicated
   * accumulator followed by the realigned de-duplicated slice, and each part
   * has no two equal rows.
   */
  lemma MergeStepParts(acc: Table, actions: Table, st: string, opts: ActionOptions)
    requires WellFormed(acc) && WellFormed(actions) && MergeStep(acc, actions, st, opts).Ok?
    ensures var r := MergeStep(acc, actions, st, opts).value;
      var slice := StatusSlice(actions, st, opts).value;
      var k := |Dedup(acc.rows)|;
      |r.rows| == k + |Dedup(slice.rows)| &&
      Distinct(r.rows[..k]) && Distinct(r.rows[k..])
  {
    var r := MergeStep(acc, actions, st, opts).value;
    var a := DedupRows(acc);
    var b := DedupRows(StatusSlice(actions, st, opts).value);
    ReindexKeepsDistinct(a, r.columns);
    ReindexKeepsDistinct(b, r.columns);
    var ra := Reindex(a, r.columns).value;
    var rb := Reindex(b, r.columns).value;
    assert r.rows[..|ra|] == ra;
    assert r.rows[|ra|..] == rb;
  }

  // ---------------------------------------------------------------------------
  // Reshaping actions: the side column

  /** The label `f"{st}_side"`. */
  function SideLabel(st: string): (r: string)
    ensures |r| == |st| + 5 && StartsWith(r, st)
    ensures r != CoordLabel(st, X) && r != CoordLabel(st, Y)
  {
    st + "_side"
  }

  /** `a.fillna(b)`: each missing cell of `a` takes `b`'s cell in the same row. */
  function FillNa(a: seq<Cell>, b: seq<Cell>): (r: seq<Cell>)
    requires |a| == |b|
    ensures |r| == |a|
    ensures forall i :: 0 <= i < |a| && a[i].Some? ==> r[i] == a[i]
    ensures forall i :: 0 <= i < |a| ==> (r[i].None? <==> a[i].None? && b[i].None?)
  {
    seq(|a|, i requires 0 <= i < |a| => if a[i].None? then b[i] else a[i])
  }

  /** `side`, threaded through `fillna` over `status` in order. */
  function CoalescedSide(t: Table, status: seq<string>): (r: Result<seq<Cell>, Error>)
    requires WellFormed(t) && status != []
    ensures r.Ok? ==> |r.value| == |t.rows|
  {
    if |status| == 1 then ColumnValues(t, SideLabel(status[0]))
    else
      var n := |status| - 1;
      var side :- CoalescedSide(t, status[..n]);
      var next :- ColumnValues(t, SideLabel(status[n]));
      Ok(FillNa(side, next))
  }

  /** The first present cell of `cs`, or missing when every cell is. */
  function FirstPresent(cs: seq<Cell>): (r: Cell)
    ensures (forall k :: 0 <= k < |cs| ==> cs[k].None?) ==> r.None?
    ensures forall k :: 0 <= k < |cs| && cs[k].Some? && (forall l :: 0 <= l < k ==> cs[l].None?) ==> r == cs[k]
  {
    if cs == [] then None
    else
      var n := |cs| - 1;
      var f := FirstPresent(cs[..n]);
      assert forall k :: 0 <= k < n ==> cs[..n][k] == cs[k];
      if f.Some? then f else cs[n]
  }

  /** Each status's side label names exactly one column of `t`. */
  predicate SideColumnsUnique(t: Table, status: seq<string>) {
    forall k :: 0 <= k < |status| ==> |Positions(t.columns, SideLabel(status[k]))| == 1
  }

  /** Row `i`'s cells in the side columns, in the order of `status`. */
  function SideCells(t: Table, status: seq<string>, i: nat): (r: seq<Cell>)
    requires WellFormed(t) && i < |t.rows| && SideColumnsUnique(t, status)
    ensures |r| == |status|
  {
    seq(|status|, k requires 0 <= k < |status| => t.rows[i][IndexOf(t.columns, SideLabel(status[k]))])
  }

  /**
   * Side coalescing succeeds exactly when every side label names one
   * column, and then a row's side is the first present side value in
   * `status` order, missing when all are missing.
   */
  lemma {:induction false} CoalescedSideRule(t: Table, status: seq<string>)
    requires WellFormed(t) && status != []
    ensures CoalescedSide(t, status).Ok? <==> SideColumnsUnique(t, status)
    ensures CoalescedSide(t, status).Ok? ==>
      forall i :: 0 <= i < |t.rows| ==> CoalescedSide(t, status).value[i] == FirstPresent(SideCells(t, status, i))
  {
    var n := |status| - 1;
    if n == 0 {
      if CoalescedSide(t, status).Ok? {
        forall i | 0 <= i < |t.rows| ensures CoalescedSide(t, status).value[i] == FirstPresent(SideCells(t, status, i)) {
          assert SideCells(t, status, i)[..0] == [];
        }
      }
    } else {
      var init := status[..n];
      CoalescedSideRule(t, init);
      SideColumnsUniqueSnoc(t, status);
      var r := CoalescedSide(t, status);
      if r.Ok? {
        var side := CoalescedSide(t, init).value;
        var next := ColumnValues(t, SideLabel(status[n])).value;
        assert r.value == FillNa(side, next);
        forall i | 0 <= i < |t.rows| ensures r.value[i] == FirstPresent(SideCells(t, status, i)) {
          SideCellsSnoc(t, status, i);
        }
      }
    }
  }

  lemma SideColumnsUniqueSnoc(t: Table, status: seq<string>)
    requires status != []
    ensures var n := |status| - 1;
      SideColumnsUnique(t, status) <==>
        (SideColumnsUnique(t, status[..n]) && |Positions(t.columns, SideLabel(status[n]))| == 1)
  {
    var n := |status| - 1;
    var init := status[..n];
    if SideColumnsUnique(t, status) {
      forall k | 0 <= k < n ensures |Positions(t.columns, SideLabel(init[k]))| == 1 {
        assert init[k] == status[k];
      }
      assert |Positions(t.columns, SideLabel(status[n]))| == 1;
    }
    if SideColumnsUnique(t, init) && |Positions(t.columns, SideLabel(status[n]))| == 1 {
      forall k | 0 <= k < |status| ensures |Positions(t.columns, SideLabel(status[k]))| == 1 {
        if k < n {
          assert status[k] == init[k];
        }
      }
    }
  }

  lemma SideCellsSnoc(t: Table, status: seq<string>, i: nat)
    requires WellFormed(t) && i < |t.rows| && |status| > 1 && SideColumnsUnique(t, status)
    ensures var n := |status| - 1;
      SideColumnsUnique(t, status[..n]) &&
      FirstPresent(SideCells(t, status, i)) ==
        var f := FirstPresent(SideCells(t, status[..n], i));
        if f.Some? then f else t.rows[i][IndexOf(t.columns, SideLabel(status[n]))]
  {
    var n := |status| - 1;
    SideColumnsUniqueSnoc(t, status);
    assert SideCells(t, status, i)[..n] == SideCells(t, status[..n], i);
  }

  lemma CoalescedSideStepErr(t: Table, status: seq<string>)
    requires WellFormed(t) && |status| > 1
    requires CoalescedSide(t, status[..|status| - 1]).Err?
    ensures CoalescedSide(t, status) == CoalescedSide(t, status[..|status| - 1])
  {
  }

  /** A failing side lookup ends the loop with its error. */
  lemma {:induction false} CoalescedSideErr(t: Table, status: seq<string>, k: nat)
    requires WellFormed(t) && 1 <= k <= |status|
    requires CoalescedSide(t, status[..k]).Err?
    ensures CoalescedSide(t, status) == CoalescedSide(t, status[..k])
    decreases |status| - k
  {
    if k < |status| {
      var n := |status| - 1;
      if k < n {
        assert status[..n][..k] == status[..k];
        CoalescedSideErr(t, status[..n], k);
      } else {
        assert status[..n] == status[..k];
      }
      CoalescedSideStepErr(t, status);
    } else {
      assert status[..k] == status;
    }
  }

  /** Lines `side = result[...]`, the `fillna` loop; the caller checks `status` is non-empty. */
  method CoalesceSide(t: Table, status: seq<string>) returns (r: Result<seq<Cell>, Error>)
    requires WellFormed(t) && status != []
    ensures r == CoalescedSide(t, status)
  {
    assert status[..1] == [status[0]];
    var first := ColumnValues(t, SideLabel(status[0]));
    if first.Err? {
      CoalescedSideErr(t, status, 1);
      return first;
    }
    var side := first.value;
    var k := 1;
    while k < |status|
      invariant 1 <= k <= |status|
      invariant CoalescedSide(t, status[..k]) == Ok(side)
    {
      assert status[..k + 1][..k] == status[..k];
      var next := ColumnValues(t, SideLabel(status[k]));
      if next.Err? {
        CoalescedSideErr(t, status, k + 1);
        return Err(next.error);
      }
      side := FillNa(side, next.value);
      k := k + 1;
    }
    assert status[..k] == status;
    r := Ok(side);
  }

  /**
   * `result["side"] = side`: `status[0]` fails on an empty `status`; the
   * per-status side columns stay in the table.
   */
  function SideResolved(t: Table, status: seq<string>): (r: Result<Table, Error>)
    requires WellFormed(t)
    ensures status == [] ==> r == Err(EmptyStatus)
    ensures status != [] ==> (r.Ok? <==> SideColumnsUnique(t, status))
    ensures r.Ok? ==> WellFormed(r.value) && |r.value.rows| == |t.rows|
    ensures r.Ok? ==> r.value.columns == if "side" in t.columns then t.columns else t.columns + ["side"]
    ensures r.Ok? ==> forall k :: 0 <= k < |status| ==> SideLabel(status[k]) in r.value.columns
    ensures r.Ok? ==> forall i, j :: 0 <= i < |t.rows| && 0 <= j < |r.value.columns| ==>
      r.value.rows[i][j] == if r.value.columns[j] == "side" then FirstPresent(SideCells(t, status, i)) else t.rows[i][j]
  {
    if status == [] then Err(EmptyStatus)
    else
      CoalescedSideRule(t, status);
      var side :- CoalescedSide(t, status);
      Ok(SetColumn(t, "side", side))
  }

  // ---------------------------------------------------------------------------
  // Reshaping actions: the duplicate pass

  /** The positions of the key columns: those whose label is not excluded. */
  function KeyPositions(cols: seq<string>, without: seq<string>): (r: seq<nat>)
    ensures forall k :: 0 <= k < |r| ==> r[k] < |cols| && cols[r[k]] !in without
    ensures forall j :: 0 <= j < |cols| && cols[j] !in without ==> j in r
  {
    Kept(seq(|cols|, j requires 0 <= j < |cols| => cols[j] in without))
  }

  /** Each row's key: its cells in the key columns. */
  function Keys(t: Table, ps: seq<nat>): (r: seq<Row>)
    requires WellFormed(t) && forall k :: 0 <= k < |ps| ==> ps[k] < |t.columns|
    ensures |r| == |t.rows|
    ensures forall i :: 0 <= i < |r| ==> |r[i]| == |ps|
  {
    seq(|t.rows|, i requires 0 <= i < |t.rows| => Pick(t.rows[i], ps))
  }

  /** The labels of `assign_dup`, in iteration order. */
  function AssignLabels(assign: seq<(string, Value)>): (r: seq<string>)
    ensures |r| == |assign|
  {
    seq(|assign|, k requires 0 <= k < |assign| => assign[k].0)
  }

  /**
   * The `assign_dup` loop: `result.loc[mask, key] = value` for each pair in
   * turn. It cannot fail on a table with rows; on a table without rows it
   * fails exactly when some key is not already a column, and otherwise
   * leaves the table as it is.
   */
  function Stamped(t: Table, mask: seq<bool>, assign: seq<(string, Value)>): (r: Result<Table, Error>)
    requires WellFormed(t) && |mask| == |t.rows|
    ensures r.Err? <==> |t.rows| == 0 && !KeysPresent(t.columns, assign)
    ensures r.Err? ==> r.error.ScalarIntoEmpty? && r.error.name in AssignLabels(assign) && r.error.name !in t.columns
    ensures r.Ok? ==> WellFormed(r.value) && |r.value.rows| == |t.rows|
    ensures r.Ok? && |t.rows| == 0 ==> r.value == t
  {
    if assign == [] then Ok(t)
    else
      var n := |assign| - 1;
      assert AssignLabels(assign) == AssignLabels(assign[..n]) + [assign[n].0];
      assert KeysPresent(t.columns, assign) <==> KeysPresent(t.columns, assign[..n]) && assign[n].0 in t.columns;
      var s :- Stamped(t, mask, assign[..n]);
      AssignMasked(s, mask, assign[n].0, assign[n].1)
  }

  /** Every key of `assign_dup` is already a column label. */
  predicate KeysPresent(cols: seq<string>, assign: seq<(string, Value)>) {
    forall k :: 0 <= k < |assign| ==> assign[k].0 in cols
  }

  /** Once a step of the `assign_dup` loop fails, the loop ends with that error. */
  lemma {:induction false} StampedErrSticks(t: Table, mask: seq<bool>, assign: seq<(string, Value)>, k: nat)
    requires WellFormed(t) && |mask| == |t.rows| && k <= |assign| && Stamped(t, mask, assign[..k]).Err?
    ensures Stamped(t, mask, assign) == Stamped(t, mask, assign[..k])
    decreases |assign|
  {
    if k < |assign| {
      var n := |assign| - 1;
      assert assign[..n][..k] == assign[..k];
      StampedErrSticks(t, mask, assign[..n], k);
    } else {
      assert assign[..k] == assign;
    }
  }

  /** The cell the stamping loop leaves at row `i`, position `j`, label `lbl`. */
  function StampedCell(t: Table, mask: seq<bool>, assign: seq<(string, Value)>, i: nat, j: nat, lbl: string): Cell
    requires WellFormed(t) && |mask| == |t.rows| && i < |t.rows|
  {
    var labels := AssignLabels(assign);
    if lbl in labels && mask[i] then Some(assign[IndexOf(labels, lbl)].1)
    else if j < |t.columns| then t.rows[i][j]
    else None
  }

  /**
   * With `assign_dup`'s keys distinct, as a dictionary's are, stamping sets
   * each listed label on the masked rows, appends each listed label that was
   * absent as a new column missing elsewhere, and changes nothing else.
   */
  lemma {:induction false} StampedRule(t: Table, mask: seq<bool>, assign: seq<(string, Value)>)
    requires WellFormed(t) && |mask| == |t.rows| && Distinct(AssignLabels(assign))
    requires Stamped(t, mask, assign).Ok?
    ensures Stamped(t, mask, assign).value.columns == t.columns + Without(AssignLabels(assign), t.columns)
    ensures var r := Stamped(t, mask, assign).value;
      forall i, j :: 0 <= i < |t.rows| && 0 <= j < |r.columns| ==>
        r.rows[i][j] == StampedCell(t, mask, assign, i, j, r.columns[j])
  {
    StampedColumns(t, mask, assign);
    if assign != [] {
      var n := |assign| - 1;
      var init := assign[..n];
      AssignLabelsSnoc(assign);
      StampedRule(t, mask, init);
      var r := Stamped(t, mask, assign).value;
      forall i, j | 0 <= i < |t.rows| && 0 <= j < |r.columns|
        ensures r.rows[i][j] == StampedCell(t, mask, assign, i, j, r.columns[j])
      {
        StampedCellStep(t, mask, assign, i, j);
      }
    }
  }

  /** With distinct keys the stamping loop appends, in order, exactly the labels the table lacks. */
  lemma {:induction false} StampedColumns(t: Table, mask: seq<bool>, assign: seq<(string, Value)>)
    requires WellFormed(t) && |mask| == |t.rows| && Distinct(AssignLabels(assign))
    requires Stamped(t, mask, assign).Ok?
    ensures Stamped(t, mask, assign).value.columns == t.columns + Without(AssignLabels(assign), t.columns)
  {
    if assign == [] {
      assert t.columns + [] == t.columns;
    } else {
      var n := |assign| - 1;
      var lbl, labels, init := assign[n].0, AssignLabels(assign), AssignLabels(assign[..n]);
      AssignLabelsSnoc(assign);
      var prev := Stamped(t, mask, assign[..n]);
      assert prev.Ok? && Stamped(t, mask, assign) == AssignMasked(prev.value, mask, lbl, assign[n].1);
      StampedColumns(t, mask, assign[..n]);
      WithoutSnoc(labels, t.columns);
      assert labels[..n] == init;
      var w := Without(init, t.columns);
      assert lbl !in w;
      if lbl !in t.columns {
        assert t.columns + (w + [lbl]) == (t.columns + w) + [lbl];
      } else {
        assert w + [] == w;
      }
    }
  }

  lemma WithoutSnoc(b: seq<string>, a: seq<string>)
    requires b != []
    ensures Without(b, a) == Without(b[..|b| - 1], a) + (if b[|b| - 1] in a then [] else [b[|b| - 1]])
  {
  }

  /** The labels of `init + [(lbl, v)]`; under distinct labels `lbl` is new and keeps the others' positions. */
  lemma AssignLabelsSnoc(assign: seq<(string, Value)>)
    requires assign != [] && Distinct(AssignLabels(assign))
    ensures var n := |assign| - 1;
      var init := AssignLabels(assign[..n]);
      AssignLabels(assign) == init + [assign[n].0] && Distinct(init) && assign[n].0 !in init &&
      IndexOf(AssignLabels(assign), assign[n].0) == n &&
      forall c :: c in init ==> IndexOf(AssignLabels(assign), c) == IndexOf(init, c)
  {
    var n := |assign| - 1;
    var labels := AssignLabels(assign);
    var init := AssignLabels(assign[..n]);
    assert init == labels[..n];
    assert labels == init + [assign[n].0];
    forall q | 0 <= q < n ensures init[q] != assign[n].0 {
      assert labels[q] != labels[n];
    }
    forall c | c in init ensures IndexOf(labels, c) == IndexOf(init, c) {
      var q := IndexOf(init, c);
      assert labels[q] == c;
    }
  }

  /** One cell of the stamping step `AssignMasked(Stamped(init), mask, lbl, v)`. */
  lemma StampedCellStep(t: Table, mask: seq<bool>, assign: seq<(string, Value)>, i: nat, j: nat)
    requires WellFormed(t) && |mask| == |t.rows| && assign != [] && Distinct(AssignLabels(assign))
    requires Stamped(t, mask, assign).Ok? && Stamped(t, mask, assign[..|assign| - 1]).Ok?
    requires i < |t.rows| && j < |Stamped(t, mask, assign).value.columns|
    requires var n := |assign| - 1;
      var init := AssignLabels(assign[..n]);
      AssignLabels(assign) == init + [assign[n].0] && assign[n].0 !in init &&
      IndexOf(AssignLabels(assign), assign[n].0) == n &&
      (forall c :: c in init ==> IndexOf(AssignLabels(assign), c) == IndexOf(init, c))
    requires var s := Stamped(t, mask, assign[..|assign| - 1]).value;
      s.columns == t.columns + Without(AssignLabels(assign[..|assign| - 1]), t.columns) &&
      (j < |s.columns| ==> s.rows[i][j] == StampedCell(t, mask, assign[..|assign| - 1], i, j, s.columns[j]))
    ensures Stamped(t, mask, assign).value.rows[i][j] == StampedCell(t, mask, assign, i, j, Stamped(t, mask, assign).value.columns[j])
  {
    var n := |assign| - 1;
    var lbl, v := assign[n].0, assign[n].1;
    var s := Stamped(t, mask, assign[..n]).value;
    var r := Stamped(t, mask, assign).value;
    assert Ok(r) == AssignMasked(s, mask, lbl, v);
    var c := r.columns[j];
    if c == lbl && mask[i] {
      assert r.rows[i][j] == Some(v);
    } else if j < |s.columns| {
      assert c == s.columns[j];
      assert r.rows[i][j] == s.rows[i][j];
    } else {
      assert r.rows[i][j] == None;
    }
  }

  /**
   * The duplicate pass, run only when `check_dup_without_cols` is non-empty:
   * an unknown `keep` raises, an empty key over a non-empty table raises, an
   * `assign_dup` key that is not a column of a table without rows raises;
   * otherwise every row flagged under the opposite direction is stamped and
   * the rows flagged under `keep` are dropped.
   */
  function DuplicatesResolved(t: Table, without: seq<string>, keep: string, assign: seq<(string, Value)>): (r: Result<Table, Error>)
    requires WellFormed(t)
    ensures without == [] ==> r == Ok(t)
    ensures without != [] && keep != "first" && keep != "last" ==> r == Err(UnknownKeep(keep))
    ensures without != [] && (keep == "first" || keep == "last") ==>
      (r.Err? <==> (|t.rows| > 0 && AllExcluded(t.columns, without)) ||
                   (|t.rows| == 0 && !KeysPresent(t.columns, assign)))
    ensures r.Err? ==>
      r.error == UnknownKeep(keep) || r.error == EmptyDupKey ||
      (r.error.ScalarIntoEmpty? && r.error.name in AssignLabels(assign) && r.error.name !in t.columns)
    ensures r.Ok? ==> WellFormed(r.value) && |r.value.rows| <= |t.rows|
  {
    if without == [] then Ok(t)
    else if keep != "first" && keep != "last" then Err(UnknownKeep(keep))
    else
      var ps := KeyPositions(t.columns, without);
      if |t.rows| > 0 && |ps| == 0 then
        assert AllExcluded(t.columns, without);
        Err(EmptyDupKey)
      else
        assert |ps| > 0 ==> !AllExcluded(t.columns, without) by {
          if |ps| > 0 {
            assert t.columns[ps[0]] !in without;
          }
        }
        var keys := Keys(t, ps);
        var dupIdx, keepIdx := DupFlags(keys, keep == "last"), DupFlags(keys, keep == "first");
        var stamped := Stamped(t, dupIdx, assign);
        if stamped.Err? then
          Err(stamped.error)
        else
          FilterRowsWellFormed(stamped.value, keepIdx);
          Ok(Table(stamped.value.columns, Filter(stamped.value.rows, keepIdx)))
  }

  /** Every column label is excluded from the duplicate key. */
  predicate AllExcluded(cols: seq<string>, without: seq<string>) {
    forall j :: 0 <= j < |cols| ==> cols[j] in without
  }

  /** Some other position holds the same key as position `i`. */
  predicate SharesKey(keys: seq<Row>, i: nat)
    requires i < |keys|
  {
    exists l :: 0 <= l < |keys| && l != i && keys[l] == keys[i]
  }

  /** The value `assign_dup` gives label `lbl`. */
  function AssignedValue(assign: seq<(string, Value)>, lbl: string): Value
    requires lbl in AssignLabels(assign)
  {
    assign[IndexOf(AssignLabels(assign), lbl)].1
  }

  /**
   * The duplicate pass keeps, for every key, exactly one row: its first
   * occurrence under `keep="first"`, its last under `keep="last"`; the new
   * `assign_dup` labels are appended to the columns.
   */
  lemma DuplicatesResolvedRows(t: Table, without: seq<string>, keep: string, assign: seq<(string, Value)>)
    requires WellFormed(t) && without != [] && (keep == "first" || keep == "last")
    requires Distinct(AssignLabels(assign))
    requires DuplicatesResolved(t, without, keep, assign).Ok?
    ensures var r := DuplicatesResolved(t, without, keep, assign).value;
      var first := keep == "first";
      var keys := Keys(t, KeyPositions(t.columns, without));
      var kept := Kept(DupFlags(keys, first));
      r.columns == t.columns + Without(AssignLabels(assign), t.columns) &&
      |r.rows| == |kept| &&
      (forall i :: 0 <= i < |t.rows| ==> (i in kept <==> !DupAt(keys, i, first))) &&
      (forall i :: 0 <= i < |t.rows| ==> Representative(keys, i, first) in kept) &&
      (forall k, l :: 0 <= k < l < |kept| ==> keys[kept[k]] != keys[kept[l]])
  {
    var first := keep == "first";
    var keys := Keys(t, KeyPositions(t.columns, without));
    var stamped := Stamped(t, DupFlags(keys, !first), assign).value;
    DuplicatesResolvedShape(t, without, keep, assign);
    StampedColumns(t, DupFlags(keys, !first), assign);
    FilterAt(stamped.rows, DupFlags(keys, first));
    KeptSurvivors(keys, first);
  }

  /**
   * Each surviving row carries the `assign_dup` values exactly when some
   * other row shares its key; every other cell is the survivor's own.
   */
  lemma DuplicatesResolvedRule(t: Table, without: seq<string>, keep: string, assign: seq<(string, Value)>)
    requires WellFormed(t) && without != [] && (keep == "first" || keep == "last")
    requires Distinct(AssignLabels(assign))
    requires DuplicatesResolved(t, without, keep, assign).Ok?
    ensures var r := DuplicatesResolved(t, without, keep, assign).value;
      var first := keep == "first";
      var keys := Keys(t, KeyPositions(t.columns, without));
      var kept := Kept(DupFlags(keys, first));
      |r.rows| == |kept| &&
      forall k, j :: 0 <= k < |kept| && 0 <= j < |r.columns| ==>
        r.rows[k][j] == if r.columns[j] in AssignLabels(assign) && SharesKey(keys, kept[k]) then Some(AssignedValue(assign, r.columns[j]))
                        else if j < |t.columns| then t.rows[kept[k]][j]
                        else None
  {
    var r := DuplicatesResolved(t, without, keep, assign).value;
    var first := keep == "first";
    var keys := Keys(t, KeyPositions(t.columns, without));
    var kept := Kept(DupFlags(keys, first));
    DuplicatesResolvedRows(t, without, keep, assign);
    forall k, j | 0 <= k < |kept| && 0 <= j < |r.columns|
      ensures r.rows[k][j] == if r.columns[j] in AssignLabels(assign) && SharesKey(keys, kept[k]) then Some(AssignedValue(assign, r.columns[j]))
                              else if j < |t.columns| then t.rows[kept[k]][j]
                              else None
    {
      ResolvedCell(t, without, keep, assign, k, j);
    }
  }

  /** One cell of the duplicate pass's result, as `DuplicatesResolvedRule` states it. */
  lemma ResolvedCell(t: Table, without: seq<string>, keep: string, assign: seq<(string, Value)>, k: nat, j: nat)
    requires WellFormed(t) && without != [] && (keep == "first" || keep == "last")
    requires Distinct(AssignLabels(assign))
    requires DuplicatesResolved(t, without, keep, assign).Ok?
    requires var r := DuplicatesResolved(t, without, keep, assign).value;
      var keys := Keys(t, KeyPositions(t.columns, without));
      k < |Kept(DupFlags(keys, keep == "first"))| && j < |r.columns|
    ensures var r := DuplicatesResolved(t, without, keep, assign).value;
      var first := keep == "first";
      var keys := Keys(t, KeyPositions(t.columns, without));
      var kept := Kept(DupFlags(keys, first));
      k < |r.rows| &&
      r.rows[k][j] == if r.columns[j] in AssignLabels(assign) && SharesKey(keys, kept[k]) then Some(AssignedValue(assign, r.columns[j]))
                      else if j < |t.columns| then t.rows[kept[k]][j]
                      else None
  {
    var r := DuplicatesResolved(t, without, keep, assign).value;
    var first := keep == "first";
    var keys := Keys(t, KeyPositions(t.columns, without));
    var mask := DupFlags(keys, !first);
    var kept := Kept(DupFlags(keys, first));
    var stamped := Stamped(t, mask, assign).value;
    DuplicatesResolvedShape(t, without, keep, assign);
    FilterAt(stamped.rows, DupFlags(keys, first));
    var i := kept[k];
    assert r.rows[k] == stamped.rows[i];
    StampedRule(t, mask, assign);
    assert stamped.rows[i][j] == StampedCell(t, mask, assign, i, j, r.columns[j]);
    OppositeFlagMeansShared(keys, first, i);
  }

  /** The surviving table is the stamped table filtered by the `keep` flags. */
  lemma DuplicatesResolvedShape(t: Table, without: seq<string>, keep: string, assign: seq<(string, Value)>)
    requires WellFormed(t) && without != [] && (keep == "first" || keep == "last")
    requires DuplicatesResolved(t, without, keep, assign).Ok?
    ensures var first := keep == "first";
      var keys := Keys(t, KeyPositions(t.columns, without));
      Stamped(t, DupFlags(keys, !first), assign).Ok? &&
      var stamped := Stamped(t, DupFlags(keys, !first), assign).value;
      DuplicatesResolved(t, without, keep, assign).value == Table(stamped.columns, Filter(stamped.rows, DupFlags(keys, first)))
  {
    var keys := Keys(t, KeyPositions(t.columns, without));
    assert DupFlags(keys, keep != "first") == DupFlags(keys, keep == "last");
  }

  /**
   * The unflagged positions are exactly the first (or last) occurrence of
   * each key: every key's representative is among them and no two of them
   * hold equal keys.
   */
  lemma KeptSurvivors(keys: seq<Row>, first: bool)
    ensures var kept := Kept(DupFlags(keys, first));
      (forall i :: 0 <= i < |keys| ==> (i in kept <==> !DupAt(keys, i, first))) &&
      (forall i :: 0 <= i < |keys| ==> Representative(keys, i, first) in kept) &&
      (forall k, l :: 0 <= k < l < |kept| ==> keys[kept[k]] != keys[kept[l]])
  {
    var kept := Kept(DupFlags(keys, first));
    forall k, l | 0 <= k < l < |kept| ensures keys[kept[k]] != keys[kept[l]] {
      AtMostOneSurvivor(keys, first, kept[k], kept[l]);
    }
  }

  /** The duplicate pass of `transform_actions`, with the `assign_dup` loop. */
  method ResolveDuplicates(t: Table, without: seq<string>, keep: string, assign: seq<(string, Value)>) returns (r: Result<Table, Error>)
    requires WellFormed(t)
    ensures r == DuplicatesResolved(t, without, keep, assign)
  {
    if without == [] {
      return Ok(t);
    }
    if keep != "first" && keep != "last" {
      return Err(UnknownKeep(keep));
    }
    var ps := KeyPositions(t.columns, without);
    if |t.rows| > 0 && |ps| == 0 {
      return Err(EmptyDupKey);
    }
    var keys := Keys(t, ps);
    var dupIdx := DupFlags(keys, keep == "last");
    var keepIdx := DupFlags(keys, keep == "first");
    var result := t;
    var k := 0;
    while k < |assign|
      invariant k <= |assign| && WellFormed(result) && |result.rows| == |t.rows|
      invariant Stamped(t, dupIdx, assign[..k]) == Ok(result)
    {
      assert assign[..k + 1][..k] == assign[..k];
      var next := AssignMasked(result, dupIdx, assign[k].0, assign[k].1);
      if next.Err? {
        StampedErrSticks(t, dupIdx, assign, k + 1);
        return Err(next.error);
      }
      result := next.value;
      k := k + 1;
    }
    assert assign[..k] == assign;
    r := Ok(Table(result.columns, Filter(result.rows, keepIdx)));
  }

  // ---------------------------------------------------------------------------
  // transform_actions

  /** `transform_actions(actions, status, ...)`: accumulate the slices, coalesce `side`, resolve duplicates. */
  function ActionsTransformed(actions: Table, status: seq<string>, opts: ActionOptions): (r: Result<Table, Error>)
    requires WellFormed(actions)
    ensures status == [] ==> r == Err(EmptyStatus)
    ensures r.Ok? ==> WellFormed(r.value)
  {
    var merged :- Merged(actions, status, opts);
    var sided :- SideResolved(merged, status);
    DuplicatesResolved(sided, opts.checkDupWithoutCols, opts.keep, opts.assignDup)
  }

  /**
   * An `actions` table without rows and without a `status` column cannot be
   * transformed: the first status's stamp raises, or `status[0]` does when
   * the list is empty.
   */
  lemma ActionsTransformedNoRows(actions: Table, status: seq<string>, opts: ActionOptions)
    requires WellFormed(actions) && |actions.rows| == 0 && "status" !in actions.columns
    ensures ActionsTransformed(actions, status, opts) == Err(if status == [] then EmptyStatus else ScalarIntoEmpty("status"))
  {
    if status != [] {
      SelectedLabelsMembers(actions.columns, status[0], ExtraCols(opts, status[0]), opts.commonExtraCols);
      assert MergeStep(Table([], []), actions, status[0], opts) == Err(ScalarIntoEmpty("status"));
    }
  }

  /** The body of the status loop: select, stamp and rename status `st`'s slice, then `concat`. */
  method MergeStatus(acc: Table, actions: Table, st: string, opts: ActionOptions) returns (r: Result<Table, Error>)
    requires WellFormed(acc) && WellFormed(actions)
    ensures r == MergeStep(acc, actions, st, opts)
  {
    var stCols := SelectColumns(actions.columns, st, ExtraCols(opts, st), opts.commonExtraCols);
    var stDf := LocColumns(actions, stCols);
    var stamped := AssignMasked(stDf, EveryRow(|stDf.rows|), "status", Text(StatusValue(st, opts.statusCode)));
    assert stamped == StampedSlice(actions, st, opts);
    if stamped.Err? {
      return Err(stamped.error);
    }
    stDf := stamped.value;
    var newCols := RenameColumns(stDf.columns, st, opts.renameCol);
    assert newCols == seq(|stDf.columns|, j requires 0 <= j < |stDf.columns| => RenameLabel(stDf.columns[j], st, opts.renameCol));
    stDf := Table(newCols, stDf.rows);
    assert Ok(stDf) == StatusSlice(actions, st, opts);
    r := Concat(DedupRows(acc), DedupRows(stDf));
  }

  /** `transform_actions`, step by step as the source runs it. */
  method TransformActions(actions: Table, status: seq<string>, opts: ActionOptions) returns (r: Result<Table, Error>)
    requires WellFormed(actions)
    ensures r == ActionsTransformed(actions, status, opts)
  {
    var result := Table([], []);
    var k := 0;
    while k < |status|
      invariant k <= |status|
      invariant WellFormed(result)
      invariant Merged(actions, status, opts) == MergedFrom(actions, status, opts, result, k)
    {
      var merged := MergeStatus(result, actions, status[k], opts);
      if merged.Err? {
        return Err(merged.error);
      }
      result := merged.value;
      k := k + 1;
    }
    if |status| == 0 {
      return Err(EmptyStatus);
    }
    var side := CoalesceSide(result, status);
    if side.Err? {
      return Err(side.error);
    }
    result := SetColumn(result, "side", side.value);
    r := ResolveDuplicates(result, opts.checkDupWithoutCols, opts.keep, opts.assignDup);
  }
}
