/**
 * The per-point render of `utils/components.py`: `count_colorbar` and
 * `plot_loc_unicode`.  The drawing surface is a `Figure` object holding the
 * labels of its axes and logs of what was drawn on it; colormaps are opaque
 * names, and a glyph's colour is recorded as the pair (colormap name,
 * normalised level) that the colormap would be evaluated at.
 */
module Components {
  import opened Wrappers
  import opened Strings

  /** One `ax.text` call: position, marker text, font size, colour and alpha. */
  datatype Glyph = Glyph(x: real, y: real, marker: string, fontSize: real, cmap: string, level: real, alpha: real)

  /** One `fig.colorbar` call after `set_label`: side, label, colormap and the shared normaliser's range. */
  datatype Colorbar = Colorbar(location: string, title: string, cmap: string, vmin: real, vmax: real)

  /** The label matplotlib gives the axes it creates for a colorbar. */
  const ColorbarAxesLabel: string := "<colorbar>"

  /** The sides colorbars are placed on, in order. */
  const Sides: seq<string> := ["left", "right"]

  /** The figure and its main axes: the state `plot_loc_unicode` reads and draws onto. */
  class Figure {
    var axesLabels: seq<string>
    var texts: seq<Glyph>
    var colorbars: seq<Colorbar>
    var xLabel: string
    var yLabel: string

    /** A figure whose axes carry the given labels and on which nothing is drawn yet. */
    constructor (labels: seq<string>)
      ensures axesLabels == labels && texts == [] && colorbars == []
      ensures xLabel == "" && yLabel == ""
    {
      axesLabels := labels;
      texts := [];
      colorbars := [];
      xLabel := "";
      yLabel := "";
    }

    /** `ax.text`: the glyph is appended to the log. */
    method Text(g: Glyph)
      modifies this
      ensures texts == old(texts) + [g]
      ensures axesLabels == old(axesLabels) && colorbars == old(colorbars)
      ensures xLabel == old(xLabel) && yLabel == old(yLabel)
    {
      texts := texts + [g];
    }

    /** `fig.colorbar`: a new axes labelled `<colorbar>` joins the figure and holds the colorbar. */
    method AddColorbar(c: Colorbar)
      modifies this
      ensures colorbars == old(colorbars) + [c]
      ensures axesLabels == old(axesLabels) + [ColorbarAxesLabel]
      ensures texts == old(texts) && xLabel == old(xLabel) && yLabel == old(yLabel)
    {
      colorbars := colorbars + [c];
      axesLabels := axesLabels + [ColorbarAxesLabel];
    }

    /** `ax.set_xlabel` and `ax.set_ylabel`. */
    method SetLabels(x: string, y: string)
      modifies this
      ensures xLabel == x && yLabel == y
      ensures axesLabels == old(axesLabels) && texts == old(texts) && colorbars == old(colorbars)
    {
      xLabel := x;
      yLabel := y;
    }
  }

  // ---------------------------------------------------------------------------
  // count_colorbar

  /** Whether an axes label marks a colorbar. */
  predicate IsColorbarLabel(name: string) {
    Contains(name, "colorbar")
  }

  /** The number of axes whose label contains "colorbar". */
  function ColorbarCount(labels: seq<string>): (r: nat)
    ensures r <= |labels|
  {
    if labels == [] then 0
    else
      var n := |labels| - 1;
      ColorbarCount(labels[..n]) + (if IsColorbarLabel(labels[n]) then 1 else 0)
  }

  /** No colorbar is counted exactly when no label marks one; all are counted exactly when every label does. */
  lemma {:induction false} ColorbarCountExtremes(labels: seq<string>)
    ensures ColorbarCount(labels) == 0 <==> forall i :: 0 <= i < |labels| ==> !IsColorbarLabel(labels[i])
    ensures ColorbarCount(labels) == |labels| <==> forall i :: 0 <= i < |labels| ==> IsColorbarLabel(labels[i])
  {
    if labels != [] {
      var n := |labels| - 1;
      var init := labels[..n];
      ColorbarCountExtremes(init);
      assert forall i :: 0 <= i < n ==> init[i] == labels[i];
    }
  }

  /** The count over two runs of axes is the sum of the counts. */
  lemma {:induction false} ColorbarCountConcat(a: seq<string>, b: seq<string>)
    ensures ColorbarCount(a + b) == ColorbarCount(a) + ColorbarCount(b)
    decreases |b|
  {
    if b == [] {
      assert a + b == a;
    } else {
      var n := |b| - 1;
      assert (a + b)[..|a| + n] == a + b[..n];
      ColorbarCountConcat(a, b[..n]);
    }
  }

  /** `k` axes of the kind `fig.colorbar` creates. */
  function ColorbarAxes(k: nat): (r: seq<string>)
    ensures |r| == k && forall i :: 0 <= i < k ==> r[i] == ColorbarAxesLabel
  {
    seq(k, _ => ColorbarAxesLabel)
  }

  /** Each colorbar axes counts once. */
  lemma {:induction false} ColorbarAxesCount(k: nat)
    ensures ColorbarCount(ColorbarAxes(k)) == k
  {
    ContainsInfix("<", "colorbar", ">");
    assert "<" + "colorbar" + ">" == ColorbarAxesLabel;
    ColorbarCountExtremes(ColorbarAxes(k));
  }

  /** `count_colorbar(fig)`: the counting loop over the figure's axes. */
  method CountColorbar(fig: Figure) returns (n: nat)
    ensures n == ColorbarCount(fig.axesLabels)
  {
    var labels := fig.axesLabels;
    n := 0;
    var k := 0;
    while k < |labels|
      invariant 0 <= k <= |labels|
      invariant n == ColorbarCount(labels[..k])
    {
      assert labels[..k + 1][..k] == labels[..k];
      if Contains(labels[k], "colorbar") {
        n := n + 1;
      }
      k := k + 1;
    }
    assert labels[..k] == labels;
  }

  // ---------------------------------------------------------------------------
  // plot_loc_unicode: inputs

  /**
   * One row of the selected columns: `x`, `y`, the `gradient_by` value, the
   * `color_by` value (None when missing) and the `marker_by` value (None when
   * missing).  The last two are read only when the option naming them is set.
   */
  datatype PointRow = PointRow(x: real, y: real, gradient: real, category: Option<string>, markerKey: Option<string>)

  /**
   * The keyword arguments of `plot_loc_unicode`.  `colorDict` lists the
   * entries of the colour dictionary in iteration order.
   */
  datatype RenderOptions = RenderOptions(
    gradientBy: string,
    size: real,
    colorBy: Option<string>,
    colorDict: seq<(string, string)>,
    defaultColor: string,
    alpha: real,
    markerBy: Option<string>,
    markerDict: map<string, string>,
    defaultMarker: string)

  /** The colormap names `color_dict` maps to. */
  function ColorDictCmaps(opts: RenderOptions): set<string> {
    set i | 0 <= i < |opts.colorDict| :: opts.colorDict[i].1
  }

  /** `key in d` followed by `d[key]`, on a dictionary given by its entries. */
  function Lookup(d: seq<(string, string)>, key: string): (r: Option<string>)
    ensures r.None? <==> forall i :: 0 <= i < |d| ==> d[i].0 != key
    ensures r.Some? ==> exists i :: 0 <= i < |d| && d[i] == (key, r.value) && forall j :: 0 <= j < i ==> d[j].0 != key
  {
    if d == [] then None
    else if d[0].0 == key then Some(d[0].1)
    else
      var r := Lookup(d[1..], key);
      assert forall i :: 1 <= i < |d| ==> d[1..][i - 1] == d[i];
      r
  }

  // ---------------------------------------------------------------------------
  // Normalisation

  /** The smallest `gradient_by` value. */
  function MinGradient(rows: seq<PointRow>): (r: real)
    requires |rows| > 0
    ensures forall i :: 0 <= i < |rows| ==> r <= rows[i].gradient
    ensures exists i :: 0 <= i < |rows| && r == rows[i].gradient
  {
    var n := |rows| - 1;
    if n == 0 then rows[0].gradient
    else
      var m := MinGradient(rows[..n]);
      assert forall i :: 0 <= i < n ==> rows[..n][i] == rows[i];
      if rows[n].gradient < m then rows[n].gradient else m
  }

  /** The largest `gradient_by` value. */
  function MaxGradient(rows: seq<PointRow>): (r: real)
    requires |rows| > 0
    ensures forall i :: 0 <= i < |rows| ==> rows[i].gradient <= r
    ensures exists i :: 0 <= i < |rows| && r == rows[i].gradient
  {
    var n := |rows| - 1;
    if n == 0 then rows[0].gradient
    else
      var m := MaxGradient(rows[..n]);
      assert forall i :: 0 <= i < n ==> rows[..n][i] == rows[i];
      if m < rows[n].gradient then rows[n].gradient else m
  }

  /** The gradient values span a non-empty interval, so the normaliser is well defined. */
  predicate Spread(rows: seq<PointRow>) {
    |rows| > 0 && MinGradient(rows) < MaxGradient(rows)
  }

  /** `plt.Normalize(vmin, vmax)(v)`: the linear map taking `vmin` to 0 and `vmax` to 1. */
  function Normalize(v: real, vmin: real, vmax: real): (r: real)
    requires vmin < vmax
    ensures vmin <= v <= vmax ==> 0.0 <= r <= 1.0
    ensures r == 0.0 <==> v == vmin
    ensures r == 1.0 <==> v == vmax
  {
    var d := vmax - vmin;
    var r := (v - vmin) / d;
    assert r * d == v - vmin;
    r
  }

  // ---------------------------------------------------------------------------
  // The carried colormap and the marker

  /**
   * The colormap a row switches to.  Categories are lower-cased and the keys
   * are compared as given: a row switches only to the value of a key equal to
   * its lower-cased category, so a key holding an upper-case letter is never
   * matched.
   */
  function Switch(row: PointRow, opts: RenderOptions): (r: Option<string>)
    ensures r.Some? ==>
      opts.colorBy.Some? && row.category.Some? &&
      exists i :: 0 <= i < |opts.colorDict| && opts.colorDict[i] == (Lower(row.category.value), r.value) &&
        forall c :: 0 <= c < |opts.colorDict[i].0| ==> !IsUpper(opts.colorDict[i].0[c])
    ensures r.None? <==>
      opts.colorBy.None? || row.category.None? ||
      forall i :: 0 <= i < |opts.colorDict| ==> opts.colorDict[i].0 != Lower(row.category.value)
  {
    if opts.colorBy.Some? && row.category.Some? then Lookup(opts.colorDict, Lower(row.category.value))
    else None
  }

  /** The `previous_cmap` state after one row. */
  function NextCmap(previous: string, row: PointRow, opts: RenderOptions): (r: string)
    ensures Switch(row, opts).None? ==> r == previous
    ensures Switch(row, opts).Some? ==> r == Switch(row, opts).value && r in ColorDictCmaps(opts)
  {
    var s := Switch(row, opts);
    if s.Some? then s.value else previous
  }

  /** The `previous_cmap` state after a run of rows; it is also the colormap the last of them is drawn with. */
  function CmapAfter(rows: seq<PointRow>, opts: RenderOptions): (r: string)
    ensures r == opts.defaultColor || r in ColorDictCmaps(opts)
  {
    if rows == [] then opts.defaultColor
    else
      var n := |rows| - 1;
      NextCmap(CmapAfter(rows[..n], opts), rows[n], opts)
  }

  /** The marker of one row; it depends on that row alone. */
  function MarkerOf(row: PointRow, opts: RenderOptions): (r: string)
    ensures r == opts.defaultMarker || r in opts.markerDict.Values
    ensures opts.markerBy.None? ==> r == opts.defaultMarker
  {
    if opts.markerBy.None? then opts.defaultMarker
    else if row.markerKey.Some? && row.markerKey.value in opts.markerDict then opts.markerDict[row.markerKey.value]
    else opts.defaultMarker
  }

  /** When no row switches, the state is still the default colormap. */
  lemma {:induction false} CmapDefaultWithoutSwitch(rows: seq<PointRow>, opts: RenderOptions)
    requires forall i :: 0 <= i < |rows| ==> Switch(rows[i], opts).None?
    ensures CmapAfter(rows, opts) == opts.defaultColor
  {
    if rows != [] {
      var n := |rows| - 1;
      assert forall i :: 0 <= i < n ==> rows[..n][i] == rows[i];
      CmapDefaultWithoutSwitch(rows[..n], opts);
    }
  }

  /** The state after the rows is the colormap of the last row that switches. */
  lemma {:induction false} CmapOfLastSwitch(rows: seq<PointRow>, opts: RenderOptions, j: nat)
    requires j < |rows| && Switch(rows[j], opts).Some?
    requires forall i :: j < i < |rows| ==> Switch(rows[i], opts).None?
    ensures CmapAfter(rows, opts) == Switch(rows[j], opts).value
  {
    var n := |rows| - 1;
    if j < n {
      assert forall i :: j < i < n ==> rows[..n][i] == rows[i];
      assert rows[..n][j] == rows[j];
      CmapOfLastSwitch(rows[..n], opts, j);
      assert Switch(rows[n], opts).None?;
    }
  }

  /**
   * The carry-over in the small: categories `[a, missing, b, missing]` with
   * `a` and `b` mapped to `c1` and `c2` are drawn with `[c1, c1, c2, c2]`.
   */
  lemma CarryOverExample(rows: seq<PointRow>, opts: RenderOptions, c1: string, c2: string)
    requires |rows| == 4 && opts.colorBy.Some?
    requires rows[0].category.Some? && Lookup(opts.colorDict, Lower(rows[0].category.value)) == Some(c1)
    requires rows[1].category.None?
    requires rows[2].category.Some? && Lookup(opts.colorDict, Lower(rows[2].category.value)) == Some(c2)
    requires rows[3].category.None?
    ensures CmapAfter(rows[..1], opts) == c1 && CmapAfter(rows[..2], opts) == c1
    ensures CmapAfter(rows[..3], opts) == c2 && CmapAfter(rows, opts) == c2
  {
    assert rows[..2][..1] == rows[..1];
    assert rows[..3][..2] == rows[..2];
    assert rows[..3] == rows[..3];
    assert rows[..4] == rows;
  }

  /** Without `color_by`, every row keeps the default colormap. */
  lemma {:induction false} NoColorByKeepsDefault(rows: seq<PointRow>, opts: RenderOptions)
    requires opts.colorBy.None?
    ensures CmapAfter(rows, opts) == opts.defaultColor
  {
    if rows != [] {
      NoColorByKeepsDefault(rows[..|rows| - 1], opts);
    }
  }

  /** When every key holds an upper-case letter, no row ever switches and the default colormap is used throughout. */
  lemma UpperCaseKeysNeverMatch(rows: seq<PointRow>, opts: RenderOptions)
    requires forall i :: 0 <= i < |opts.colorDict| ==>
      exists c :: 0 <= c < |opts.colorDict[i].0| && IsUpper(opts.colorDict[i].0[c])
    ensures CmapAfter(rows, opts) == opts.defaultColor
  {
    forall i | 0 <= i < |rows|
      ensures Switch(rows[i], opts).None?
    {
      if opts.colorBy.Some? && rows[i].category.Some? {
        var category := Lower(rows[i].category.value);
        forall k | 0 <= k < |opts.colorDict|
          ensures opts.colorDict[k].0 != category
        {
          var key := opts.colorDict[k].0;
          var c :| 0 <= c < |key| && IsUpper(key[c]);
          assert c >= |category| || category[c] != key[c];
        }
      }
    }
    CmapDefaultWithoutSwitch(rows, opts);
  }

  // ---------------------------------------------------------------------------
  // The drawn glyphs and colorbars

  /** The glyph drawn for the last of `rows`, given the normaliser's range. */
  function LastGlyph(rows: seq<PointRow>, opts: RenderOptions, vmin: real, vmax: real): Glyph
    requires |rows| > 0 && vmin < vmax
  {
    var row := rows[|rows| - 1];
    Glyph(row.x, row.y, MarkerOf(row, opts), opts.size, CmapAfter(rows, opts), Normalize(row.gradient, vmin, vmax), opts.alpha)
  }

  /** The glyphs the row loop draws, one per row in order. */
  function Glyphs(rows: seq<PointRow>, opts: RenderOptions, vmin: real, vmax: real): (r: seq<Glyph>)
    requires vmin < vmax
    ensures |r| == |rows|
  {
    if rows == [] then []
    else Glyphs(rows[..|rows| - 1], opts, vmin, vmax) + [LastGlyph(rows, opts, vmin, vmax)]
  }

  /** What each glyph holds: that row's position and marker, the given size and alpha, the carried colormap and the normalised gradient. */
  lemma {:induction false} GlyphAt(rows: seq<PointRow>, opts: RenderOptions, vmin: real, vmax: real, i: nat)
    requires vmin < vmax && i < |rows|
    ensures var g := Glyphs(rows, opts, vmin, vmax)[i];
      g.x == rows[i].x && g.y == rows[i].y && g.marker == MarkerOf(rows[i], opts) &&
      g.fontSize == opts.size && g.alpha == opts.alpha &&
      g.cmap == CmapAfter(rows[..i + 1], opts) && g.level == Normalize(rows[i].gradient, vmin, vmax)
    decreases |rows|
  {
    var n := |rows| - 1;
    if i < n {
      GlyphAt(rows[..n], opts, vmin, vmax, i);
      assert rows[..n][..i + 1] == rows[..i + 1];
    } else {
      assert rows[..i + 1] == rows;
    }
  }

  /** With the normaliser built from the rows' own minimum and maximum, every level lies in [0, 1]; the minimum maps to 0 and the maximum to 1. */
  lemma LevelsInUnitInterval(rows: seq<PointRow>, opts: RenderOptions, i: nat)
    requires Spread(rows) && i < |rows|
    ensures var g := Glyphs(rows, opts, MinGradient(rows), MaxGradient(rows))[i];
      0.0 <= g.level <= 1.0 &&
      (g.level == 0.0 <==> rows[i].gradient == MinGradient(rows)) &&
      (g.level == 1.0 <==> rows[i].gradient == MaxGradient(rows))
  {
    GlyphAt(rows, opts, MinGradient(rows), MaxGradient(rows), i);
  }

  /** Without `color_by`, every glyph is drawn with the default colormap. */
  lemma NoColorByGlyphs(rows: seq<PointRow>, opts: RenderOptions, vmin: real, vmax: real, i: nat)
    requires opts.colorBy.None? && vmin < vmax && i < |rows|
    ensures Glyphs(rows, opts, vmin, vmax)[i].cmap == opts.defaultColor
  {
    GlyphAt(rows, opts, vmin, vmax, i);
    NoColorByKeepsDefault(rows[..i + 1], opts);
  }

  /**
   * `f"{cat.upper()} {gradient_by.title()}"`: no lower-case letter in the
   * category part, a space, then the title-cased gradient name.
   */
  function ColorbarTitle(category: string, gradientBy: string): (r: string)
    ensures |r| == |category| + 1 + |gradientBy|
    ensures forall i :: 0 <= i < |category| ==> !IsLower(r[i])
    ensures r[|category|] == ' ' && r[|category| + 1..] == Title(gradientBy)
  {
    Upper(category) + " " + Title(gradientBy)
  }

  /**
   * The colorbars one call adds to a figure that already counts `n` of them:
   * one for each of the first `min(len(color_dict), 2 - n)` entries, in
   * order, left then right, all sharing the normaliser; none without
   * `color_by`.
   */
  function ColorbarsFor(opts: RenderOptions, n: nat, vmin: real, vmax: real): (r: seq<Colorbar>)
    requires n <= 2
    ensures n + |r| <= 2
    ensures opts.colorBy.None? ==> r == []
    ensures opts.colorBy.Some? ==> |r| == (if |opts.colorDict| < 2 - n then |opts.colorDict| else 2 - n)
    ensures forall i :: 0 <= i < |r| ==>
      r[i].location == (if i == 0 then "left" else "right") &&
      r[i].title == ColorbarTitle(opts.colorDict[i].0, opts.gradientBy) &&
      r[i].cmap == opts.colorDict[i].1 && r[i].vmin == vmin && r[i].vmax == vmax
  {
    if opts.colorBy.None? then []
    else
      var m := if |opts.colorDict| < 2 - n then |opts.colorDict| else 2 - n;
      seq(m, i requires 0 <= i < m => Colorbar(Sides[i], ColorbarTitle(opts.colorDict[i].0, opts.gradientBy), opts.colorDict[i].1, vmin, vmax))
  }

  /** Two calls on one figure add no more colorbars than the two slots the first one found free. */
  lemma TwoCallsBudget(labels: seq<string>, first: RenderOptions, second: RenderOptions, vmin: real, vmax: real)
    requires ColorbarCount(labels) <= 2
    ensures var n := ColorbarCount(labels);
      var k1 := |ColorbarsFor(first, n, vmin, vmax)|;
      var after := labels + ColorbarAxes(k1);
      ColorbarCount(after) == n + k1 <= 2 &&
      n + k1 + |ColorbarsFor(second, ColorbarCount(after), vmin, vmax)| <= 2
  {
    var n := ColorbarCount(labels);
    var k1 := |ColorbarsFor(first, n, vmin, vmax)|;
    ColorbarCountConcat(labels, ColorbarAxes(k1));
    ColorbarAxesCount(k1);
  }

  // ---------------------------------------------------------------------------
  // plot_loc_unicode

  /** The row loop: one glyph per row, carrying `previous_cmap` from row to row. */
  method DrawGlyphs(fig: Figure, rows: seq<PointRow>, opts: RenderOptions, vmin: real, vmax: real)
    requires vmin < vmax
    modifies fig
    ensures fig.texts == old(fig.texts) + Glyphs(rows, opts, vmin, vmax)
    ensures fig.axesLabels == old(fig.axesLabels) && fig.colorbars == old(fig.colorbars)
    ensures fig.xLabel == old(fig.xLabel) && fig.yLabel == old(fig.yLabel)
  {
    var previous := opts.defaultColor;
    var k := 0;
    while k < |rows|
      invariant 0 <= k <= |rows|
      invariant previous == CmapAfter(rows[..k], opts)
      invariant fig.texts == old(fig.texts) + Glyphs(rows[..k], opts, vmin, vmax)
      invariant fig.axesLabels == old(fig.axesLabels) && fig.colorbars == old(fig.colorbars)
      invariant fig.xLabel == old(fig.xLabel) && fig.yLabel == old(fig.yLabel)
    {
      var row := rows[k];
      var cmap := previous;
      if opts.colorBy.Some? && row.category.Some? {
        var found := Lookup(opts.colorDict, Lower(row.category.value));
        if found.Some? {
          cmap := found.value;
          previous := cmap;
        }
      }
      var marker := opts.defaultMarker;
      if opts.markerBy.Some? && row.markerKey.Some? && row.markerKey.value in opts.markerDict {
        marker := opts.markerDict[row.markerKey.value];
      }
      assert rows[..k + 1][..k] == rows[..k];
      assert cmap == CmapAfter(rows[..k + 1], opts);
      assert marker == MarkerOf(row, opts);
      fig.Text(Glyph(row.x, row.y, marker, opts.size, cmap, Normalize(row.gradient, vmin, vmax), opts.alpha));
      k := k + 1;
    }
    assert rows[..k] == rows;
  }

  /** The colorbar loop: the first entries of `color_dict` the budget leaves room for, left then right. */
  method DrawColorbars(fig: Figure, opts: RenderOptions, n: nat, vmin: real, vmax: real)
    requires n <= 2
    modifies fig
    ensures fig.colorbars == old(fig.colorbars) + ColorbarsFor(opts, n, vmin, vmax)
    ensures fig.axesLabels == old(fig.axesLabels) + ColorbarAxes(|ColorbarsFor(opts, n, vmin, vmax)|)
    ensures fig.texts == old(fig.texts) && fig.xLabel == old(fig.xLabel) && fig.yLabel == old(fig.yLabel)
  {
    if opts.colorBy.Some? {
      ghost var bars := ColorbarsFor(opts, n, vmin, vmax);
      var m := if |opts.colorDict| < 2 - n then |opts.colorDict| else 2 - n;
      var idx := 0;
      while idx < m
        invariant 0 <= idx <= m
        invariant fig.colorbars == old(fig.colorbars) + bars[..idx]
        invariant fig.axesLabels == old(fig.axesLabels) + ColorbarAxes(idx)
        invariant fig.texts == old(fig.texts) && fig.xLabel == old(fig.xLabel) && fig.yLabel == old(fig.yLabel)
      {
        var (category, cmapName) := opts.colorDict[idx];
        var bar := Colorbar(Sides[idx], ColorbarTitle(category, opts.gradientBy), cmapName, vmin, vmax);
        assert bars[idx] == bar;
        fig.AddColorbar(bar);
        assert bars[..idx + 1] == bars[..idx] + [bar];
        assert ColorbarAxes(idx + 1) == ColorbarAxes(idx) + [ColorbarAxesLabel];
        idx := idx + 1;
      }
      assert bars[..idx] == bars;
    }
  }

  /**
   * `plot_loc_unicode` on a figure: the budget is read first, then one glyph
   * per row with the carried colormap, the axis labels, and the colorbars the
   * budget leaves room for.
   */
  method PlotLocUnicode(fig: Figure, rows: seq<PointRow>, opts: RenderOptions)
    requires Spread(rows)
    requires ColorbarCount(fig.axesLabels) <= 2
    modifies fig
    ensures fig.texts == old(fig.texts) + Glyphs(rows, opts, MinGradient(rows), MaxGradient(rows))
    ensures fig.colorbars == old(fig.colorbars) + ColorbarsFor(opts, ColorbarCount(old(fig.axesLabels)), MinGradient(rows), MaxGradient(rows))
    ensures fig.axesLabels == old(fig.axesLabels) + ColorbarAxes(|ColorbarsFor(opts, ColorbarCount(old(fig.axesLabels)), MinGradient(rows), MaxGradient(rows))|)
    ensures fig.xLabel == "X Coordinate (pixels)" && fig.yLabel == "Y Coordinate (pixels)"
  {
    var vmin := MinGradient(rows);
    var vmax := MaxGradient(rows);
    var n := CountColorbar(fig);
    DrawGlyphs(fig, rows, opts, vmin, vmax);
    fig.SetLabels("X Coordinate (pixels)", "Y Coordinate (pixels)");
    DrawColorbars(fig, opts, n, vmin, vmax);
  }
}
