/** The sizing and gridline logic of js/chart.js. The Plotly heatmap call is not
    modelled; the container's width and the window's height are parameters. */
module Chart {
  import opened Calendar
  import opened Calculations

  const MarginL: int := 35
  const MarginR: int := 5
  const MarginT: int := 30
  const MarginB: int := 5

  /** `container.clientWidth || 600`: a container that reports no width counts as 600 pixels. */
  function AvailableWidth(clientWidth: nat): nat {
    if clientWidth == 0 then 600 else clientWidth
  }

  datatype ChartSize = ChartSize(cellSize: real, width: real, height: real)

  function Min(a: real, b: real): real {
    if a <= b then a else b
  }

  /** The chart's size (`renderMementoMori`'s sizing): square cells as large as
      both the available width and 80% of the window's height allow, plus the margins. */
  function FitChart(clientWidth: nat, innerHeight: nat, numCols: nat, numRows: nat): ChartSize
    requires numCols > 0 && numRows > 0
  {
    Fit(AvailableWidth(clientWidth) as real, innerHeight as real * 0.8, numCols as real, numRows as real)
  }

  /** The sizing over the available width and height and the cell counts. */
  function Fit(availableWidth: real, availableHeight: real, numCols: real, numRows: real): ChartSize
    requires numCols > 0.0 && numRows > 0.0
  {
    var cellFromWidth := (availableWidth - MarginL as real - MarginR as real) / numCols;
    var cellFromHeight := (availableHeight - MarginT as real - MarginB as real) / numRows;
    var cellSize := Min(cellFromWidth, cellFromHeight);
    var width := cellSize * numCols + MarginL as real + MarginR as real;
    var height := cellSize * numRows + MarginT as real + MarginB as real;
    ChartSize(cellSize, width, height)
  }

  /** The cells fit the room both ways and fill it one way, the chart fits the
      available width (600 pixels for a container without a width) and 80% of the
      height, and taking the margins off either side leaves a whole number of
      cells of the same size: the cells are square. */
  lemma FitChartFits(clientWidth: nat, innerHeight: nat, numCols: nat, numRows: nat)
    requires numCols > 0 && numRows > 0
    ensures var s := FitChart(clientWidth, innerHeight, numCols, numRows);
      var roomX := AvailableWidth(clientWidth) as real - MarginL as real - MarginR as real;
      var roomY := innerHeight as real * 0.8 - MarginT as real - MarginB as real;
      && s.cellSize * numCols as real <= roomX && s.cellSize * numRows as real <= roomY
      && (s.cellSize * numCols as real == roomX || s.cellSize * numRows as real == roomY)
      && s.width <= AvailableWidth(clientWidth) as real && s.height <= innerHeight as real * 0.8
      && (s.width - MarginL as real - MarginR as real) / numCols as real == s.cellSize
      && (s.height - MarginT as real - MarginB as real) / numRows as real == s.cellSize
      && (clientWidth == 0 ==> s.width <= 600.0)
  {
    FitSides(AvailableWidth(clientWidth) as real, innerHeight as real * 0.8, numCols as real, numRows as real);
  }

  /** Fit's facts over plain reals: the smaller of the two room-derived sizes fits
      both sides and fills at least one of them. */
  lemma FitSides(availableWidth: real, availableHeight: real, nc: real, nr: real)
    requires nc > 0.0 && nr > 0.0
    ensures var s := Fit(availableWidth, availableHeight, nc, nr);
      var roomX := availableWidth - MarginL as real - MarginR as real;
      var roomY := availableHeight - MarginT as real - MarginB as real;
      && s.cellSize * nc <= roomX && s.cellSize * nr <= roomY
      && (s.cellSize * nc == roomX || s.cellSize * nr == roomY)
      && s.width <= availableWidth && s.height <= availableHeight
      && (s.width - MarginL as real - MarginR as real) / nc == s.cellSize
      && (s.height - MarginT as real - MarginB as real) / nr == s.cellSize
  {
    var roomX := availableWidth - MarginL as real - MarginR as real;
    var roomY := availableHeight - MarginT as real - MarginB as real;
    var cell := Min(roomX / nc, roomY / nr);
    SquareSide(cell, nc, availableWidth, MarginL as real, MarginR as real);
    SquareSide(cell, nr, availableHeight, MarginT as real, MarginB as real);
  }

  /** Along one side: `n` cells no larger than the room between the margins
      divided by `n` fit in it, the side's length fits in the available length,
      and taking the margins off the side's length leaves `n` cells. */
  lemma SquareSide(cell: real, n: real, available: real, m1: real, m2: real)
    requires n > 0.0 && cell <= (available - m1 - m2) / n
    ensures cell * n <= available - m1 - m2
    ensures cell == (available - m1 - m2) / n ==> cell * n == available - m1 - m2
    ensures cell * n + m1 + m2 <= available
    ensures (cell * n + m1 + m2 - m1 - m2) / n == cell
  {
    var room := available - m1 - m2;
    assert cell * n <= (room / n) * n;
    assert (room / n) * n == room;
    assert cell * n + m1 + m2 - m1 - m2 == cell * n;
  }

  /** One gridline shape, from (x0, y0) to (x1, y1) in heatmap coordinates. */
  datatype Line = Line(x0: real, y0: real, x1: real, y1: real)

  /** The vertical line before column `i`, over the full height of `numRows` rows. */
  function VerticalLine(i: int, numRows: nat): Line {
    Line(0.5 + i as real, 0.5, 0.5 + i as real, numRows as real + 0.5)
  }

  /** The horizontal line above row `i`, over the full width of `numCols` columns. */
  function HorizontalLine(i: int, numCols: nat): Line {
    Line(0.5, 0.5 + i as real, numCols as real + 0.5, 0.5 + i as real)
  }

  /** `shapes` holds the vertical lines before columns 0 .. numCols - 1, then the
      horizontal lines above rows 0 .. numRows - 1, and nothing else. */
  predicate IsGridLines(shapes: seq<Line>, numCols: nat, numRows: nat) {
    && |shapes| == numCols + numRows
    && (forall i :: 0 <= i < numCols ==> shapes[i] == VerticalLine(i, numRows))
    && (forall i :: 0 <= i < numRows ==> shapes[numCols + i] == HorizontalLine(i, numCols))
  }

  /** The white `shapes`: first one vertical line per column, then one
      horizontal line per row, pushed by two loops. */
  method GridLines(numCols: nat, numRows: nat) returns (shapes: seq<Line>)
    ensures IsGridLines(shapes, numCols, numRows)
  {
    shapes := [];
    var i := 0;
    while i < numCols
      invariant 0 <= i <= numCols && |shapes| == i
      invariant forall k :: 0 <= k < i ==> shapes[k] == VerticalLine(k, numRows)
    {
      shapes := shapes + [Line(0.5 + i as real, 0.5, 0.5 + i as real, numRows as real + 0.5)];
      i := i + 1;
    }
    i := 0;
    while i < numRows
      invariant 0 <= i <= numRows && |shapes| == numCols + i
      invariant forall k :: 0 <= k < numCols ==> shapes[k] == VerticalLine(k, numRows)
      invariant forall k :: 0 <= k < i ==> shapes[numCols + k] == HorizontalLine(k, numCols)
    {
      shapes := shapes + [Line(0.5, 0.5 + i as real, numCols as real + 0.5, 0.5 + i as real)];
      i := i + 1;
    }
  }

  /** Every heatmap cell, centred on its 1-based labels (column `c`, row `r`), has a
      drawn line on its left and one above it, each spanning the cell; a drawn
      line on its right exists only when it is not in the last column, and one
      below it only when it is not in the last row. */
  lemma CellsFramed(shapes: seq<Line>, c: int, r: int, numCols: nat, numRows: nat)
    requires IsGridLines(shapes, numCols, numRows)
    requires 1 <= c <= numCols && 1 <= r <= numRows
    ensures var left := shapes[c - 1];
      left.x0 == left.x1 < c as real && left.y0 < r as real < left.y1
    ensures var above := shapes[numCols + r - 1];
      above.y0 == above.y1 < r as real && above.x0 < c as real < above.x1
    ensures c < numCols ==> c as real < shapes[c].x0 == shapes[c].x1
    ensures r < numRows ==> r as real < shapes[numCols + r].y0 == shapes[numCols + r].y1
  {
    assert shapes[c - 1] == VerticalLine(c - 1, numRows);
    assert shapes[numCols + (r - 1)] == HorizontalLine(r - 1, numCols);
    if c < numCols {
      assert shapes[c] == VerticalLine(c, numRows);
    }
    if r < numRows {
      assert shapes[numCols + r] == HorizontalLine(r, numCols);
    }
  }

  /** The loops draw no line along the right edge of the last column or the
      bottom edge of the last row: every line starts left of x = numCols + 0.5
      and above y = numRows + 0.5. */
  lemma OuterEdgesOpen(shapes: seq<Line>, numCols: nat, numRows: nat)
    requires IsGridLines(shapes, numCols, numRows) && numCols >= 1 && numRows >= 1
    ensures forall i :: 0 <= i < |shapes| ==>
      shapes[i].x0 < numCols as real + 0.5 && shapes[i].y0 < numRows as real + 0.5
  {
    forall i | 0 <= i < |shapes|
      ensures shapes[i].x0 < numCols as real + 0.5 && shapes[i].y0 < numRows as real + 0.5
    {
      if i < numCols {
        assert shapes[i] == VerticalLine(i, numRows);
      } else {
        assert shapes[numCols + (i - numCols)] == HorizontalLine(i - numCols, numCols);
      }
    }
  }

  /** `renderMementoMori(dob)` without the drawing: the matrix, the chart's size
      and its 132 gridlines, counted from the label lengths. */
  method RenderMementoMori(dob: int, now: int, clientWidth: nat, innerHeight: nat)
    returns (m: CalendarMatrix, size: ChartSize, shapes: seq<Line>)
    requires IsTimeValue(dob) && IsTimeValue(now)
    ensures m.z == LifeGrid(LivedWeeks(Midnight(now) - Midnight(dob)))
    ensures size == FitChart(clientWidth, innerHeight, 52, 80)
    ensures |shapes| == 132 && IsGridLines(shapes, 52, 80)
  {
    m := BuildCalendarMatrix(dob, now);
    var numCols := |m.xLabels|;
    var numRows := |m.yLabels|;
    size := FitChart(clientWidth, innerHeight, numCols, numRows);
    shapes := GridLines(numCols, numRows);
  }
}
