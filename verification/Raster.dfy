/** From cells to pixels: native/desktop_map_render.cpp and native/desktop_map_geometry.cpp. */
module Raster {
  import opened MachineInts

  /** The counters of a cell record, or of the combined record of a window. */
  datatype Counters = Counters(free: U64, outside: U64, used: U64, unknown: U64, fragmented: U64, directory: U64, bad: U64)

  datatype Field = Free | Outside | Used | Unknown | Fragmented | Directory | Bad

  function Value(c: Counters, f: Field): U64 {
    match f
    case Free => c.free
    case Outside => c.outside
    case Used => c.used
    case Unknown => c.unknown
    case Fragmented => c.fragmented
    case Directory => c.directory
    case Bad => c.bad
  }

  datatype Cell = Cell(start: U64, end: U64, counters: Counters)

  type Rgb = x: int | 0 <= x < 0x100_0000

  const OPAQUE: int := 0xFF00_0000
  const BACKGROUND: int := 0x03050A

  /** One counter over the cells in [begin, end), summed without a bound. */
  function FieldSum(cells: seq<Cell>, begin: nat, end: nat, f: Field): nat
    requires begin <= end <= |cells|
  {
    if begin == end then 0 else FieldSum(cells, begin, end - 1, f) + Value(cells[end - 1].counters, f)
  }

  /** The combined record of the cells in [begin, end): 64-bit sums, which may wrap around. */
  function Total(cells: seq<Cell>, begin: nat, end: nat): Counters
    requires begin <= end <= |cells|
  {
    Counters(Wrap(FieldSum(cells, begin, end, Free)), Wrap(FieldSum(cells, begin, end, Outside)),
             Wrap(FieldSum(cells, begin, end, Used)), Wrap(FieldSum(cells, begin, end, Unknown)),
             Wrap(FieldSum(cells, begin, end, Fragmented)), Wrap(FieldSum(cells, begin, end, Directory)),
             Wrap(FieldSum(cells, begin, end, Bad)))
  }

  /** First cell of a pixel. */
  function Begin(n: nat, pixels: nat, pixel: nat): nat
    requires pixels > 0
  {
    pixel * n / pixels
  }

  /** Behind the last cell of a pixel. */
  function End(n: nat, pixels: nat, pixel: nat): nat
    requires pixels > 0
  {
    Max(Begin(n, pixels, pixel) + 1, Begin(n, pixels, pixel + 1))
  }

  // ---------------------------------------------------------------- the windows

  /** Rounding down a quotient: q = x / d exactly when q * d <= x < (q + 1) * d. */
  lemma Floor(x: nat, d: nat)
    requires d > 0
    ensures x / d * d <= x < (x / d + 1) * d
    ensures forall q: nat {:trigger q * d} :: q * d <= x ==> q <= x / d
    ensures forall q: nat {:trigger q * d} :: x < q * d ==> x / d < q
  {
    var f := x / d;
    assert x == f * d + x % d;
    assert (f + 1) * d == f * d + d;
    forall q: nat {:trigger q * d} | q * d <= x
      ensures q <= f
    {
      if f + 1 <= q {
        MulMonotone(f + 1, q, d);
      }
    }
    forall q: nat {:trigger q * d} | x < q * d
      ensures f < q
    {
      if q <= f {
        MulMonotone(q, f, d);
      }
    }
  }

  lemma MulStep(a: int, k: int)
    ensures (a + 1) * k == a * k + k
  {}

  /** Quotients of numbers that are d apart, or less, or more. */
  lemma Steps(x: nat, y: nat, d: nat)
    requires d > 0 && x <= y
    ensures x / d <= y / d
    ensures y - x >= d ==> x / d + 1 <= y / d
    ensures y - x <= d ==> y / d <= x / d + 1
  {
    Floor(x, d);
    Floor(y, d);
    MulStep(x / d, d);
    MulStep(x / d + 1, d);
  }

  lemma Below(x: nat, n: nat, d: nat)
    requires d > 0
    ensures x < n * d ==> x / d < n
    ensures x <= n * d ==> x / d <= n
  {
    Floor(x, d);
    MulStep(n, d);
  }

  lemma PixelProducts(n: nat, pixels: nat, pixel: nat)
    requires pixel < pixels
    ensures (pixel + 1) * n == pixel * n + n && (pixel + 1) * n <= n * pixels
  {
    MulStep(pixel, n);
    MulMonotone(pixel + 1, pixels, n);
  }

  /** A pixel starts inside the cells, and pixels start in order. */
  lemma BeginInRange(n: nat, pixels: nat, pixel: nat)
    requires n > 0 && pixel < pixels
    ensures Begin(n, pixels, pixel) < n && End(n, pixels, pixel) <= n
    ensures Begin(n, pixels, pixel) <= Begin(n, pixels, pixel + 1) <= n
  {
    PixelProducts(n, pixels, pixel);
    Below(pixel * n, n, pixels);
    Below((pixel + 1) * n, n, pixels);
    Steps(pixel * n, (pixel + 1) * n, pixels);
  }

  /** With at least as many cells as pixels the windows are non-empty and follow on one another. */
  lemma WindowsPartition(n: nat, pixels: nat, pixel: nat)
    requires 0 < pixels <= n && pixel < pixels
    ensures Begin(n, pixels, 0) == 0 && Begin(n, pixels, pixels) == n
    ensures Begin(n, pixels, pixel) < End(n, pixels, pixel) == Begin(n, pixels, pixel + 1)
  {
    PixelProducts(n, pixels, pixel);
    Steps(pixel * n, (pixel + 1) * n, pixels);
    Ends(n, pixels);
  }

  lemma Ends(n: nat, pixels: nat)
    requires pixels > 0
    ensures Begin(n, pixels, 0) == 0 && Begin(n, pixels, pixels) == n
  {
    assert 0 * n == 0;
    assert pixels * n == n * pixels + 0;
    DivModUnique(pixels * n, pixels, n, 0);
  }

  lemma {:induction false} SumSplits(cells: seq<Cell>, begin: nat, mid: nat, end: nat, f: Field)
    requires begin <= mid <= end <= |cells|
    ensures FieldSum(cells, begin, end, f) == FieldSum(cells, begin, mid, f) + FieldSum(cells, mid, end, f)
    decreases end
  {
    if mid < end {
      SumSplits(cells, begin, mid, end - 1, f);
    }
  }

  /** One counter over the window of a pixel, summed without a bound. */
  function WindowSum(cells: seq<Cell>, pixels: nat, pixel: nat, f: Field): nat
    requires |cells| > 0 && pixel < pixels
  {
    BeginInRange(|cells|, pixels, pixel);
    FieldSum(cells, Begin(|cells|, pixels, pixel), End(|cells|, pixels, pixel), f)
  }

  /** The record that a pixel is coloured from. */
  function WindowTotal(cells: seq<Cell>, pixels: nat, pixel: nat): Counters
    requires |cells| > 0 && pixel < pixels
  {
    BeginInRange(|cells|, pixels, pixel);
    Total(cells, Begin(|cells|, pixels, pixel), End(|cells|, pixels, pixel))
  }

  /** What the first pixels show of one counter. */
  function Shown(cells: seq<Cell>, pixels: nat, upto: nat, f: Field): nat
    requires |cells| > 0 && upto <= pixels
  {
    if upto == 0 then 0 else Shown(cells, pixels, upto - 1, f) + Value(WindowTotal(cells, pixels, upto - 1), f)
  }

  lemma WindowShows(cells: seq<Cell>, pixels: nat, pixel: nat, f: Field)
    requires |cells| > 0 && pixel < pixels
    ensures Value(WindowTotal(cells, pixels, pixel), f) == Wrap(WindowSum(cells, pixels, pixel, f))
  {
    hide FieldSum, Begin, End, Wrap;
  }

  /** The windows up to a pixel hold every counter of their cells once, and show less of it
    * exactly when the sum of some window does not fit 64 bits. */
  lemma {:induction false} CountersConserved(cells: seq<Cell>, pixels: nat, upto: nat, f: Field)
    requires 0 < pixels <= |cells| && upto <= pixels
    ensures Begin(|cells|, pixels, upto) <= |cells|
    ensures Shown(cells, pixels, upto, f) <= FieldSum(cells, 0, Begin(|cells|, pixels, upto), f)
    ensures Shown(cells, pixels, upto, f) == FieldSum(cells, 0, Begin(|cells|, pixels, upto), f)
            <==> forall p :: 0 <= p < upto ==> WindowSum(cells, pixels, p, f) <= U64_MAX
    ensures forall p :: 0 <= p < upto ==> WindowSum(cells, pixels, p, f) <= FieldSum(cells, 0, Begin(|cells|, pixels, upto), f)
  {
    hide Begin, End, WindowTotal, Wrap;
    if upto == 0 {
      WindowsPartition(|cells|, pixels, 0);
    } else {
      var p := upto - 1;
      CountersConserved(cells, pixels, p, f);
      BeginInRange(|cells|, pixels, p);
      WindowsPartition(|cells|, pixels, p);
      SumSplits(cells, 0, Begin(|cells|, pixels, p), Begin(|cells|, pixels, upto), f);
      WindowShows(cells, pixels, p, f);
      WrapShrinks(WindowSum(cells, pixels, p, f));
    }
  }

  lemma WrapShrinks(x: nat)
    ensures Wrap(x) <= x
    ensures Wrap(x) == x <==> x <= U64_MAX
  {}

  /** With at least as many cells as pixels, the picture shows each counter of every cell exactly
    * once if and only if no window's sum wraps around; so it does if the sum over the map fits. */
  lemma PictureConserves(cells: seq<Cell>, pixels: nat, f: Field)
    requires 0 < pixels <= |cells|
    ensures Shown(cells, pixels, pixels, f) == FieldSum(cells, 0, |cells|, f)
            <==> forall p :: 0 <= p < pixels ==> WindowSum(cells, pixels, p, f) <= U64_MAX
    ensures FieldSum(cells, 0, |cells|, f) <= U64_MAX ==> Shown(cells, pixels, pixels, f) == FieldSum(cells, 0, |cells|, f)
  {
    hide FieldSum, Shown, WindowSum, Begin;
    CountersConserved(cells, pixels, pixels, f);
    WindowsPartition(|cells|, pixels, 0);
  }

  /** With fewer cells than pixels: first pixel of a cell. */
  function RunStart(n: nat, pixels: nat, cell: nat): nat
    requires n > 0
  {
    CeilDiv(cell * pixels, n)
  }

  /** With fewer cells than pixels every pixel shows one cell, and a cell's pixels are one run. */
  lemma CellIsRun(n: nat, pixels: nat, pixel: nat, cell: nat)
    requires 0 < n < pixels && pixel < pixels && cell < n
    ensures End(n, pixels, pixel) == Begin(n, pixels, pixel) + 1
    ensures Begin(n, pixels, pixel) == cell <==> RunStart(n, pixels, cell) <= pixel < RunStart(n, pixels, cell + 1)
  {
    PixelProducts(n, pixels, pixel);
    Steps(pixel * n, (pixel + 1) * n, pixels);
    RunStartLeast(n, pixels, pixel, cell);
    RunStartLeast(n, pixels, pixel, cell + 1);
  }

  /** A pixel is at or behind the start of a cell's run exactly when its first cell is that cell or a later one. */
  lemma RunStartLeast(n: nat, pixels: nat, pixel: nat, cell: nat)
    requires n > 0 && pixels > 0
    ensures RunStart(n, pixels, cell) <= pixel <==> cell <= Begin(n, pixels, pixel)
  {
    CeilDivLeast(cell * pixels, n);
    Floor(pixel * n, pixels);
    if RunStart(n, pixels, cell) <= pixel {
      MulMonotone(RunStart(n, pixels, cell), pixel, n);
      assert cell * pixels <= pixel * n;
    }
    if cell <= Begin(n, pixels, pixel) {
      MulMonotone(cell, Begin(n, pixels, pixel), pixels);
      assert cell * pixels <= pixel * n;
      assert pixel * n >= cell * pixels;
    }
  }

  /** Each cell gets the floor or the ceiling of pixels / cells, as the caption of the map says. */
  lemma RunLength(n: nat, pixels: nat, cell: nat)
    requires 0 < n < pixels && cell < n
    ensures RunStart(n, pixels, 0) == 0 && RunStart(n, pixels, n) == pixels
    ensures var length := RunStart(n, pixels, cell + 1) - RunStart(n, pixels, cell);
            pixels / n <= length <= pixels / n + (if pixels % n != 0 then 1 else 0)
  {
    RunEnds(n, pixels);
    var x := cell * pixels + n - 1;
    MulStep(cell, pixels);
    assert (cell + 1) * pixels + n - 1 == x + pixels;
    SumOfQuotients(x, pixels, n);
  }

  lemma RunEnds(n: nat, pixels: nat)
    requires n > 0
    ensures RunStart(n, pixels, 0) == 0 && RunStart(n, pixels, n) == pixels
  {
    assert 0 * pixels == 0;
    DivModUnique(n - 1, n, 0, n - 1);
    DivModUnique(n * pixels + n - 1, n, pixels, n - 1);
  }

  /** Adding y to x moves the quotient by y / d or one more; by no more if d divides y. */
  lemma SumOfQuotients(x: nat, y: nat, d: nat)
    requires d > 0
    ensures x / d + y / d <= (x + y) / d <= x / d + y / d + (if y % d != 0 then 1 else 0)
  {
    var r := x % d + y % d;
    assert x == x / d * d + x % d && y == y / d * d + y % d;
    assert (x / d + y / d) * d == x / d * d + y / d * d;
    if r < d {
      DivModUnique(x + y, d, x / d + y / d, r);
    } else {
      MulStep(x / d + y / d, d);
      DivModUnique(x + y, d, x / d + y / d + 1, r - d);
    }
  }

  // ---------------------------------------------------------------- drawing

  /** Colour of a pixel when each is coloured from its own window. */
  function PixelColour(cells: seq<Cell>, pixels: nat, pixel: nat, colour: Counters -> Rgb): U32
    requires cells != [] && pixel < pixels
  {
    OPAQUE + colour(WindowTotal(cells, pixels, pixel))
  }

  lemma WrapAdds(a: nat, b: nat)
    ensures Wrap(Wrap(a) + b) == Wrap(a + b)
  {}

  /** Sums one counter over a window in a 64-bit variable. */
  method SumField(cells: seq<Cell>, begin: nat, end: nat, f: Field) returns (total: U64)
    requires begin <= end <= |cells|
    ensures total == Wrap(FieldSum(cells, begin, end, f))
  {
    total := 0;
    for index := begin to end
      invariant total == Wrap(FieldSum(cells, begin, index, f))
    {
      WrapAdds(FieldSum(cells, begin, index, f), Value(cells[index].counters, f));
      total := Wrap(total + Value(cells[index].counters, f));
    }
  }

  method Combine(cells: seq<Cell>, begin: nat, end: nat) returns (combined: Counters)
    requires begin <= end <= |cells|
    ensures combined == Total(cells, begin, end)
  {
    hide FieldSum;
    var free := SumField(cells, begin, end, Free);
    var outside := SumField(cells, begin, end, Outside);
    var used := SumField(cells, begin, end, Used);
    var unknown := SumField(cells, begin, end, Unknown);
    var fragmented := SumField(cells, begin, end, Fragmented);
    var directory := SumField(cells, begin, end, Directory);
    var bad := SumField(cells, begin, end, Bad);
    combined := Counters(free, outside, used, unknown, fragmented, directory, bad);
  }

  lemma OneCell(cells: seq<Cell>, i: nat)
    requires i < |cells|
    ensures Total(cells, i, i + 1) == cells[i].counters
  {
    forall f
      ensures FieldSum(cells, i, i + 1, f) == Value(cells[i].counters, f)
    {
      assert FieldSum(cells, i, i, f) == 0;
    }
  }

  /** The pixel loop: a pixel that shows the same cell as the one before reuses its colour. */
  method DrawMap(pixels: array<U32>, cells: seq<Cell>, colour: Counters -> Rgb)
    requires |cells| * pixels.Length <= U64_MAX
    modifies pixels
    ensures cells == [] ==> pixels[..] == old(pixels[..])
    ensures cells != [] ==> forall p :: 0 <= p < pixels.Length ==> pixels[p] == PixelColour(cells, pixels.Length, p, colour)
  {
    hide Begin, End, Total;
    if cells == [] {
      return;
    }
    forall p | 0 <= p < pixels.Length {
      pixels[p] := OPAQUE + BACKGROUND;
    }
    var n := |cells|;
    var enlarged := n < pixels.Length;
    var previous := n;
    for pixel := 0 to pixels.Length
      invariant previous == if pixel == 0 then n else Begin(n, pixels.Length, pixel - 1)
      invariant forall p :: 0 <= p < pixel ==> pixels[p] == PixelColour(cells, pixels.Length, p, colour)
    {
      BeginInRange(n, pixels.Length, pixel);
      var begin, next := WindowStart(n, pixels.Length, pixel);
      if enlarged && begin == previous {
        CellIsRun(n, pixels.Length, pixel - 1, begin);
        CellIsRun(n, pixels.Length, pixel, begin);
        pixels[pixel] := pixels[pixel - 1];
        continue;
      }
      previous := begin;
      var end := if next > begin + 1 then next else begin + 1;
      WindowEnd(n, pixels.Length, pixel);
      if end == begin + 1 {
        OneCell(cells, begin);
        pixels[pixel] := OPAQUE + colour(cells[begin].counters);
        continue;
      }
      var combined := Combine(cells, begin, end);
      pixels[pixel] := OPAQUE + colour(combined);
    }
  }

  lemma WindowEnd(n: nat, pixels: nat, pixel: nat)
    requires pixels > 0
    ensures End(n, pixels, pixel) == Max(Begin(n, pixels, pixel) + 1, Begin(n, pixels, pixel + 1))
  {}

  /** The two quotients of a pixel; the products stay below 2^64. */
  method WindowStart(n: nat, pixels: nat, pixel: nat) returns (begin: nat, next: nat)
    requires pixel < pixels && n * pixels <= U64_MAX
    ensures begin == Begin(n, pixels, pixel) && next == Begin(n, pixels, pixel + 1)
  {
    PixelProducts(n, pixels, pixel);
    var first: U64, second: U64 := pixel * n, (pixel + 1) * n;
    begin, next := first / pixels, second / pixels;
  }

  // ---------------------------------------------------------------- geometry

  datatype Geometry = Geometry(pixels: U64, enlarged: bool, minimumUnits: U64, maximumUnits: U64)

  /** Units from the start of one cell to the end of another, in 64-bit arithmetic. */
  function Span(first: Cell, last: Cell): U64 {
    Wrap(last.end - first.start + 1)
  }

  /** The spans that a caption speaks about: of cells if they are enlarged, else of pixel windows. */
  function Spans(cells: seq<Cell>, pixels: nat): (r: seq<U64>)
    requires cells != [] && pixels > 0
    ensures |r| == if |cells| < pixels then |cells| else pixels
  {
    if |cells| < pixels then seq<U64>(|cells|, i requires 0 <= i < |cells| => Span(cells[i], cells[i]))
    else seq<U64>(pixels, p requires 0 <= p < pixels => WindowSpan(cells, pixels, p))
  }

  function WindowSpan(cells: seq<Cell>, pixels: nat, pixel: nat): U64
    requires pixel < pixels <= |cells|
  {
    BeginInRange(|cells|, pixels, pixel);
    WindowsPartition(|cells|, pixels, pixel);
    Span(cells[Begin(|cells|, pixels, pixel)], cells[Begin(|cells|, pixels, pixel + 1) - 1])
  }

  /** low is the least element of s up to n, high the greatest; U64_MAX and 0 before the first one. */
  ghost predicate Extremes(s: seq<U64>, n: nat, low: U64, high: U64)
    requires n <= |s|
  {
    && (forall i :: 0 <= i < n ==> low <= s[i] <= high)
    && (if n == 0 then low == U64_MAX && high == 0 else low in s[..n] && high in s[..n])
  }

  lemma ExtremesStep(s: seq<U64>, n: nat, low: U64, high: U64)
    requires n < |s| && Extremes(s, n, low, high)
    ensures Extremes(s, n + 1, Min(low, s[n]), Max(high, s[n]))
  {
    assert s[..n + 1] == s[..n] + [s[n]];
  }

  method RasterGeometry(cells: seq<Cell>, capacity: U64) returns (r: Geometry)
    requires |cells| * capacity <= U64_MAX
    ensures capacity == 0 || cells == [] ==> r == Geometry(0, false, 0, 0)
    ensures capacity > 0 && cells != [] ==>
              && r.pixels == capacity && r.enlarged == (|cells| < capacity)
              && Extremes(Spans(cells, capacity), |Spans(cells, capacity)|, r.minimumUnits, r.maximumUnits)
  {
    hide Extremes, Begin, WindowSpan, Span;
    r := Geometry(0, false, 0, 0);
    if capacity == 0 || cells == [] {
      return;
    }
    r := r.(pixels := capacity, enlarged := |cells| < capacity, minimumUnits := U64_MAX);
    ghost var spans := Spans(cells, capacity);
    NoExtremes(spans);
    if r.enlarged {
      for i := 0 to |cells|
        invariant r.pixels == capacity && r.enlarged == (|cells| < capacity)
        invariant Extremes(spans, i, r.minimumUnits, r.maximumUnits)
      {
        ExtremesStep(spans, i, r.minimumUnits, r.maximumUnits);
        var span := Span(cells[i], cells[i]);
        r := r.(minimumUnits := Min(r.minimumUnits, span), maximumUnits := Max(r.maximumUnits, span));
      }
    } else {
      for pixel := 0 to capacity
        invariant r.pixels == capacity && r.enlarged == (|cells| < capacity)
        invariant Extremes(spans, pixel, r.minimumUnits, r.maximumUnits)
      {
        ExtremesStep(spans, pixel, r.minimumUnits, r.maximumUnits);
        BeginInRange(|cells|, capacity, pixel);
        WindowsPartition(|cells|, capacity, pixel);
        var begin, end := WindowStart(|cells|, capacity, pixel);
        var span := Span(cells[begin], cells[end - 1]);
        SpanOfWindow(cells, capacity, pixel);
        r := r.(minimumUnits := Min(r.minimumUnits, span), maximumUnits := Max(r.maximumUnits, span));
      }
    }
  }

  lemma NoExtremes(s: seq<U64>)
    ensures Extremes(s, 0, U64_MAX, 0)
  {}

  lemma SpanOfWindow(cells: seq<Cell>, pixels: nat, pixel: nat)
    requires pixel < pixels <= |cells|
    ensures Begin(|cells|, pixels, pixel) < |cells| && 0 < Begin(|cells|, pixels, pixel + 1) <= |cells|
    ensures WindowSpan(cells, pixels, pixel) == Span(cells[Begin(|cells|, pixels, pixel)], cells[Begin(|cells|, pixels, pixel + 1) - 1])
  {
    hide Begin, Span;
    BeginInRange(|cells|, pixels, pixel);
    WindowsPartition(|cells|, pixels, pixel);
  }

  /** Non-empty cells, each starting where the one before ends. */
  ghost predicate Adjacent(cells: seq<Cell>) {
    && (forall i :: 0 <= i < |cells| ==> cells[i].start <= cells[i].end)
    && (forall i, j :: 0 <= i < j < |cells| && j == i + 1 ==> cells[j].start == cells[i].end + 1)
  }

  function SpanSum(cells: seq<Cell>, pixels: nat, upto: nat): nat
    requires upto <= pixels <= |cells|
  {
    if upto == 0 then 0 else SpanSum(cells, pixels, upto - 1) + WindowSpan(cells, pixels, upto - 1)
  }

  /** The windows up to a pixel span what their cells span, unless one window spans all 2^64 units. */
  lemma {:induction false} SpansPartition(cells: seq<Cell>, pixels: nat, upto: nat)
    requires 0 < upto <= pixels <= |cells| && Adjacent(cells)
    requires pixels > 1 || cells[|cells| - 1].end - cells[0].start < U64_MAX
    ensures 0 < Begin(|cells|, pixels, upto) <= |cells|
    ensures SpanSum(cells, pixels, upto) == cells[Begin(|cells|, pixels, upto) - 1].end - cells[0].start + 1
  {
    hide Begin, Adjacent, Span, WindowSpan;
    var p := upto - 1;
    var b, e := Begin(|cells|, pixels, p), Begin(|cells|, pixels, upto);
    BeginInRange(|cells|, pixels, p);
    WindowsPartition(|cells|, pixels, p);
    SpanOfWindow(cells, pixels, p);
    Ends(|cells|, pixels);
    WindowFits(cells, b, e);
    if p > 0 {
      SpansPartition(cells, pixels, p);
      Meet(cells, b);
    } else if pixels > 1 {
      BeginInRange(|cells|, pixels, upto);
    }
    SpanIs(cells[b], cells[e - 1]);
  }

  lemma SpanIs(first: Cell, last: Cell)
    requires first.start <= last.end && last.end - first.start < U64_MAX
    ensures Span(first, last) == last.end - first.start + 1
  {}

  /** A window that leaves out some cell spans less than the whole address space. */
  lemma WindowFits(cells: seq<Cell>, b: nat, e: nat)
    requires Adjacent(cells) && b < e <= |cells|
    ensures cells[0].start <= cells[b].start <= cells[e - 1].end <= cells[|cells| - 1].end
    ensures b > 0 || e < |cells| ==> cells[e - 1].end - cells[b].start < U64_MAX
  {
    hide Adjacent;
    StartsGrow(cells, 0, b);
    StartsGrow(cells, b, e - 1);
    StartsGrow(cells, e - 1, |cells| - 1);
    if b > 0 {
      StartsGrow(cells, b - 1, b - 1);
      Meet(cells, b);
    } else if e < |cells| {
      Meet(cells, e);
      StartsGrow(cells, e, |cells| - 1);
    }
  }

  /** The spans of the windows add up to the span of the map exactly unless a single pixel shows all 2^64 units. */
  lemma SpansAddUp(cells: seq<Cell>, pixels: nat)
    requires 0 < pixels <= |cells| && Adjacent(cells)
    ensures var span := cells[|cells| - 1].end - cells[0].start + 1;
            SpanSum(cells, pixels, pixels) == span <==> pixels > 1 || span <= U64_MAX
  {
    hide Begin, Adjacent;
    Ends(|cells|, pixels);
    if pixels > 1 || cells[|cells| - 1].end - cells[0].start < U64_MAX {
      SpansPartition(cells, pixels, pixels);
    } else {
      SpanOfWindow(cells, pixels, 0);
      assert SpanSum(cells, pixels, 0) == 0;
      assert SpanSum(cells, pixels, 1) == 0;
    }
  }

  lemma Meet(cells: seq<Cell>, i: nat)
    requires Adjacent(cells) && 0 < i < |cells|
    ensures cells[i].start == cells[i - 1].end + 1
  {
    var j := i - 1;
    assert cells[i].start == cells[j].end + 1;
  }

  lemma {:induction false} StartsGrow(cells: seq<Cell>, i: nat, j: nat)
    requires Adjacent(cells) && i <= j < |cells|
    ensures cells[i].start <= cells[j].start && cells[i].end <= cells[j].end && cells[i].start <= cells[i].end
    decreases j
  {
    if i < j {
      StartsGrow(cells, i, j - 1);
      Meet(cells, j);
    }
  }
}
