/** The 2-D median filter (src/spatial.rs): for every cell, the in-bounds
    values of a `k` by `k` window placed `k / 2` cells up and to the left of
    it, sorted, and the element at index `len / 2`. */
module Spatial {

  /** A read-only `height` by `width` raster, row by row. */
  datatype Image = Image(height: nat, width: nat, rows: seq<seq<real>>) {
    predicate Valid() {
      |rows| == height && forall r :: 0 <= r < |rows| ==> |rows[r]| == width
    }
  }

  // ---------------------------------------------------------------------
  // Neighborhoods

  /** The first row (or column) of the window of cell `c`: `k / 2` cells
      before it. */
  function WindowStart(c: int, k: nat): int {
    c - k / 2
  }

  /** Whether `(sy, sx)` is an in-bounds cell of the `k` by `k` window of
      `(y, x)`, whose rows run from `WindowStart(y, k)` for `k` rows (columns
      alike). */
  predicate InWindow(image: Image, y: int, x: int, k: nat, sy: int, sx: int) {
    0 <= sy < image.height && 0 <= sx < image.width &&
    WindowStart(y, k) <= sy < WindowStart(y, k) + k &&
    WindowStart(x, k) <= sx < WindowStart(x, k) + k
  }

  /** `a` clamped into `[0, n]`. */
  function Clip(a: int, n: nat): (c: nat)
    ensures c <= n
    ensures 0 <= a <= n ==> c == a
  {
    if a < 0 then 0 else if a > n then n else a
  }

  /** Rows `r0` to `r1 - 1` of the raster, each cut to columns `c0` to
      `c1 - 1`. */
  function Block(image: Image, r0: nat, r1: nat, c0: nat, c1: nat): (b: seq<seq<real>>)
    requires image.Valid() && r0 <= r1 <= image.height && c0 <= c1 <= image.width
    ensures |b| == r1 - r0
    ensures forall j :: 0 <= j < |b| ==> b[j] == image.rows[r0 + j][c0..c1]
  {
    seq(r1 - r0, j requires 0 <= j < r1 - r0 => image.rows[r0 + j][c0..c1])
  }

  /** The rows of `ss` one after another. */
  function Flatten(ss: seq<seq<real>>): seq<real> {
    if |ss| == 0 then [] else Flatten(ss[..|ss| - 1]) + ss[|ss| - 1]
  }

  /** The neighborhood of `(y, x)`: the in-bounds part of its window, row by
      row, in the order the loops push it. */
  function Window(image: Image, y: int, x: int, k: nat): seq<real>
    requires image.Valid()
  {
    var top, left := WindowStart(y, k), WindowStart(x, k);
    Flatten(Block(image, Clip(top, image.height), Clip(top + k, image.height),
                  Clip(left, image.width), Clip(left + k, image.width)))
  }

  /** A value of the flattening comes from one of the rows. */
  lemma {:induction false} FlattenSound(ss: seq<seq<real>>, v: real) returns (j: nat, i: nat)
    requires v in Flatten(ss)
    ensures j < |ss| && i < |ss[j]| && ss[j][i] == v
  {
    var init := ss[..|ss| - 1];
    if v in Flatten(init) {
      j, i := FlattenSound(init, v);
      assert ss[j] == init[j];
    } else {
      j := |ss| - 1;
      var i' :| 0 <= i' < |ss[j]| && ss[j][i'] == v;
      i := i';
    }
  }

  /** Every value of every row is in the flattening. */
  lemma {:induction false} FlattenComplete(ss: seq<seq<real>>, j: nat, i: nat)
    requires j < |ss| && i < |ss[j]|
    ensures ss[j][i] in Flatten(ss)
  {
    var init := ss[..|ss| - 1];
    if j < |ss| - 1 {
      FlattenComplete(init, j, i);
      assert init[j] == ss[j];
    } else {
      assert ss[j][i] in ss[|ss| - 1];
    }
  }

  /** Appending a row appends its values. */
  lemma FlattenAppend(ss: seq<seq<real>>, s: seq<real>)
    ensures Flatten(ss + [s]) == Flatten(ss) + s
  {
    assert (ss + [s])[..|ss|] == ss;
  }

  /** An in-bounds cell is in the window exactly when it lies in the clipped
      rectangle. */
  lemma InWindowIsClipped(image: Image, y: int, x: int, k: nat, sy: int, sx: int)
    requires image.Valid()
    ensures InWindow(image, y, x, k, sy, sx) <==>
      Clip(WindowStart(y, k), image.height) <= sy < Clip(WindowStart(y, k) + k, image.height) &&
      Clip(WindowStart(x, k), image.width) <= sx < Clip(WindowStart(x, k) + k, image.width)
  {
  }

  /** A value of a flattened block is the value of a cell inside it. */
  lemma BlockSound(image: Image, r0: nat, r1: nat, c0: nat, c1: nat, v: real) returns (sy: nat, sx: nat)
    requires image.Valid() && r0 <= r1 <= image.height && c0 <= c1 <= image.width
    requires v in Flatten(Block(image, r0, r1, c0, c1))
    ensures r0 <= sy < r1 && c0 <= sx < c1 && image.rows[sy][sx] == v
  {
    var block := Block(image, r0, r1, c0, c1);
    var j, i := FlattenSound(block, v);
    sy, sx := r0 + j, c0 + i;
    assert block[j] == image.rows[sy][c0..c1];
  }

  /** Every cell inside a block is in its flattening. */
  lemma BlockComplete(image: Image, r0: nat, r1: nat, c0: nat, c1: nat, sy: nat, sx: nat)
    requires image.Valid() && r0 <= r1 <= image.height && c0 <= c1 <= image.width
    requires r0 <= sy < r1 && c0 <= sx < c1
    ensures image.rows[sy][sx] in Flatten(Block(image, r0, r1, c0, c1))
  {
    var block := Block(image, r0, r1, c0, c1);
    assert block[sy - r0] == image.rows[sy][c0..c1];
    assert block[sy - r0][sx - c0] == image.rows[sy][sx];
    FlattenComplete(block, sy - r0, sx - c0);
  }

  /** A value of the neighborhood is the value of an in-bounds cell of the
      window. */
  lemma WindowSound(image: Image, y: int, x: int, k: nat, v: real) returns (sy: int, sx: int)
    requires image.Valid() && v in Window(image, y, x, k)
    ensures InWindow(image, y, x, k, sy, sx) && image.rows[sy][sx] == v
  {
    var top, left := WindowStart(y, k), WindowStart(x, k);
    sy, sx := BlockSound(image, Clip(top, image.height), Clip(top + k, image.height),
                         Clip(left, image.width), Clip(left + k, image.width), v);
    InWindowIsClipped(image, y, x, k, sy, sx);
  }

  /** Every in-bounds cell of the window is pushed. */
  lemma WindowComplete(image: Image, y: int, x: int, k: nat, sy: int, sx: int)
    requires image.Valid() && InWindow(image, y, x, k, sy, sx)
    ensures image.rows[sy][sx] in Window(image, y, x, k)
  {
    var top, left := WindowStart(y, k), WindowStart(x, k);
    InWindowIsClipped(image, y, x, k, sy, sx);
    BlockComplete(image, Clip(top, image.height), Clip(top + k, image.height),
                  Clip(left, image.width), Clip(left + k, image.width), sy, sx);
  }

  /** The neighborhood holds exactly the values of the in-bounds cells of
      the window. */
  lemma WindowMembership(image: Image, y: int, x: int, k: nat, v: real)
    requires image.Valid()
    ensures v in Window(image, y, x, k) <==>
      exists sy, sx :: InWindow(image, y, x, k, sy, sx) && image.rows[sy][sx] == v
  {
    if v in Window(image, y, x, k) {
      var sy, sx := WindowSound(image, y, x, k, v);
    }
    if exists sy, sx :: InWindow(image, y, x, k, sy, sx) && image.rows[sy][sx] == v {
      var sy, sx :| InWindow(image, y, x, k, sy, sx) && image.rows[sy][sx] == v;
      WindowComplete(image, y, x, k, sy, sx);
    }
  }

  /** For `k >= 1` a cell is inside its own window, so the neighborhood is
      never empty. */
  lemma CenterInWindow(image: Image, y: nat, x: nat, k: nat)
    requires image.Valid() && y < image.height && x < image.width && k >= 1
    ensures InWindow(image, y, x, k, y, x)
    ensures image.rows[y][x] in Window(image, y, x, k)
  {
    assert 0 <= k / 2 < k;
    WindowComplete(image, y, x, k, y, x);
  }

  /** The neighborhood of a cell of the raster is never empty for `k >= 1`. */
  lemma WindowNotEmpty(image: Image, y: nat, x: nat, k: nat)
    requires image.Valid() && y < image.height && x < image.width && k >= 1
    ensures |Window(image, y, x, k)| > 0
  {
    CenterInWindow(image, y, x, k);
  }

  // ---------------------------------------------------------------------
  // Sorting and the median

  predicate Sorted(s: seq<real>) {
    forall i, j :: 0 <= i < j < |s| ==> s[i] <= s[j]
  }

  /** Inserts `v` before the first element of `s` that is at least `v`. */
  function Insert(v: real, s: seq<real>): (r: seq<real>)
    ensures |r| == |s| + 1
  {
    if |s| == 0 then [v]
    else if v <= s[0] then [v] + s
    else [s[0]] + Insert(v, s[1..])
  }

  /** Insertion adds exactly `v` to the elements. */
  lemma {:induction false} InsertPermutation(v: real, s: seq<real>)
    ensures multiset(Insert(v, s)) == multiset(s) + multiset{v}
  {
    if |s| > 0 && v > s[0] {
      InsertPermutation(v, s[1..]);
      assert s == [s[0]] + s[1..];
    }
  }

  /** Insertion keeps a sequence sorted. */
  lemma {:induction false} InsertSorted(v: real, s: seq<real>)
    requires Sorted(s)
    ensures Sorted(Insert(v, s))
  {
    if |s| > 0 && v > s[0] {
      var rest := Insert(v, s[1..]);
      InsertSorted(v, s[1..]);
      InsertPermutation(v, s[1..]);
      forall j | 0 <= j < |rest|
        ensures s[0] <= rest[j]
      {
        assert rest[j] in multiset(rest);
        if rest[j] != v {
          assert rest[j] in multiset(s[1..]);
          var i :| 0 <= i < |s[1..]| && s[1..][i] == rest[j];
          assert s[i + 1] == rest[j];
        }
      }
    }
  }

  /** The ascending arrangement of `s`, which is what `sort_by` with
      `partial_cmp` produces for values without NaN. */
  function Sort(s: seq<real>): (r: seq<real>)
    ensures |r| == |s|
  {
    if |s| == 0 then [] else Insert(s[0], Sort(s[1..]))
  }

  /** `Sort` returns the same elements in ascending order. */
  lemma {:induction false} SortIsSortedPermutation(s: seq<real>)
    ensures Sorted(Sort(s)) && multiset(Sort(s)) == multiset(s)
  {
    if |s| > 0 {
      SortIsSortedPermutation(s[1..]);
      InsertSorted(s[0], Sort(s[1..]));
      InsertPermutation(s[0], Sort(s[1..]));
      assert s == [s[0]] + s[1..];
    }
  }

  /** The element at index `len / 2` of the sorted values. */
  function Median(s: seq<real>): real
    requires |s| > 0
  {
    var sorted := Sort(s);
    sorted[|sorted| / 2]
  }

  /** How many elements are at most `v`. */
  function CountLe(s: seq<real>, v: real): nat {
    if |s| == 0 then 0 else (if s[0] <= v then 1 else 0) + CountLe(s[1..], v)
  }

  /** How many elements are at least `v`. */
  function CountGe(s: seq<real>, v: real): nat {
    if |s| == 0 then 0 else (if s[0] >= v then 1 else 0) + CountGe(s[1..], v)
  }

  lemma {:induction false} InsertCounts(x: real, s: seq<real>, v: real)
    ensures CountLe(Insert(x, s), v) == CountLe(s, v) + (if x <= v then 1 else 0)
    ensures CountGe(Insert(x, s), v) == CountGe(s, v) + (if x >= v then 1 else 0)
  {
    if |s| > 0 && x > s[0] {
      InsertCounts(x, s[1..], v);
      assert ([s[0]] + Insert(x, s[1..]))[1..] == Insert(x, s[1..]);
    } else {
      assert ([x] + s)[1..] == s;
    }
  }

  /** Sorting keeps the number of elements on either side of any value. */
  lemma {:induction false} SortCounts(s: seq<real>, v: real)
    ensures CountLe(Sort(s), v) == CountLe(s, v)
    ensures CountGe(Sort(s), v) == CountGe(s, v)
  {
    if |s| > 0 {
      SortCounts(s[1..], v);
      InsertCounts(s[0], Sort(s[1..]), v);
    }
  }

  lemma {:induction false} AllAtLeast(s: seq<real>, v: real)
    requires forall i :: 0 <= i < |s| ==> s[i] >= v
    ensures CountGe(s, v) == |s|
  {
    if |s| > 0 {
      AllAtLeast(s[1..], v);
    }
  }

  /** In a sorted sequence at least `h + 1` elements are at most `s[h]`
      and at least `|s| - h` are at least `s[h]`. */
  lemma {:induction false} SortedRank(s: seq<real>, h: nat)
    requires Sorted(s) && h < |s|
    ensures CountLe(s, s[h]) >= h + 1
    ensures CountGe(s, s[h]) >= |s| - h
  {
    if h == 0 {
      AllAtLeast(s, s[0]);
    } else {
      SortedRank(s[1..], h - 1);
      assert s[1..][h - 1] == s[h];
    }
  }

  /** The median is one of the neighborhood's values, at least half of the
      values (rounded up past the middle) are at most it, and the rest are at
      least it. */
  lemma MedianRank(s: seq<real>)
    requires |s| > 0
    ensures Median(s) in s
    ensures CountLe(s, Median(s)) >= |s| / 2 + 1
    ensures CountGe(s, Median(s)) >= |s| - |s| / 2
  {
    var sorted := Sort(s);
    var m := sorted[|s| / 2];
    SortIsSortedPermutation(s);
    assert m in multiset(sorted);
    assert m in multiset(s);
    SortedRank(sorted, |s| / 2);
    SortCounts(s, m);
  }

  /** The filtered value of one cell. */
  function MedianAt(image: Image, y: nat, x: nat, k: nat): (m: real)
    requires image.Valid() && y < image.height && x < image.width && k >= 1
    ensures m in Window(image, y, x, k)
  {
    WindowNotEmpty(image, y, x, k);
    MedianRank(Window(image, y, x, k));
    Median(Window(image, y, x, k))
  }

  /** Sorting an already sorted sequence leaves it unchanged. */
  lemma {:induction false} SortOfSorted(s: seq<real>)
    requires Sorted(s)
    ensures Sort(s) == s
  {
    if |s| > 0 {
      SortOfSorted(s[1..]);
      assert s == [s[0]] + s[1..];
    }
  }

  /** The median of sorted values is their middle element. */
  lemma MedianOfSorted(s: seq<real>)
    requires |s| > 0 && Sorted(s)
    ensures Median(s) == s[|s| / 2]
  {
    SortOfSorted(s);
  }

  /** Where the neighborhood is already sorted, the filter picks its middle
      element. */
  lemma MedianOfSortedWindow(image: Image, y: nat, x: nat, k: nat)
    requires image.Valid() && y < image.height && x < image.width && k >= 1
    requires Sorted(Window(image, y, x, k))
    ensures |Window(image, y, x, k)| > 0
    ensures MedianAt(image, y, x, k) == Window(image, y, x, k)[|Window(image, y, x, k)| / 2]
  {
    CenterInWindow(image, y, x, k);
    MedianOfSorted(Window(image, y, x, k));
  }

  /** The filtered value of a cell is the value of some in-bounds cell of
      its window, and it splits the window's values at the middle: more than
      half of them are at most it, and at least the rest are at least it. */
  lemma MedianAtIsWindowMedian(image: Image, y: nat, x: nat, k: nat)
    requires image.Valid() && y < image.height && x < image.width && k >= 1
    ensures exists sy, sx :: InWindow(image, y, x, k, sy, sx) && image.rows[sy][sx] == MedianAt(image, y, x, k)
    ensures var w := Window(image, y, x, k);
      CountLe(w, MedianAt(image, y, x, k)) >= |w| / 2 + 1 &&
      CountGe(w, MedianAt(image, y, x, k)) >= |w| - |w| / 2
  {
    CenterInWindow(image, y, x, k);
    MedianRank(Window(image, y, x, k));
    WindowMembership(image, y, x, k, MedianAt(image, y, x, k));
  }

  /** With a 1 by 1 kernel the neighborhood is the cell alone. */
  lemma WindowOfOne(image: Image, y: nat, x: nat)
    requires image.Valid() && y < image.height && x < image.width
    ensures Window(image, y, x, 1) == [image.rows[y][x]]
  {
    var cell := image.rows[y][x..x + 1];
    assert cell == [image.rows[y][x]];
    assert Block(image, y, y + 1, x, x + 1) == [cell];
    assert Flatten([cell]) == Flatten([]) + cell;
  }

  /** With a 1 by 1 kernel the filter is the identity. */
  lemma KernelOneIsIdentity(image: Image, y: nat, x: nat)
    requires image.Valid() && y < image.height && x < image.width
    ensures MedianAt(image, y, x, 1) == image.rows[y][x]
  {
    WindowOfOne(image, y, x);
    MedianOfSortedWindow(image, y, x, 1);
  }

  /** A sequence whose neighbours are in order is sorted. */
  lemma {:induction false} SortedFromSteps(s: seq<real>)
    requires forall i :: 0 <= i < |s| - 1 ==> s[i] <= s[i + 1]
    ensures Sorted(s)
  {
    if |s| > 1 {
      SortedFromSteps(s[1..]);
      forall i, j | 0 <= i < j < |s|
        ensures s[i] <= s[j]
      {
        assert s[j] == s[1..][j - 1];
        if i > 0 {
          assert s[i] == s[1..][i - 1];
        } else if j > 1 {
          assert s[1] == s[1..][0];
        }
      }
    }
  }

  lemma OneToNineSorted(s: seq<real>)
    requires s == [1.0, 2.0, 3.0, 4.0, 5.0, 6.0, 7.0, 8.0, 9.0]
    ensures Sorted(s)
  {
    SortedFromSteps(s);
  }

  /** With a 3 by 3 kernel, the neighborhood of the center of a 3 by 3
      raster is the whole raster in row-major order. */
  lemma ThreeByThreeCenter(image: Image, k: nat)
    requires image.Valid() && image.height == 3 && image.width == 3 && k == 3
    ensures Window(image, 1, 1, k) == image.rows[0] + image.rows[1] + image.rows[2]
  {
    var rows := image.rows;
    assert WindowStart(1, k) == 0;
    assert rows[0][0..3] == rows[0] && rows[1][0..3] == rows[1] && rows[2][0..3] == rows[2];
    assert Block(image, 0, 3, 0, 3) == [rows[0], rows[1], rows[2]];
    FlattenAppend([], rows[0]);
    FlattenAppend([rows[0]], rows[1]);
    FlattenAppend([rows[0], rows[1]], rows[2]);
    assert [] + [rows[0]] == [rows[0]] && [rows[0]] + [rows[1]] == [rows[0], rows[1]];
    assert [rows[0], rows[1]] + [rows[2]] == [rows[0], rows[1], rows[2]];
  }

  /** The neighborhood of the center of the 3 by 3 raster 1..9 is sorted
      with 5 in the middle. */
  lemma OneToNineWindow(image: Image, k: nat)
    requires image == Image(3, 3, [[1.0, 2.0, 3.0], [4.0, 5.0, 6.0], [7.0, 8.0, 9.0]]) && k == 3
    ensures |Window(image, 1, 1, k)| == 9 && Sorted(Window(image, 1, 1, k)) && Window(image, 1, 1, k)[4] == 5.0
  {
    ThreeByThreeCenter(image, k);
    OneToNineSorted(Window(image, 1, 1, k));
  }

  /** The 3 by 3 raster 1..9 filtered with a 3 by 3 kernel gives 5 at its
      center. */
  lemma CenterOfOneToNine(image: Image, k: nat)
    requires image == Image(3, 3, [[1.0, 2.0, 3.0], [4.0, 5.0, 6.0], [7.0, 8.0, 9.0]]) && k == 3
    ensures MedianAt(image, 1, 1, k) == 5.0
  {
    OneToNineWindow(image, k);
    MedianOfSortedWindow(image, 1, 1, k);
  }

  // ---------------------------------------------------------------------
  // The filter

  /** The two inner loops: pushes the in-bounds values of the window of
      `(y, x)` row by row. */
  method Neighborhood(image: Image, y: nat, x: nat, k: nat) returns (neighborhood: seq<real>)
    requires image.Valid()
    ensures neighborhood == Window(image, y, x, k)
  {
    var top, left := WindowStart(y, k), WindowStart(x, k);
    ghost var r0, c0, c1 := Clip(top, image.height), Clip(left, image.width), Clip(left + k, image.width);
    neighborhood := [];
    for ky := 0 to k
      invariant neighborhood == Flatten(Block(image, r0, Clip(top + ky, image.height), c0, c1))
    {
      ghost var done := Block(image, r0, Clip(top + ky, image.height), c0, c1);
      neighborhood := PushRow(image, top + ky, left, k, neighborhood);
      BlockStep(image, r0, top + ky, c0, c1);
      if 0 <= top + ky < image.height {
        FlattenAppend(done, image.rows[top + ky][c0..c1]);
      }
    }
  }

  /** One more row of the window adds that row's cells, if it is inside the
      raster. */
  lemma BlockStep(image: Image, r0: nat, sy: int, c0: nat, c1: nat)
    requires image.Valid() && r0 <= Clip(sy, image.height) && c0 <= c1 <= image.width
    ensures Block(image, r0, Clip(sy + 1, image.height), c0, c1) ==
      Block(image, r0, Clip(sy, image.height), c0, c1) + (if 0 <= sy < image.height then [image.rows[sy][c0..c1]] else [])
  {
  }

  /** The innermost loop: pushes the in-bounds cells of row `sampleY` from
      column `left` for `k` columns. */
  method PushRow(image: Image, sampleY: int, left: int, k: nat, neighborhood: seq<real>) returns (extended: seq<real>)
    requires image.Valid()
    ensures extended == neighborhood + CellsOfRow(image, sampleY, Clip(left, image.width), Clip(left + k, image.width))
  {
    extended := neighborhood;
    for kx := 0 to k
      invariant extended == neighborhood + CellsOfRow(image, sampleY, Clip(left, image.width), Clip(left + kx, image.width))
    {
      var sampleX := left + kx;
      if 0 <= sampleY < image.height && 0 <= sampleX < image.width {
        assert image.rows[sampleY][Clip(left, image.width)..sampleX + 1] ==
          image.rows[sampleY][Clip(left, image.width)..sampleX] + [image.rows[sampleY][sampleX]];
        extended := extended + [image.rows[sampleY][sampleX]];
      }
    }
  }

  /** Columns `c0` to `c1 - 1` of row `sy`, or nothing for a row outside
      the raster. */
  function CellsOfRow(image: Image, sy: int, c0: nat, c1: nat): seq<real>
    requires image.Valid() && c0 <= c1 <= image.width
  {
    if 0 <= sy < image.height then image.rows[sy][c0..c1] else []
  }

  /** The body of the cell loop: gather, sort, take the middle element. */
  method FilterCell(image: Image, y: nat, x: nat, k: nat) returns (m: real)
    requires image.Valid() && y < image.height && x < image.width && k >= 1
    ensures m == Filtered(image, k)[y][x]
  {
    var neighborhood := Neighborhood(image, y, x, k);
    WindowNotEmpty(image, y, x, k);
    var sorted := Sort(neighborhood);
    var medianIndex := |sorted| / 2;
    m := sorted[medianIndex];
    assert m == MedianAt(image, y, x, k);
  }

  /** The whole filtered raster, row by row: each cell is the median of its
      neighborhood. */
  function Filtered(image: Image, k: nat): (f: seq<seq<real>>)
    requires image.Valid() && (k >= 1 || image.height == 0 || image.width == 0)
    ensures |f| == image.height
    ensures forall y :: 0 <= y < image.height ==> |f[y]| == image.width
    ensures forall y, x {:trigger MedianAt(image, y, x, k)} :: 0 <= y < image.height && 0 <= x < image.width ==>
      f[y][x] == MedianAt(image, y, x, k)
  {
    seq(image.height, y requires 0 <= y < image.height =>
      seq(image.width, x requires 0 <= x < image.width => MedianAt(image, y, x, k)))
  }

  /** The loop over the columns of row `y`. */
  method FilterRow(image: Image, k: nat, y: nat, out: array2<real>)
    requires image.Valid() && y < image.height && k >= 1
    requires out.Length0 == image.height && out.Length1 == image.width
    modifies out
    ensures forall x :: 0 <= x < image.width ==> out[y, x] == Filtered(image, k)[y][x]
    ensures forall y', x' :: 0 <= y' < image.height && 0 <= x' < image.width && y' != y ==>
      out[y', x'] == old(out[y', x'])
  {
    ghost var row := Filtered(image, k)[y];
    for x := 0 to image.width
      invariant forall x' :: 0 <= x' < x ==> out[y, x'] == row[x']
      invariant forall y', x' :: 0 <= y' < image.height && 0 <= x' < image.width && y' != y ==>
        out[y', x'] == old(out[y', x'])
    {
      out[y, x] := FilterCell(image, y, x, k);
    }
  }

  /** `median_filter_2d`: a zeroed output of the input's shape, each cell
      set to the median of its neighborhood. A zero kernel panics on any
      non-empty raster, so it is excluded there. */
  method MedianFilter2d(image: Image, kernelSize: nat) returns (out: array2<real>)
    requires image.Valid()
    requires kernelSize >= 1 || image.height == 0 || image.width == 0
    ensures out.Length0 == image.height && out.Length1 == image.width
    ensures forall y, x :: 0 <= y < image.height && 0 <= x < image.width ==>
      out[y, x] == Filtered(image, kernelSize)[y][x]
  {
    ghost var filtered := Filtered(image, kernelSize);
    out := new real[image.height, image.width]((_, _) => 0.0);
    if image.width == 0 {
      return;
    }
    for y := 0 to image.height
      invariant forall y', x' :: 0 <= y' < y && 0 <= x' < image.width ==> out[y', x'] == filtered[y'][x']
    {
      FilterRow(image, kernelSize, y, out);
    }
  }
}
