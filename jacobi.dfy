/** One Jacobi relaxation sweep of the Laplace equation on an
    `(H+2) x (W+2)` plate whose outer ring of cells is a fixed border, and
    the facts about it that both Laplace programs
    (4_OpenACC/extra/laplace-seq2.cpp, 4_Openacc/extra/laplace-acc-opt.cpp)
    rely on. Temperatures are exact reals. */
module Jacobi {
  import opened Dense

  /** A plate as a sequence of rows. */
  type Grid = seq<seq<real>>

  /** `HEIGHT` and `WIDTH`, the plate size both programs fix. */
  const Height: nat := 1024
  const Width: nat := 1024

  /** `TEMP_TOLERANCE`: the main loop runs while `worst_dt` exceeds it. */
  const Tolerance: real := 0.01

  /** The value `worst_dt` starts at, above the tolerance so that at least
      one sweep runs. */
  const StartDt: real := 100.0

  /** `track_progress` is called on every iteration that is a multiple of
      this. */
  const ReportEvery: nat := 100

  /** One call of `track_progress`: the iteration number and the plate it
      prints from. */
  datatype Report = Report(itr: nat, plate: Grid)

  /** `g` has `H + 2` rows of `W + 2` cells. */
  ghost predicate IsGrid(g: Grid, H: nat, W: nat)
  {
    |g| == H + 2 && forall i :: 0 <= i < H + 2 ==> |g[i]| == W + 2
  }

  /** Cell (i, j) is one a sweep writes: `1 <= i <= H`, `1 <= j <= W`. */
  predicate Interior(H: nat, W: nat, i: int, j: int)
  {
    1 <= i <= H && 1 <= j <= W
  }

  /** `g` holds the contents of `a`. */
  ghost predicate Mirrors(a: array2<real>, g: Grid, H: nat, W: nat)
    reads a
  {
    a.Length0 == H + 2 && a.Length1 == W + 2 && IsGrid(g, H, W)
    && forall i, j :: 0 <= i < H + 2 && 0 <= j < W + 2 ==> g[i][j] == a[i, j]
  }

  /** `|x|` (`fabs`). */
  function Abs(x: real): (r: real)
    ensures r >= 0.0 && (r == x || r == -x)
  {
    if x < 0.0 then -x else x
  }

  /** The larger of two values (`fmax`). */
  function Max(x: real, y: real): (r: real)
    ensures r >= x && r >= y && (r == x || r == y)
  {
    if x > y then x else y
  }

  /** The new value of an interior cell: a quarter of the sum of its lower,
      upper, right and left neighbours. */
  function Relaxed(g: Grid, H: nat, W: nat, i: nat, j: nat): real
    requires IsGrid(g, H, W) && Interior(H, W, i, j)
  {
    0.25 * (g[i + 1][j] + g[i - 1][j] + g[i][j + 1] + g[i][j - 1])
  }

  /** What a sweep from `src` into `dst` leaves in cell (i, j) of `dst`:
      the relaxation of `src` on the interior, `dst`'s own cell on the
      border. */
  function SweptCell(src: Grid, dst: Grid, H: nat, W: nat, i: nat, j: nat): real
    requires IsGrid(src, H, W) && IsGrid(dst, H, W) && i < H + 2 && j < W + 2
  {
    if Interior(H, W, i, j) then Relaxed(src, H, W, i, j) else dst[i][j]
  }

  /** The first `n` cells of row `i` after a sweep. */
  ghost function SweptRow(src: Grid, dst: Grid, H: nat, W: nat, i: nat, n: nat): (r: seq<real>)
    requires IsGrid(src, H, W) && IsGrid(dst, H, W) && i < H + 2 && n <= W + 2
    ensures |r| == n
  {
    if n == 0 then [] else SweptRow(src, dst, H, W, i, n - 1) + [SweptCell(src, dst, H, W, i, n - 1)]
  }

  /** The first `n` rows after a sweep. */
  ghost function SweptRows(src: Grid, dst: Grid, H: nat, W: nat, n: nat): (r: Grid)
    requires IsGrid(src, H, W) && IsGrid(dst, H, W) && n <= H + 2
    ensures |r| == n && forall i :: 0 <= i < n ==> |r[i]| == W + 2
  {
    if n == 0 then [] else SweptRows(src, dst, H, W, n - 1) + [SweptRow(src, dst, H, W, n - 1, W + 2)]
  }

  /** What a sweep from `src` into `dst` leaves in `dst`, row by row. */
  ghost function SweepGrid(src: Grid, dst: Grid, H: nat, W: nat): (r: Grid)
    requires IsGrid(src, H, W) && IsGrid(dst, H, W)
    ensures IsGrid(r, H, W)
  {
    SweptRows(src, dst, H, W, H + 2)
  }

  /** Cell `j` of a swept row is the swept cell. */
  lemma {:induction false} SweptRowAt(src: Grid, dst: Grid, H: nat, W: nat, i: nat, n: nat, j: nat)
    requires IsGrid(src, H, W) && IsGrid(dst, H, W) && i < H + 2 && j < n <= W + 2
    ensures SweptRow(src, dst, H, W, i, n)[j] == SweptCell(src, dst, H, W, i, j)
  {
    if j < n - 1 {
      SweptRowAt(src, dst, H, W, i, n - 1, j);
    }
  }

  /** Row `i` of the swept rows is the swept row. */
  lemma {:induction false} SweptRowsAt(src: Grid, dst: Grid, H: nat, W: nat, n: nat, i: nat)
    requires IsGrid(src, H, W) && IsGrid(dst, H, W) && i < n <= H + 2
    ensures SweptRows(src, dst, H, W, n)[i] == SweptRow(src, dst, H, W, i, W + 2)
  {
    if i < n - 1 {
      SweptRowsAt(src, dst, H, W, n - 1, i);
    }
  }

  /** Every cell of a swept plate, as `SweptCell` gives it. */
  lemma SweepGridAt(src: Grid, dst: Grid, H: nat, W: nat)
    requires IsGrid(src, H, W) && IsGrid(dst, H, W)
    ensures forall i, j :: 0 <= i < H + 2 && 0 <= j < W + 2 ==>
              SweepGrid(src, dst, H, W)[i][j] == SweptCell(src, dst, H, W, i, j)
  {
    forall i, j | 0 <= i < H + 2 && 0 <= j < W + 2
      ensures SweepGrid(src, dst, H, W)[i][j] == SweptCell(src, dst, H, W, i, j)
    {
      SweptRowsAt(src, dst, H, W, H + 2, i);
      SweptRowAt(src, dst, H, W, i, W + 2, j);
    }
  }

  /** One relaxation step of a plate: the sweep of `g` into a buffer with
      the same border. */
  ghost function Step(g: Grid, H: nat, W: nat): (r: Grid)
    requires IsGrid(g, H, W)
    ensures IsGrid(r, H, W)
  {
    SweepGrid(g, g, H, W)
  }

  /** `k` relaxation steps. */
  ghost function Iterate(g: Grid, H: nat, W: nat, k: nat): (r: Grid)
    requires IsGrid(g, H, W)
    ensures IsGrid(r, H, W)
  {
    if k == 0 then g else Step(Iterate(g, H, W, k - 1), H, W)
  }

  /** How much a sweep from `g` changes interior cell (i, j). */
  function Delta(g: Grid, H: nat, W: nat, i: nat, j: nat): real
    requires IsGrid(g, H, W) && Interior(H, W, i, j)
  {
    Abs(g[i][j] - Relaxed(g, H, W, i, j))
  }

  /** `worst_dt` after the cells (i, 1) .. (i, j) of row i, having been `w`
      before the row. */
  function RowMax(g: Grid, H: nat, W: nat, i: nat, j: nat, w: real): real
    requires IsGrid(g, H, W) && 1 <= i <= H && j <= W
  {
    if j == 0 then w else Max(Delta(g, H, W, i, j), RowMax(g, H, W, i, j - 1, w))
  }

  /** `worst_dt` after rows 1 .. i, having been reset to 0 before the sweep. */
  function MaxBefore(g: Grid, H: nat, W: nat, i: nat): real
    requires IsGrid(g, H, W) && i <= H
  {
    if i == 0 then 0.0 else RowMax(g, H, W, i, W, MaxBefore(g, H, W, i - 1))
  }

  /** `worst_dt` at the end of a sweep from `g`. */
  function SweepMax(g: Grid, H: nat, W: nat): real
    requires IsGrid(g, H, W)
  {
    MaxBefore(g, H, W, H)
  }

  /** `ds[k]` is the `worst_dt` of sweep `k + 1`, the one from the plate
      after `k` steps. */
  ghost predicate WorstTrace(g: Grid, H: nat, W: nat, ds: seq<real>)
    requires IsGrid(g, H, W)
  {
    forall k {:trigger SweepMax(Iterate(g, H, W, k), H, W)} :: 0 <= k < |ds| ==> ds[k] == SweepMax(Iterate(g, H, W, k), H, W)
  }

  /** `n` is even. */
  predicate Even(n: nat)
  {
    n % 2 == 0
  }

  /** Parity alternates. */
  lemma EvenStep(n: nat)
    ensures Even(n + 1) <==> !Even(n)
  {
  }

  /** `g` and `h` agree on every border cell. */
  ghost predicate SameBorder(g: Grid, h: Grid, H: nat, W: nat)
    requires IsGrid(g, H, W) && IsGrid(h, H, W)
  {
    forall i, j :: 0 <= i < H + 2 && 0 <= j < W + 2 && !Interior(H, W, i, j) ==> g[i][j] == h[i][j]
  }

  /** Every cell of `g` lies in `lo..hi`. */
  ghost predicate InRange(g: Grid, H: nat, W: nat, lo: real, hi: real)
    requires IsGrid(g, H, W)
  {
    forall i, j :: 0 <= i < H + 2 && 0 <= j < W + 2 ==> lo <= g[i][j] <= hi
  }

  // ---------------------------------------------------------------------
  // Properties of `worst_dt`.
  // ---------------------------------------------------------------------

  /** The row maximum is at least where it started and at least every
      cell's change seen so far. */
  lemma {:induction false} RowMaxAbove(g: Grid, H: nat, W: nat, i: nat, j: nat, w: real, c: nat)
    requires IsGrid(g, H, W) && 1 <= i <= H && j <= W
    ensures w <= RowMax(g, H, W, i, j, w)
    ensures 1 <= c <= j ==> Delta(g, H, W, i, c) <= RowMax(g, H, W, i, j, w)
  {
    if j > 0 {
      RowMaxAbove(g, H, W, i, j - 1, w, c);
    }
  }

  /** The row maximum is where it started or some cell's change. */
  lemma {:induction false} RowMaxAttained(g: Grid, H: nat, W: nat, i: nat, j: nat, w: real)
    requires IsGrid(g, H, W) && 1 <= i <= H && j <= W
    ensures RowMax(g, H, W, i, j, w) == w ||
            exists c :: 1 <= c <= j && RowMax(g, H, W, i, j, w) == Delta(g, H, W, i, c)
  {
    if j > 0 {
      RowMaxAttained(g, H, W, i, j - 1, w);
    }
  }

  /** `worst_dt` after rows 1 .. i is non-negative and bounds the change
      of every cell in those rows. */
  lemma {:induction false} MaxBeforeAbove(g: Grid, H: nat, W: nat, i: nat, r: nat, c: nat)
    requires IsGrid(g, H, W) && i <= H
    ensures 0.0 <= MaxBefore(g, H, W, i)
    ensures 1 <= r <= i && 1 <= c <= W ==> Delta(g, H, W, r, c) <= MaxBefore(g, H, W, i)
  {
    if i > 0 {
      MaxBeforeAbove(g, H, W, i - 1, r, c);
      RowMaxAbove(g, H, W, i, W, MaxBefore(g, H, W, i - 1), c);
    }
  }

  /** `worst_dt` after rows 1 .. i is 0 or the change of some cell there. */
  lemma {:induction false} MaxBeforeAttained(g: Grid, H: nat, W: nat, i: nat)
    requires IsGrid(g, H, W) && i <= H
    ensures MaxBefore(g, H, W, i) == 0.0 ||
            exists r, c :: Interior(H, W, r, c) && r <= i && MaxBefore(g, H, W, i) == Delta(g, H, W, r, c)
  {
    if i > 0 {
      MaxBeforeAttained(g, H, W, i - 1);
      RowMaxAttained(g, H, W, i, W, MaxBefore(g, H, W, i - 1));
    }
  }

  /** `worst_dt` bounds the change of every interior cell, and is never
      negative. */
  lemma SweepMaxAbove(g: Grid, H: nat, W: nat, r: nat, c: nat)
    requires IsGrid(g, H, W) && Interior(H, W, r, c)
    ensures 0.0 <= Delta(g, H, W, r, c) <= SweepMax(g, H, W)
  {
    MaxBeforeAbove(g, H, W, H, r, c);
  }

  /** `worst_dt` is exactly the largest change of an interior cell: it is
      attained by some cell (on a plate with an interior). */
  lemma SweepMaxAttained(g: Grid, H: nat, W: nat)
    requires IsGrid(g, H, W) && H >= 1 && W >= 1
    ensures exists r, c :: Interior(H, W, r, c) && SweepMax(g, H, W) == Delta(g, H, W, r, c)
  {
    MaxBeforeAttained(g, H, W, H);
    if SweepMax(g, H, W) == 0.0 {
      SweepMaxAbove(g, H, W, 1, 1);
    }
  }

  /** Fixed point: a sweep reports `worst_dt == 0` exactly when every
      interior cell already equals the mean of its neighbours, that is when
      the step leaves the plate unchanged. */
  lemma FixedPoint(g: Grid, H: nat, W: nat)
    requires IsGrid(g, H, W)
    ensures SweepMax(g, H, W) == 0.0 <==> Step(g, H, W) == g
  {
    var s := Step(g, H, W);
    SweepGridAt(g, g, H, W);
    if SweepMax(g, H, W) == 0.0 {
      forall i | 0 <= i < H + 2 ensures s[i] == g[i] {
        forall j | 0 <= j < W + 2 ensures s[i][j] == g[i][j] {
          if Interior(H, W, i, j) {
            SweepMaxAbove(g, H, W, i, j);
          }
        }
      }
    }
    if s == g && H >= 1 && W >= 1 {
      SweepMaxAttained(g, H, W);
      var r, c :| Interior(H, W, r, c) && SweepMax(g, H, W) == Delta(g, H, W, r, c);
      assert s[r][c] == g[r][c];
    }
    if H == 0 {
      assert SweepMax(g, H, W) == 0.0;
    } else if W == 0 {
      NoColumns(g, H, W, H);
    }
  }

  /** With no interior columns `worst_dt` stays 0. */
  lemma {:induction false} NoColumns(g: Grid, H: nat, W: nat, i: nat)
    requires IsGrid(g, H, W) && W == 0 && i <= H
    ensures MaxBefore(g, H, W, i) == 0.0
  {
    if i > 0 {
      NoColumns(g, H, W, i - 1);
    }
  }

  // ---------------------------------------------------------------------
  // Properties of the sweep and of repeated sweeps.
  // ---------------------------------------------------------------------

  /** A sweep into a buffer that has the source's border is one relaxation
      step of the source. */
  lemma SweepIsStep(src: Grid, dst: Grid, H: nat, W: nat)
    requires IsGrid(src, H, W) && IsGrid(dst, H, W) && SameBorder(src, dst, H, W)
    ensures SweepGrid(src, dst, H, W) == Step(src, H, W)
  {
    var a, b := SweepGrid(src, dst, H, W), Step(src, H, W);
    SweepGridAt(src, dst, H, W);
    SweepGridAt(src, src, H, W);
    forall i | 0 <= i < H + 2 ensures a[i] == b[i] {
      assert forall j :: 0 <= j < W + 2 ==> a[i][j] == b[i][j];
    }
  }

  /** A sweep never changes a border cell, so any number of steps keeps the
      starting border. */
  lemma {:induction false} IterateBorder(g: Grid, H: nat, W: nat, k: nat)
    requires IsGrid(g, H, W)
    ensures SameBorder(Iterate(g, H, W, k), g, H, W)
  {
    if k > 0 {
      IterateBorder(g, H, W, k - 1);
      var p := Iterate(g, H, W, k - 1);
      SweepGridAt(p, p, H, W);
    }
  }

  /** Any two iterates of a plate have the same border. */
  lemma IterateSameBorder(g: Grid, H: nat, W: nat, k: nat, l: nat)
    requires IsGrid(g, H, W)
    ensures SameBorder(Iterate(g, H, W, k), Iterate(g, H, W, l), H, W)
  {
    IterateBorder(g, H, W, k);
    IterateBorder(g, H, W, l);
  }

  /** What the buffer that is not the latest holds before iteration `k` of
      a run from `T0`: its own starting plate `P0` before the first sweep,
      the plate one step behind after it. */
  ghost function Older(T0: Grid, P0: Grid, H: nat, W: nat, k: nat): (g: Grid)
    requires IsGrid(T0, H, W) && IsGrid(P0, H, W)
    ensures IsGrid(g, H, W)
  {
    if k == 0 then P0 else Iterate(T0, H, W, k - 1)
  }

  /** A sweep of iterate `k` into the older plate is step `k + 1`: the
      older plate always has the starting plate's border. */
  lemma OlderStep(T0: Grid, P0: Grid, H: nat, W: nat, k: nat)
    requires IsGrid(T0, H, W) && IsGrid(P0, H, W) && SameBorder(T0, P0, H, W)
    ensures SweepGrid(Iterate(T0, H, W, k), Older(T0, P0, H, W, k), H, W) == Iterate(T0, H, W, k + 1)
  {
    if k == 0 {
      SweepIsStep(T0, P0, H, W);
    } else {
      IterateSameBorder(T0, H, W, k, k - 1);
      SweepIsStep(Iterate(T0, H, W, k), Iterate(T0, H, W, k - 1), H, W);
    }
  }

  /** Maximum principle for one step: every new value is an average of
      four old ones, so a plate within `lo..hi` stays within `lo..hi`. */
  lemma StepInRange(g: Grid, H: nat, W: nat, lo: real, hi: real)
    requires IsGrid(g, H, W) && InRange(g, H, W, lo, hi)
    ensures InRange(Step(g, H, W), H, W, lo, hi)
  {
    SweepGridAt(g, g, H, W);
  }

  /** Maximum principle: every temperature the relaxation ever produces lies
      within the range of the starting plate. */
  lemma {:induction false} IterateInRange(g: Grid, H: nat, W: nat, k: nat, lo: real, hi: real)
    requires IsGrid(g, H, W) && InRange(g, H, W, lo, hi)
    ensures InRange(Iterate(g, H, W, k), H, W, lo, hi)
  {
    if k > 0 {
      IterateInRange(g, H, W, k - 1, lo, hi);
      StepInRange(Iterate(g, H, W, k - 1), H, W, lo, hi);
    }
  }

  // ---------------------------------------------------------------------
  // The sweep loop nest.
  // ---------------------------------------------------------------------

  /** One sweep: for `i = 1..H`, `j = 1..W`, write the relaxation of `src`
      into `dst[i][j]` and fold `|src[i][j] - dst[i][j]|` into `worst_dt`,
      which starts at 0. `src` is only read (it is not in the frame), so its
      contents before and after the sweep are the same. */
  method Sweep(src: array2<real>, dst: array2<real>, H: nat, W: nat) returns (worstDt: real)
    requires src != dst
    requires src.Length0 == dst.Length0 == H + 2 && src.Length1 == dst.Length1 == W + 2
    modifies dst
    ensures Entries(dst) == SweepGrid(old(Entries(src)), old(Entries(dst)), H, W)
    ensures worstDt == SweepMax(old(Entries(src)), H, W)
  {
    ghost var S, D0 := Entries(src), Entries(dst);
    EntriesMirrors(src, H, W);
    EntriesMirrors(dst, H, W);
    worstDt := SweepRows(src, dst, H, W, S, D0);
    SweepGridAt(S, D0, H, W);
    EntriesAre(dst, SweepGrid(S, D0, H, W), H, W);
  }

  /** The rows of a sweep, stated against the contents `S` of `src` and the
      contents `D0` of `dst` before the sweep. */
  method SweepRows(src: array2<real>, dst: array2<real>, H: nat, W: nat,
                   ghost S: Grid, ghost D0: Grid) returns (worstDt: real)
    requires src != dst
    requires Mirrors(src, S, H, W) && Mirrors(dst, D0, H, W)
    modifies dst
    ensures forall r, c :: 0 <= r < H + 2 && 0 <= c < W + 2 ==>
              dst[r, c] == if Interior(H, W, r, c) then Relaxed(S, H, W, r, c) else D0[r][c]
    ensures worstDt == SweepMax(S, H, W)
  {
    worstDt := 0.0;
    var i := 1;
    while i <= H
      invariant 1 <= i <= H + 1
      invariant forall r, c :: 0 <= r < H + 2 && 0 <= c < W + 2 ==>
                  dst[r, c] == if Interior(H, W, r, c) && r < i then Relaxed(S, H, W, r, c) else D0[r][c]
      invariant worstDt == MaxBefore(S, H, W, i - 1)
    {
      worstDt := SweepRow(src, dst, H, W, i, S, D0, worstDt);
      i := i + 1;
    }
  }

  /** An array mirrors its own contents. */
  lemma EntriesMirrors(a: array2<real>, H: nat, W: nat)
    requires a.Length0 == H + 2 && a.Length1 == W + 2
    ensures Mirrors(a, Entries(a), H, W)
  {
  }

  /** An array whose every cell matches `g` has `g` as its contents. */
  lemma EntriesAre(a: array2<real>, g: Grid, H: nat, W: nat)
    requires Mirrors(a, g, H, W)
    ensures Entries(a) == g
  {
    var s := Entries(a);
    forall r | 0 <= r < H + 2 ensures s[r] == g[r] {
      assert forall c :: 0 <= c < W + 2 ==> s[r][c] == g[r][c];
    }
  }

  /** Row `i` of a sweep. `S` is the contents of `src` and `D0` what `dst`
      held before the sweep; rows before `i` are already relaxed. */
  method SweepRow(src: array2<real>, dst: array2<real>, H: nat, W: nat, i: nat,
                  ghost S: Grid, ghost D0: Grid, w0: real) returns (worstDt: real)
    requires src != dst && 1 <= i <= H
    requires Mirrors(src, S, H, W) && IsGrid(D0, H, W)
    requires dst.Length0 == H + 2 && dst.Length1 == W + 2
    requires forall r, c :: 0 <= r < H + 2 && 0 <= c < W + 2 ==>
               dst[r, c] == if Interior(H, W, r, c) && r < i then Relaxed(S, H, W, r, c) else D0[r][c]
    modifies dst
    ensures forall r, c :: 0 <= r < H + 2 && 0 <= c < W + 2 ==>
              dst[r, c] == if Interior(H, W, r, c) && r <= i then Relaxed(S, H, W, r, c) else D0[r][c]
    ensures worstDt == RowMax(S, H, W, i, W, w0)
  {
    worstDt := w0;
    var j := 1;
    while j <= W
      invariant 1 <= j <= W + 1
      invariant forall r, c :: 0 <= r < H + 2 && 0 <= c < W + 2 ==>
                  dst[r, c] == if Interior(H, W, r, c) && (r < i || (r == i && c < j)) then Relaxed(S, H, W, r, c) else D0[r][c]
      invariant worstDt == RowMax(S, H, W, i, j - 1, w0)
    {
      dst[i, j] := 0.25 * (src[i + 1, j] + src[i - 1, j] + src[i, j + 1] + src[i, j - 1]);
      worstDt := Max(Abs(src[i, j] - dst[i, j]), worstDt);
      j := j + 1;
    }
  }

  // ---------------------------------------------------------------------
  // Bookkeeping of the main loop, shared by both programs.
  // ---------------------------------------------------------------------

  /** The calls of `track_progress` made during the first `n` iterations:
      one on each iteration `k` with `k % 100 == 0`, printing from a plate
      that holds `k + shift` steps when the report is made. */
  ghost function Trace(g: Grid, H: nat, W: nat, shift: nat, n: nat): (t: seq<Report>)
    requires IsGrid(g, H, W)
  {
    if n == 0 then []
    else Trace(g, H, W, shift, n - 1)
         + (if (n - 1) % ReportEvery == 0 then [Report(n - 1, Iterate(g, H, W, n - 1 + shift))] else [])
  }

  /** The report cadence: `n` iterations make one report per multiple of
      100 below `n`, the 0th at iteration 0, the `t`-th at iteration
      `100 * t`, showing the plate after `100 * t + shift` steps. */
  lemma {:induction false} TraceCadence(g: Grid, H: nat, W: nat, shift: nat, n: nat)
    requires IsGrid(g, H, W)
    ensures |Trace(g, H, W, shift, n)| == (n + 99) / 100
    ensures forall t :: 0 <= t < |Trace(g, H, W, shift, n)| ==>
              Trace(g, H, W, shift, n)[t] == Report(100 * t, Iterate(g, H, W, 100 * t + shift))
  {
    if n > 0 {
      TraceCadence(g, H, W, shift, n - 1);
    }
  }

  /** One more iteration extends the trace by its report, if any. */
  lemma TraceStep(g: Grid, H: nat, W: nat, shift: nat, n: nat, t0: seq<Report>, t: seq<Report>)
    requires IsGrid(g, H, W) && t0 == Trace(g, H, W, shift, n)
    requires t == if n % ReportEvery == 0 then t0 + [Report(n, Iterate(g, H, W, n + shift))] else t0
    ensures t == Trace(g, H, W, shift, n + 1)
  {
  }

  /** Every reporting iteration is even. */
  lemma ReportsEven(n: nat)
    requires n % ReportEvery == 0
    ensures Even(n) && !Even(n + 1)
  {
  }

  /** The values the loop has computed before iteration `k`, starting from
      plate `g`: the `worst_dt` of each of the `k` sweeps so far, `worst_dt`
      itself from the last of them (or its start value), every sweep but
      the last above the tolerance (the loop went on after it), and the
      reports made so far. */
  ghost predicate Progress(g: Grid, H: nat, W: nat, shift: nat, k: nat, worstDt: real, dts: seq<real>,
                           reports: seq<Report>)
    requires IsGrid(g, H, W)
  {
    |dts| == k && WorstTrace(g, H, W, dts)
    && worstDt == (if k == 0 then StartDt else dts[k - 1])
    && (forall j :: 0 <= j && j + 1 < k ==> dts[j] > Tolerance)
    && reports == Trace(g, H, W, shift, k)
  }

  /** Iteration `k`, entered because `worst_dt` was above the tolerance,
      adds its sweep's `worst_dt` and its report, if any. */
  lemma ProgressStep(g: Grid, H: nat, W: nat, shift: nat, k: nat, worstDt: real, dts: seq<real>,
                     reports: seq<Report>, w: real, reports': seq<Report>)
    requires IsGrid(g, H, W) && Progress(g, H, W, shift, k, worstDt, dts, reports) && worstDt > Tolerance
    requires w == SweepMax(Iterate(g, H, W, k), H, W)
    requires reports' == if k % ReportEvery == 0 then reports + [Report(k, Iterate(g, H, W, k + shift))] else reports
    ensures Progress(g, H, W, shift, k + 1, w, dts + [w], reports')
  {
    TraceStep(g, H, W, shift, k, reports, reports');
  }
}
