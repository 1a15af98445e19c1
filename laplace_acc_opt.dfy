/** The OpenACC Laplace solver of 4_Openacc/extra/laplace-acc-opt.cpp: two
    fixed arrays `temp` and `temp_prev`, set up by `initialize`, and a main
    loop that picks the direction of each sweep by the parity of the
    iteration count instead of swapping pointers. Offloading and the
    parallel reduction are sequential here. */
module LaplaceAcc {
  import opened Dense
  import opened Jacobi
  import LaplaceSeq

  /** The value `initialize` writes into border cell (i, j) of both arrays.
      Its first loop, over every row, sets column 0 to 0 and column W+1 to
      `(100/H) * i`; its second, over the columns 1..W only, sets row 0 to
      0 and row H+1 to `(100/W) * j`. So the corners keep the column
      value. */
  function BorderCell(H: nat, W: nat, i: nat, j: nat): real
    requires H >= 1 && W >= 1
  {
    if j == 0 then 0.0
    else if j == W + 1 then (100.0 / H as real) * i as real
    else if i == 0 then 0.0
    else (100.0 / W as real) * j as real
  }

  /** Plate `g` with the border `initialize` writes. */
  ghost function Bordered(g: Grid, H: nat, W: nat): (r: Grid)
    requires IsGrid(g, H, W) && H >= 1 && W >= 1
    ensures IsGrid(r, H, W)
  {
    seq(H + 2, i requires 0 <= i < H + 2 =>
      seq(W + 2, j requires 0 <= j < W + 2 => if Interior(H, W, i, j) then g[i][j] else BorderCell(H, W, i, j)))
  }

  /** The plate that is 0 everywhere. */
  ghost function Cold(H: nat, W: nat): (g: Grid)
    ensures IsGrid(g, H, W)
  {
    seq(H + 2, i => seq(W + 2, j => 0.0))
  }

  /** What `initialize` leaves in `temp_prev`: a cold interior inside the
      border. */
  ghost function AccInit(H: nat, W: nat): (g: Grid)
    requires H >= 1 && W >= 1
    ensures IsGrid(g, H, W)
  {
    Bordered(Cold(H, W), H, W)
  }

  /** The two arrays after `initialize` have the same border, whatever
      `temp` held inside. */
  lemma BorderedSameBorder(g: Grid, h: Grid, H: nat, W: nat)
    requires IsGrid(g, H, W) && IsGrid(h, H, W) && H >= 1 && W >= 1
    ensures SameBorder(Bordered(g, H, W), Bordered(h, H, W), H, W)
  {
  }

  /** `initialize`: clear the interior of `temp_prev`, then write columns 0
      and W+1 of both arrays, then rows 0 and H+1 over the columns 1..W.
      The interior of `temp` keeps whatever it held. */
  method Initialize(temp: array2<real>, tempPrev: array2<real>, H: nat, W: nat)
    requires temp != tempPrev && H >= 1 && W >= 1
    requires temp.Length0 == tempPrev.Length0 == H + 2 && temp.Length1 == tempPrev.Length1 == W + 2
    modifies temp, tempPrev
    ensures Entries(tempPrev) == AccInit(H, W)
    ensures Entries(temp) == Bordered(old(Entries(temp)), H, W)
  {
    ghost var T := Entries(temp);
    EntriesMirrors(temp, H, W);
    ClearInterior(tempPrev, H, W);
    SetColumns(temp, tempPrev, H, W);
    SetRows(temp, tempPrev, H, W);
    assert Mirrors(tempPrev, AccInit(H, W), H, W);
    assert Mirrors(temp, Bordered(T, H, W), H, W);
    EntriesAre(tempPrev, AccInit(H, W), H, W);
    EntriesAre(temp, Bordered(T, H, W), H, W);
  }

  /** The first loop nest of `initialize`: the interior of `temp_prev`
      becomes 0; its border is left alone. */
  method ClearInterior(tempPrev: array2<real>, H: nat, W: nat)
    requires tempPrev.Length0 == H + 2 && tempPrev.Length1 == W + 2
    modifies tempPrev
    ensures forall r, c :: 0 <= r < H + 2 && 0 <= c < W + 2 ==>
              tempPrev[r, c] == if Interior(H, W, r, c) then 0.0 else old(tempPrev[r, c])
  {
    var i := 1;
    while i <= H
      invariant 1 <= i <= H + 1
      invariant forall r, c :: 0 <= r < H + 2 && 0 <= c < W + 2 ==>
                  tempPrev[r, c] == if Interior(H, W, r, c) && r < i then 0.0 else old(tempPrev[r, c])
    {
      var j := 1;
      while j <= W
        invariant 1 <= j <= W + 1
        invariant forall r, c :: 0 <= r < H + 2 && 0 <= c < W + 2 ==>
                    tempPrev[r, c] == if Interior(H, W, r, c) && (r < i || (r == i && c < j)) then 0.0 else old(tempPrev[r, c])
      {
        tempPrev[i, j] := 0.0;
        j := j + 1;
      }
      i := i + 1;
    }
  }

  /** The second loop of `initialize`: in every row of both arrays, column
      0 becomes 0 and column W+1 becomes `(100/H) * i`. */
  method SetColumns(temp: array2<real>, tempPrev: array2<real>, H: nat, W: nat)
    requires temp != tempPrev && H >= 1
    requires temp.Length0 == tempPrev.Length0 == H + 2 && temp.Length1 == tempPrev.Length1 == W + 2
    modifies temp, tempPrev
    ensures forall r, c :: 0 <= r < H + 2 && 0 <= c < W + 2 ==>
              temp[r, c] == (if c == 0 then 0.0 else if c == W + 1 then (100.0 / H as real) * r as real else old(temp[r, c]))
              && tempPrev[r, c] == (if c == 0 then 0.0 else if c == W + 1 then (100.0 / H as real) * r as real else old(tempPrev[r, c]))
  {
    var i := 0;
    while i <= H + 1
      invariant 0 <= i <= H + 2
      invariant forall r, c :: 0 <= r < H + 2 && 0 <= c < W + 2 ==>
                  temp[r, c] == (if r < i && c == 0 then 0.0 else if r < i && c == W + 1 then (100.0 / H as real) * r as real else old(temp[r, c]))
                  && tempPrev[r, c] == (if r < i && c == 0 then 0.0 else if r < i && c == W + 1 then (100.0 / H as real) * r as real else old(tempPrev[r, c]))
    {
      temp[i, 0] := 0.0;
      tempPrev[i, 0] := 0.0;
      var x := (100.0 / H as real) * i as real;
      temp[i, W + 1] := x;
      tempPrev[i, W + 1] := x;
      i := i + 1;
    }
  }

  /** The third loop of `initialize`: in the columns 1..W of both arrays,
      row 0 becomes 0 and row H+1 becomes `(100/W) * j`. */
  method SetRows(temp: array2<real>, tempPrev: array2<real>, H: nat, W: nat)
    requires temp != tempPrev && W >= 1
    requires temp.Length0 == tempPrev.Length0 == H + 2 && temp.Length1 == tempPrev.Length1 == W + 2
    modifies temp, tempPrev
    ensures forall r, c :: 0 <= r < H + 2 && 0 <= c < W + 2 ==>
              temp[r, c] == (if 1 <= c <= W && r == 0 then 0.0 else if 1 <= c <= W && r == H + 1 then (100.0 / W as real) * c as real else old(temp[r, c]))
              && tempPrev[r, c] == (if 1 <= c <= W && r == 0 then 0.0 else if 1 <= c <= W && r == H + 1 then (100.0 / W as real) * c as real else old(tempPrev[r, c]))
  {
    var j := 1;
    while j <= W
      invariant 1 <= j <= W + 1
      invariant forall r, c :: 0 <= r < H + 2 && 0 <= c < W + 2 ==>
                  temp[r, c] == (if 1 <= c < j && r == 0 then 0.0 else if 1 <= c < j && r == H + 1 then (100.0 / W as real) * c as real else old(temp[r, c]))
                  && tempPrev[r, c] == (if 1 <= c < j && r == 0 then 0.0 else if 1 <= c < j && r == H + 1 then (100.0 / W as real) * c as real else old(tempPrev[r, c]))
    {
      temp[0, j] := 0.0;
      tempPrev[0, j] := 0.0;
      var x := (100.0 / W as real) * j as real;
      temp[H + 1, j] := x;
      tempPrev[H + 1, j] := x;
      j := j + 1;
    }
  }

  /** `main` from `initialize` on: set up both arrays, then run the
      parity-driven loop. The plate the relaxation starts from is `temp`
      after `initialize`: its border, and whatever `temp` held inside. */
  method Run(temp: array2<real>, tempPrev: array2<real>, H: nat, W: nat, fuel: nat)
    returns (itr: nat, worstDt: real, reports: seq<Report>, ghost dts: seq<real>)
    requires temp != tempPrev && H >= 1 && W >= 1
    requires temp.Length0 == tempPrev.Length0 == H + 2 && temp.Length1 == tempPrev.Length1 == W + 2
    modifies temp, tempPrev
    ensures itr <= fuel
    ensures Entries(if Even(itr) then temp else tempPrev) == Iterate(Bordered(old(Entries(temp)), H, W), H, W, itr)
    ensures Entries(if Even(itr) then tempPrev else temp) == Older(Bordered(old(Entries(temp)), H, W), AccInit(H, W), H, W, itr)
    ensures worstDt == if itr == 0 then StartDt else SweepMax(Iterate(Bordered(old(Entries(temp)), H, W), H, W, itr - 1), H, W)
    ensures worstDt > Tolerance ==> itr == fuel
    ensures fuel > 0 ==> itr > 0
    ensures forall k :: 0 <= k && k + 1 < itr ==> SweepMax(Iterate(Bordered(old(Entries(temp)), H, W), H, W, k), H, W) > Tolerance
    ensures reports == Trace(Bordered(old(Entries(temp)), H, W), H, W, 0, itr)
    ensures |dts| == itr && WorstTrace(Bordered(old(Entries(temp)), H, W), H, W, dts)
  {
    ghost var T := Entries(temp);
    Initialize(temp, tempPrev, H, W);
    BorderedSameBorder(T, Cold(H, W), H, W);
    itr, worstDt, reports, dts := Relax(temp, tempPrev, H, W, fuel, Bordered(T, H, W), AccInit(H, W));
  }

  /** `main`'s loop: while `worst_dt` exceeds the tolerance (and, in this
      model, fewer than `fuel` iterations have run), sweep by the parity of
      `itr`, report on every 100th iteration, and count. On return the array
      last written (`temp` after an even number of iterations, otherwise
      `temp_prev`) holds the plate after `itr` steps from `T0`. */
  method Relax(temp: array2<real>, tempPrev: array2<real>, H: nat, W: nat, fuel: nat,
               ghost T0: Grid, ghost P0: Grid)
    returns (itr: nat, worstDt: real, reports: seq<Report>, ghost dts: seq<real>)
    requires temp != tempPrev && IsGrid(T0, H, W) && IsGrid(P0, H, W) && SameBorder(T0, P0, H, W)
    requires temp.Length0 == tempPrev.Length0 == H + 2 && temp.Length1 == tempPrev.Length1 == W + 2
    requires Entries(temp) == T0 && Entries(tempPrev) == P0
    modifies temp, tempPrev
    ensures itr <= fuel
    ensures LoopState(temp, tempPrev, H, W, T0, P0, itr, worstDt, dts, reports)
    ensures worstDt > Tolerance ==> itr == fuel
  {
    itr, worstDt, reports, dts := 0, StartDt, [], [];
    while worstDt > Tolerance && itr < fuel
      invariant itr <= fuel
      invariant LoopState(temp, tempPrev, H, W, T0, P0, itr, worstDt, dts, reports)
      decreases fuel - itr
    {
      worstDt, reports := Iteration(temp, tempPrev, H, W, T0, P0, itr, worstDt, dts, reports);
      dts := dts + [worstDt];
      itr := itr + 1;
    }
  }

  /** The state of `main`'s loop before iteration `k`. */
  ghost predicate LoopState(temp: array2<real>, tempPrev: array2<real>, H: nat, W: nat, T0: Grid, P0: Grid,
                            k: nat, worstDt: real, dts: seq<real>, reports: seq<Report>)
    reads temp, tempPrev
  {
    Roles(temp, tempPrev, H, W, T0, P0, k) && Progress(T0, H, W, 0, k, worstDt, dts, reports)
  }

  /** What each array holds before iteration `k`: `temp` is the latest when
      `k` is even, `temp_prev` when it is odd; the latest holds `k` steps
      from `T0`, the other one step fewer (or `P0` before the first
      sweep). */
  ghost predicate Roles(temp: array2<real>, tempPrev: array2<real>, H: nat, W: nat, T0: Grid, P0: Grid, k: nat)
    reads temp, tempPrev
  {
    temp != tempPrev && IsGrid(T0, H, W) && IsGrid(P0, H, W) && SameBorder(T0, P0, H, W)
    && temp.Length0 == tempPrev.Length0 == H + 2 && temp.Length1 == tempPrev.Length1 == W + 2
    && Entries(if Even(k) then temp else tempPrev) == Iterate(T0, H, W, k)
    && Entries(if Even(k) then tempPrev else temp) == Older(T0, P0, H, W, k)
  }

  /** The body of `main`'s loop, iteration `itr`: on odd `itr` sweep
      `temp_prev` into `temp`, on even `itr` sweep `temp` into `temp_prev`;
      on every 100th iteration (always an even one) report `temp`, the
      array that sweep only read. */
  method Iteration(temp: array2<real>, tempPrev: array2<real>, H: nat, W: nat, ghost T0: Grid, ghost P0: Grid,
                   itr: nat, worstDt: real, ghost dts: seq<real>, reports: seq<Report>)
    returns (worstDt': real, reports': seq<Report>)
    requires LoopState(temp, tempPrev, H, W, T0, P0, itr, worstDt, dts, reports)
    requires worstDt > Tolerance
    modifies temp, tempPrev
    ensures LoopState(temp, tempPrev, H, W, T0, P0, itr + 1, worstDt', dts + [worstDt'], reports')
  {
    worstDt' := Alternate(temp, tempPrev, H, W, T0, P0, itr);
    reports' := reports;
    if itr % ReportEvery == 0 {
      ReportsEven(itr);
      reports' := reports + [Report(itr, Entries(temp))];
    }
    ProgressStep(T0, H, W, 0, itr, worstDt, dts, reports, worstDt', reports');
    EvenStep(itr);
  }

  /** The sweep of iteration `itr`, its direction chosen by parity: odd
      `itr` sweeps `temp_prev` into `temp`, even `itr` sweeps `temp` into
      `temp_prev`. */
  method Alternate(temp: array2<real>, tempPrev: array2<real>, H: nat, W: nat, ghost T0: Grid, ghost P0: Grid, itr: nat)
    returns (worstDt: real)
    requires Roles(temp, tempPrev, H, W, T0, P0, itr)
    modifies temp, tempPrev
    ensures Roles(temp, tempPrev, H, W, T0, P0, itr + 1)
    ensures worstDt == SweepMax(Iterate(T0, H, W, itr), H, W)
  {
    EvenStep(itr);
    if itr % 2 == 1 {
      worstDt := Advance(tempPrev, temp, H, W, T0, P0, itr);
    } else {
      worstDt := Advance(temp, tempPrev, H, W, T0, P0, itr);
    }
  }

  /** The sweep of one iteration: `src` holds `k` steps from `T0` and `dst`
      the older plate; afterwards `dst` holds `k + 1` steps. */
  method Advance(src: array2<real>, dst: array2<real>, H: nat, W: nat, ghost T0: Grid, ghost P0: Grid, ghost k: nat)
    returns (worstDt: real)
    requires src != dst && IsGrid(T0, H, W) && IsGrid(P0, H, W) && SameBorder(T0, P0, H, W)
    requires src.Length0 == dst.Length0 == H + 2 && src.Length1 == dst.Length1 == W + 2
    requires Entries(src) == Iterate(T0, H, W, k) && Entries(dst) == Older(T0, P0, H, W, k)
    modifies dst
    ensures Entries(dst) == Iterate(T0, H, W, k + 1)
    ensures worstDt == SweepMax(Iterate(T0, H, W, k), H, W)
  {
    OlderStep(T0, P0, H, W, k);
    worstDt := Sweep(src, dst, H, W);
  }

  // ---------------------------------------------------------------------
  // The two programs side by side.
  // ---------------------------------------------------------------------

  /** Cell (i, j) is one of the four corners of the plate. */
  predicate Corner(H: nat, W: nat, i: nat, j: nat)
  {
    (i == 0 || i == H + 1) && (j == 0 || j == W + 1)
  }

  /** `g` and `h` agree everywhere except perhaps at the corners. */
  ghost predicate OffCorners(g: Grid, h: Grid, H: nat, W: nat)
    requires IsGrid(g, H, W) && IsGrid(h, H, W)
  {
    forall i, j :: 0 <= i < H + 2 && 0 <= j < W + 2 && !Corner(H, W, i, j) ==> g[i][j] == h[i][j]
  }

  /** The two initial layouts differ at most in the bottom-right corner:
      the sequential program writes its bottom row last, over every column,
      so the corner gets `(100/W) * (W+1)`; this program's bottom-row loop
      stops at column W, so the corner keeps `(100/H) * (H+1)`. */
  lemma InitialCorner(H: nat, W: nat)
    requires H >= 1 && W >= 1
    ensures forall i, j :: 0 <= i < H + 2 && 0 <= j < W + 2 && (i, j) != (H + 1, W + 1) ==>
              LaplaceSeq.InitGrid(H, W)[i][j] == AccInit(H, W)[i][j]
    ensures LaplaceSeq.InitGrid(H, W)[H + 1][W + 1] == 100.0 + 100.0 / W as real
    ensures AccInit(H, W)[H + 1][W + 1] == 100.0 + 100.0 / H as real
  {
    var h, w := H as real, W as real;
    assert (100.0 / w) * (w + 1.0) == 100.0 + 100.0 / w;
    assert (100.0 / h) * (h + 1.0) == 100.0 + 100.0 / h;
  }

  /** Hence the two layouts agree off the corners, and they are equal
      exactly when the plate is square. */
  lemma InitialLayouts(H: nat, W: nat)
    requires H >= 1 && W >= 1
    ensures OffCorners(LaplaceSeq.InitGrid(H, W), AccInit(H, W), H, W)
    ensures LaplaceSeq.InitGrid(H, W) == AccInit(H, W) <==> H == W
  {
    var g, a := LaplaceSeq.InitGrid(H, W), AccInit(H, W);
    InitialCorner(H, W);
    if H == W {
      forall i | 0 <= i < H + 2 ensures g[i] == a[i] {
        assert forall j :: 0 <= j < W + 2 ==> g[i][j] == a[i][j];
      }
    }
    if g == a {
      assert g[H + 1][W + 1] == a[H + 1][W + 1];
      ReciprocalInjective(H, W);
    }
  }

  /** At the size both programs fix, `HEIGHT == WIDTH`, the two
      `initialize` routines produce the same plate. */
  lemma ProgramLayouts()
    ensures LaplaceSeq.InitGrid(Height, Width) == AccInit(Height, Width)
  {
    InitialLayouts(Height, Width);
  }

  /** `100/H == 100/W` only for `H == W`. */
  lemma ReciprocalInjective(H: nat, W: nat)
    requires H >= 1 && W >= 1 && 100.0 + 100.0 / W as real == 100.0 + 100.0 / H as real
    ensures H == W
  {
    var h, w := H as real, W as real;
    assert (100.0 / h) * h == 100.0;
    assert (100.0 / w) * h == 100.0;
    assert (100.0 / w) * w == 100.0;
  }

  /** A sweep reads only the neighbours of interior cells, never a corner:
      plates that agree off the corners change every interior cell by the
      same amount and relax into plates that agree off the corners. */
  lemma OffCornersStep(g: Grid, h: Grid, H: nat, W: nat)
    requires IsGrid(g, H, W) && IsGrid(h, H, W) && OffCorners(g, h, H, W)
    ensures OffCorners(Step(g, H, W), Step(h, H, W), H, W)
  {
    SweepGridAt(g, g, H, W);
    SweepGridAt(h, h, H, W);
  }

  /** ... and they report the same `worst_dt`. */
  lemma OffCornersSweepMax(g: Grid, h: Grid, H: nat, W: nat)
    requires IsGrid(g, H, W) && IsGrid(h, H, W) && OffCorners(g, h, H, W)
    ensures SweepMax(g, H, W) == SweepMax(h, H, W)
  {
    OffCornersMaxBefore(g, h, H, W, H);
  }

  /** Row maxima of plates that agree off the corners are equal. */
  lemma {:induction false} OffCornersRowMax(g: Grid, h: Grid, H: nat, W: nat, i: nat, j: nat, w: real)
    requires IsGrid(g, H, W) && IsGrid(h, H, W) && OffCorners(g, h, H, W) && 1 <= i <= H && j <= W
    ensures RowMax(g, H, W, i, j, w) == RowMax(h, H, W, i, j, w)
  {
    if j > 0 {
      OffCornersRowMax(g, h, H, W, i, j - 1, w);
      assert Delta(g, H, W, i, j) == Delta(h, H, W, i, j);
    }
  }

  /** Partial sweep maxima of plates that agree off the corners are
      equal. */
  lemma {:induction false} OffCornersMaxBefore(g: Grid, h: Grid, H: nat, W: nat, i: nat)
    requires IsGrid(g, H, W) && IsGrid(h, H, W) && OffCorners(g, h, H, W) && i <= H
    ensures MaxBefore(g, H, W, i) == MaxBefore(h, H, W, i)
  {
    if i > 0 {
      OffCornersMaxBefore(g, h, H, W, i - 1);
      OffCornersRowMax(g, h, H, W, i, W, MaxBefore(g, H, W, i - 1));
    }
  }

  /** Relaxing two plates that agree off the corners keeps them in step:
      after any number of steps they still agree off the corners, and
      every sweep reports the same `worst_dt`. */
  lemma {:induction false} OffCornersIterate(g: Grid, h: Grid, H: nat, W: nat, k: nat)
    requires IsGrid(g, H, W) && IsGrid(h, H, W) && OffCorners(g, h, H, W)
    ensures OffCorners(Iterate(g, H, W, k), Iterate(h, H, W, k), H, W)
    ensures SweepMax(Iterate(g, H, W, k), H, W) == SweepMax(Iterate(h, H, W, k), H, W)
  {
    if k > 0 {
      OffCornersIterate(g, h, H, W, k - 1);
      OffCornersStep(Iterate(g, H, W, k - 1), Iterate(h, H, W, k - 1), H, W);
    }
    OffCornersSweepMax(Iterate(g, H, W, k), Iterate(h, H, W, k), H, W);
  }

  /** The two programs compute the same relaxation. Both runs are stated
      against `Iterate` from their starting plates, and this program's
      start (`temp` with a cold interior) differs from the sequential one
      only in a corner; so after every number of sweeps the two produce
      the same plates off the corners and the same `worst_dt`, hence stop
      after the same number of iterations. */
  lemma SameRelaxation(H: nat, W: nat, k: nat)
    requires H >= 1 && W >= 1
    ensures OffCorners(Iterate(LaplaceSeq.InitGrid(H, W), H, W, k), Iterate(AccInit(H, W), H, W, k), H, W)
    ensures SweepMax(Iterate(LaplaceSeq.InitGrid(H, W), H, W, k), H, W) == SweepMax(Iterate(AccInit(H, W), H, W, k), H, W)
  {
    InitialLayouts(H, W);
    OffCornersIterate(LaplaceSeq.InitGrid(H, W), AccInit(H, W), H, W, k);
  }

  /** If `temp`'s interior is cold before `initialize`, both arrays start
      from the same plate. */
  lemma ColdStart(g: Grid, H: nat, W: nat)
    requires IsGrid(g, H, W) && H >= 1 && W >= 1
    requires forall i, j :: Interior(H, W, i, j) ==> g[i][j] == 0.0
    ensures Bordered(g, H, W) == AccInit(H, W)
  {
    var b, a := Bordered(g, H, W), AccInit(H, W);
    forall i | 0 <= i < H + 2 ensures b[i] == a[i] {
      assert forall j :: 0 <= j < W + 2 ==> b[i][j] == a[i][j];
    }
  }
}
