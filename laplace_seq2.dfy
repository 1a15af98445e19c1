/** The sequential Laplace solver of 4_OpenACC/extra/laplace-seq2.cpp: two
    plates `plate_a` and `plate_b`, set up by `initialize`, then swept in
    turn, the roles of "source" (`temp_prev`) and "target" (`temp`) being
    exchanged by swapping two pointers after every sweep. */
module LaplaceSeq {
  import opened Dense
  import opened Jacobi

  /** The value `initialize` leaves in cell (i, j): the right column holds
      `(100/H) * i`, the bottom row, written last, `(100/W) * j`, every
      other cell 0. */
  function InitCell(H: nat, W: nat, i: nat, j: nat): real
    requires H >= 1 && W >= 1
  {
    if i == H + 1 then (100.0 / W as real) * j as real
    else if j == W + 1 then (100.0 / H as real) * i as real
    else 0.0
  }

  /** The plate `initialize` leaves in both arrays. */
  ghost function InitGrid(H: nat, W: nat): (g: Grid)
    requires H >= 1 && W >= 1
    ensures IsGrid(g, H, W)
  {
    seq(H + 2, i requires 0 <= i < H + 2 =>
      seq(W + 2, j requires 0 <= j < W + 2 => InitCell(H, W, i, j)))
  }

  /** The initial plate is cold inside, and its border rises linearly along
      the right column and along the bottom row; the bottom-right corner
      ends with the bottom row's value. */
  lemma InitLayout(H: nat, W: nat)
    requires H >= 1 && W >= 1
    ensures var g := InitGrid(H, W);
      (forall i, j :: Interior(H, W, i, j) ==> g[i][j] == 0.0)
      && (forall i :: 0 <= i < H + 2 ==> g[i][0] == 0.0)
      && (forall j :: 0 <= j < W + 2 ==> g[0][j] == 0.0)
      && (forall i :: 0 <= i <= H ==> g[i][W + 1] == (100.0 / H as real) * i as real)
      && (forall i, j :: i == H + 1 && 0 <= j < W + 2 ==> g[i][j] == (100.0 / W as real) * j as real)
      && g[H + 1][W + 1] == 100.0 + 100.0 / W as real
  {
    var w := W as real;
    assert (100.0 / w) * (w + 1.0) == 100.0 + 100.0 / w;
  }

  /** Every cell of the initial plate lies between 0 and the corner's
      value `100 + 100/W`: the right column climbs to `(100/H) * H = 100`
      at row H, whose successor row the bottom row overwrites, and the
      bottom row climbs to the corner. */
  lemma InitInRange(H: nat, W: nat)
    requires H >= 1 && W >= 1
    ensures InRange(InitGrid(H, W), H, W, 0.0, 100.0 + 100.0 / W as real)
  {
    var g, w := InitGrid(H, W), W as real;
    var hi := 100.0 + 100.0 / w;
    assert 100.0 / w > 0.0;
    forall i, j | 0 <= i < H + 2 && 0 <= j < W + 2
      ensures 0.0 <= g[i][j] <= hi
    {
      if i == H + 1 {
        ScaleBound(W, j);
      } else if j == W + 1 {
        ScaleBound(H, i);
      }
    }
  }

  /** `(100/n) * k` for `k <= n + 1` lies in `0 .. 100 + 100/n`, and in
      `0 .. 100` for `k <= n`. */
  lemma ScaleBound(n: nat, k: nat)
    requires n >= 1 && k <= n + 1
    ensures 0.0 <= (100.0 / n as real) * k as real <= 100.0 + 100.0 / n as real
    ensures k <= n ==> (100.0 / n as real) * k as real <= 100.0
  {
    var q := 100.0 / n as real;
    assert q * n as real == 100.0;
    assert q * (n as real + 1.0) == q * n as real + q;
    MulMonotone(q, k as real, n as real + 1.0);
    if k <= n {
      MulMonotone(q, k as real, n as real);
    }
  }

  /** Multiplying by a non-negative factor keeps the order. */
  lemma MulMonotone(q: real, x: real, y: real)
    requires 0.0 <= q && 0.0 <= x <= y
    ensures 0.0 <= q * x <= q * y
  {
    assert q * y - q * x == q * (y - x);
  }

  /** `initialize`: clear both plates, then write the right column, then
      the bottom row, into both. */
  method Initialize(plateA: array2<real>, plateB: array2<real>, H: nat, W: nat)
    requires plateA != plateB && H >= 1 && W >= 1
    requires plateA.Length0 == plateB.Length0 == H + 2 && plateA.Length1 == plateB.Length1 == W + 2
    modifies plateA, plateB
    ensures Entries(plateA) == InitGrid(H, W) && Entries(plateB) == InitGrid(H, W)
  {
    ClearPlates(plateA, plateB, H, W);
    SetRightColumn(plateA, plateB, H, W);
    SetBottomRow(plateA, plateB, H, W);
    EntriesAre(plateA, InitGrid(H, W), H, W);
    EntriesAre(plateB, InitGrid(H, W), H, W);
  }

  /** The first loop nest of `initialize`: every cell of both plates
      becomes 0. */
  method ClearPlates(plateA: array2<real>, plateB: array2<real>, H: nat, W: nat)
    requires plateA != plateB
    requires plateA.Length0 == plateB.Length0 == H + 2 && plateA.Length1 == plateB.Length1 == W + 2
    modifies plateA, plateB
    ensures forall r, c :: 0 <= r < H + 2 && 0 <= c < W + 2 ==> plateA[r, c] == 0.0 && plateB[r, c] == 0.0
  {
    var i := 0;
    while i <= H + 1
      invariant 0 <= i <= H + 2
      invariant forall r, c :: 0 <= r < i && 0 <= c < W + 2 ==> plateA[r, c] == 0.0 && plateB[r, c] == 0.0
    {
      ClearRow(plateA, plateB, H, W, i);
      i := i + 1;
    }
  }

  /** The second loop of `initialize`: cell (i, W+1) of both plates
      becomes `(100/H) * i`, for every row. */
  method SetRightColumn(plateA: array2<real>, plateB: array2<real>, H: nat, W: nat)
    requires plateA != plateB && H >= 1
    requires plateA.Length0 == plateB.Length0 == H + 2 && plateA.Length1 == plateB.Length1 == W + 2
    requires forall r, c :: 0 <= r < H + 2 && 0 <= c < W + 2 ==> plateA[r, c] == 0.0 && plateB[r, c] == 0.0
    modifies plateA, plateB
    ensures forall r, c :: 0 <= r < H + 2 && 0 <= c < W + 2 ==>
              plateA[r, c] == plateB[r, c] == if c == W + 1 then (100.0 / H as real) * r as real else 0.0
  {
    var i := 0;
    while i <= H + 1
      invariant 0 <= i <= H + 2
      invariant forall r, c :: 0 <= r < H + 2 && 0 <= c < W + 2 ==>
                  plateA[r, c] == plateB[r, c] == if c == W + 1 && r < i then (100.0 / H as real) * r as real else 0.0
    {
      var x := (100.0 / H as real) * i as real;
      plateA[i, W + 1] := x;
      plateB[i, W + 1] := x;
      i := i + 1;
    }
  }

  /** The third loop of `initialize`: cell (H+1, j) of both plates becomes
      `(100/W) * j`, for every column, the corner included. */
  method SetBottomRow(plateA: array2<real>, plateB: array2<real>, H: nat, W: nat)
    requires plateA != plateB && H >= 1 && W >= 1
    requires plateA.Length0 == plateB.Length0 == H + 2 && plateA.Length1 == plateB.Length1 == W + 2
    requires forall r, c :: 0 <= r < H + 2 && 0 <= c < W + 2 ==>
               plateA[r, c] == plateB[r, c] == if c == W + 1 then (100.0 / H as real) * r as real else 0.0
    modifies plateA, plateB
    ensures Mirrors(plateA, InitGrid(H, W), H, W) && Mirrors(plateB, InitGrid(H, W), H, W)
  {
    var j := 0;
    while j <= W + 1
      invariant 0 <= j <= W + 2
      invariant forall r, c :: 0 <= r < H + 2 && 0 <= c < W + 2 ==>
                  plateA[r, c] == plateB[r, c] ==
                    if r == H + 1 && c < j then (100.0 / W as real) * c as real
                    else if c == W + 1 then (100.0 / H as real) * r as real
                    else 0.0
    {
      var x := (100.0 / W as real) * j as real;
      plateA[H + 1, j] := x;
      plateB[H + 1, j] := x;
      j := j + 1;
    }
  }

  /** The inner clearing loop of `initialize` on row `i`. */
  method ClearRow(plateA: array2<real>, plateB: array2<real>, H: nat, W: nat, i: nat)
    requires plateA != plateB && i < H + 2
    requires plateA.Length0 == plateB.Length0 == H + 2 && plateA.Length1 == plateB.Length1 == W + 2
    modifies plateA, plateB
    ensures forall c :: 0 <= c < W + 2 ==> plateA[i, c] == 0.0 && plateB[i, c] == 0.0
    ensures forall r, c :: 0 <= r < H + 2 && 0 <= c < W + 2 && r != i ==>
              plateA[r, c] == old(plateA[r, c]) && plateB[r, c] == old(plateB[r, c])
  {
    var j := 0;
    while j <= W + 1
      invariant 0 <= j <= W + 2
      invariant forall c :: 0 <= c < j ==> plateA[i, c] == 0.0 && plateB[i, c] == 0.0
      invariant forall r, c :: 0 <= r < H + 2 && 0 <= c < W + 2 && r != i ==>
                  plateA[r, c] == old(plateA[r, c]) && plateB[r, c] == old(plateB[r, c])
    {
      plateA[i, j] := 0.0;
      plateB[i, j] := 0.0;
      j := j + 1;
    }
  }

  /** `main` from `initialize` on: set up both plates, then run the
      sweep/swap/report loop. */
  method Run(plateA: array2<real>, plateB: array2<real>, H: nat, W: nat, fuel: nat)
    returns (itr: nat, worstDt: real, reports: seq<Report>, ghost dts: seq<real>)
    requires plateA != plateB && H >= 1 && W >= 1
    requires plateA.Length0 == plateB.Length0 == H + 2 && plateA.Length1 == plateB.Length1 == W + 2
    modifies plateA, plateB
    ensures itr <= fuel
    ensures Entries(if Even(itr) then plateA else plateB) == Iterate(InitGrid(H, W), H, W, itr)
    ensures Entries(if Even(itr) then plateB else plateA) == Older(InitGrid(H, W), InitGrid(H, W), H, W, itr)
    ensures worstDt == if itr == 0 then StartDt else SweepMax(Iterate(InitGrid(H, W), H, W, itr - 1), H, W)
    ensures worstDt > Tolerance ==> itr == fuel
    ensures fuel > 0 ==> itr > 0
    ensures forall k :: 0 <= k && k + 1 < itr ==> SweepMax(Iterate(InitGrid(H, W), H, W, k), H, W) > Tolerance
    ensures reports == Trace(InitGrid(H, W), H, W, 1, itr)
    ensures |dts| == itr && WorstTrace(InitGrid(H, W), H, W, dts)
  {
    Initialize(plateA, plateB, H, W);
    var temp, tempPrev;
    itr, worstDt, reports, dts, temp, tempPrev := Relax(plateA, plateB, H, W, fuel, InitGrid(H, W));
  }

  /** `main`'s loop: while `worst_dt` exceeds the tolerance (and, in this
      model, fewer than `fuel` iterations have run), sweep `temp_prev` into
      `temp`, swap the two, report on every 100th iteration, and count.
      `temp` starts as `plate_b`. On return the buffer last written
      (`plate_b` after an odd number of iterations, otherwise `plate_a`)
      holds the plate after `itr` steps and the other the plate one step
      earlier, `worst_dt` is the largest change of the last sweep, every
      earlier sweep changed some cell by more than the tolerance, and the
      loop stopped either at the tolerance or at the fuel bound. */
  method Relax(plateA: array2<real>, plateB: array2<real>, H: nat, W: nat, fuel: nat, ghost I: Grid)
    returns (itr: nat, worstDt: real, reports: seq<Report>, ghost dts: seq<real>,
             temp: array2<real>, tempPrev: array2<real>)
    requires plateA != plateB && IsGrid(I, H, W)
    requires plateA.Length0 == plateB.Length0 == H + 2 && plateA.Length1 == plateB.Length1 == W + 2
    requires Entries(plateA) == I && Entries(plateB) == I
    modifies plateA, plateB
    ensures itr <= fuel
    ensures LoopState(plateA, plateB, temp, tempPrev, H, W, I, itr, worstDt, dts, reports)
    ensures worstDt > Tolerance ==> itr == fuel
  {
    temp, tempPrev := plateB, plateA;
    itr, worstDt, reports, dts := 0, StartDt, [], [];
    while worstDt > Tolerance && itr < fuel
      invariant itr <= fuel
      invariant LoopState(plateA, plateB, temp, tempPrev, H, W, I, itr, worstDt, dts, reports)
      decreases fuel - itr
    {
      temp, tempPrev, worstDt, reports := Iteration(plateA, plateB, temp, tempPrev, H, W, I, itr, worstDt, dts, reports);
      dts := dts + [worstDt];
      itr := itr + 1;
    }
  }

  /** The state of `main`'s loop before iteration `k`: the plates' roles
      and contents, the `worst_dt` of the `k` sweeps so far, `worst_dt`
      itself from the last of them (or its start value), every sweep but
      the last above the tolerance, and the reports made so far. */
  ghost predicate LoopState(plateA: array2<real>, plateB: array2<real>, temp: array2<real>, tempPrev: array2<real>,
                            H: nat, W: nat, I: Grid, k: nat, worstDt: real, dts: seq<real>, reports: seq<Report>)
    reads plateA, plateB
  {
    Roles(plateA, plateB, temp, tempPrev, H, W, I, k) && Progress(I, H, W, 1, k, worstDt, dts, reports)
  }

  /** Which plate plays which part before iteration `k`, and what each
      holds: `temp_prev` is `plate_a` on even iterations and holds `k`
      steps, `temp` is the other plate and holds one step fewer. */
  ghost predicate Roles(plateA: array2<real>, plateB: array2<real>, temp: array2<real>, tempPrev: array2<real>,
                        H: nat, W: nat, I: Grid, k: nat)
    reads plateA, plateB
  {
    plateA != plateB && IsGrid(I, H, W)
    && plateA.Length0 == plateB.Length0 == H + 2 && plateA.Length1 == plateB.Length1 == W + 2
    && tempPrev == (if Even(k) then plateA else plateB)
    && temp == (if Even(k) then plateB else plateA)
    && Entries(tempPrev) == Iterate(I, H, W, k)
    && Entries(temp) == Older(I, I, H, W, k)
  }

  /** The body of `main`'s loop, iteration `itr`: the sweep, the pointer
      swap and, on every 100th iteration, the report of `plate_b`. */
  method Iteration(plateA: array2<real>, plateB: array2<real>, temp: array2<real>, tempPrev: array2<real>,
                   H: nat, W: nat, ghost I: Grid, itr: nat, worstDt: real, ghost dts: seq<real>,
                   reports: seq<Report>)
    returns (temp': array2<real>, tempPrev': array2<real>, worstDt': real, reports': seq<Report>)
    requires LoopState(plateA, plateB, temp, tempPrev, H, W, I, itr, worstDt, dts, reports)
    requires worstDt > Tolerance
    modifies plateA, plateB
    ensures LoopState(plateA, plateB, temp', tempPrev', H, W, I, itr + 1, worstDt', dts + [worstDt'], reports')
  {
    worstDt' := Advance(tempPrev, temp, H, W, I, itr);
    temp', tempPrev' := tempPrev, temp;
    reports' := reports;
    if itr % ReportEvery == 0 {
      ReportsEven(itr);
      reports' := reports + [Report(itr, Entries(plateB))];
    }
    ProgressStep(I, H, W, 1, itr, worstDt, dts, reports, worstDt', reports');
    EvenStep(itr);
  }

  /** The sweep of one iteration: `src` holds `k` steps and `dst` the
      plate one step behind; afterwards `dst` holds `k + 1` steps. */
  method Advance(src: array2<real>, dst: array2<real>, H: nat, W: nat, ghost I: Grid, ghost k: nat)
    returns (worstDt: real)
    requires src != dst && IsGrid(I, H, W)
    requires src.Length0 == dst.Length0 == H + 2 && src.Length1 == dst.Length1 == W + 2
    requires Entries(src) == Iterate(I, H, W, k) && Entries(dst) == Older(I, I, H, W, k)
    modifies dst
    ensures Entries(dst) == Iterate(I, H, W, k + 1)
    ensures worstDt == SweepMax(Iterate(I, H, W, k), H, W)
  {
    OlderStep(I, I, H, W, k);
    worstDt := Sweep(src, dst, H, W);
  }
}
