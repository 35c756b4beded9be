/**
 * The network-expansion engine: the fixed-point iteration of `netExp`,
 * `netExp_cr` and `netExp_trace` over 0/1 vectors.
 *
 * A presence vector x has one entry per compound, an activation vector y one
 * entry per reaction-direction.  R and P are the 0/1 reactant and product
 * matrices, stored row by row (`M[c][r]` for compound c and reaction-direction
 * r), and b holds, per reaction-direction, the number of reactants it needs.
 */
module Engine {

  type Vec = seq<bool>
  type Matrix = seq<seq<bool>>

  /** Every row of M has `cols` entries and there are `rows` rows. */
  predicate Shaped(M: Matrix, rows: nat, cols: nat)
  {
    |M| == rows && forall c :: 0 <= c < rows ==> |M[c]| == cols
  }

  /** `np.sum` of a 0/1 vector: the number of set entries. */
  function Count(v: Vec): (n: nat)
    ensures n <= |v|
    ensures n == 0 <==> forall i :: 0 <= i < |v| ==> !v[i]
  {
    if v == [] then 0 else (if v[0] then 1 else 0) + Count(v[1..])
  }

  /** The dot product of two 0/1 vectors: positions set in both (over the shorter length). */
  function Dot(u: Vec, v: Vec): (n: nat)
    ensures n <= Count(u)
  {
    if u == [] || v == [] then 0 else (if u[0] && v[0] then 1 else 0) + Dot(u[1..], v[1..])
  }

  function Zeros(n: nat): Vec
  {
    seq(n, _ => false)
  }

  /** Column r of M: which compounds take part in reaction-direction r. */
  function Column(M: Matrix, r: nat): Vec
  {
    seq(|M|, c requires 0 <= c < |M| => r < |M[c]| && M[c][r])
  }

  /** `b = sum(R)`: per reaction-direction, the number of its reactants. */
  function ColumnSums(R: Matrix, cols: nat): seq<int>
  {
    seq(cols, r requires 0 <= r => Count(Column(R, r)))
  }

  /** u is contained in v: every bit set in u is set in v. */
  predicate Below(u: Vec, v: Vec)
  {
    |u| == |v| && forall i :: 0 <= i < |u| ==> u[i] ==> v[i]
  }

  /** `y = (R^T x == b)`: a reaction-direction is enabled when the count of its present reactants equals b. */
  function Enabled(R: Matrix, b: seq<int>, x: Vec): Vec
  {
    seq(|b|, r requires 0 <= r < |b| => Dot(Column(R, r), x) == b[r])
  }

  /** `x = (P y + x).astype(bool)`: every product of an enabled reaction-direction becomes present. */
  function Next(P: Matrix, y: Vec, x: Vec): (x': Vec)
    ensures Below(x, x')
  {
    seq(|x|, c requires 0 <= c < |x| => x[c] || (c < |P| && Dot(P[c], y) > 0))
  }

  /** One iteration of the loop body on the presence vector. */
  function Step(R: Matrix, P: Matrix, b: seq<int>, x: Vec): Vec
  {
    Next(P, Enabled(R, b, x), x)
  }

  /** Containment with equal counts is equality, and strict containment strictly raises the count. */
  lemma {:induction false} CountMonotone(u: Vec, v: Vec)
    requires Below(u, v)
    ensures Count(u) <= Count(v)
    ensures u != v ==> Count(u) < Count(v)
  {
    if u != [] {
      assert Below(u[1..], v[1..]);
      CountMonotone(u[1..], v[1..]);
      assert u == [u[0]] + u[1..] && v == [v[0]] + v[1..];
    }
  }

  /** Iterate Step from x until it no longer changes the presence vector. */
  function Fix(R: Matrix, P: Matrix, b: seq<int>, x: Vec): (z: Vec)
    ensures Below(x, z)
    ensures Step(R, P, b, z) == z
    decreases |x| - Count(x)
  {
    var x' := Step(R, P, b, x);
    if x' == x then x
    else
      CountMonotone(x, x');
      var z := Fix(R, P, b, x');
      assert Below(x, z) by { assert Below(x, x') && Below(x', z); }
      z
  }

  /** The presence and activation vectors after one iteration (or the initial pair). */
  datatype Snapshot = Snapshot(x: Vec, y: Vec)

  /**
   * The snapshots the loop appends when it is entered with x: each round computes
   * y from x and then x from y, and the loop goes on while the compound count grew.
   */
  function Rounds(R: Matrix, P: Matrix, b: seq<int>, x: Vec): (t: seq<Snapshot>)
    ensures |t| >= 1
    decreases |x| - Count(x)
  {
    var y' := Enabled(R, b, x);
    var x' := Next(P, y', x);
    if x' == x then [Snapshot(x', y')]
    else
      CountMonotone(x, x');
      [Snapshot(x', y')] + Rounds(R, P, b, x')
  }

  /** The last snapshot of the rounds is the fixed point with its activation vector. */
  lemma {:induction false} RoundsLast(R: Matrix, P: Matrix, b: seq<int>, x: Vec)
    ensures EndsWith(Rounds(R, P, b, x), Snapshot(Fix(R, P, b, x), Enabled(R, b, Fix(R, P, b, x))))
    decreases |x| - Count(x)
  {
    var x' := Step(R, P, b, x);
    RoundsStep(R, P, b, x);
    if x' == x {
      FixStays(R, P, b, x);
    } else {
      CountMonotone(x, x');
      RoundsLast(R, P, b, x');
      EndsWithCons(Snapshot(x', Enabled(R, b, x)), Rounds(R, P, b, x'), Snapshot(Fix(R, P, b, x'), Enabled(R, b, Fix(R, P, b, x'))));
    }
  }

  predicate EndsWith(t: seq<Snapshot>, last: Snapshot)
  {
    t != [] && t[|t| - 1] == last
  }

  lemma EndsWithCons(s: Snapshot, t: seq<Snapshot>, last: Snapshot)
    requires EndsWith(t, last)
    ensures EndsWith([s] + t, last)
  {
  }

  /** The whole trace: the seed with the zero activation vector, then the rounds if the loop is entered at all. */
  function Trace(R: Matrix, P: Matrix, b: seq<int>, x0: Vec): seq<Snapshot>
  {
    [Snapshot(x0, Zeros(|b|))] + if Count(x0) > 0 then Rounds(R, P, b, x0) else []
  }

  /** The final pair of the expansion: the seed untouched when no seed bit is set, otherwise the fixed point. */
  function Expansion(R: Matrix, P: Matrix, b: seq<int>, x0: Vec): Snapshot
  {
    if Count(x0) == 0 then Snapshot(x0, Zeros(|b|))
    else Snapshot(Fix(R, P, b, x0), Enabled(R, b, Fix(R, P, b, x0)))
  }

  /**
   * `y = csr_matrix((n_reactions))` as written in `netExp`: `(n_reactions)` is not a tuple,
   * so this is the 1 x 1 matrix holding n_reactions, not a zero vector of that length.
   * Read as an activation vector it has one entry, set whenever there is a reaction.
   */
  function InitialActivationAsWritten(nReactions: nat): (y: Vec)
    ensures |y| == 1 && (y[0] <==> nReactions > 0)
  {
    [nReactions != 0]
  }

  /**
   * The snapshots of `netExp`: the seed with its initial activation vector as written
   * (n_reactions is the number of columns of R, one per entry of b), then the rounds.
   */
  function NaiveTrace(R: Matrix, P: Matrix, b: seq<int>, x0: Vec): seq<Snapshot>
  {
    [Snapshot(x0, InitialActivationAsWritten(|b|))] + if Count(x0) > 0 then Rounds(R, P, b, x0) else []
  }

  /** The final pair of `netExp`: the seed with the initial activation vector when the loop never runs. */
  function NaiveExpansion(R: Matrix, P: Matrix, b: seq<int>, x0: Vec): Snapshot
  {
    if Count(x0) == 0 then Snapshot(x0, InitialActivationAsWritten(|b|)) else Expansion(R, P, b, x0)
  }

  /**
   * `netExp` differs from the zero-started loops only in its initial activation vector:
   * the snapshots after the first are the same, the final presence vector is the same,
   * and the final pair is the same exactly when the loop runs.
   */
  lemma NaiveAgrees(R: Matrix, P: Matrix, b: seq<int>, x0: Vec)
    ensures var n, t := NaiveTrace(R, P, b, x0), Trace(R, P, b, x0);
      |n| == |t| && n[0] == Snapshot(x0, InitialActivationAsWritten(|b|)) && n[1..] == t[1..]
    ensures NaiveExpansion(R, P, b, x0).x == Expansion(R, P, b, x0).x
    ensures NaiveExpansion(R, P, b, x0) == Expansion(R, P, b, x0) <==> Count(x0) > 0
  {
    if Count(x0) == 0 {
      assert |InitialActivationAsWritten(|b|)| != |Zeros(|b|)| || |b| == 1;
      if |b| == 1 {
        assert InitialActivationAsWritten(|b|)[0] != Zeros(|b|)[0];
      }
    }
  }

  /** Without a seed bit `netExp` returns the seed with the as-written initial activation vector, its one snapshot. */
  lemma NaiveUnexpanded(R: Matrix, P: Matrix, b: seq<int>, x0: Vec)
    requires Count(x0) == 0
    ensures NaiveTrace(R, P, b, x0) == [Snapshot(x0, InitialActivationAsWritten(|b|))]
    ensures NaiveExpansion(R, P, b, x0) == Snapshot(x0, InitialActivationAsWritten(|b|))
  {
  }

  /** A presence vector the update rule leaves unchanged is its own fixed point. */
  lemma FixStays(R: Matrix, P: Matrix, b: seq<int>, x: Vec)
    requires Step(R, P, b, x) == x
    ensures Fix(R, P, b, x) == x
  {
  }

  /** Unfolding one round, and what it says about the fixed point. */
  lemma RoundsStep(R: Matrix, P: Matrix, b: seq<int>, x: Vec)
    ensures var x' := Step(R, P, b, x);
      && Rounds(R, P, b, x) == [Snapshot(x', Enabled(R, b, x))] + (if x' == x then [] else Rounds(R, P, b, x'))
      && Fix(R, P, b, x') == Fix(R, P, b, x)
  {
  }

  /** xs and ys are the x and y components of the snapshots in t. */
  predicate Lists(xs: seq<Vec>, ys: seq<Vec>, t: seq<Snapshot>)
  {
    |xs| == |t| && |ys| == |t| && forall i :: 0 <= i < |t| ==> xs[i] == t[i].x && ys[i] == t[i].y
  }

  lemma AppendLists(xs: seq<Vec>, ys: seq<Vec>, t: seq<Snapshot>, x: Vec, y: Vec)
    requires Lists(xs, ys, t)
    ensures Lists(xs + [x], ys + [y], t + [Snapshot(x, y)])
  {
  }

  lemma ConcatAssoc<T>(a: seq<T>, b: seq<T>, c: seq<T>)
    ensures a + (b + c) == (a + b) + c
  {
  }

  /**
   * `netExp`: the compound-stable expansion, returning the final pair and every snapshot.
   * When no seed bit is set the loop never runs and y is the initial activation vector as written.
   */
  method NetExp(R: Matrix, P: Matrix, x0: Vec, b: seq<int>) returns (x: Vec, y: Vec, xList: seq<Vec>, yList: seq<Vec>)
    ensures Lists(xList, yList, NaiveTrace(R, P, b, x0))
    ensures Snapshot(x, y) == NaiveExpansion(R, P, b, x0)
    ensures Count(x0) > 0 ==> Step(R, P, b, x) == x && y == Enabled(R, b, x)
    ensures Count(x0) == 0 ==> x == x0 && y == InitialActivationAsWritten(|b|)
  {
    x := x0;
    var k := Count(x);
    var k0 := 0;
    y := InitialActivationAsWritten(|b|);
    xList := [x];
    yList := [y];
    ghost var done := [Snapshot(x0, y)];
    ghost var xPrev := x0;
    while k > k0
      invariant |x| == |x0| && k == Count(x) && k0 <= k
      invariant Lists(xList, yList, done)
      invariant |done| >= 1 && done[|done| - 1] == Snapshot(x, y)
      invariant done + (if k > k0 then Rounds(R, P, b, x) else []) == NaiveTrace(R, P, b, x0)
      invariant k0 == 0 ==> x == x0 && y == InitialActivationAsWritten(|b|)
      invariant k0 > 0 ==> Count(x0) > 0 && Fix(R, P, b, x) == Fix(R, P, b, x0)
      invariant k0 > 0 ==> k0 == Count(xPrev) && Below(xPrev, x) && x == Step(R, P, b, xPrev) && y == Enabled(R, b, xPrev)
      decreases |x0| - k0
    {
      k0 := Count(x);
      ghost var x1 := x;
      xPrev := x;
      y := Enabled(R, b, x);
      x := Next(P, y, x);
      k := Count(x);
      RoundsStep(R, P, b, x1);
      CountMonotone(x1, x);
      ghost var done1 := done;
      ghost var rest := if x != x1 then Rounds(R, P, b, x) else [];
      done := done + [Snapshot(x, y)];
      AppendLists(xList, yList, done1, x, y);
      xList := xList + [x];
      yList := yList + [y];
      ConcatAssoc(done1, [Snapshot(x, y)], rest);
    }
    if k0 > 0 {
      CountMonotone(xPrev, x);
    }
  }

  /**
   * `netExp_cr`: goes on while the compound count or the reaction count grew.
   * It stops with the same pair as `netExp`, whatever b is.
   */
  method NetExpCr(R: Matrix, P: Matrix, x0: Vec, b: seq<int>) returns (x: Vec, y: Vec)
    ensures Snapshot(x, y) == Expansion(R, P, b, x0)
  {
    x := x0;
    var k := Count(x);
    var k0 := 0;
    y := Zeros(|b|);
    var l := 0;
    var l0 := 0;
    ghost var xPrev := x0;
    while k > k0 || l > l0
      invariant |x| == |x0| && k == Count(x) && k0 <= k && l == Count(y)
      invariant k0 == 0 ==> x == x0 && y == Zeros(|b|) && l0 == 0
      invariant k0 > 0 ==> Count(x0) > 0 && Fix(R, P, b, x) == Fix(R, P, b, x0)
      invariant k0 > 0 ==> k0 == Count(xPrev) && Below(xPrev, x) && x == Step(R, P, b, xPrev) && y == Enabled(R, b, xPrev)
      decreases |x0| - k0, if l > l0 then 1 else 0
    {
      if k0 > 0 {
        CountMonotone(xPrev, x);
      }
      k0 := Count(x);
      l0 := Count(y);
      xPrev := x;
      y := Enabled(R, b, x);
      x := Next(P, y, x);
      k := Count(x);
      l := Count(y);
      RoundsStep(R, P, b, xPrev);
      CountMonotone(xPrev, x);
    }
    if k0 > 0 {
      CountMonotone(xPrev, x);
    }
  }

  /** `netExp_trace`: the compound-stable loop again, returning only the snapshots. */
  method NetExpTrace(R: Matrix, P: Matrix, x0: Vec, b: seq<int>) returns (xs: seq<Vec>, ys: seq<Vec>)
    ensures Lists(xs, ys, Trace(R, P, b, x0))
    ensures xs[0] == x0 && xs[|xs| - 1] == Expansion(R, P, b, x0).x
  {
    xs := [x0];
    var k := Count(x0);
    var k0 := 0;
    var y := Zeros(|b|);
    ys := [y];
    var x := x0;
    ghost var done := [Snapshot(x0, y)];
    while k > k0
      invariant |x| == |x0| && k == Count(x) && k0 <= k
      invariant |done| >= 1 && done[|done| - 1] == Snapshot(x, y)
      invariant Lists(xs, ys, done) && xs[0] == x0
      invariant done + (if k > k0 then Rounds(R, P, b, x) else []) == Trace(R, P, b, x0)
      decreases |x0| - k0
    {
      k0 := Count(x);
      ghost var x1 := x;
      y := Enabled(R, b, x);
      x := Next(P, y, x);
      k := Count(x);
      RoundsStep(R, P, b, x1);
      CountMonotone(x1, x);
      ghost var done1 := done;
      ghost var rest := if x != x1 then Rounds(R, P, b, x) else [];
      done := done + [Snapshot(x, y)];
      AppendLists(xs, ys, done1, x, y);
      xs := xs + [x];
      ys := ys + [y];
      ConcatAssoc(done1, [Snapshot(x, y)], rest);
    }
    assert done == Trace(R, P, b, x0);
    TraceLast(R, P, b, x0);
    assert xs[|xs| - 1] == done[|done| - 1].x;
  }

  /** The last snapshot of the trace is the final pair of the expansion. */
  lemma TraceLast(R: Matrix, P: Matrix, b: seq<int>, x0: Vec)
    ensures var t := Trace(R, P, b, x0); t[|t| - 1] == Expansion(R, P, b, x0)
  {
    if Count(x0) > 0 {
      RoundsLast(R, P, b, x0);
      var rounds := Rounds(R, P, b, x0);
      var t := Trace(R, P, b, x0);
      assert t == [Snapshot(x0, Zeros(|b|))] + rounds;
      assert t[|t| - 1] == rounds[|rounds| - 1];
    }
  }

  /** Every snapshot after the first follows the update rule from the one before it. */
  lemma {:induction false} RoundsRule(R: Matrix, P: Matrix, b: seq<int>, x: Vec, i: nat)
    requires i < |Rounds(R, P, b, x)|
    ensures var t := Rounds(R, P, b, x);
      var prev := if i == 0 then x else t[i - 1].x;
      t[i].y == Enabled(R, b, prev) && t[i].x == Next(P, t[i].y, prev)
    decreases |x| - Count(x)
  {
    RoundsStep(R, P, b, x);
    var x' := Step(R, P, b, x);
    if i > 0 {
      CountMonotone(x, x');
      RoundsRule(R, P, b, x', i - 1);
    }
  }

  lemma TraceRule(R: Matrix, P: Matrix, b: seq<int>, x0: Vec, i: nat)
    requires 0 < i < |Trace(R, P, b, x0)|
    ensures var t := Trace(R, P, b, x0);
      t[i].y == Enabled(R, b, t[i - 1].x) && t[i].x == Next(P, t[i].y, t[i - 1].x)
  {
    RoundsRule(R, P, b, x0, i - 1);
  }

  /** Every snapshot has a presence vector as long as the seed and an activation vector as long as b. */
  lemma TraceShape(R: Matrix, P: Matrix, b: seq<int>, x0: Vec)
    ensures var t := Trace(R, P, b, x0);
      forall i :: 0 <= i < |t| ==> |t[i].x| == |x0| && |t[i].y| == |b|
  {
    var t := Trace(R, P, b, x0);
    forall i | 0 <= i < |t|
      ensures |t[i].x| == |x0| && |t[i].y| == |b|
    {
      TraceShapeAt(R, P, b, x0, i);
    }
  }

  lemma {:induction false} TraceShapeAt(R: Matrix, P: Matrix, b: seq<int>, x0: Vec, i: nat)
    requires i < |Trace(R, P, b, x0)|
    ensures var t := Trace(R, P, b, x0); |t[i].x| == |x0| && |t[i].y| == |b|
  {
    if i > 0 {
      TraceShapeAt(R, P, b, x0, i - 1);
      TraceRule(R, P, b, x0, i);
    }
  }

  /** Monotonicity: no compound is ever removed from one snapshot to the next. */
  lemma TraceMonotone(R: Matrix, P: Matrix, b: seq<int>, x0: Vec, i: nat)
    requires i + 1 < |Trace(R, P, b, x0)|
    ensures var t := Trace(R, P, b, x0); Below(t[i].x, t[i + 1].x)
  {
    TraceRule(R, P, b, x0, i + 1);
  }

  /** Each round but the last adds a compound, so there are at most |x| - Count(x) + 1 rounds. */
  lemma {:induction false} RoundsLength(R: Matrix, P: Matrix, b: seq<int>, x: Vec)
    ensures |Rounds(R, P, b, x)| <= |x| - Count(x) + 1
    decreases |x| - Count(x)
  {
    RoundsStep(R, P, b, x);
    var x' := Step(R, P, b, x);
    if x' != x {
      CountMonotone(x, x');
      RoundsLength(R, P, b, x');
    }
  }

  /**
   * Termination bound: the loop body runs at most |compounds| - |seed| + 1 times,
   * so the trace holds at most that many snapshots after the seed.
   */
  lemma TraceLength(R: Matrix, P: Matrix, b: seq<int>, x0: Vec)
    ensures |Trace(R, P, b, x0)| <= |x0| - Count(x0) + 2
  {
    if Count(x0) > 0 {
      RoundsLength(R, P, b, x0);
    }
  }

  /** The last round repeats the presence vector of the one before it. */
  lemma {:induction false} RoundsLastTwo(R: Matrix, P: Matrix, b: seq<int>, x: Vec)
    ensures Settles(Rounds(R, P, b, x), x)
    decreases |x| - Count(x)
  {
    RoundsStep(R, P, b, x);
    var x' := Step(R, P, b, x);
    if x' != x {
      CountMonotone(x, x');
      RoundsLastTwo(R, P, b, x');
      SettlesCons(Snapshot(x', Enabled(R, b, x)), Rounds(R, P, b, x'), x);
    }
  }

  /** The last two presence vectors of x followed by the snapshots t are equal. */
  predicate Settles(t: seq<Snapshot>, x: Vec)
  {
    t != [] && (if |t| == 1 then x else t[|t| - 2].x) == t[|t| - 1].x
  }

  lemma SettlesCons(s: Snapshot, t: seq<Snapshot>, x: Vec)
    requires Settles(t, s.x)
    ensures Settles([s] + t, x)
  {
  }

  /**
   * The trace starts with the seed; when the loop runs it ends on two equal
   * presence vectors, the last of which is closed under the update rule.
   */
  lemma TraceEnds(R: Matrix, P: Matrix, b: seq<int>, x0: Vec)
    ensures var t := Trace(R, P, b, x0); t[0].x == x0
    ensures var t := Trace(R, P, b, x0);
      Count(x0) > 0 ==> |t| >= 2 && t[|t| - 2].x == t[|t| - 1].x && Step(R, P, b, t[|t| - 1].x) == t[|t| - 1].x
    ensures var t := Trace(R, P, b, x0); Count(x0) == 0 ==> t == [Snapshot(x0, Zeros(|b|))]
  {
    if Count(x0) > 0 {
      RoundsLastTwo(R, P, b, x0);
      RoundsLast(R, P, b, x0);
    }
  }

  /** The dot product reaches the count of u exactly when every bit of u is set in x. */
  lemma {:induction false} DotFull(u: Vec, x: Vec)
    requires |u| == |x|
    ensures Dot(u, x) == Count(u) <==> forall i :: 0 <= i < |u| ==> u[i] ==> x[i]
  {
    if u != [] {
      DotFull(u[1..], x[1..]);
      assert forall i :: 1 <= i < |u| ==> u[i] == u[1..][i - 1] && x[i] == x[1..][i - 1];
    }
  }

  lemma {:induction false} DotMonotone(u: Vec, v: Vec, w: Vec)
    requires Below(v, w)
    ensures Dot(u, v) <= Dot(u, w)
  {
    if u != [] && v != [] {
      assert Below(v[1..], w[1..]);
      DotMonotone(u[1..], v[1..], w[1..]);
    }
  }

  /**
   * Enablement: with b the column sums of R, the count of present reactants never
   * exceeds b, and reaction-direction r is enabled exactly when all its reactants are present.
   */
  lemma EnabledIff(R: Matrix, b: seq<int>, x: Vec, r: nat)
    requires Shaped(R, |x|, |b|) && b == ColumnSums(R, |b|) && r < |b|
    ensures Dot(Column(R, r), x) <= b[r]
    ensures Enabled(R, b, x)[r] <==> forall c :: 0 <= c < |x| && R[c][r] ==> x[c]
  {
    DotFull(Column(R, r), x);
  }

  /** A reaction-direction without reactants is enabled by every presence vector. */
  lemma ZeroReactantEnabled(R: Matrix, b: seq<int>, x: Vec, r: nat)
    requires b == ColumnSums(R, |b|) && r < |b| && b[r] == 0
    ensures Enabled(R, b, x)[r]
  {
  }

  /**
   * Zero-reactant reaction-directions are enabled in the final pair once the loop
   * runs, and no reaction-direction is enabled when no seed bit is set.
   */
  lemma ZeroReactantExpansion(R: Matrix, P: Matrix, b: seq<int>, x0: Vec, r: nat)
    requires b == ColumnSums(R, |b|) && r < |b| && b[r] == 0
    ensures Count(x0) > 0 ==> Expansion(R, P, b, x0).y[r]
    ensures Count(x0) == 0 ==> Expansion(R, P, b, x0).y == Zeros(|b|)
  {
    if Count(x0) > 0 {
      ZeroReactantEnabled(R, b, Fix(R, P, b, x0), r);
    }
  }

  /** Adding compounds never disables a reaction-direction (b the column sums of R). */
  lemma EnabledMonotone(R: Matrix, b: seq<int>, x: Vec, z: Vec)
    requires b == ColumnSums(R, |b|) && Below(x, z)
    ensures Below(Enabled(R, b, x), Enabled(R, b, z))
  {
    forall r | 0 <= r < |b|
      ensures Enabled(R, b, x)[r] ==> Enabled(R, b, z)[r]
    {
      DotMonotone(Column(R, r), x, z);
    }
  }

  lemma NextMonotone(P: Matrix, y: Vec, w: Vec, x: Vec, z: Vec)
    requires Below(y, w) && Below(x, z)
    ensures Below(Next(P, y, x), Next(P, w, z))
  {
    forall c | 0 <= c < |x| && c < |P|
      ensures Dot(P[c], y) <= Dot(P[c], w)
    {
      DotMonotone(P[c], y, w);
    }
  }

  /**
   * The fixed point is the least one: any presence vector that contains x and
   * that the update rule leaves unchanged contains Fix(x).
   */
  lemma {:induction false} FixLeast(R: Matrix, P: Matrix, b: seq<int>, x: Vec, z: Vec)
    requires b == ColumnSums(R, |b|) && Below(x, z) && Step(R, P, b, z) == z
    ensures Below(Fix(R, P, b, x), z)
    decreases |x| - Count(x)
  {
    var x' := Step(R, P, b, x);
    EnabledMonotone(R, b, x, z);
    NextMonotone(P, Enabled(R, b, x), Enabled(R, b, z), x, z);
    if x' != x {
      CountMonotone(x, x');
      FixLeast(R, P, b, x', z);
    }
  }

  /** The activation vector only grows along the trace (b the column sums of R). */
  lemma TraceActivationMonotone(R: Matrix, P: Matrix, b: seq<int>, x0: Vec, i: nat)
    requires b == ColumnSums(R, |b|) && i + 1 < |Trace(R, P, b, x0)|
    ensures var t := Trace(R, P, b, x0); Below(t[i].y, t[i + 1].y)
  {
    var t := Trace(R, P, b, x0);
    TraceRule(R, P, b, x0, i + 1);
    if i > 0 {
      TraceRule(R, P, b, x0, i);
      TraceMonotone(R, P, b, x0, i - 1);
      EnabledMonotone(R, b, t[i - 1].x, t[i].x);
    }
  }

  /** Idempotence: expanding again from the final presence vector changes nothing. */
  lemma ExpansionIdempotent(R: Matrix, P: Matrix, b: seq<int>, x0: Vec)
    requires Count(x0) > 0
    ensures Expansion(R, P, b, Expansion(R, P, b, x0).x) == Expansion(R, P, b, x0)
  {
    CountMonotone(x0, Fix(R, P, b, x0));
  }

  /** The dot product is positive exactly when some position is set in both vectors. */
  lemma {:induction false} DotPositive(u: Vec, v: Vec)
    requires |u| == |v|
    ensures Dot(u, v) > 0 <==> exists i :: 0 <= i < |u| && u[i] && v[i]
  {
    if u != [] {
      DotPositive(u[1..], v[1..]);
      if Dot(u[1..], v[1..]) > 0 {
        var i :| 0 <= i < |u| - 1 && u[1..][i] && v[1..][i];
        assert u[i + 1] && v[i + 1];
      }
      forall i | 1 <= i < |u| && u[i] && v[i]
        ensures Dot(u[1..], v[1..]) > 0
      {
        assert u[1..][i - 1] && v[1..][i - 1];
      }
    }
  }

  /** Every compound that M marks for reaction-direction r is present in z. */
  predicate AllPresent(M: Matrix, z: Vec, r: nat)
  {
    forall c :: 0 <= c < |z| && c < |M| && r < |M[c]| && M[c][r] ==> z[c]
  }

  /** Every reaction-direction whose reactants are all present in z has all its products present in z. */
  predicate Closed(R: Matrix, P: Matrix, z: Vec, cols: nat)
  {
    forall r :: 0 <= r < cols && AllPresent(R, z, r) ==> AllPresent(P, z, r)
  }

  /** The fixed points of the update rule are exactly the closed presence vectors (b the column sums of R). */
  lemma StepFixedIff(R: Matrix, P: Matrix, b: seq<int>, z: Vec)
    requires Shaped(R, |z|, |b|) && Shaped(P, |z|, |b|) && b == ColumnSums(R, |b|)
    ensures Step(R, P, b, z) == z <==> Closed(R, P, z, |b|)
  {
    var y := Enabled(R, b, z);
    forall r | 0 <= r < |b|
      ensures y[r] <==> AllPresent(R, z, r)
    {
      EnabledIff(R, b, z, r);
    }
    forall c | 0 <= c < |z|
      ensures Dot(P[c], y) > 0 <==> exists r :: 0 <= r < |b| && P[c][r] && y[r]
    {
      DotPositive(P[c], y);
    }
    if Step(R, P, b, z) == z {
      forall r | 0 <= r < |b| && AllPresent(R, z, r)
        ensures AllPresent(P, z, r)
      {
        assert y[r];
        forall c | 0 <= c < |z| && P[c][r]
          ensures z[c]
        {
          assert Step(R, P, b, z)[c] == z[c];
        }
      }
    }
    if Closed(R, P, z, |b|) {
      forall c | 0 <= c < |z|
        ensures Step(R, P, b, z)[c] == z[c]
      {
        if Dot(P[c], y) > 0 {
          var r :| 0 <= r < |b| && P[c][r] && y[r];
        }
      }
    }
  }

  /** The expansion of a nonempty seed is closed. */
  lemma ExpansionClosed(R: Matrix, P: Matrix, b: seq<int>, x0: Vec)
    requires Shaped(R, |x0|, |b|) && Shaped(P, |x0|, |b|) && b == ColumnSums(R, |b|) && Count(x0) > 0
    ensures |Expansion(R, P, b, x0).x| == |x0| && Closed(R, P, Expansion(R, P, b, x0).x, |b|)
  {
    StepFixedIff(R, P, b, Expansion(R, P, b, x0).x);
  }

  /**
   * The expansion of a nonempty seed is its closure: it contains the seed, is
   * closed, lies inside every closed vector containing the seed, and enables
   * exactly the reaction-directions whose reactants it holds.
   */
  lemma ExpansionClosure(R: Matrix, P: Matrix, b: seq<int>, x0: Vec)
    requires Shaped(R, |x0|, |b|) && Shaped(P, |x0|, |b|) && b == ColumnSums(R, |b|) && Count(x0) > 0
    ensures var e := Expansion(R, P, b, x0);
      && Below(x0, e.x) && Closed(R, P, e.x, |b|)
      && (forall z :: Below(x0, z) && Closed(R, P, z, |b|) ==> Below(e.x, z))
      && |e.y| == |b|
      && (forall r :: 0 <= r < |b| ==> (e.y[r] <==> AllPresent(R, e.x, r)))
  {
    var e := Expansion(R, P, b, x0);
    StepFixedIff(R, P, b, e.x);
    forall z | Below(x0, z) && Closed(R, P, z, |b|)
      ensures Below(e.x, z)
    {
      StepFixedIff(R, P, b, z);
      FixLeast(R, P, b, x0, z);
    }
    forall r | 0 <= r < |b|
      ensures e.y[r] <==> AllPresent(R, e.x, r)
    {
      EnabledIff(R, b, e.x, r);
    }
  }
}
