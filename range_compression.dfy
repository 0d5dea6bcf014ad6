/**
 * `createRanges` (src/annotator.ts): one forward pass over the dense state sequence of a file
 * that turns it into ranges of consecutive lines sharing a state, grouped by state. The editor's
 * range objects become `LineRange` values; the array of arrays indexed by state becomes a map
 * from state to its ranges, holding a key exactly for the states that got a range.
 */
module RangeCompression {

  /** `new vscode.Range(start, 0, end, 0)`: lines `start` to `end`, both inclusive. */
  datatype LineRange = LineRange(start: nat, end: nat)

  /** A range together with the state of its lines, as the pass closes it. */
  datatype Run = Run(state: nat, start: nat, end: nat)

  function RangeOf(r: Run): LineRange { LineRange(r.start, r.end) }

  /** `decorations[state] || []`: the list of a state that has one, and the empty list otherwise.
      What this gives for the result of the pass is stated by `RangesOfState`. */
  function Get(decorations: map<nat, seq<LineRange>>, state: nat): seq<LineRange>
  {
    if state in decorations then decorations[state] else []
  }

  /** The runs the pass closes, in the order it closes them: a line extends the open run when it
      has the open run's state, and starts a new one otherwise. */
  function Runs(a: seq<nat>): seq<Run>
  {
    if a == [] then []
    else
      var n := |a| - 1;
      var prev := Runs(a[..n]);
      if |prev| > 0 && prev[|prev| - 1].state == a[n] then prev[..|prev| - 1] + [prev[|prev| - 1].(end := n)]
      else prev + [Run(a[n], n, n)]
  }

  /** The ranges of the runs, appended in order to the list of their state. */
  function Group(runs: seq<Run>): map<nat, seq<LineRange>>
  {
    if runs == [] then map[]
    else
      var g := Group(runs[..|runs| - 1]);
      var r := runs[|runs| - 1];
      g[r.state := Get(g, r.state) + [RangeOf(r)]]
  }

  // ---------------------------------------------------------------------------------------
  // What a correct compression of `n` lines is
  // ---------------------------------------------------------------------------------------

  /** The runs cover lines 0..n-1 from left to right, each starting right after the previous. */
  predicate Tiles(runs: seq<Run>, n: nat) {
    (runs == [] <==> n == 0) &&
    (runs != [] ==> runs[0].start == 0 && runs[|runs| - 1].end + 1 == n) &&
    (forall k :: 0 <= k < |runs| ==> runs[k].start <= runs[k].end) &&
    (forall k :: 0 < k < |runs| ==> runs[k].start == runs[k - 1].end + 1)
  }

  /** Every line of a run has the run's state. */
  predicate Uniform(runs: seq<Run>, a: seq<nat>) {
    forall k :: 0 <= k < |runs| ==> RunUniform(runs[k], a)
  }

  predicate RunUniform(r: Run, a: seq<nat>) {
    r.end < |a| && forall line :: r.start <= line <= r.end ==> a[line] == r.state
  }

  /** Two runs next to each other never share a state: they would have been one run. */
  predicate Maximal(runs: seq<Run>) {
    forall k :: 0 < k < |runs| ==> runs[k].state != runs[k - 1].state
  }

  /** A correct compression of `a`: tiling, uniform and maximal. */
  predicate Compresses(runs: seq<Run>, a: seq<nat>) {
    Tiles(runs, |a|) && Uniform(runs, a) && Maximal(runs)
  }

  predicate Covers(r: LineRange, line: nat) { r.start <= line <= r.end }

  /** Some run covers the line. */
  predicate CoveredBy(runs: seq<Run>, line: nat) {
    exists k :: 0 <= k < |runs| && Covers(RangeOf(runs[k]), line)
  }

  // ---------------------------------------------------------------------------------------
  // The pass
  // ---------------------------------------------------------------------------------------

  /** `createRanges`: keeps one open (start, end, state) triple, closes it into the list of its
      state when the next line is not adjacent or has another state, and closes the last one at
      the end. */
  method CreateRanges(annotations: seq<nat>) returns (decorations: map<nat, seq<LineRange>>)
    ensures decorations == Group(Runs(annotations))
    ensures annotations == [] ==> decorations == map[]
  {
    var start: int, end: int, state: int := -1, -1, -1;
    decorations := map[];
    ghost var closed: seq<Run> := [];
    for line := 0 to |annotations|
      invariant start == -1 <==> line == 0
      invariant line == 0 ==> closed == []
      invariant line > 0 ==> 0 <= start <= end && end + 1 == line && state >= 0
      invariant line > 0 ==> Runs(annotations[..line]) == closed + [Run(state, start, end)]
      invariant decorations == Group(closed)
    {
      var current := annotations[line];
      if start == -1 {
        RunsFirst(annotations);
        start, end, state := line, line, current;
        continue;
      }
      ghost var open := closed + [Run(state, start, end)];
      if line > end + 1 || state != current {
        RunsStepNew(annotations, line, closed, Run(state, start, end));
        GroupStep(closed, Run(state, start, end));
        decorations := decorations[state as nat := Get(decorations, state as nat) + [LineRange(start, end)]];
        closed := open;
        start, end, state := line, line, current;
      } else {
        RunsStepExtend(annotations, line, closed, Run(state, start, end));
        end := line;
      }
    }
    assert annotations[..|annotations|] == annotations;
    if start == -1 {
      return;
    }
    GroupStep(closed, Run(state, start, end));
    decorations := decorations[state as nat := Get(decorations, state as nat) + [LineRange(start, end)]];
  }

  /** The steps of `CreateRanges`, one per branch of its loop body. */
  lemma RunsFirst(a: seq<nat>)
    requires |a| > 0
    ensures Runs(a[..1]) == [Run(a[0], 0, 0)]
  {
    assert a[..1][..0] == [];
  }

  lemma RunsStepNew(a: seq<nat>, line: nat, closed: seq<Run>, open: Run)
    requires line < |a| && Runs(a[..line]) == closed + [open] && open.state != a[line]
    ensures Runs(a[..line + 1]) == closed + [open] + [Run(a[line], line, line)]
  {
    assert a[..line + 1][..line] == a[..line];
  }

  lemma RunsStepExtend(a: seq<nat>, line: nat, closed: seq<Run>, open: Run)
    requires line < |a| && Runs(a[..line]) == closed + [open] && open.state == a[line]
    ensures Runs(a[..line + 1]) == closed + [open.(end := line)]
  {
    var prev := closed + [open];
    assert a[..line + 1][..line] == a[..line];
    assert prev[..|prev| - 1] == closed;
  }

  lemma GroupStep(runs: seq<Run>, r: Run)
    ensures Group(runs + [r]) == Group(runs)[r.state := Get(Group(runs), r.state) + [RangeOf(r)]]
  {
    assert (runs + [r])[..|runs|] == runs;
  }

  // ---------------------------------------------------------------------------------------
  // The runs
  // ---------------------------------------------------------------------------------------

  lemma UniformGrow(runs: seq<Run>, a: seq<nat>, n: nat)
    requires n <= |a| && Uniform(runs, a[..n])
    ensures Uniform(runs, a)
  {
    forall k | 0 <= k < |runs| ensures RunUniform(runs[k], a) {
      assert RunUniform(runs[k], a[..n]);
      assert forall line :: runs[k].start <= line <= runs[k].end ==> a[..n][line] == a[line];
    }
  }

  lemma UniformShrink(runs: seq<Run>, a: seq<nat>, n: nat)
    requires n <= |a| && Uniform(runs, a)
    requires forall k :: 0 <= k < |runs| ==> runs[k].end < n
    ensures Uniform(runs, a[..n])
  {
    forall k | 0 <= k < |runs| ensures RunUniform(runs[k], a[..n]) {
      assert RunUniform(runs[k], a);
      assert forall line :: runs[k].start <= line <= runs[k].end ==> a[..n][line] == a[line];
    }
  }

  lemma TilesBound(runs: seq<Run>, n: nat)
    requires Tiles(runs, n)
    ensures forall k :: 0 <= k < |runs| ==> runs[k].end < n
  {
    forall k | 0 <= k < |runs| ensures runs[k].end < n {
      if k < |runs| - 1 {
        TilesOrdered(runs, n, k, |runs| - 1);
      }
    }
  }

  /** The runs tile the input, each has a single state, and no two neighbours share one. */
  lemma {:induction false} RunsCorrect(a: seq<nat>)
    ensures Tiles(Runs(a), |a|)
    ensures Uniform(Runs(a), a)
    ensures Maximal(Runs(a))
    decreases |a|
  {
    if a != [] {
      var n := |a| - 1;
      var prev := Runs(a[..n]);
      RunsCorrect(a[..n]);
      UniformGrow(prev, a, n);
      if |prev| > 0 && prev[|prev| - 1].state == a[n] {
        ExtendLast(prev, a, n);
      } else {
        AppendNew(prev, a, n);
      }
    }
  }

  lemma ExtendLast(prev: seq<Run>, a: seq<nat>, n: nat)
    requires n + 1 == |a| && |prev| > 0 && prev[|prev| - 1].state == a[n]
    requires Tiles(prev, n) && Uniform(prev, a) && Maximal(prev)
    ensures Tiles(prev[..|prev| - 1] + [prev[|prev| - 1].(end := n)], |a|)
    ensures Uniform(prev[..|prev| - 1] + [prev[|prev| - 1].(end := n)], a)
    ensures Maximal(prev[..|prev| - 1] + [prev[|prev| - 1].(end := n)])
  {
    var m := |prev| - 1;
    var runs := prev[..m] + [prev[m].(end := n)];
    assert forall k :: 0 <= k < m ==> runs[k] == prev[k];
    assert RunUniform(prev[m], a);
    assert RunUniform(runs[m], a);
  }

  lemma AppendNew(prev: seq<Run>, a: seq<nat>, n: nat)
    requires n + 1 == |a| && (|prev| > 0 ==> prev[|prev| - 1].state != a[n])
    requires Tiles(prev, n) && Uniform(prev, a) && Maximal(prev)
    ensures Tiles(prev + [Run(a[n], n, n)], |a|)
    ensures Uniform(prev + [Run(a[n], n, n)], a)
    ensures Maximal(prev + [Run(a[n], n, n)])
  {
    var runs := prev + [Run(a[n], n, n)];
    assert forall k :: 0 <= k < |prev| ==> runs[k] == prev[k];
    assert RunUniform(runs[|prev|], a);
  }

  lemma DropLast(runs: seq<Run>, n: nat)
    requires Tiles(runs, n) && runs != []
    ensures Tiles(runs[..|runs| - 1], runs[|runs| - 1].start)
    ensures Maximal(runs) ==> Maximal(runs[..|runs| - 1])
  {
  }

  lemma ShortenLast(runs: seq<Run>, n: nat)
    requires Tiles(runs, n) && runs != [] && runs[|runs| - 1].start + 1 < n
    ensures Tiles(runs[..|runs| - 1] + [runs[|runs| - 1].(end := n - 2)], n - 1)
    ensures Maximal(runs) ==> Maximal(runs[..|runs| - 1] + [runs[|runs| - 1].(end := n - 2)])
  {
    var m := |runs| - 1;
    var shorter := runs[..m] + [runs[m].(end := n - 2)];
    assert forall k :: 0 <= k < m ==> shorter[k] == runs[k];
  }

  /** The three properties above determine the runs: `Runs` is the only compression of the
      input that tiles it with uniform, maximal runs. */
  lemma {:induction false} RunsUnique(a: seq<nat>, runs: seq<Run>)
    requires Compresses(runs, a)
    ensures runs == Runs(a)
    decreases |a|
  {
    if a != [] {
      var n := |a| - 1;
      var m := |runs| - 1;
      if runs[m].start == n {
        PrepareNew(a, runs);
        RunsUnique(a[..n], runs[..m]);
        RunsAppendNew(a, runs[..m]);
      } else {
        var shorter := PrepareExtend(a, runs);
        RunsUnique(a[..n], shorter);
        RunsExtend(a, shorter);
      }
    }
  }

  /** When the last run is a single line, the others compress the rest of the input. */
  lemma PrepareNew(a: seq<nat>, runs: seq<Run>)
    requires a != [] && Compresses(runs, a)
    requires runs[|runs| - 1].start == |a| - 1
    ensures Compresses(runs[..|runs| - 1], a[..|a| - 1])
    ensures |runs| > 1 ==> runs[|runs| - 2].state != a[|a| - 1]
    ensures runs == runs[..|runs| - 1] + [Run(a[|a| - 1], |a| - 1, |a| - 1)]
  {
    var n := |a| - 1;
    var m := |runs| - 1;
    var init := runs[..m];
    assert RunUniform(runs[m], a);
    UniformPrefix(runs, a, m);
    DropLast(runs, |a|);
    TilesBound(init, n);
    UniformShrink(init, a, n);
    assert runs == init + [runs[m]];
  }

  /** When the last run is longer, cutting its last line off gives a compression of the rest. */
  lemma PrepareExtend(a: seq<nat>, runs: seq<Run>) returns (shorter: seq<Run>)
    requires a != [] && Compresses(runs, a)
    requires runs[|runs| - 1].start != |a| - 1
    ensures shorter == runs[..|runs| - 1] + [runs[|runs| - 1].(end := |a| - 2)]
    ensures Compresses(shorter, a[..|a| - 1])
    ensures shorter[|shorter| - 1].state == a[|a| - 1]
    ensures runs == shorter[..|shorter| - 1] + [shorter[|shorter| - 1].(end := |a| - 1)]
  {
    var n := |a| - 1;
    var m := |runs| - 1;
    shorter := runs[..m] + [runs[m].(end := n - 1)];
    assert RunUniform(runs[m], a);
    ShortenLast(runs, |a|);
    assert shorter[m] == runs[m].(end := n - 1);
    assert RunUniform(shorter[m], a);
    UniformPrefix(runs, a, m);
    assert shorter[..m] == runs[..m];
    UniformAppend(runs[..m], shorter[m], a);
    TilesBound(shorter, n);
    UniformShrink(shorter, a, n);
    assert runs == runs[..m] + [runs[m]];
  }

  lemma UniformPrefix(runs: seq<Run>, a: seq<nat>, m: nat)
    requires Uniform(runs, a) && m <= |runs|
    ensures Uniform(runs[..m], a)
  {
    assert forall k :: 0 <= k < m ==> runs[..m][k] == runs[k];
  }

  lemma UniformAppend(runs: seq<Run>, r: Run, a: seq<nat>)
    requires Uniform(runs, a) && RunUniform(r, a)
    ensures Uniform(runs + [r], a)
  {
    assert forall k :: 0 <= k < |runs| ==> (runs + [r])[k] == runs[k];
  }

  /** One step of `Runs` when the last line starts a new run. */
  lemma RunsAppendNew(a: seq<nat>, prev: seq<Run>)
    requires a != [] && prev == Runs(a[..|a| - 1])
    requires prev != [] ==> prev[|prev| - 1].state != a[|a| - 1]
    ensures Runs(a) == prev + [Run(a[|a| - 1], |a| - 1, |a| - 1)]
  {
  }

  /** One step of `Runs` when the last line extends the open run. */
  lemma RunsExtend(a: seq<nat>, prev: seq<Run>)
    requires a != [] && prev == Runs(a[..|a| - 1])
    requires prev != [] && prev[|prev| - 1].state == a[|a| - 1]
    ensures Runs(a) == prev[..|prev| - 1] + [prev[|prev| - 1].(end := |a| - 1)]
  {
  }

  /** Runs that tile come in ascending order. */
  lemma {:induction false} TilesOrdered(runs: seq<Run>, n: nat, i: nat, j: nat)
    requires Tiles(runs, n) && i < j < |runs|
    ensures runs[i].end < runs[j].start
    decreases j - i
  {
    if i + 1 < j {
      TilesOrdered(runs, n, i + 1, j);
    }
  }

  /** Taken in the order they are closed, the runs cover every line of the input exactly once. */
  lemma TilesCoverOnce(runs: seq<Run>, n: nat)
    requires Tiles(runs, n)
    ensures forall line: nat :: line < n ==> CoveredBy(runs, line)
    ensures forall k1, k2, line: nat ::
      0 <= k1 < |runs| && 0 <= k2 < |runs| && Covers(RangeOf(runs[k1]), line) && Covers(RangeOf(runs[k2]), line)
      ==> k1 == k2
  {
    forall k1, k2, line: nat | 0 <= k1 < |runs| && 0 <= k2 < |runs| &&
      Covers(RangeOf(runs[k1]), line) && Covers(RangeOf(runs[k2]), line)
      ensures k1 == k2
    {
      if k1 < k2 {
        TilesOrdered(runs, n, k1, k2);
      } else if k2 < k1 {
        TilesOrdered(runs, n, k2, k1);
      }
    }
    forall line: nat | line < n ensures CoveredBy(runs, line) {
      var k := CoveringRun(runs, n, line);
    }
  }

  /** The run that covers a given line. */
  lemma {:induction false} CoveringRun(runs: seq<Run>, n: nat, line: nat) returns (k: nat)
    requires Tiles(runs, n) && line < n
    ensures k < |runs| && Covers(RangeOf(runs[k]), line)
    decreases |runs|
  {
    var m := |runs| - 1;
    if line < runs[m].start {
      DropLast(runs, n);
      k := CoveringRun(runs[..m], runs[m].start, line);
      assert runs[k] == runs[..m][k];
    } else {
      k := m;
    }
  }

  // ---------------------------------------------------------------------------------------
  // The ranges of each state
  // ---------------------------------------------------------------------------------------

  /** A state has a list only when some run has that state. */
  lemma {:induction false} KeyRun(runs: seq<Run>, t: nat) returns (k: nat)
    requires t in Group(runs)
    ensures k < |runs| && runs[k].state == t
    decreases |runs|
  {
    var m := |runs| - 1;
    var init := runs[..m];
    if runs[m].state == t {
      k := m;
    } else {
      k := KeyRun(init, t);
      assert runs[k] == init[k];
    }
  }

  /** The run whose range is listed at a given place of a state's list. */
  lemma {:induction false} ListedRun(runs: seq<Run>, t: nat, i: nat) returns (k: nat)
    requires t in Group(runs) && i < |Group(runs)[t]|
    ensures k < |runs| && runs[k].state == t && Group(runs)[t][i] == RangeOf(runs[k])
    decreases |runs|
  {
    var m := |runs| - 1;
    var init := runs[..m];
    var r := runs[m];
    var g := Group(init);
    assert Group(runs) == g[r.state := Get(g, r.state) + [RangeOf(r)]];
    if t == r.state && i == |Get(g, t)| {
      k := m;
    } else {
      assert t in g && Group(runs)[t][i] == g[t][i];
      k := ListedRun(init, t, i);
      assert runs[k] == init[k];
    }
  }

  /** The range of every run is listed for the run's state; `i` is its place in that list. */
  lemma {:induction false} ListedAt(runs: seq<Run>, k: nat) returns (i: nat)
    requires k < |runs|
    ensures runs[k].state in Group(runs) && i < |Group(runs)[runs[k].state]|
    ensures Group(runs)[runs[k].state][i] == RangeOf(runs[k])
    decreases |runs|
  {
    var m := |runs| - 1;
    var init := runs[..m];
    var r := runs[m];
    var g := Group(init);
    assert Group(runs) == g[r.state := Get(g, r.state) + [RangeOf(r)]];
    if k == m {
      i := |Get(g, r.state)|;
    } else {
      assert runs[k] == init[k];
      i := ListedAt(init, k);
      assert Get(g, runs[k].state) == g[runs[k].state];
    }
  }

  /** The ranges ascend and no two of them touch. */
  predicate Separated(rs: seq<LineRange>) {
    forall i, j :: 0 <= i < j < |rs| ==> rs[i].end + 1 < rs[j].start
  }

  lemma SeparatedAppend(rs: seq<LineRange>, x: LineRange)
    requires Separated(rs)
    requires forall i :: 0 <= i < |rs| ==> rs[i].end + 1 < x.start
    ensures Separated(rs + [x])
  {
  }

  /** Within one state's list the ranges ascend and are never adjacent: between two ranges of a
      state lies at least one line of another state. */
  lemma {:induction false} GroupSeparated(runs: seq<Run>, n: nat)
    requires Tiles(runs, n) && Maximal(runs)
    ensures forall t :: t in Group(runs) ==> Separated(Group(runs)[t])
    decreases |runs|
  {
    if runs != [] {
      var m := |runs| - 1;
      var init := runs[..m];
      var r := runs[m];
      var g := Group(init);
      assert Group(runs) == g[r.state := Get(g, r.state) + [RangeOf(r)]];
      DropLast(runs, n);
      GroupSeparated(init, r.start);
      var before := Get(g, r.state);
      forall i | 0 <= i < |before| ensures before[i].end + 1 < r.start {
        var k := ListedRun(init, r.state, i);
        assert k != m - 1 by {
          assert runs[m - 1].state != runs[m].state;
        }
        TilesOrdered(runs, n, k, m - 1);
        assert runs[k] == init[k];
      }
      SeparatedAppend(before, RangeOf(r));
      forall t | t in Group(runs) ensures Separated(Group(runs)[t]) {
        if t != r.state {
          assert Group(runs)[t] == g[t];
        }
      }
    }
  }

  /** `createRanges` returns one list for every state present in the input, state 0 (todo)
      included, and for no other. */
  lemma RangesKeys(a: seq<nat>)
    ensures forall t :: t in Group(Runs(a)) <==> exists line :: 0 <= line < |a| && a[line] == t
  {
    var runs := Runs(a);
    RunsCorrect(a);
    forall t | t in Group(runs) ensures exists line :: 0 <= line < |a| && a[line] == t {
      var k := KeyRun(runs, t);
      assert RunUniform(runs[k], a);
      assert a[runs[k].start] == t;
    }
    forall t | exists line :: 0 <= line < |a| && a[line] == t ensures t in Group(runs) {
      var line :| 0 <= line < |a| && a[line] == t;
      var k := CoveringRun(runs, |a|, line);
      assert RunUniform(runs[k], a);
      var i := ListedAt(runs, k);
    }
  }

  /** Every range listed for a state lies inside the file and all of its lines have that state. */
  lemma RangesUniform(a: seq<nat>)
    ensures forall t, i :: t in Group(Runs(a)) && 0 <= i < |Group(Runs(a))[t]| ==>
      Group(Runs(a))[t][i].start <= Group(Runs(a))[t][i].end < |a| &&
      forall line: nat :: Covers(Group(Runs(a))[t][i], line) ==> a[line] == t
  {
    var runs := Runs(a);
    RunsCorrect(a);
    forall t, i | t in Group(runs) && 0 <= i < |Group(runs)[t]|
      ensures Group(runs)[t][i].start <= Group(runs)[t][i].end < |a|
      ensures forall line: nat :: Covers(Group(runs)[t][i], line) ==> a[line] == t
    {
      var k := ListedRun(runs, t, i);
      assert RunUniform(runs[k], a);
    }
  }

  /** Every line lies in one of the ranges listed for its own state. */
  lemma RangesCover(a: seq<nat>)
    ensures forall line: nat :: line < |a| ==>
      a[line] in Group(Runs(a)) && exists i :: 0 <= i < |Group(Runs(a))[a[line]]| && Covers(Group(Runs(a))[a[line]][i], line)
  {
    var runs := Runs(a);
    RunsCorrect(a);
    forall line: nat | line < |a|
      ensures a[line] in Group(Runs(a))
      ensures exists i :: 0 <= i < |Group(Runs(a))[a[line]]| && Covers(Group(Runs(a))[a[line]][i], line)
    {
      var k := CoveringRun(runs, |a|, line);
      assert RunUniform(runs[k], a);
      assert runs[k].state == a[line];
      var i := ListedAt(runs, k);
    }
  }

  /** Each state's ranges ascend, and no two of them overlap or touch. */
  lemma RangesSeparated(a: seq<nat>)
    ensures forall t :: t in Group(Runs(a)) ==> Separated(Group(Runs(a))[t])
  {
    RunsCorrect(a);
    GroupSeparated(Runs(a), |a|);
  }

  /** What `setDecorations(types[t], decorations[t] || [])` receives for a state `t`: no ranges
      exactly when no line has state `t`; otherwise ascending, never adjacent ranges within the
      file that hold only lines of state `t` and between them cover every such line. */
  lemma RangesOfState(a: seq<nat>, t: nat)
    ensures Get(Group(Runs(a)), t) == [] <==> forall line :: 0 <= line < |a| ==> a[line] != t
    ensures Separated(Get(Group(Runs(a)), t))
    ensures forall i :: 0 <= i < |Get(Group(Runs(a)), t)| ==>
      Get(Group(Runs(a)), t)[i].start <= Get(Group(Runs(a)), t)[i].end < |a| &&
      forall line: nat :: Covers(Get(Group(Runs(a)), t)[i], line) ==> a[line] == t
    ensures forall line: nat :: line < |a| && a[line] == t ==>
      exists i :: 0 <= i < |Get(Group(Runs(a)), t)| && Covers(Get(Group(Runs(a)), t)[i], line)
  {
    StateListEmpty(a, t);
    StateListSeparated(a, t);
    StateListUniform(a, t);
    forall line: nat | line < |a| && a[line] == t
      ensures exists i :: 0 <= i < |Get(Group(Runs(a)), t)| && Covers(Get(Group(Runs(a)), t)[i], line)
    {
      StateListCovers(a, t, line);
    }
  }

  lemma StateListEmpty(a: seq<nat>, t: nat)
    ensures Get(Group(Runs(a)), t) == [] <==> forall line :: 0 <= line < |a| ==> a[line] != t
  {
    var g := Group(Runs(a));
    RangesKeys(a);
    if t in g {
      var line :| 0 <= line < |a| && a[line] == t;
      StateListCovers(a, t, line);
    }
  }

  lemma StateListSeparated(a: seq<nat>, t: nat)
    ensures Separated(Get(Group(Runs(a)), t))
  {
    RangesSeparated(a);
  }

  lemma StateListUniform(a: seq<nat>, t: nat)
    ensures forall i :: 0 <= i < |Get(Group(Runs(a)), t)| ==>
      Get(Group(Runs(a)), t)[i].start <= Get(Group(Runs(a)), t)[i].end < |a| &&
      forall line: nat :: Covers(Get(Group(Runs(a)), t)[i], line) ==> a[line] == t
  {
    RangesUniform(a);
  }

  lemma StateListCovers(a: seq<nat>, t: nat, line: nat)
    requires line < |a| && a[line] == t
    ensures exists i :: 0 <= i < |Get(Group(Runs(a)), t)| && Covers(Get(Group(Runs(a)), t)[i], line)
  {
    RangesCover(a);
    var g := Group(Runs(a));
    var i :| 0 <= i < |g[a[line]]| && Covers(g[a[line]][i], line);
    assert Get(g, t) == g[t];
    assert 0 <= i < |Get(g, t)| && Covers(Get(g, t)[i], line);
  }

  /** A dense sequence with a run of done lines, a todo line, and one more done line: the gap
      at line 2 splits the done lines into two ranges, and the todo line gets a range of its own. */
  lemma RangesExample()
    ensures Group(Runs([1, 1, 0, 1])) == map[1 := [LineRange(0, 1), LineRange(3, 3)], 0 := [LineRange(2, 2)]]
  {
    RunsExample();
    GroupExample();
  }

  lemma GroupExample()
    ensures Group([Run(1, 0, 1), Run(0, 2, 2), Run(1, 3, 3)]) == map[1 := [LineRange(0, 1), LineRange(3, 3)], 0 := [LineRange(2, 2)]]
  {
    var r0, r1, r2 := Run(1, 0, 1), Run(0, 2, 2), Run(1, 3, 3);
    var g0: map<nat, seq<LineRange>> := map[];
    GroupStep([], r0);
    assert [] + [r0] == [r0];
    assert Group([]) == g0;
    assert Get(g0, 1) + [RangeOf(r0)] == [LineRange(0, 1)];
    var g1 := g0[1 := [LineRange(0, 1)]];
    assert Group([r0]) == g1;
    GroupStep([r0], r1);
    assert [r0] + [r1] == [r0, r1];
    assert Get(g1, 0) + [RangeOf(r1)] == [LineRange(2, 2)];
    var g2 := g1[0 := [LineRange(2, 2)]];
    assert Group([r0, r1]) == g2;
    GroupStep([r0, r1], r2);
    assert [r0, r1] + [r2] == [r0, r1, r2];
    assert Get(g2, 1) + [RangeOf(r2)] == [LineRange(0, 1), LineRange(3, 3)];
  }

  lemma RunsExample()
    ensures Runs([1, 1, 0, 1]) == [Run(1, 0, 1), Run(0, 2, 2), Run(1, 3, 3)]
  {
    var a: seq<nat> := [1, 1, 0, 1];
    assert a[..4] == a;
    RunsFirst(a);
    RunsStepExtend(a, 1, [], Run(1, 0, 0));
    assert [] + [Run(1, 0, 0).(end := 1)] == [Run(1, 0, 1)];
    RunsStepNew(a, 2, [], Run(1, 0, 1));
    assert [] + [Run(1, 0, 1)] + [Run(0, 2, 2)] == [Run(1, 0, 1)] + [Run(0, 2, 2)];
    RunsStepNew(a, 3, [Run(1, 0, 1)], Run(0, 2, 2));
  }
}
