/** Cutting an image into letters at its blank columns (find_letters in lib/processing.cpp).
    An image is a sequence of columns of equal height; a pixel below the threshold is dark. */
module Letters {

  type Column = seq<int>
  type Image = seq<Column>

  datatype Letter = Letter(matrix: Image, x: nat, y: int)

  datatype Run = Run(left: nat, right: nat)

  ghost predicate Rectangular(m: Image)
  {
    forall c <- m :: |c| == |m[0]|
  }

  // ---- one column ----

  predicate IsDark(c: Column, t: int)
  {
    exists y :: 0 <= y < |c| && c[y] < t
  }

  /** First dark row, or -1. */
  function ColumnTop(c: Column, t: int): int
  {
    if c == [] then -1
    else
      var n := |c| - 1;
      var before := ColumnTop(c[..n], t);
      if before >= 0 then before else if c[n] < t then n else -1
  }

  /** Row after the last dark row that has a blank row after it, or -1. */
  function ColumnBottom(c: Column, t: int): int
  {
    if |c| < 2 then -1
    else
      var n := |c| - 1;
      if c[n - 1] < t && c[n] >= t then n else ColumnBottom(c[..n], t)
  }

  /** Row after the last dark row, or 0. */
  function ColumnEnd(c: Column, t: int): int
  {
    if c == [] then 0 else if c[|c| - 1] < t then |c| else ColumnEnd(c[..|c| - 1], t)
  }

  // ---- edges of a stretch of columns ----

  /** The smaller of two row numbers, -1 standing for none. */
  function Higher(p: int, q: int): int
  {
    if p < 0 then q else if q < 0 then p else if q < p then q else p
  }

  function Lower(p: int, q: int): int
  {
    if q > p then q else p
  }

  function Top(m: Image, r: Run, t: int): int
    requires r.left <= r.right <= |m|
    decreases r.right
  {
    if r.left == r.right then -1
    else Higher(Top(m, Run(r.left, r.right - 1), t), ColumnTop(m[r.right - 1], t))
  }

  /** What the scan takes for the bottom edge. */
  function Bottom(m: Image, r: Run, t: int): int
    requires r.left <= r.right <= |m|
    decreases r.right
  {
    if r.left == r.right then -1
    else Lower(Bottom(m, Run(r.left, r.right - 1), t), ColumnBottom(m[r.right - 1], t))
  }

  /** Row after the last dark row of the stretch. */
  function End(m: Image, r: Run, t: int): int
    requires r.left <= r.right <= |m|
    decreases r.right
  {
    if r.left == r.right then 0
    else Lower(End(m, Run(r.left, r.right - 1), t), ColumnEnd(m[r.right - 1], t))
  }

  /** Rows [top, bottom) of the columns of a run. */
  function Cut(m: Image, r: Run, top: int, bottom: int): Image
    requires r.left <= r.right <= |m| && 0 <= top
    requires forall x :: r.left <= x < r.right ==> bottom <= |m[x]|
  {
    seq(r.right - r.left, i requires 0 <= i < r.right - r.left =>
      if top <= bottom then m[r.left + i][top..bottom] else [])
  }

  // ---- maximal runs of non-blank columns ----

  function RunEnd(m: Image, x: nat, t: int): (e: nat)
    requires x <= |m|
    ensures x <= e <= |m| && (forall k :: x <= k < e ==> IsDark(m[k], t)) && (e < |m| ==> !IsDark(m[e], t))
    decreases |m| - x
  {
    if x == |m| || !IsDark(m[x], t) then x else RunEnd(m, x + 1, t)
  }

  function Runs(m: Image, x: nat, t: int): seq<Run>
    requires x <= |m|
    decreases |m| - x
  {
    if x == |m| then []
    else if !IsDark(m[x], t) then Runs(m, x + 1, t)
    else [Run(x, RunEnd(m, x, t))] + Runs(m, RunEnd(m, x, t), t)
  }

  /** Runs are maximal, ordered and separated by blank columns. */
  lemma {:induction false} RunsAreMaximal(m: Image, x: nat, t: int, k: nat)
    requires x <= |m| && k < |Runs(m, x, t)| && (x == 0 || !IsDark(m[x - 1], t) || x == |m| || !IsDark(m[x], t))
    ensures var r := Runs(m, x, t)[k];
            && x <= r.left < r.right <= |m| && (forall c :: r.left <= c < r.right ==> IsDark(m[c], t))
            && (r.left > 0 ==> !IsDark(m[r.left - 1], t)) && (r.right < |m| ==> !IsDark(m[r.right], t))
            && (k > 0 ==> Runs(m, x, t)[k - 1].right < r.left)
    decreases |m| - x
  {
    hide IsDark;
    if x < |m| && !IsDark(m[x], t) {
      assert Runs(m, x, t) == Runs(m, x + 1, t);
      RunsAreMaximal(m, x + 1, t, k);
    } else if k > 0 {
      var e := RunEnd(m, x, t);
      RunsAreMaximal(m, e, t, k - 1);
      assert Runs(m, x, t)[k] == Runs(m, e, t)[k - 1];
      if k == 1 {
        assert e < Runs(m, e, t)[0].left;
      } else {
        assert Runs(m, x, t)[k - 1] == Runs(m, e, t)[k - 2];
      }
    }
  }

  /** Every non-blank column is in a run. */
  lemma {:induction false} RunsAreComplete(m: Image, x: nat, t: int, c: nat)
    requires x <= c < |m| && IsDark(m[c], t)
    ensures exists k :: 0 <= k < |Runs(m, x, t)| && Runs(m, x, t)[k].left <= c < Runs(m, x, t)[k].right
    decreases |m| - x
  {
    if !IsDark(m[x], t) {
      assert Runs(m, x, t) == Runs(m, x + 1, t);
      RunsAreComplete(m, x + 1, t, c);
    } else {
      var e := RunEnd(m, x, t);
      if c < e {
        assert Runs(m, x, t)[0] == Run(x, e);
      } else {
        RunsAreComplete(m, e, t, c);
        var k :| 0 <= k < |Runs(m, e, t)| && Runs(m, e, t)[k].left <= c < Runs(m, e, t)[k].right;
        assert Runs(m, x, t)[k + 1] == Runs(m, e, t)[k];
      }
    }
  }

  // ---- what the scan returns, and what it should ----

  /** The scan's letter for a run. */
  function Scanned(m: Image, r: Run, t: int): Letter
    requires Rectangular(m) && r.left < r.right <= |m|
  {
    TopIsRow(m, r, t);
    BottomIsRow(m, r, t);
    var top := Top(m, r, t);
    Letter(Cut(m, r, if top < 0 then 0 else top, Bottom(m, r, t)), r.left, top)
  }

  /** The run with its tight row bounds. */
  function Tight(m: Image, r: Run, t: int): Letter
    requires Rectangular(m) && r.left < r.right <= |m|
  {
    TopIsRow(m, r, t);
    EndIsRow(m, r, t);
    var top := Top(m, r, t);
    Letter(Cut(m, r, if top < 0 then 0 else top, End(m, r, t)), r.left, top)
  }

  lemma {:induction false} ColumnTopIsRow(c: Column, t: int)
    ensures -1 <= ColumnTop(c, t) < |c| || ColumnTop(c, t) == -1
    ensures ColumnTop(c, t) >= 0 <==> IsDark(c, t)
    ensures ColumnTop(c, t) >= 0 ==> c[ColumnTop(c, t)] < t && forall y :: 0 <= y < ColumnTop(c, t) ==> c[y] >= t
    ensures -1 <= ColumnBottom(c, t) && (c != [] ==> ColumnBottom(c, t) < |c|)
    ensures 0 <= ColumnEnd(c, t) <= |c| && (forall y :: ColumnEnd(c, t) <= y < |c| ==> c[y] >= t)
    ensures ColumnEnd(c, t) > 0 ==> c[ColumnEnd(c, t) - 1] < t
    ensures IsDark(c, t) ==> ColumnEnd(c, t) > 0
  {
    if c != [] {
      var n := |c| - 1;
      ColumnTopIsRow(c[..n], t);
      assert c == c[..n] + [c[n]];
    }
  }

  lemma {:induction false} TopIsRow(m: Image, r: Run, t: int)
    requires Rectangular(m) && r.left <= r.right <= |m|
    ensures -1 <= Top(m, r, t) && (r.left < r.right ==> Top(m, r, t) < |m[0]| || Top(m, r, t) == -1)
    decreases r.right
  {
    if r.left < r.right {
      TopIsRow(m, Run(r.left, r.right - 1), t);
      ColumnTopIsRow(m[r.right - 1], t);
      assert m[r.right - 1] in m;
    }
  }

  lemma {:induction false} BottomIsRow(m: Image, r: Run, t: int)
    requires Rectangular(m) && r.left <= r.right <= |m|
    ensures -1 <= Bottom(m, r, t)
    ensures forall x :: r.left <= x < r.right ==> Bottom(m, r, t) <= |m[x]| && (m[x] != [] ==> Bottom(m, r, t) < |m[x]|)
    decreases r.right
  {
    if r.left < r.right {
      BottomIsRow(m, Run(r.left, r.right - 1), t);
      ColumnTopIsRow(m[r.right - 1], t);
      forall x | r.left <= x < r.right
        ensures |m[x]| == |m[0]|
      {
        assert m[x] in m;
      }
      assert r.left < r.right - 1 ==> Bottom(m, Run(r.left, r.right - 1), t) <= |m[r.left]|;
    }
  }

  lemma {:induction false} EndIsRow(m: Image, r: Run, t: int)
    requires Rectangular(m) && r.left <= r.right <= |m|
    ensures 0 <= End(m, r, t)
    ensures forall x :: r.left <= x < r.right ==> End(m, r, t) <= |m[x]|
    decreases r.right
  {
    if r.left < r.right {
      EndIsRow(m, Run(r.left, r.right - 1), t);
      ColumnTopIsRow(m[r.right - 1], t);
      forall x | r.left <= x < r.right
        ensures |m[x]| == |m[0]|
      {
        assert m[x] in m;
      }
      assert r.left < r.right - 1 ==> End(m, Run(r.left, r.right - 1), t) <= |m[r.left]|;
    }
  }

  function ScanAll(m: Image, runs: seq<Run>, t: int): seq<Letter>
    requires Rectangular(m) && forall r <- runs :: r.left < r.right <= |m|
  {
    seq(|runs|, k requires 0 <= k < |runs| => Scanned(m, runs[k], t))
  }

  function TightAll(m: Image, runs: seq<Run>, t: int): seq<Letter>
    requires Rectangular(m) && forall r <- runs :: r.left < r.right <= |m|
  {
    seq(|runs|, k requires 0 <= k < |runs| => Tight(m, runs[k], t))
  }

  lemma RunsAreRuns(m: Image, x: nat, t: int)
    requires x <= |m|
    ensures forall r <- Runs(m, x, t) :: x <= r.left < r.right <= |m|
    decreases |m| - x
  {
  }

  /** Runs that a blank column closes. */
  function Closed(m: Image, runs: seq<Run>): seq<Run>
  {
    if runs != [] && runs[|runs| - 1].right == |m| then runs[..|runs| - 1] else runs
  }

  /** What find_letters returns for any image: nothing once the first column is not blank, otherwise the
      runs closed by a blank column, cut at the edges it saw. */
  function Found(m: Image, t: int): seq<Letter>
    requires Rectangular(m)
  {
    RunsAreRuns(m, 0, t);
    if m != [] && IsDark(m[0], t) then [] else ScanAll(m, Closed(m, Runs(m, 0, t)), t)
  }

  /** One letter per maximal run of non-blank columns, left to right, each with its tight row bounds. */
  function Expected(m: Image, t: int): seq<Letter>
    requires Rectangular(m)
  {
    RunsAreRuns(m, 0, t);
    TightAll(m, Runs(m, 0, t), t)
  }

  /** The inner loop over one column. */
  method ScanColumn(c: Column, t: int, topSoFar: int, bottomSoFar: int)
      returns (topEdge: int, bottomEdge: int, found: bool)
    requires topSoFar >= -1 && bottomSoFar >= -1
    ensures topEdge == Higher(topSoFar, ColumnTop(c, t)) && bottomEdge == Lower(bottomSoFar, ColumnBottom(c, t))
    ensures found <==> IsDark(c, t)
  {
    topEdge, bottomEdge, found := topSoFar, bottomSoFar, false;
    for y := 0 to |c|
      invariant topEdge == Higher(topSoFar, ColumnTop(c[..y], t))
      invariant bottomEdge == Lower(bottomSoFar, ColumnBottom(c[..y], t))
      invariant found <==> IsDark(c[..y], t)
    {
      ColumnTopIsRow(c[..y], t);
      ColumnTopIsRow(c[..y + 1], t);
      assert c[..y + 1][..y] == c[..y];
      if c[y] < t {
        if topEdge < 0 || y < topEdge {
          topEdge := y;
        }
        found := true;
      } else {
        if y > 0 && c[y - 1] < t && (bottomEdge < 0 || y > bottomEdge) {
          bottomEdge := y;
        }
      }
    }
    assert c[..|c|] == c;
  }

  /** The loops that copy a shape. */
  method CutOut(m: Image, r: Run, top: nat, bottom: int) returns (subMatrix: Image)
    requires r.left <= r.right <= |m| && forall x :: r.left <= x < r.right ==> bottom <= |m[x]|
    ensures subMatrix == Cut(m, r, top, bottom)
    ensures |subMatrix| == r.right - r.left
    ensures forall i :: 0 <= i < |subMatrix| ==>
              && |subMatrix[i]| == (if top <= bottom then bottom - top else 0)
              && forall j :: 0 <= j < |subMatrix[i]| ==> subMatrix[i][j] == m[r.left + i][top + j]
  {
    subMatrix := [];
    for subx := r.left to r.right
      invariant subMatrix == Cut(m, Run(r.left, subx), top, bottom)
    {
      var column: Column, suby := [], top;
      while suby < bottom
        invariant top <= suby && (top <= bottom ==> suby <= bottom)
        invariant column == if top <= bottom then m[subx][top..suby] else []
      {
        column := column + [m[subx][suby]];
        suby := suby + 1;
      }
      subMatrix := subMatrix + [column];
    }
  }

  /** The runs still to be reported when the scan is at column `x`, inside a run or between two. */
  ghost predicate AtColumn(m: Image, t: int, x: nat, done: seq<Run>, leftEdge: int, topEdge: int, bottomEdge: int)
  {
    && x <= |m| && -1 <= leftEdge < x
    && (forall r <- done :: r.left < r.right < |m|)
    && (leftEdge == -1 ==> topEdge == -1 && bottomEdge == -1 && Runs(m, 0, t) == done + Runs(m, x, t))
    && (leftEdge >= 0 ==>
          && topEdge == Top(m, Run(leftEdge, x), t) && bottomEdge == Bottom(m, Run(leftEdge, x), t)
          && (forall k :: leftEdge <= k < x ==> IsDark(m[k], t))
          && Runs(m, 0, t) == done + Runs(m, leftEdge, t))
  }

  /** A letter for a run: its columns, from the first dark row of the run to the bottom edge seen, with the
      pixels of the image. */
  ghost predicate IsLetterOf(m: Image, t: int, r: Run, l: Letter)
    requires r.left <= r.right <= |m|
  {
    && l.x == r.left && l.y == Top(m, r, t) >= 0 && |l.matrix| == r.right - r.left
    && forall i :: 0 <= i < |l.matrix| ==>
         && |l.matrix[i]| == (if Bottom(m, r, t) >= l.y then Bottom(m, r, t) - l.y else 0)
         && l.y + |l.matrix[i]| <= |m[l.x + i]|
         && forall j :: 0 <= j < |l.matrix[i]| ==> l.matrix[i][j] == m[l.x + i][l.y + j]
  }

  lemma ScannedIsLetter(m: Image, r: Run, t: int)
    requires Rectangular(m) && r.left < r.right <= |m| && forall k :: r.left <= k < r.right ==> IsDark(m[k], t)
    ensures IsLetterOf(m, t, r, Scanned(m, r, t))
  {
    hide IsDark, Bottom;
    TopOfRun(m, r, t);
    TopIsRow(m, r, t);
    BottomIsRow(m, r, t);
    forall x | r.left <= x < r.right
      ensures |m[x]| == |m[0]|
    {
      assert m[x] in m;
    }
  }

  /** What find_letters returns, run by run: nothing once the first column is dark, otherwise a letter for
      every run but one that goes on to the last column. */
  lemma FoundMeans(m: Image, t: int)
    requires Rectangular(m)
    ensures m != [] && IsDark(m[0], t) ==> Found(m, t) == []
    ensures (m == [] || !IsDark(m[0], t)) ==>
              |Found(m, t)| == |Runs(m, 0, t)| - (if m != [] && IsDark(m[|m| - 1], t) then 1 else 0)
    ensures forall k :: 0 <= k < |Found(m, t)| ==>
              && k < |Runs(m, 0, t)| && Runs(m, 0, t)[k].left < Runs(m, 0, t)[k].right < |m|
              && IsLetterOf(m, t, Runs(m, 0, t)[k], Found(m, t)[k])
  {
    hide IsDark, Scanned, IsLetterOf;
    var runs := Runs(m, 0, t);
    RunsAreRuns(m, 0, t);
    ClosedMeans(m, t);
    forall k | 0 <= k < |Found(m, t)|
      ensures && k < |runs| && runs[k].left < runs[k].right < |m| && IsLetterOf(m, t, runs[k], Found(m, t)[k])
    {
      assert k < |Closed(m, runs)| && Closed(m, runs)[k] == runs[k];
      RunFacts(m, t, k);
      ScannedIsLetter(m, runs[k], t);
    }
  }

  lemma ClosedMeans(m: Image, t: int)
    ensures var runs := Runs(m, 0, t);
            && |Closed(m, runs)| == |runs| - (if m != [] && IsDark(m[|m| - 1], t) then 1 else 0)
            && forall k :: 0 <= k < |Closed(m, runs)| ==> runs[k].right < |m| && Closed(m, runs)[k] == runs[k]
  {
    hide IsDark;
    var runs := Runs(m, 0, t);
    RunsAreRuns(m, 0, t);
    if m != [] && IsDark(m[|m| - 1], t) {
      RunsAreComplete(m, 0, t, |m| - 1);
      var k :| 0 <= k < |runs| && runs[k].left <= |m| - 1 < runs[k].right;
      LastRunLast(m, t, k);
    } else if runs != [] {
      RunFacts(m, t, |runs| - 1);
    }
    forall k | 0 <= k < |runs| - 1
      ensures runs[k].right < |m|
    {
      RunFacts(m, t, k + 1);
    }
  }

  lemma LastRunLast(m: Image, t: int, k: nat)
    requires k < |Runs(m, 0, t)| && Runs(m, 0, t)[k].right == |m|
    ensures k == |Runs(m, 0, t)| - 1
  {
    hide IsDark;
    if k + 1 < |Runs(m, 0, t)| {
      RunFacts(m, t, k + 1);
    }
  }

  /** The bottom edge seen in one column: the last row with a dark one above it and itself blank. */
  lemma {:induction false} ColumnBottomIsEdge(c: Column, t: int)
    ensures var b := ColumnBottom(c, t);
            && (b >= 0 ==> 0 < b < |c| && c[b - 1] < t && c[b] >= t)
            && forall y :: 0 < y < |c| && c[y - 1] < t && c[y] >= t ==> y <= b
  {
    if |c| >= 2 {
      var n := |c| - 1;
      ColumnBottomIsEdge(c[..n], t);
    }
  }

  /** The bottom edge of a run is the lowest of its columns. */
  lemma {:induction false} BottomIsLowest(m: Image, r: Run, t: int)
    requires r.left <= r.right <= |m|
    ensures Bottom(m, r, t) >= 0 ==> exists x :: r.left <= x < r.right && Bottom(m, r, t) == ColumnBottom(m[x], t)
    ensures forall x :: r.left <= x < r.right ==> ColumnBottom(m[x], t) <= Bottom(m, r, t)
    decreases r.right
  {
    if r.left < r.right {
      BottomIsLowest(m, Run(r.left, r.right - 1), t);
      ColumnTopIsRow(m[r.right - 1], t);
    }
  }

  /** find_letters. */
  method FindLetters(t: int, m: Image) returns (letters: seq<Letter>)
    requires Rectangular(m)
    ensures letters == Found(m, t)
    ensures m != [] && IsDark(m[0], t) ==> letters == []
    ensures (m == [] || !IsDark(m[0], t)) ==>
              |letters| == |Runs(m, 0, t)| - (if m != [] && IsDark(m[|m| - 1], t) then 1 else 0)
    ensures forall k :: 0 <= k < |letters| ==>
              && k < |Runs(m, 0, t)| && Runs(m, 0, t)[k].left < Runs(m, 0, t)[k].right < |m|
              && IsLetterOf(m, t, Runs(m, 0, t)[k], letters[k])
  {
    hide Found, Scanned, IsDark, AtColumn, Runs, Top, Bottom, Closed, IsLetterOf;
    letters := [];
    var leftEdge, topEdge, bottomEdge := -1, -1, -1;
    ghost var done: seq<Run> := [];
    ghost var lost := m != [] && IsDark(m[0], t);
    ScanBegins(m, t);
    for x := 0 to |m|
      invariant topEdge >= -1 && bottomEdge >= -1 && -1 <= leftEdge < x
      invariant (forall r <- done :: r.left < r.right < |m|) && letters == ScanAll(m, done, t)
      invariant x == 0 ==> leftEdge == -1 && done == []
      invariant lost && x > 0 ==> leftEdge == 0 && done == []
      invariant !lost || x == 0 ==> leftEdge != 0 && AtColumn(m, t, x, done, leftEdge, topEdge, bottomEdge)
    {
      var found: bool;
      ghost var top0, bottom0 := topEdge, bottomEdge;
      BoundsFromColumn(m[x], t);
      topEdge, bottomEdge, found := ScanColumn(m[x], t, topEdge, bottomEdge);
      if found {
        if !lost {
          ColumnInRun(m, t, x, done, leftEdge, top0, bottom0);
        }
        if leftEdge < 0 {
          leftEdge := x;
        }
      } else {
        if !lost {
          ColumnAfterRun(m, t, x, done, leftEdge, top0, bottom0);
        }
        if leftEdge > 0 {
          var run := Run(leftEdge, x);
          TopIsRow(m, run, t);
          BottomIsRow(m, run, t);
          var subMatrix := CutOut(m, run, topEdge, bottomEdge);
          ScannedIs(m, run, t, topEdge, bottomEdge);
          letters := letters + [Letter(subMatrix, leftEdge, topEdge)];
          done := done + [run];
          leftEdge, topEdge, bottomEdge := -1, -1, -1;
        }
      }
    }
    if !lost {
      ScanEnds(m, t, done, leftEdge, topEdge, bottomEdge);
    }
    FoundIs(m, t);
    FoundMeans(m, t);
  }

  lemma BoundsFromColumn(c: Column, t: int)
    ensures ColumnTop(c, t) >= -1 && ColumnBottom(c, t) >= -1
    ensures !IsDark(c, t) ==> ColumnTop(c, t) == -1 && ColumnBottom(c, t) == -1
  {
    ColumnTopIsRow(c, t);
    BlankColumn(c, t);
  }

  lemma {:induction false} BlankColumn(c: Column, t: int)
    ensures !IsDark(c, t) ==> ColumnBottom(c, t) == -1
  {
    if c != [] {
      BlankColumn(c[..|c| - 1], t);
    }
  }

  lemma FoundIs(m: Image, t: int)
    requires Rectangular(m)
    ensures (forall r <- Runs(m, 0, t) :: r.left < r.right <= |m|)
    ensures Found(m, t) == if m != [] && IsDark(m[0], t) then [] else ScanAll(m, Closed(m, Runs(m, 0, t)), t)
  {
    RunsAreRuns(m, 0, t);
  }

  lemma ScannedIs(m: Image, r: Run, t: int, top: int, bottom: int)
    requires Rectangular(m) && r.left < r.right <= |m| && top == Top(m, r, t) >= 0 && bottom == Bottom(m, r, t)
    requires forall x :: r.left <= x < r.right ==> bottom <= |m[x]|
    ensures Scanned(m, r, t) == Letter(Cut(m, r, top, bottom), r.left, top)
  {
  }

  lemma ScanBegins(m: Image, t: int)
    ensures AtColumn(m, t, 0, [], -1, -1, -1)
  {
    assert [] + Runs(m, 0, t) == Runs(m, 0, t);
  }

  lemma ColumnInRun(m: Image, t: int, x: nat, done: seq<Run>, leftEdge: int, top: int, bottom: int)
    requires x < |m| && AtColumn(m, t, x, done, leftEdge, top, bottom) && IsDark(m[x], t)
    ensures AtColumn(m, t, x + 1, done, if leftEdge < 0 then x else leftEdge,
                     Higher(top, ColumnTop(m[x], t)), Lower(bottom, ColumnBottom(m[x], t)))
  {
  }

  lemma ColumnAfterRun(m: Image, t: int, x: nat, done: seq<Run>, leftEdge: int, top: int, bottom: int)
    requires x < |m| && AtColumn(m, t, x, done, leftEdge, top, bottom) && !IsDark(m[x], t)
    ensures leftEdge < 0 ==> top == bottom == -1 && AtColumn(m, t, x + 1, done, -1, -1, -1)
    ensures leftEdge >= 0 ==> AtColumn(m, t, x + 1, done + [Run(leftEdge, x)], -1, -1, -1)
    ensures leftEdge >= 0 ==>
              leftEdge < x && top == Top(m, Run(leftEdge, x), t) >= 0 && bottom == Bottom(m, Run(leftEdge, x), t)
  {
    if leftEdge >= 0 {
      RunEndIs(m, leftEdge, x, t);
      assert done + ([Run(leftEdge, x)] + Runs(m, x, t)) == (done + [Run(leftEdge, x)]) + Runs(m, x, t);
      TopOfRun(m, Run(leftEdge, x), t);
    }
  }

  lemma RunEndIs(m: Image, x: nat, e: nat, t: int)
    requires x < e <= |m| && (forall k :: x <= k < e ==> IsDark(m[k], t)) && (e < |m| ==> !IsDark(m[e], t))
    ensures RunEnd(m, x, t) == e && Runs(m, x, t) == [Run(x, e)] + Runs(m, e, t)
  {
    hide IsDark;
    var f := RunEnd(m, x, t);
  }

  lemma TopOfRun(m: Image, r: Run, t: int)
    requires r.left < r.right <= |m| && forall k :: r.left <= k < r.right ==> IsDark(m[k], t)
    ensures Top(m, r, t) >= 0
  {
    ColumnTopIsRow(m[r.right - 1], t);
  }

  lemma ScanEnds(m: Image, t: int, done: seq<Run>, leftEdge: int, top: int, bottom: int)
    requires AtColumn(m, t, |m|, done, leftEdge, top, bottom)
    ensures Closed(m, Runs(m, 0, t)) == done
  {
    if leftEdge >= 0 {
      RunEndIs(m, leftEdge, |m|, t);
      assert Runs(m, 0, t) == done + [Run(leftEdge, |m|)];
    } else {
      assert Runs(m, 0, t) == done;
      assert done != [] ==> done[|done| - 1] in done;
    }
  }

  // ---- exactness ----

  predicate LastRowBlank(m: Image, t: int)
  {
    forall c <- m :: c != [] ==> c[|c| - 1] >= t
  }

  /** First column, last column and last row are blank. */
  predicate MarginsBlank(m: Image, t: int)
  {
    m != [] ==> !IsDark(m[0], t) && !IsDark(m[|m| - 1], t) && LastRowBlank(m, t)
  }

  lemma {:induction false} ColumnEdgesAgree(c: Column, t: int)
    requires IsDark(c, t)
    ensures c[|c| - 1] >= t ==> ColumnBottom(c, t) == ColumnEnd(c, t)
    ensures c[|c| - 1] < t ==> ColumnEnd(c, t) == |c|
  {
    var n := |c| - 1;
    if c[n] >= t {
      var y :| 0 <= y < |c| && c[y] < t;
      assert c[..n][y] < t;
      if c[n - 1] >= t {
        assert c[..n][|c[..n]| - 1] == c[n - 1];
        ColumnEdgesAgree(c[..n], t);
      }
    }
  }

  /** With a blank last row the scan sees the true bottom edge of a run. */
  lemma {:induction false} EdgesAgree(m: Image, r: Run, t: int)
    requires LastRowBlank(m, t) && r.left < r.right <= |m| && forall k :: r.left <= k < r.right ==> IsDark(m[k], t)
    ensures Bottom(m, r, t) == End(m, r, t)
    decreases r.right
  {
    var c := m[r.right - 1];
    assert c in m;
    ColumnEdgesAgree(c, t);
    ColumnTopIsRow(c, t);
    if r.left < r.right - 1 {
      EdgesAgree(m, Run(r.left, r.right - 1), t);
    } else {
      assert Bottom(m, Run(r.left, r.left), t) == -1 && End(m, Run(r.left, r.left), t) == 0;
    }
  }

  /** A run with a dark pixel in its last row ends below everything the scan can see. */
  lemma {:induction false} EndReachesLastRow(m: Image, r: Run, t: int, x: nat)
    requires Rectangular(m) && r.left <= x < r.right <= |m| && m[x] != [] && m[x][|m[x]| - 1] < t
    ensures End(m, r, t) == |m[0]|
    decreases r.right
  {
    EndIsRow(m, r, t);
    assert m[x] in m;
    if x < r.right - 1 {
      EndReachesLastRow(m, Run(r.left, r.right - 1), t, x);
      ColumnTopIsRow(m[r.right - 1], t);
      assert m[r.right - 1] in m;
    }
  }

  /** A letter cut short differs from the tight one. */
  lemma ShorterLetterDiffers(m: Image, r: Run, t: int, x: nat)
    requires Rectangular(m) && r.left <= x < r.right <= |m| && m[x] != [] && m[x][|m[x]| - 1] < t
    requires forall k :: r.left <= k < r.right ==> IsDark(m[k], t)
    ensures Scanned(m, r, t) != Tight(m, r, t)
  {
    EndReachesLastRow(m, r, t, x);
    TopIsRow(m, r, t);
    TopOfRun(m, r, t);
    BottomIsRow(m, r, t);
    EndIsRow(m, r, t);
    assert m[r.left] in m && m[x] in m;
    assert |Tight(m, r, t).matrix[0]| == |m[0]| - Top(m, r, t);
    assert |Scanned(m, r, t).matrix[0]| < |m[0]| - Top(m, r, t);
  }

  lemma RunFacts(m: Image, t: int, k: nat)
    requires k < |Runs(m, 0, t)|
    ensures var r := Runs(m, 0, t)[k];
            && r.left < r.right <= |m| && (forall c :: r.left <= c < r.right ==> IsDark(m[c], t))
            && (r.left > 0 ==> !IsDark(m[r.left - 1], t)) && (r.right < |m| ==> !IsDark(m[r.right], t))
            && (k > 0 ==> Runs(m, 0, t)[k - 1].right < r.left)
  {
    RunsAreMaximal(m, 0, t, k);
  }

  /** Letter segmentation is exact on exactly the images whose first column, last column and last row are
      blank. */
  lemma SegmentationIsExactIff(m: Image, t: int)
    requires Rectangular(m)
    ensures Found(m, t) == Expected(m, t) <==> MarginsBlank(m, t)
  {
    if m != [] {
      if IsDark(m[0], t) {
        RunsAreComplete(m, 0, t, 0);
        assert |Expected(m, t)| > 0;
      } else if IsDark(m[|m| - 1], t) {
        LastRunIsOpen(m, t);
      } else {
        AllRunsClosed(m, t);
        if LastRowBlank(m, t) {
          AllTight(m, t);
        } else {
          var c :| c in m && c != [] && c[|c| - 1] < t;
          var x :| 0 <= x < |m| && m[x] == c;
          SomeRunDiffers(m, t, x);
        }
      }
    }
  }

  lemma LastRunIsOpen(m: Image, t: int)
    requires Rectangular(m) && m != [] && !IsDark(m[0], t) && IsDark(m[|m| - 1], t)
    ensures |Found(m, t)| < |Expected(m, t)|
  {
    hide IsDark, Scanned, Tight, Runs;
    var runs := Runs(m, 0, t);
    RunsAreRuns(m, 0, t);
    RunsAreComplete(m, 0, t, |m| - 1);
    var k :| 0 <= k < |runs| && runs[k].left <= |m| - 1 < runs[k].right;
    if k < |runs| - 1 {
      RunFacts(m, t, k + 1);
      assert false;
    }
  }

  lemma AllRunsClosed(m: Image, t: int)
    requires m != [] && !IsDark(m[|m| - 1], t)
    ensures Closed(m, Runs(m, 0, t)) == Runs(m, 0, t)
  {
    hide IsDark;
    var runs := Runs(m, 0, t);
    if runs != [] {
      RunFacts(m, t, |runs| - 1);
    }
  }

  lemma AllTight(m: Image, t: int)
    requires Rectangular(m) && LastRowBlank(m, t)
    ensures (forall r <- Runs(m, 0, t) :: r.left < r.right <= |m|)
    ensures ScanAll(m, Runs(m, 0, t), t) == TightAll(m, Runs(m, 0, t), t)
  {
    hide IsDark;
    RunsAreRuns(m, 0, t);
    forall k | 0 <= k < |Runs(m, 0, t)|
      ensures Scanned(m, Runs(m, 0, t)[k], t) == Tight(m, Runs(m, 0, t)[k], t)
    {
      RunFacts(m, t, k);
      EdgesAgree(m, Runs(m, 0, t)[k], t);
    }
  }

  lemma SomeRunDiffers(m: Image, t: int, x: nat)
    requires Rectangular(m) && x < |m| && m[x] != [] && m[x][|m[x]| - 1] < t
    ensures (forall r <- Runs(m, 0, t) :: r.left < r.right <= |m|)
    ensures ScanAll(m, Runs(m, 0, t), t) != TightAll(m, Runs(m, 0, t), t)
  {
    var runs := Runs(m, 0, t);
    RunsAreRuns(m, 0, t);
    RunsAreComplete(m, 0, t, x);
    var k :| 0 <= k < |runs| && runs[k].left <= x < runs[k].right;
    RunFacts(m, t, k);
    ShorterLetterDiffers(m, runs[k], t, x);
    assert ScanAll(m, runs, t)[k] != TightAll(m, runs, t)[k];
  }

  /** The bounds of a run are tight, and every dark pixel lies inside exactly one of the boxes. */
  lemma DarkPixelsAreBoxed(m: Image, t: int, x: nat, y: nat)
    requires Rectangular(m) && x < |m| && y < |m[x]| && m[x][y] < t
    ensures exists k :: 0 <= k < |Runs(m, 0, t)| && Runs(m, 0, t)[k].left <= x < Runs(m, 0, t)[k].right
    ensures forall k :: 0 <= k < |Runs(m, 0, t)| && Runs(m, 0, t)[k].left <= x < Runs(m, 0, t)[k].right ==>
              Runs(m, 0, t)[k].right <= |m| && Top(m, Runs(m, 0, t)[k], t) <= y < End(m, Runs(m, 0, t)[k], t)
    ensures forall k, l ::
              (0 <= k < |Runs(m, 0, t)| && Runs(m, 0, t)[k].left <= x < Runs(m, 0, t)[k].right
               && 0 <= l < |Runs(m, 0, t)| && Runs(m, 0, t)[l].left <= x < Runs(m, 0, t)[l].right) ==> k == l
  {
    RunsAreComplete(m, 0, t, x);
    forall k | 0 <= k < |Runs(m, 0, t)| && Runs(m, 0, t)[k].left <= x < Runs(m, 0, t)[k].right
      ensures Runs(m, 0, t)[k].right <= |m| && Top(m, Runs(m, 0, t)[k], t) <= y < End(m, Runs(m, 0, t)[k], t)
    {
      RunFacts(m, t, k);
      PixelWithinEdges(m, Runs(m, 0, t)[k], t, x, y);
    }
    forall k, l | 0 <= k < l < |Runs(m, 0, t)|
      ensures Runs(m, 0, t)[k].right < Runs(m, 0, t)[l].left
    {
      RunsAscend(m, t, k, l);
    }
  }

  lemma {:induction false} RunsAscend(m: Image, t: int, k: nat, l: nat)
    requires k < l < |Runs(m, 0, t)|
    ensures Runs(m, 0, t)[k].right < Runs(m, 0, t)[l].left
    decreases l
  {
    RunFacts(m, t, l);
    if k < l - 1 {
      RunsAscend(m, t, k, l - 1);
      RunFacts(m, t, l - 1);
    }
  }

  lemma {:induction false} PixelWithinEdges(m: Image, r: Run, t: int, x: nat, y: nat)
    requires r.left <= x < r.right <= |m| && y < |m[x]| && m[x][y] < t
    ensures 0 <= Top(m, r, t) <= y < End(m, r, t)
    decreases r.right
  {
    ColumnTopIsRow(m[r.right - 1], t);
    if x < r.right - 1 {
      PixelWithinEdges(m, Run(r.left, r.right - 1), t, x, y);
    }
  }

  /** Some dark pixel lies in the top row of a run and some in its last. */
  lemma {:induction false} EdgesAreReached(m: Image, r: Run, t: int)
    requires r.left < r.right <= |m| && IsDark(m[r.left], t)
    ensures exists x :: r.left <= x < r.right && 0 <= Top(m, r, t) < |m[x]| && m[x][Top(m, r, t)] < t
    ensures exists x :: r.left <= x < r.right && 0 < End(m, r, t) <= |m[x]| && m[x][End(m, r, t) - 1] < t
    decreases r.right
  {
    var last := r.right - 1;
    ColumnTopIsRow(m[last], t);
    if r.left < last {
      var before := Run(r.left, last);
      EdgesAreReached(m, before, t);
      if Top(m, r, t) == Top(m, before, t) {
        var x :| r.left <= x < last && 0 <= Top(m, r, t) < |m[x]| && m[x][Top(m, r, t)] < t;
      } else {
        assert m[last][Top(m, r, t)] < t;
      }
      if End(m, r, t) == End(m, before, t) {
        var x :| r.left <= x < last && 0 < End(m, r, t) <= |m[x]| && m[x][End(m, r, t) - 1] < t;
      } else {
        assert m[last][End(m, r, t) - 1] < t;
      }
    } else {
      assert Top(m, Run(r.left, last), t) == -1 && End(m, Run(r.left, last), t) == 0;
    }
  }
}
