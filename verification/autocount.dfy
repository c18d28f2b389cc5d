/** The auto-count pass: every numbered white cell is annotated with the
    length of the non-black run to its right and the run below it. */
module AutoCount {

  import opened Cells
  import opened Grids

  /** Number of consecutive non-black cells of `s` starting at index `i`. */
  function Run(s: seq<Cell>, i: nat): (n: nat)
    requires i <= |s|
    ensures i + n <= |s|
    decreases |s| - i
  {
    if i == |s| || s[i].kind == Black then 0 else 1 + Run(s, i + 1)
  }

  /** `n` is the length of the maximal non-black stretch of `s` from `i`:
      the cells in [i, i+n) are not black and the stretch ends at the edge
      or at a black cell. */
  predicate IsRunOf(s: seq<Cell>, i: nat, n: nat) {
    && i + n <= |s|
    && (forall k :: i <= k < i + n ==> s[k].kind != Black)
    && (i + n == |s| || s[i + n].kind == Black)
  }

  /** `Run` computes exactly the maximal stretch, and no other length is one. */
  lemma {:induction false} RunIsMaximal(s: seq<Cell>, i: nat, n: nat)
    requires i <= |s|
    ensures IsRunOf(s, i, n) <==> n == Run(s, i)
    decreases |s| - i
  {
    if i < |s| && s[i].kind != Black {
      if n > 0 {
        RunIsMaximal(s, i + 1, n - 1);
        if IsRunOf(s, i, n) {
          assert IsRunOf(s, i + 1, n - 1);
        }
        if n - 1 == Run(s, i + 1) {
          assert IsRunOf(s, i + 1, n - 1);
          assert forall k :: i <= k < i + n ==> s[k].kind != Black by {
            forall k | i <= k < i + n ensures s[k].kind != Black {
              if k > i {
                assert i + 1 <= k < i + 1 + (n - 1);
              }
            }
          }
        }
      } else {
        assert !IsRunOf(s, i, 0);
      }
    }
  }

  /** The counting loop of the source: walk from `i` while the cell is not black. */
  method CountRun(s: seq<Cell>, i: nat) returns (n: nat)
    requires i <= |s|
    ensures IsRunOf(s, i, n)
  {
    n := 0;
    var k := i;
    while k < |s| && s[k].kind != Black
      invariant i <= k <= |s|
      invariant n == k - i
      invariant forall j :: i <= j < k ==> s[j].kind != Black
    {
      n := n + 1;
      k := k + 1;
    }
  }

  /** Column `c` of a rectangular grid, top to bottom. */
  function Column(g: Grid, c: nat): (col: seq<Cell>)
    requires IsRect(g) && c < Width(g)
    ensures |col| == |g|
    ensures forall r :: 0 <= r < |g| ==> col[r] == g[r][c]
  {
    seq(|g|, r requires 0 <= r < |g| => g[r][c])
  }

  /** A run length as stored: only lengths above 1 are kept. */
  function Clip(n: nat): (o: Option<nat>)
    ensures o.Some? <==> n > 1
    ensures o.Some? ==> o.value == n
  {
    if n > 1 then Some(n) else None
  }

  /** The annotation the pass gives the cell at (r, c). */
  function CountsAt(g: Grid, r: nat, c: nat): Option<Counts>
    requires IsRect(g) && r < |g| && c < Width(g)
  {
    if g[r][c].kind == Black || !Numbered(g[r][c]) then None
    else Some(Counts(Clip(Run(g[r], c)), Clip(Run(Column(g, c), r))))
  }

  /** The whole pass: every `autoCount` is recomputed from scratch, nothing
      else in the grid changes. */
  function Annotate(g: Grid): (g': Grid)
    requires IsRect(g)
    ensures HasShape(g', |g|, Width(g))
    ensures forall r, c :: 0 <= r < |g| && 0 <= c < Width(g) ==> SameContent(g'[r][c], g[r][c])
    ensures forall r, c :: 0 <= r < |g| && 0 <= c < Width(g) ==>
      (g'[r][c].autoCount.Some? <==> g[r][c].kind == White && Numbered(g[r][c]))
  {
    seq(|g|, r requires 0 <= r < |g| =>
      seq(Width(g), c requires 0 <= c < Width(g) => g[r][c].(autoCount := CountsAt(g, r, c))))
  }

  /** For a numbered white cell, a present across count is the maximal run to
      the right and an absent one means that run is 1; likewise downwards. */
  lemma AnnotateRuns(g: Grid, r: nat, c: nat, h: nat, v: nat)
    requires IsRect(g) && r < |g| && c < Width(g)
    requires g[r][c].kind == White && Numbered(g[r][c])
    requires IsRunOf(g[r], c, h) && IsRunOf(Column(g, c), r, v)
    ensures Annotate(g)[r][c].autoCount == Some(Counts(Clip(h), Clip(v)))
    ensures h >= 1 && v >= 1
  {
    RunIsMaximal(g[r], c, h);
    RunIsMaximal(Column(g, c), r, v);
  }

  /** Present counts lie between 2 and the distance to the grid edge. */
  lemma AnnotateBounds(g: Grid, r: nat, c: nat)
    requires IsRect(g) && r < |g| && c < Width(g)
    ensures var a := Annotate(g)[r][c].autoCount;
      a.Some? ==>
        && (a.value.h.Some? ==> 2 <= a.value.h.value <= Width(g) - c)
        && (a.value.v.Some? ==> 2 <= a.value.v.value <= |g| - r)
  {
  }

  /** The annotation reads only the kind and the number of each cell. */
  lemma AnnotateReadsKindAndNumber(g1: Grid, g2: Grid)
    requires IsRect(g1) && HasShape(g2, |g1|, Width(g1))
    requires forall r, c :: 0 <= r < |g1| && 0 <= c < Width(g1) ==>
      g1[r][c].kind == g2[r][c].kind && g1[r][c].number == g2[r][c].number
    ensures forall r, c :: 0 <= r < |g1| && 0 <= c < Width(g1) ==>
      Annotate(g1)[r][c].autoCount == Annotate(g2)[r][c].autoCount
  {
    forall r, c | 0 <= r < |g1| && 0 <= c < Width(g1)
      ensures Annotate(g1)[r][c].autoCount == Annotate(g2)[r][c].autoCount
    {
      RunSameKinds(g1[r], g2[r], c);
      assert forall k :: 0 <= k < |g1| ==> Column(g1, c)[k].kind == Column(g2, c)[k].kind;
      RunSameKinds(Column(g1, c), Column(g2, c), r);
    }
  }

  /** Two rows with the same kinds have the same runs. */
  lemma {:induction false} RunSameKinds(s1: seq<Cell>, s2: seq<Cell>, i: nat)
    requires |s1| == |s2| && i <= |s1|
    requires forall k :: 0 <= k < |s1| ==> s1[k].kind == s2[k].kind
    ensures Run(s1, i) == Run(s2, i)
    decreases |s1| - i
  {
    if i < |s1| && s1[i].kind != Black {
      RunSameKinds(s1, s2, i + 1);
    }
  }

  /** Running the pass twice gives the same grid as running it once. */
  lemma AnnotateIdempotent(g: Grid)
    requires IsRect(g)
    ensures Annotate(Annotate(g)) == Annotate(g)
  {
    var a := Annotate(g);
    AnnotateReadsKindAndNumber(g, a);
    var aa := Annotate(a);
    forall r | 0 <= r < |g|
      ensures aa[r] == a[r]
    {
      forall c | 0 <= c < Width(g)
        ensures aa[r][c] == a[r][c]
      {
      }
    }
  }
}
