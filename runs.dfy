/** Runs of one piece along a single line (a row or a column) of the board:
    the pure specification that the scoring loops of `gameState` are
    proved against. A line is scanned from index 0 up; `n` counts the
    cells scanned so far. */
module Runs {
  import opened Pieces

  /** `s[i..i+len]` holds nothing but `p`: a run of `p` of length `len`
      starting at `i`. */
  ghost predicate IsRun(s: seq<Piece>, p: Piece, i: int, len: nat) {
    0 <= i && i + len <= |s| && forall k :: i <= k < i + len ==> s[k] == p
  }

  /** Some run of `p` in `s` has length `len`. */
  ghost predicate HasRun(s: seq<Piece>, p: Piece, len: nat) {
    exists i :: IsRun(s, p, i, len)
  }

  /** The length of the run of `p` that ends just before index `n`: the
      value a running counter for `p` holds after scanning `s[..n]`. */
  function TrailingRun(s: seq<Piece>, n: nat, p: Piece): (t: nat)
    requires n <= |s|
    ensures t <= n
  {
    if n == 0 || s[n - 1] != p then 0 else TrailingRun(s, n - 1, p) + 1
  }

  /** The length of the longest run of `p` within `s[..n]`. */
  function LongestRun(s: seq<Piece>, n: nat, p: Piece): (l: nat)
    requires n <= |s|
    ensures l <= n
  {
    if n == 0 then 0 else Max(LongestRun(s, n - 1, p), TrailingRun(s, n, p))
  }

  /** The trailing run is a run, and it is maximal: the cell before it, if
      any, is not `p`. */
  lemma {:induction false} TrailingRunIsMaximalRun(s: seq<Piece>, n: nat, p: Piece)
    requires n <= |s|
    ensures IsRun(s, p, n - TrailingRun(s, n, p), TrailingRun(s, n, p))
    ensures TrailingRun(s, n, p) < n ==> s[n - 1 - TrailingRun(s, n, p)] != p
  {
    if n > 0 && s[n - 1] == p {
      TrailingRunIsMaximalRun(s, n - 1, p);
    }
  }

  /** No run of `p` inside `s[..n]` is longer than `LongestRun(s, n, p)`. */
  lemma {:induction false} LongestRunIsUpperBound(s: seq<Piece>, n: nat, p: Piece, i: int, len: nat)
    requires n <= |s| && IsRun(s, p, i, len) && i + len <= n
    ensures len <= LongestRun(s, n, p)
  {
    if i + len == n {
      // the cell just before the trailing run is not `p`, so it lies before the run
      TrailingRunIsMaximalRun(s, n, p);
      var t := TrailingRun(s, n, p);
      if t < n {
        assert s[n - 1 - t] != p;
      }
    } else {
      LongestRunIsUpperBound(s, n - 1, p, i, len);
    }
  }

  /** Some run of `p` inside `s[..n]` is exactly `LongestRun(s, n, p)` long. */
  lemma {:induction false} LongestRunIsAttained(s: seq<Piece>, n: nat, p: Piece)
    requires n <= |s|
    ensures exists i :: i + LongestRun(s, n, p) <= n && IsRun(s, p, i, LongestRun(s, n, p))
  {
    if n == 0 {
      assert LongestRun(s, n, p) == 0 && IsRun(s, p, 0, 0);
    } else {
      var t := TrailingRun(s, n, p);
      if LongestRun(s, n - 1, p) < t {
        TrailingRunIsMaximalRun(s, n, p);
        assert LongestRun(s, n, p) == t;
        assert (n - t) + t <= n && IsRun(s, p, n - t, t);
      } else {
        LongestRunIsAttained(s, n - 1, p);
        var l := LongestRun(s, n - 1, p);
        var i :| i + l <= n - 1 && IsRun(s, p, i, l);
        assert LongestRun(s, n, p) == l && i + l <= n;
      }
    }
  }

  /** `LongestRun(s, |s|, p)` is the length of the longest run of `p` in
      `s`: one run has that length and none is longer. */
  lemma LongestRunIsLongest(s: seq<Piece>, p: Piece)
    ensures HasRun(s, p, LongestRun(s, |s|, p))
    ensures forall len: nat :: HasRun(s, p, len) ==> len <= LongestRun(s, |s|, p)
  {
    LongestRunIsAttained(s, |s|, p);
    forall len: nat | HasRun(s, p, len) ensures len <= LongestRun(s, |s|, p) {
      var i :| IsRun(s, p, i, len);
      LongestRunIsUpperBound(s, |s|, p, i, len);
    }
  }
}
