/** Trailing rolling minimum and maximum over a fixed-size window, as pandas'
    `rolling(window=w).min()` and `.max()` compute them on a column without
    missing values: the first `w - 1` rows have too little history and are
    undefined; every later row gets the extreme of the `w` values ending at
    that row. */
module Rolling {
  import opened Wrappers

  function Min(a: int, b: int): int { if a <= b then a else b }
  function Max(a: int, b: int): int { if a <= b then b else a }

  /** The smallest element of a non-empty sequence. */
  function SeqMin(s: seq<int>): int
    requires |s| > 0
  {
    if |s| == 1 then s[0] else Min(SeqMin(s[..|s| - 1]), s[|s| - 1])
  }

  /** The largest element of a non-empty sequence. */
  function SeqMax(s: seq<int>): int
    requires |s| > 0
  {
    if |s| == 1 then s[0] else Max(SeqMax(s[..|s| - 1]), s[|s| - 1])
  }

  /** `SeqMin` is one of the elements and no greater than any of them;
      `SeqMax` is one of the elements and no smaller than any of them. */
  lemma {:induction false} SeqExtremaSpec(s: seq<int>)
    requires |s| > 0
    ensures exists k :: 0 <= k < |s| && s[k] == SeqMin(s)
    ensures exists k :: 0 <= k < |s| && s[k] == SeqMax(s)
    ensures forall k :: 0 <= k < |s| ==> SeqMin(s) <= s[k] <= SeqMax(s)
  {
    if |s| > 1 {
      var p := s[..|s| - 1];
      SeqExtremaSpec(p);
      assert forall k :: 0 <= k < |p| ==> p[k] == s[k];
      var kl :| 0 <= kl < |p| && p[kl] == SeqMin(p);
      var kh :| 0 <= kh < |p| && p[kh] == SeqMax(p);
      var n := |s| - 1;
      assert SeqMin(s) == Min(SeqMin(p), s[n]) && SeqMax(s) == Max(SeqMax(p), s[n]);
      var il := if SeqMin(p) <= s[n] then kl else n;
      var ih := if SeqMax(p) >= s[n] then kh else n;
      assert s[il] == SeqMin(s);
      assert s[ih] == SeqMax(s);
    } else {
      assert s[0] == SeqMin(s) && s[0] == SeqMax(s);
    }
  }

  /** The `w` values ending at row `i`. */
  function Trailing(xs: seq<int>, w: nat, i: nat): seq<int>
    requires 0 < w <= i + 1 <= |xs|
  {
    xs[i + 1 - w..i + 1]
  }

  /** The rolling minimum at row `i`. */
  function RollingMin(xs: seq<int>, w: nat, i: nat): Option<int>
    requires 0 < w && i < |xs|
  {
    if i + 1 < w then None else Some(SeqMin(Trailing(xs, w, i)))
  }

  /** The rolling maximum at row `i`. */
  function RollingMax(xs: seq<int>, w: nat, i: nat): Option<int>
    requires 0 < w && i < |xs|
  {
    if i + 1 < w then None else Some(SeqMax(Trailing(xs, w, i)))
  }

  /** The rolling bounds are undefined exactly on the first `w - 1` rows.
      From row `w - 1` on, the lowest value is one of the `w` values ending at
      the row and no greater than any of them, the highest likewise, and the
      row's own value lies between the two. */
  lemma RollingBounds(xs: seq<int>, w: nat, i: nat)
    requires 0 < w && i < |xs|
    ensures RollingMin(xs, w, i).None? <==> i < w - 1
    ensures RollingMax(xs, w, i).None? <==> i < w - 1
    ensures w - 1 <= i ==>
      var lo, hi := RollingMin(xs, w, i).value, RollingMax(xs, w, i).value;
      && (exists k :: i + 1 - w <= k <= i && xs[k] == lo)
      && (exists k :: i + 1 - w <= k <= i && xs[k] == hi)
      && (forall k :: i + 1 - w <= k <= i ==> lo <= xs[k] <= hi)
      && lo <= xs[i] <= hi
  {
    if w - 1 <= i {
      var win := Trailing(xs, w, i);
      SeqExtremaSpec(win);
      var lo, hi := SeqMin(win), SeqMax(win);
      var a := i + 1 - w;
      forall k | a <= k <= i
        ensures lo <= xs[k] <= hi
      {
        assert win[k - a] == xs[k];
      }
      var kl :| 0 <= kl < |win| && win[kl] == lo;
      assert xs[a + kl] == lo;
      var kh :| 0 <= kh < |win| && win[kh] == hi;
      assert xs[a + kh] == hi;
    }
  }

  /** Extending a slice by one element extends its extremes by that element. */
  lemma ExtendSlice(xs: seq<int>, a: nat, j: nat)
    requires a < j < |xs|
    ensures SeqMin(xs[a..j + 1]) == Min(SeqMin(xs[a..j]), xs[j])
    ensures SeqMax(xs[a..j + 1]) == Max(SeqMax(xs[a..j]), xs[j])
  {
    var s := xs[a..j + 1];
    assert s[..|s| - 1] == xs[a..j];
    assert s[|s| - 1] == xs[j];
  }

  /** The minimum and maximum of the `w` values ending at row `i`, in one
      scan of the window. */
  method WindowExtrema(xs: seq<int>, w: nat, i: nat) returns (m: int, mx: int)
    requires 0 < w <= i + 1 <= |xs|
    ensures m == SeqMin(Trailing(xs, w, i)) && mx == SeqMax(Trailing(xs, w, i))
  {
    var start := i + 1 - w;
    m, mx := xs[start], xs[start];
    for j := start + 1 to i + 1
      invariant m == SeqMin(xs[start..j])
      invariant mx == SeqMax(xs[start..j])
    {
      ExtendSlice(xs, start, j);
      m, mx := Min(m, xs[j]), Max(mx, xs[j]);
    }
  }

  /** Both rolling columns of `xs` for window size `w`. */
  method RollingExtrema(xs: seq<int>, w: nat) returns (lows: seq<Option<int>>, highs: seq<Option<int>>)
    requires 0 < w
    ensures |lows| == |xs| && |highs| == |xs|
    ensures forall i :: 0 <= i < |xs| ==> lows[i] == RollingMin(xs, w, i)
    ensures forall i :: 0 <= i < |xs| ==> highs[i] == RollingMax(xs, w, i)
  {
    var lo := new Option<int>[|xs|];
    var hi := new Option<int>[|xs|];
    for i := 0 to |xs|
      invariant forall k :: 0 <= k < i ==> lo[k] == RollingMin(xs, w, k)
      invariant forall k :: 0 <= k < i ==> hi[k] == RollingMax(xs, w, k)
    {
      if i + 1 < w {
        lo[i], hi[i] := None, None;
      } else {
        var m, mx := WindowExtrema(xs, w, i);
        lo[i], hi[i] := Some(m), Some(mx);
      }
    }
    lows, highs := lo[..], hi[..];
  }
}
