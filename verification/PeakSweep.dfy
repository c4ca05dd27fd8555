/** `find_matches` of `src/core/spectral.rs`: the sorted sweep that stands in for an all-pairs search. */
module PeakSweep {
  type Pair = (nat, nat)

  ghost predicate Sorted(s: seq<real>) {
    forall i, j :: 0 <= i < j < |s| ==> s[i] <= s[j]
  }

  /** Peak `i` of `a` and the shifted peak `j` of `b` are within the tolerance. */
  predicate Within(a: seq<real>, b: seq<real>, tolerance: real, shift: real, i: nat, j: nat)
    requires i < |a| && j < |b|
  {
    -tolerance <= a[i] - (b[j] + shift) <= tolerance
  }

  /** Brute force: the matches of peak `i` among the first `n` peaks of `b`. */
  function RowMatches(a: seq<real>, b: seq<real>, tolerance: real, shift: real, i: nat, n: nat): seq<Pair>
    requires i < |a| && n <= |b|
  {
    if n == 0 then []
    else RowMatches(a, b, tolerance, shift, i, n - 1) + if Within(a, b, tolerance, shift, i, n - 1) then [(i, n - 1)] else []
  }

  /** Brute force: every match of the first `m` peaks of `a`, row by row. */
  function AllMatches(a: seq<real>, b: seq<real>, tolerance: real, shift: real, m: nat): seq<Pair>
    requires m <= |a|
  {
    if m == 0 then []
    else AllMatches(a, b, tolerance, shift, m - 1) + RowMatches(a, b, tolerance, shift, m - 1, |b|)
  }

  ghost predicate Precedes(p: Pair, q: Pair) {
    p.0 < q.0 || (p.0 == q.0 && p.1 < q.1)
  }

  /** Each pair once, in lexicographic order. */
  ghost predicate Lexicographic(s: seq<Pair>) {
    forall x, y :: 0 <= x < y < |s| ==> Precedes(s[x], s[y])
  }

  lemma LexicographicSnoc(s: seq<Pair>, p: Pair)
    requires Lexicographic(s) && forall q :: q in s ==> Precedes(q, p)
    ensures Lexicographic(s + [p])
  {
    forall x, y | 0 <= x < y < |s + [p]| ensures Precedes((s + [p])[x], (s + [p])[y]) {
      assert (s + [p])[x] in s;
    }
  }

  lemma {:induction false} RowIsExact(a: seq<real>, b: seq<real>, tolerance: real, shift: real, i: nat, n: nat)
    requires i < |a| && n <= |b|
    ensures Lexicographic(RowMatches(a, b, tolerance, shift, i, n))
    ensures forall p: Pair :: p in RowMatches(a, b, tolerance, shift, i, n)
                              <==> p.0 == i && p.1 < n && Within(a, b, tolerance, shift, i, p.1)
  {
    if n > 0 {
      RowIsExact(a, b, tolerance, shift, i, n - 1);
      LexicographicSnoc(RowMatches(a, b, tolerance, shift, i, n - 1), (i, n - 1));
    }
  }

  lemma LexicographicConcat(s: seq<Pair>, t: seq<Pair>, m: nat)
    requires Lexicographic(s) && Lexicographic(t)
    requires (forall p :: p in s ==> p.0 < m) && forall p :: p in t ==> p.0 == m
    ensures Lexicographic(s + t)
  {
    forall x, y | 0 <= x < y < |s + t|
      ensures Precedes((s + t)[x], (s + t)[y])
    {
      if x < |s| <= y {
        assert s[x] in s && t[y - |s|] in t;
      }
    }
  }

  /** The all-pairs search finds exactly the pairs within tolerance, each once, in lexicographic order. */
  lemma {:induction false} AllMatchesExact(a: seq<real>, b: seq<real>, tolerance: real, shift: real, m: nat)
    requires m <= |a|
    ensures Lexicographic(AllMatches(a, b, tolerance, shift, m))
    ensures forall p: Pair :: p in AllMatches(a, b, tolerance, shift, m)
                              <==> p.0 < m && p.1 < |b| && Within(a, b, tolerance, shift, p.0, p.1)
  {
    if m > 0 {
      AllMatchesExact(a, b, tolerance, shift, m - 1);
      RowIsExact(a, b, tolerance, shift, m - 1, |b|);
      LexicographicConcat(AllMatches(a, b, tolerance, shift, m - 1), RowMatches(a, b, tolerance, shift, m - 1, |b|), m - 1);
    }
  }

  /** The all-pairs search finds a pair if and only if its m/z, the second one shifted, differ by at most the tolerance. */
  lemma AllMatchesAre(a: seq<real>, b: seq<real>, tolerance: real, shift: real, i: nat, j: nat)
    ensures (i, j) in AllMatches(a, b, tolerance, shift, |a|)
            <==> i < |a| && j < |b| && b[j] + shift - tolerance <= a[i] <= b[j] + shift + tolerance
  {
    AllMatchesExact(a, b, tolerance, shift, |a|);
  }

  lemma {:induction false} RowSkips(a: seq<real>, b: seq<real>, tolerance: real, shift: real, i: nat, from: nat, n: nat)
    requires i < |a| && from <= n <= |b|
    requires forall j :: from <= j < n ==> !Within(a, b, tolerance, shift, i, j)
    ensures RowMatches(a, b, tolerance, shift, i, n) == RowMatches(a, b, tolerance, shift, i, from)
    decreases n
  {
    if from < n {
      RowSkips(a, b, tolerance, shift, i, from, n - 1);
    }
  }

  /** The first `n` peaks of `b`, shifted, lie below the tolerance window of every peak of `a` from `i` on. */
  ghost predicate AllTooLow(a: seq<real>, b: seq<real>, tolerance: real, shift: real, i: nat, n: nat)
    requires n <= |b|
  {
    forall j, k :: 0 <= j < n && i <= k < |a| ==> b[j] + shift < a[k] - tolerance
  }

  lemma NothingTooLow(a: seq<real>, b: seq<real>, tolerance: real, shift: real, i: nat, n: nat)
    requires i < |a| && n <= |b| && AllTooLow(a, b, tolerance, shift, i, n)
    ensures RowMatches(a, b, tolerance, shift, i, n) == []
  {
    RowSkips(a, b, tolerance, shift, i, 0, n);
  }

  /** The first `n` shifted peaks of `b` lie below `low`. */
  ghost predicate PrefixBelow(b: seq<real>, shift: real, n: nat, low: real)
    requires n <= |b|
  {
    forall k :: 0 <= k < n ==> b[k] + shift < low
  }

  lemma PrefixGrows(b: seq<real>, shift: real, j: nat, low: real)
    requires Sorted(b) && j < |b| && b[j] + shift < low
    ensures PrefixBelow(b, shift, j + 1, low)
  {
    forall k | 0 <= k < j + 1 ensures b[k] <= b[j] {
    }
  }

  lemma TooLowForRow(a: seq<real>, b: seq<real>, tolerance: real, shift: real, i: nat, n: nat)
    requires i < |a| && n <= |b| && AllTooLow(a, b, tolerance, shift, i, n)
    ensures PrefixBelow(b, shift, n, a[i] - tolerance)
  {
  }

  lemma TooLowFromNow(a: seq<real>, b: seq<real>, tolerance: real, shift: real, i: nat, n: nat)
    requires Sorted(a) && i < |a| && n <= |b| && PrefixBelow(b, shift, n, a[i] - tolerance)
    ensures AllTooLow(a, b, tolerance, shift, i + 1, n)
  {
    forall j, k | 0 <= j < n && i + 1 <= k < |a| ensures b[j] + shift < a[k] - tolerance {
      assert a[i] <= a[k];
    }
  }

  lemma NothingTooHigh(a: seq<real>, b: seq<real>, tolerance: real, shift: real, i: nat, j: nat)
    requires Sorted(b) && i < |a| && j < |b| && b[j] + shift > a[i] + tolerance
    ensures RowMatches(a, b, tolerance, shift, i, |b|) == RowMatches(a, b, tolerance, shift, i, j)
  {
    RowSkips(a, b, tolerance, shift, i, j, |b|);
  }

  /** The sweep appends to `prior` exactly what the all-pairs search finds, for any two ascending lists. */
  method FindMatches(a: seq<real>, b: seq<real>, tolerance: real, shift: real, prior: seq<Pair>) returns (out: seq<Pair>)
    requires Sorted(a) && Sorted(b)
    ensures out == prior + AllMatches(a, b, tolerance, shift, |a|)
  {
    out := prior;
    var lowest: nat := 0;
    for i := 0 to |a|
      invariant lowest <= |b| && AllTooLow(a, b, tolerance, shift, i, lowest)
      invariant out == prior + AllMatches(a, b, tolerance, shift, i)
    {
      lowest, out := MatchRow(a, b, tolerance, shift, i, lowest, out);
      assert out == prior + (AllMatches(a, b, tolerance, shift, i) + RowMatches(a, b, tolerance, shift, i, |b|));
    }
  }

  /** The inner loop: from `lowest` on, until a peak lies above the window. */
  method MatchRow(a: seq<real>, b: seq<real>, tolerance: real, shift: real, i: nat, from: nat, prior: seq<Pair>)
    returns (lowest: nat, out: seq<Pair>)
    requires Sorted(a) && Sorted(b) && i < |a|
    requires from <= |b| && AllTooLow(a, b, tolerance, shift, i, from)
    ensures lowest <= |b| && AllTooLow(a, b, tolerance, shift, i + 1, lowest)
    ensures out == prior + RowMatches(a, b, tolerance, shift, i, |b|)
  {
    lowest, out := from, prior;
    var low, high := a[i] - tolerance, a[i] + tolerance;
    NothingTooLow(a, b, tolerance, shift, i, from);
    TooLowForRow(a, b, tolerance, shift, i, from);
    var j := from;
    while j < |b|
      invariant from <= j <= |b| && lowest <= j
      invariant PrefixBelow(b, shift, lowest, low)
      invariant out == prior + RowMatches(a, b, tolerance, shift, i, j)
    {
      var mz := b[j] + shift;
      if mz > high {
        NothingTooHigh(a, b, tolerance, shift, i, j);
        break;
      }
      if mz < low {
        PrefixGrows(b, shift, j, low);
        lowest := j + 1;
      } else {
        out := out + [(i, j)];
      }
      j := j + 1;
    }
    TooLowFromNow(a, b, tolerance, shift, i, lowest);
  }
}
