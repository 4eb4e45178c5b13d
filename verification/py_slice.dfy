/** Python's slice `s[-k:]`, the one slicing form the history manager uses,
    both for the window it writes to disk and for the recent entries it returns. */
module PySlice {

  function Min(a: int, b: int): int { if a <= b then a else b }

  /** Python's normalisation of a slice start `i` against a list of length `n`:
      a negative start counts back from the end, and the result is clamped into [0, n]. */
  function NormalizeStart(i: int, n: nat): (r: nat)
    ensures r <= n
  {
    if i < 0 then (if i + n < 0 then 0 else i + n)
    else (if i <= n then i else n)
  }

  /** `s[-k:]` as Python evaluates it. Since `-0 == 0`, a zero `k` selects the
      whole list, and a negative `k` selects `s[|k|:]`. */
  function FromNeg<T>(s: seq<T>, k: int): (r: seq<T>)
    ensures |r| <= |s| && r == s[|s| - |r|..]
    ensures k > 0 ==> |r| == Min(k, |s|)
    ensures k == 0 ==> r == s
    ensures k < 0 ==> r == if -k <= |s| then s[-k..] else []
  {
    s[NormalizeStart(-k, |s|)..]
  }

  /** With a positive bound the window slides: appending one element drops the
      oldest one exactly when the window was already full. */
  lemma FromNegAppend<T>(s: seq<T>, x: T, k: int)
    requires k > 0
    ensures FromNeg(s + [x], k) ==
            (if |s| >= k then FromNeg(s, k)[1..] else FromNeg(s, k)) + [x]
  {
    var w, w' := FromNeg(s, k), FromNeg(s + [x], k);
    if |s| >= k {
      assert w == s[|s| - k..];
      assert w' == (s + [x])[|s| + 1 - k..];
      assert w' == s[|s| + 1 - k..] + [x];
    } else {
      assert w == s;
      assert w' == s + [x];
    }
  }

  /** Taking the window of a window changes nothing when the bound is not negative:
      a list this program wrote, loaded back, is written back unchanged. */
  lemma FromNegIdempotent<T>(s: seq<T>, k: int)
    requires k >= 0
    ensures FromNeg(FromNeg(s, k), k) == FromNeg(s, k)
  {
  }
}
