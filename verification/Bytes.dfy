/** Byte strings and the one update the storage stack is made of: overwriting a stretch in place. */
module Bytes {

  type Byte = b: int | 0 <= b < 256

  /** `s` with the stretch that starts at `at` overwritten by `d`. */
  function Splice<T>(s: seq<T>, at: nat, d: seq<T>): (r: seq<T>)
    requires at + |d| <= |s|
    ensures |r| == |s|
  {
    s[..at] + d + s[at + |d|..]
  }

  /** The overwrite, byte by byte. */
  lemma SpliceAt<T>(s: seq<T>, at: nat, d: seq<T>)
    requires at + |d| <= |s|
    ensures forall i | 0 <= i < |s| :: Splice(s, at, d)[i] == if at <= i < at + |d| then d[i - at] else s[i]
  {
  }

  /** Two adjacent overwrites are one overwrite by the concatenation. */
  lemma SpliceAdjacent<T>(s: seq<T>, at: nat, d: seq<T>, e: seq<T>)
    requires at + |d| + |e| <= |s|
    ensures Splice(Splice(s, at, d), at + |d|, e) == Splice(s, at, d + e)
  {
  }

  lemma SpliceNothing<T>(s: seq<T>, at: nat)
    requires at <= |s|
    ensures Splice(s, at, []) == s
  {
  }

  lemma SpliceWhole<T>(s: seq<T>, d: seq<T>)
    requires |s| == |d|
    ensures Splice(s, 0, d) == d
  {
  }

  lemma SubSlice<T>(s: seq<T>, lo: nat, hi: nat, o: nat, n: nat)
    requires lo <= hi <= |s| && o + n <= hi - lo
    ensures s[lo..hi][o..o + n] == s[lo + o..lo + o + n]
  {
    var t := s[lo..hi];
    var a, b := t[o..o + n], s[lo + o..lo + o + n];
    forall i | 0 <= i < n
      ensures a[i] == b[i]
    {
      assert a[i] == t[o + i];
    }
  }

  /** A copy that grows from the left: `k` units of `v` from `o` on, then `n` more. */
  lemma SpliceMore<T>(s: seq<T>, at: nat, v: seq<T>, o: nat, k: nat, n: nat)
    requires at + k + n <= |s| && o + k + n <= |v|
    ensures Splice(Splice(s, at, v[o..o + k]), at + k, v[o + k..o + k + n]) == Splice(s, at, v[o..o + k + n])
  {
    SpliceAdjacent(s, at, v[o..o + k], v[o + k..o + k + n]);
    assert v[o..o + k] + v[o + k..o + k + n] == v[o..o + k + n];
  }

  /** Reading a stretch that lies wholly inside, or wholly outside, an overwrite. */
  lemma SpliceSlice<T>(s: seq<T>, at: nat, d: seq<T>, lo: nat, hi: nat)
    requires at + |d| <= |s| && lo <= hi <= |s|
    ensures hi <= at || at + |d| <= lo ==> Splice(s, at, d)[lo..hi] == s[lo..hi]
    ensures at <= lo && hi <= at + |d| ==> Splice(s, at, d)[lo..hi] == d[lo - at..hi - at]
    ensures lo <= at && at + |d| <= hi ==> Splice(s, at, d)[lo..hi] == Splice(s[lo..hi], at - lo, d)
  {
    SpliceAt(s, at, d);
  }

  /** The next multiple, and the order of multiples. */
  lemma MulStep(a: nat, c: nat)
    ensures (a + 1) * c == a * c + c
  {
  }

  lemma MulLe(a: nat, b: nat, c: nat)
    requires a <= b
    ensures a * c <= b * c
  {
    assert b * c == a * c + (b - a) * c;
  }

  lemma DivMod(n: nat, b: nat)
    requires 0 < b
    ensures n == n / b * b + n % b && 0 <= n % b < b && 0 <= n / b
  {
  }

  lemma MulLt(a: nat, b: nat, c: nat)
    requires a * c < b * c
    ensures a < b
  {
    if b <= a {
      MulLe(b, a, c);
    }
  }

  lemma DivModOf(k: nat, e: nat, i: nat)
    requires i < e
    ensures (k * e + i) / e == k && (k * e + i) % e == i
  {
    var n := k * e + i;
    DivMod(n, e);
    if n / e < k {
      MulLe(n / e + 1, k, e);
      MulStep(n / e, e);
    } else if n / e > k {
      MulLe(k + 1, n / e, e);
      MulStep(k, e);
    }
  }

  /** Copies `data` into `a` from index `at` on (Rust's `copy_from_slice` into a sub-slice). */
  method Blit<T>(a: array<T>, at: nat, data: seq<T>)
    requires at + |data| <= a.Length
    modifies a
    ensures a[..] == Splice(old(a[..]), at, data)
  {
    forall i | 0 <= i < |data| {
      a[at + i] := data[i];
    }
  }
}
