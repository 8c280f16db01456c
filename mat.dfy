/**
 * The two buffer operations of the sequential matrix code that the 1-D
 * multiply uses: zeroing an m x n matrix and copying an m x n block between
 * two column-major matrices. Column j of a matrix with leading dimension ld
 * occupies the strip [j*ld, j*ld + m) of its buffer; the convention that
 * every leading dimension is at least m keeps the strips apart.
 */
module Mat {
  import opened Util

  /** Where column j starts in a column-major buffer with leading dimension ld. */
  function ColumnStart(j: int, ld: int): int
  {
    j * ld
  }

  /** Where entry (i, j) sits in a column-major buffer with leading dimension ld. */
  function Index(i: int, j: int, ld: int): int
  {
    i + ColumnStart(j, ld)
  }

  /** Position p of a column-major buffer with leading dimension ld lies in one of the first n strips of m entries. */
  ghost predicate InStrips(p: int, m: int, n: int, ld: int)
  {
    exists j :: 0 <= j < n && ColumnStart(j, ld) <= p < ColumnStart(j, ld) + m
  }

  /** An entry of an earlier column lies below the start of a later column. */
  lemma ColumnBefore(i: int, j1: int, j2: int, m: int, ld: int)
    requires 0 <= i < m <= ld && 0 <= j1 < j2
    ensures Index(i, j1, ld) < ColumnStart(j2, ld)
  {
    MulLe(j1 + 1, j2, ld);
  }

  /** Under ld >= m, the strips of two different columns do not overlap. */
  lemma StripsDisjoint(m: int, ld: int, j1: int, j2: int, p: int)
    requires 0 <= m <= ld && 0 <= j1 && 0 <= j2
    requires ColumnStart(j1, ld) <= p < ColumnStart(j1, ld) + m
    requires ColumnStart(j2, ld) <= p < ColumnStart(j2, ld) + m
    ensures j1 == j2
  {
    if j1 < j2 {
      ColumnBefore(p - ColumnStart(j1, ld), j1, j2, m, ld);
    } else if j2 < j1 {
      ColumnBefore(p - ColumnStart(j2, ld), j2, j1, m, ld);
    }
  }

  /** Every strip of the first n columns ends inside a buffer that holds the last one. */
  lemma StripInside(m: int, n: int, ld: int, j: int, len: int)
    requires 0 <= m <= ld && 0 <= j < n && (n - 1) * ld + m <= len
    ensures 0 <= ColumnStart(j, ld) && ColumnStart(j, ld) + m <= len
  {
    MulLe(0, j, ld);
    MulLe(j, n - 1, ld);
  }

  /**
   * Copies m entries of `src` from position slo to `dest` from position
   * dlo, as `memcpy` does; the rest of `dest` is untouched.
   */
  method CopyStrip(dest: array<real>, dlo: int, src: array<real>, slo: int, m: int)
    requires dest != src && 0 <= m && 0 <= dlo && dlo + m <= dest.Length && 0 <= slo && slo + m <= src.Length
    modifies dest
    ensures dest[dlo..dlo + m] == src[slo..slo + m]
    ensures forall p :: 0 <= p < dest.Length && !(dlo <= p < dlo + m) ==> dest[p] == old(dest[p])
  {
    for i := 0 to m
      invariant dest[dlo..dlo + i] == src[slo..slo + i]
      invariant forall p :: 0 <= p < dest.Length && !(dlo <= p < dlo + i) ==> dest[p] == old(dest[p])
    {
      dest[dlo + i] := src[slo + i];
    }
  }

  /**
   * Entry (i, j) of the first n columns of d (leading dimension ldD) equals
   * entry (i, j) of s (leading dimension ldS), for every row i < m.
   */
  ghost predicate BlockCopied(d: seq<real>, s: seq<real>, m: int, n: int, ldD: int, ldS: int)
  {
    forall i, j :: 0 <= i < m && 0 <= j < n ==>
      0 <= Index(i, j, ldD) < |d| && 0 <= Index(i, j, ldS) < |s| && d[Index(i, j, ldD)] == s[Index(i, j, ldS)]
  }

  /** d agrees with d0 outside the strips of the first n columns. */
  ghost predicate KeptOutside(d: seq<real>, d0: seq<real>, m: int, n: int, ld: int)
  {
    |d| == |d0| && forall p :: 0 <= p < |d| && !InStrips(p, m, n, ld) ==> d[p] == d0[p]
  }

  /** Copying strip j keeps the earlier columns copied and adds column j. */
  lemma CopiedStep(before: seq<real>, after: seq<real>, s: seq<real>, m: int, j: int, ldD: int, ldS: int)
    requires 0 <= m <= ldD && m <= ldS && 0 <= j && |after| == |before|
    requires BlockCopied(before, s, m, j, ldD, ldS)
    requires 0 <= ColumnStart(j, ldD) && ColumnStart(j, ldD) + m <= |after|
    requires 0 <= ColumnStart(j, ldS) && ColumnStart(j, ldS) + m <= |s|
    requires after[ColumnStart(j, ldD)..ColumnStart(j, ldD) + m] == s[ColumnStart(j, ldS)..ColumnStart(j, ldS) + m]
    requires forall p :: 0 <= p < |after| && !(ColumnStart(j, ldD) <= p < ColumnStart(j, ldD) + m) ==> after[p] == before[p]
    ensures BlockCopied(after, s, m, j + 1, ldD, ldS)
  {
    forall i, j' | 0 <= i < m && 0 <= j' < j + 1
      ensures 0 <= Index(i, j', ldD) < |after| && 0 <= Index(i, j', ldS) < |s|
      ensures after[Index(i, j', ldD)] == s[Index(i, j', ldS)]
    {
      if j' < j {
        ColumnBefore(i, j', j, m, ldD);
      } else {
        assert after[ColumnStart(j, ldD)..ColumnStart(j, ldD) + m][i] == s[ColumnStart(j, ldS)..ColumnStart(j, ldS) + m][i];
      }
    }
  }

  /** Copying strip j changes nothing outside the strips of columns 0..j. */
  lemma KeptStep(d0: seq<real>, before: seq<real>, after: seq<real>, m: int, j: int, ld: int)
    requires 0 <= j && KeptOutside(before, d0, m, j, ld) && |after| == |before|
    requires forall p :: 0 <= p < |after| && !(ColumnStart(j, ld) <= p < ColumnStart(j, ld) + m) ==> after[p] == before[p]
    ensures KeptOutside(after, d0, m, j + 1, ld)
  {
    forall p | 0 <= p < |after| && !InStrips(p, m, j + 1, ld)
      ensures after[p] == d0[p]
    {
      assert !InStrips(p, m, j, ld);
      assert !(ColumnStart(j, ld) <= p < ColumnStart(j, ld) + m);
    }
  }

  /**
   * `mat_copyBlock`: copies the m x n block of `src` (leading dimension
   * ldSrc) into `dest` (leading dimension ldDest), column by column. Entry
   * (i, j) of the block lands at i + j*ldDest; the padding rows m..ldDest of
   * each column and every column from n on keep their values, and `src` is
   * only read.
   */
  method CopyBlock(m: int, n: int, src: array<real>, ldSrc: int, dest: array<real>, ldDest: int)
    requires dest != src && 0 <= m <= ldSrc && m <= ldDest && 0 <= n
    requires n == 0 || ((n - 1) * ldSrc + m <= src.Length && (n - 1) * ldDest + m <= dest.Length)
    modifies dest
    ensures BlockCopied(dest[..], src[..], m, n, ldDest, ldSrc)
    ensures KeptOutside(dest[..], old(dest[..]), m, n, ldDest)
  {
    for j := 0 to n
      invariant BlockCopied(dest[..], src[..], m, j, ldDest, ldSrc)
      invariant KeptOutside(dest[..], old(dest[..]), m, j, ldDest)
    {
      StripInside(m, n, ldSrc, j, src.Length);
      StripInside(m, n, ldDest, j, dest.Length);
      ghost var before := dest[..];
      var d, s := ColumnStart(j, ldDest), ColumnStart(j, ldSrc);
      CopyStrip(dest, d, src, s, m);
      CopiedStep(before, dest[..], src[..], m, j, ldDest, ldSrc);
      KeptStep(old(dest[..]), before, dest[..], m, j, ldDest);
    }
  }

  /**
   * `mat_setZero`: sets the m*n entries of the buffer to zero; a null buffer
   * is left alone. Entries past m*n keep their values.
   */
  method SetZero(m: int, n: int, a: array?<real>)
    requires 0 <= m && 0 <= n && (a != null ==> m * n <= a.Length)
    modifies a
    ensures a != null ==> forall p :: 0 <= p < m * n ==> a[p] == 0.0
    ensures a != null ==> forall p :: m * n <= p < a.Length ==> a[p] == old(a[p])
  {
    if a != null {
      for p := 0 to m * n
        invariant forall p' :: 0 <= p' < p ==> a[p'] == 0.0
        invariant forall p' :: m * n <= p' < a.Length ==> a[p'] == old(a[p'])
      {
        a[p] := 0.0;
      }
    }
  }
}
