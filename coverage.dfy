/** The local coverage estimate of compute_local_coverage: the mean read count
    of the flank k-mers that are unique in the genome and whose read count is
    not extreme. */
module Coverage {
  import opened Kmers

  /** The k-mers of the shared table of the two flanks: those counted once in
      the left flank or once in the right flank. */
  function FlankKmers(left: seq<char>, right: seq<char>, k: nat, pad: Kmer): set<Kmer>
    requires |pad| == k
  {
    Uniques(Tally(CountedWindows(left, k, pad))) + Uniques(Tally(CountedWindows(right, k, pad)))
  }

  /** f summed over a finite set of k-mers. */
  ghost function SumOf(ws: set<Kmer>, f: Kmer -> nat): nat
    decreases ws
  {
    if ws == {} then 0 else var w :| w in ws; f(w) + SumOf(ws - {w}, f)
  }

  /** The sum does not depend on which element is taken out first. */
  lemma SumOfRemove(ws: set<Kmer>, f: Kmer -> nat, y: Kmer)
    requires y in ws
    ensures SumOf(ws, f) == f(y) + SumOf(ws - {y}, f)
    decreases ws
  {
    var x :| x in ws && SumOf(ws, f) == f(x) + SumOf(ws - {x}, f);
    if x != y {
      SumOfRemove(ws - {x}, f, y);
      SumOfRemove(ws - {y}, f, x);
      assert ws - {x} - {y} == ws - {y} - {x};
    }
  }

  /** The k-mers that count towards the estimate: genomic count 1 and read count
      within [coverage/4, coverage*4], the division being on integers. */
  function Kept(keys: set<Kmer>, genomic: Kmer -> nat, readCounts: Kmer -> nat, kmerCoverage: nat): set<Kmer> {
    set w | w in keys && genomic(w) == 1
            && !(readCounts(w) < kmerCoverage / 4 || readCounts(w) > kmerCoverage * 4)
  }

  /** The mean read count of the kept k-mers, or the run's coverage when none is
      kept or their read counts sum to 0. */
  ghost function Estimate(keys: set<Kmer>, genomic: Kmer -> nat, readCounts: Kmer -> nat, kmerCoverage: nat): real {
    var kept := Kept(keys, genomic, readCounts, kmerCoverage);
    var total := SumOf(kept, readCounts);
    if |kept| > 0 && total > 0 then total as real / |kept| as real else kmerCoverage as real
  }

  /** Scanning one more k-mer adds it to the kept set exactly when it passes both tests. */
  lemma KeptAdd(done: set<Kmer>, w: Kmer, genomic: Kmer -> nat, readCounts: Kmer -> nat, kmerCoverage: nat)
    requires w !in done
    ensures var kept := Kept(done, genomic, readCounts, kmerCoverage);
            var kept' := Kept(done + {w}, genomic, readCounts, kmerCoverage);
            if genomic(w) == 1 && !(readCounts(w) < kmerCoverage / 4 || readCounts(w) > kmerCoverage * 4)
            then kept' == kept + {w} && |kept'| == |kept| + 1
                 && SumOf(kept', readCounts) == SumOf(kept, readCounts) + readCounts(w)
            else kept' == kept
  {
    var kept := Kept(done, genomic, readCounts, kmerCoverage);
    var kept' := Kept(done + {w}, genomic, readCounts, kmerCoverage);
    if genomic(w) == 1 && !(readCounts(w) < kmerCoverage / 4 || readCounts(w) > kmerCoverage * 4) {
      assert kept' == kept + {w};
      SumOfRemove(kept', readCounts, w);
      assert kept' - {w} == kept;
    } else {
      assert kept' == kept;
    }
  }

  /** A sum of values each within [lo, hi] lies within [lo*n, hi*n]. */
  lemma SumOfBounds(ws: set<Kmer>, f: Kmer -> nat, lo: nat, hi: nat)
    requires forall w :: w in ws ==> lo <= f(w) <= hi
    ensures lo * |ws| <= SumOf(ws, f) <= hi * |ws|
    decreases ws
  {
    if ws != {} {
      var y :| y in ws;
      var rest := ws - {y};
      SumOfRemove(ws, f, y);
      SumOfBounds(rest, f, lo, hi);
      assert |ws| == |rest| + 1;
      MulSucc(lo, |rest|);
      MulSucc(hi, |rest|);
    }
  }

  lemma MulSucc(a: nat, n: nat)
    ensures a * (n + 1) == a * n + a
  {
  }

  lemma MeanBounds(total: nat, n: nat, lo: nat, hi: nat)
    requires n > 0 && lo * n <= total <= hi * n
    ensures lo as real <= total as real / n as real <= hi as real
  {
    var m, N := total as real / n as real, n as real;
    assert (lo * n) as real == lo as real * N;
    assert (hi * n) as real == hi as real * N;
    assert m - lo as real == (total as real - lo as real * N) / N;
    assert hi as real - m == (hi as real * N - total as real) / N;
  }

  /** The estimate always lies within [coverage/4, coverage*4]. */
  lemma EstimateBounds(keys: set<Kmer>, genomic: Kmer -> nat, readCounts: Kmer -> nat, kmerCoverage: nat)
    ensures (kmerCoverage / 4) as real <= Estimate(keys, genomic, readCounts, kmerCoverage)
            <= (kmerCoverage * 4) as real
  {
    var kept := Kept(keys, genomic, readCounts, kmerCoverage);
    var total := SumOf(kept, readCounts);
    if |kept| > 0 && total > 0 {
      SumOfBounds(kept, readCounts, kmerCoverage / 4, kmerCoverage * 4);
      MeanBounds(total, |kept|, kmerCoverage / 4, kmerCoverage * 4);
    }
  }

  /** With no k-mer of genomic count 1 the run's coverage is returned. */
  lemma EstimateWithoutUniqueKmers(keys: set<Kmer>, genomic: Kmer -> nat, readCounts: Kmer -> nat, kmerCoverage: nat)
    requires forall w :: w in keys ==> genomic(w) != 1
    ensures Estimate(keys, genomic, readCounts, kmerCoverage) == kmerCoverage as real
  {
    assert Kept(keys, genomic, readCounts, kmerCoverage) == {};
  }

  /** When every genomically unique k-mer has the same admissible read count c > 0,
      the estimate is c. */
  lemma EstimateOfConstantReads(keys: set<Kmer>, genomic: Kmer -> nat, readCounts: Kmer -> nat, kmerCoverage: nat, c: nat)
    requires 0 < c && kmerCoverage / 4 <= c <= kmerCoverage * 4
    requires forall w :: w in keys && genomic(w) == 1 ==> readCounts(w) == c
    requires exists w :: w in keys && genomic(w) == 1
    ensures Estimate(keys, genomic, readCounts, kmerCoverage) == c as real
  {
    var kept := Kept(keys, genomic, readCounts, kmerCoverage);
    var w :| w in keys && genomic(w) == 1;
    assert w in kept;
    SumOfBounds(kept, readCounts, c, c);
    MeanBounds(SumOf(kept, readCounts), |kept|, c, c);
  }
}
