/** The candidate loop of compute_unique_kmers: which k-mers of a site's
    occurrence table are attached to the site's record. */
module Selection {
  import opened Kmers
  import opened Collaborators

  /** The wrap-around of size_t. */
  const SIZE_T: int := 0x1_0000_0000_0000_0000

  /** a - b on size_t. */
  function SizeSub(a: nat, b: nat): nat {
    (a - b) % SIZE_T
  }

  /** The size_t difference of two size_t values is 0 exactly when they are equal. */
  lemma SizeSubZero(a: nat, b: nat)
    requires a < SIZE_T && b < SIZE_T
    ensures SizeSub(a, b) == 0 <==> a == b
  {
    if a < b {
      assert SizeSub(a, b) == a - b + SIZE_T;
    }
  }

  predicate Distinct<T(==)>(s: seq<T>) {
    forall i, j :: 0 <= i < j < |s| ==> s[i] != s[j]
  }

  /** The paths collected for a k-mer: get_paths_of_allele appended for each tag in turn. */
  function PathsOf(variant: Variant, tags: seq<Tag>): (ps: seq<nat>)
    ensures forall p: nat :: p in ps <==> p < |variant.pathAlleles| && variant.pathAlleles[p] in tags
  {
    if tags == [] then []
    else PathsOf(variant, tags[..|tags| - 1]) + variant.PathsOfAllele(tags[|tags| - 1])
  }

  /** Everything the candidate loop reads for a site: the genomic and read counters,
      the run-level coverage, the variant, the probability computer's density and
      current parameters, and the regularization constant. */
  datatype SiteFilter = SiteFilter(
    genomicCounts: Kmer -> nat,
    readCounts: Kmer -> nat,
    kmerCoverage: nat,
    variant: Variant,
    density: (Parameters, nat, nat) -> real,
    parameters: Parameters,
    regularization: real)
  {
    /** get_probability under the parameters in force when the loop runs. */
    function Probability(state: nat, count: nat): real {
      density(parameters, state, count)
    }
  }

  /** The tests a candidate passes to be attached, as the loop writes them. */
  predicate Informative(f: SiteFilter, kmer: Kmer, tags: seq<Tag>) {
    var r := f.readCounts(kmer);
    var paths := PathsOf(f.variant, tags);
    && SizeSub(f.genomicCounts(kmer), |tags|) == 0
    && |paths| != 0
    && |paths| != f.variant.NrOfPaths()
    && r <= 2 * f.kmerCoverage
    && (f.Probability(0, r) > 0.0 || f.Probability(1, r) > 0.0 || f.Probability(2, r) > 0.0)
  }

  /** The entry inserted for an accepted candidate. */
  function NewEntry(f: SiteFilter, kmer: Kmer, tags: seq<Tag>): KmerEntry {
    var r := f.readCounts(kmer);
    var p0, p1, p2 := f.Probability(0, r), f.Probability(1, r), f.Probability(2, r);
    KmerEntry(if f.regularization > 0.0 then Regularized(p0, p1, p2, f.regularization)
              else Plain(p0, p1, p2),
              tags)
  }

  /** The entries of all informative candidates, in iteration order. */
  function Selected(f: SiteFilter, entries: seq<(Kmer, seq<Tag>)>): seq<KmerEntry> {
    if entries == [] then []
    else
      var last := entries[|entries| - 1];
      Selected(f, entries[..|entries| - 1])
      + (if Informative(f, last.0, last.1) then [NewEntry(f, last.0, last.1)] else [])
  }

  /** The loop stops once more than MaxUsed k-mers were accepted. */
  const MaxUsed: nat := 300

  /** The first MaxUsed + 1 elements of xs. */
  function Capped(xs: seq<KmerEntry>): (r: seq<KmerEntry>)
    ensures |r| <= MaxUsed + 1
    ensures r <= xs
    ensures |xs| <= MaxUsed + 1 ==> r == xs
  {
    if |xs| <= MaxUsed + 1 then xs else xs[..MaxUsed + 1]
  }

  lemma {:induction false} SelectedPrefix(f: SiteFilter, entries: seq<(Kmer, seq<Tag>)>, i: nat)
    requires i <= |entries|
    ensures Selected(f, entries[..i]) <= Selected(f, entries)
  {
    if i < |entries| {
      SelectedPrefix(f, entries[..|entries| - 1], i);
      assert entries[..|entries| - 1][..i] == entries[..i];
    } else {
      assert entries[..i] == entries;
    }
  }

  /** Where the candidate loop stops, what it attached is the capped selection. */
  lemma CappedAtExit(f: SiteFilter, entries: seq<(Kmer, seq<Tag>)>, i: nat)
    requires i <= |entries|
    requires |Selected(f, entries[..i])| <= MaxUsed + 1
    requires i == |entries| || |Selected(f, entries[..i])| == MaxUsed + 1
    ensures Capped(Selected(f, entries)) == Selected(f, entries[..i])
  {
    SelectedPrefix(f, entries, i);
    if i == |entries| {
      assert entries[..i] == entries;
    }
  }

  lemma SelectedStep(f: SiteFilter, entries: seq<(Kmer, seq<Tag>)>, i: nat)
    requires i < |entries|
    ensures Selected(f, entries[..i + 1])
         == Selected(f, entries[..i])
            + (if Informative(f, entries[i].0, entries[i].1)
               then [NewEntry(f, entries[i].0, entries[i].1)] else [])
  {
    assert entries[..i + 1][..i] == entries[..i];
  }

  /** The loop collecting the paths of a candidate's alleles. */
  method CollectPaths(variant: Variant, tags: seq<Tag>) returns (paths: seq<nat>)
    ensures paths == PathsOf(variant, tags)
  {
    paths := [];
    var j := 0;
    while j < |tags|
      invariant 0 <= j <= |tags|
      invariant paths == PathsOf(variant, tags[..j])
    {
      assert tags[..j + 1][..j] == tags[..j];
      paths := paths + variant.PathsOfAllele(tags[j]);
      j := j + 1;
    }
    assert tags[..j] == tags;
  }

  /** One iteration of the candidate loop: the entry to insert, or None when one of
      the tests sends the loop on to the next candidate. */
  method ExamineCandidate(f: SiteFilter, kmer: Kmer, tags: seq<Tag>) returns (accepted: Option<KmerEntry>)
    ensures accepted == if Informative(f, kmer, tags) then Some(NewEntry(f, kmer, tags)) else None
  {
    accepted := None;
    var genomicCount := f.genomicCounts(kmer);
    var localCount := |tags|;
    if SizeSub(genomicCount, localCount) == 0 {
      var readKmerCount := f.readCounts(kmer);
      var paths := CollectPaths(f.variant, tags);
      if |paths| == 0 {
        return;
      }
      if |paths| == f.variant.NrOfPaths() {
        return;
      }
      if readKmerCount > 2 * f.kmerCoverage {
        return;
      }
      var pCn0 := f.Probability(0, readKmerCount);
      var pCn1 := f.Probability(1, readKmerCount);
      var pCn2 := f.Probability(2, readKmerCount);
      if pCn0 > 0.0 || pCn1 > 0.0 || pCn2 > 0.0 {
        var cn := if f.regularization > 0.0 then Regularized(pCn0, pCn1, pCn2, f.regularization)
                  else Plain(pCn0, pCn1, pCn2);
        accepted := Some(KmerEntry(cn, tags));
      }
    }
  }

  /** The candidate loop (the loop over occurences in compute_unique_kmers): every
      informative candidate is attached, in iteration order, until more than MaxUsed
      were; used is the number accepted. */
  method SelectKmers(u: SiteRecord, entries: seq<(Kmer, seq<Tag>)>, f: SiteFilter)
    returns (u': SiteRecord, used: nat)
    ensures u' == u.(kmers := u.kmers + Capped(Selected(f, entries)))
    ensures used == |Capped(Selected(f, entries))|
  {
    u' := u;
    used := 0;
    var i := 0;
    while i < |entries|
      invariant 0 <= i <= |entries|
      invariant used == |Selected(f, entries[..i])| <= MaxUsed + 1
      invariant u' == u.(kmers := u.kmers + Selected(f, entries[..i]))
    {
      if used > MaxUsed {
        break;
      }
      var kmer, tags := entries[i].0, entries[i].1;
      SelectedStep(f, entries, i);
      var accepted := ExamineCandidate(f, kmer, tags);
      if accepted.Some? {
        used := used + 1;
        u' := u'.(kmers := u'.kmers + [accepted.value]);
      }
      i := i + 1;
    }
    CappedAtExit(f, entries, i);
  }

  /** Every selected entry is the entry of an informative candidate. */
  lemma {:induction false} SelectedSource(f: SiteFilter, entries: seq<(Kmer, seq<Tag>)>, e: KmerEntry)
    returns (j: nat)
    requires e in Selected(f, entries)
    ensures j < |entries| && Informative(f, entries[j].0, entries[j].1)
    ensures e == NewEntry(f, entries[j].0, entries[j].1)
  {
    var init, last := entries[..|entries| - 1], entries[|entries| - 1];
    var tail := if Informative(f, last.0, last.1) then [NewEntry(f, last.0, last.1)] else [];
    assert Selected(f, entries) == Selected(f, init) + tail;
    if e in Selected(f, init) {
      j := SelectedSource(f, init, e);
      assert init[j] == entries[j];
    } else {
      j := |entries| - 1;
    }
  }

  /** The entry of every informative candidate is selected. */
  lemma {:induction false} SelectedComplete(f: SiteFilter, entries: seq<(Kmer, seq<Tag>)>, j: nat)
    requires j < |entries| && Informative(f, entries[j].0, entries[j].1)
    ensures NewEntry(f, entries[j].0, entries[j].1) in Selected(f, entries)
  {
    var init, last := entries[..|entries| - 1], entries[|entries| - 1];
    var tail := if Informative(f, last.0, last.1) then [NewEntry(f, last.0, last.1)] else [];
    assert Selected(f, entries) == Selected(f, init) + tail;
    if j < |init| {
      assert init[j] == entries[j];
      SelectedComplete(f, init, j);
    }
  }

  // ---- what |paths| == 0 and |paths| == nr_of_paths() mean ----

  lemma {:induction false} DistinctAppend(a: seq<nat>, b: seq<nat>)
    requires Distinct(a) && Distinct(b)
    requires forall x :: x in a ==> x !in b
    ensures Distinct(a + b)
  {
    forall i, j | 0 <= i < j < |a + b| ensures (a + b)[i] != (a + b)[j] {
      if i < |a| && j >= |a| {
        assert (a + b)[i] in a && (a + b)[j] in b;
      }
    }
  }

  /** With distinct tags no path is collected twice. */
  lemma {:induction false} PathsOfDistinct(variant: Variant, tags: seq<Tag>)
    requires Distinct(tags)
    ensures Distinct(PathsOf(variant, tags))
  {
    if tags != [] {
      var init, last := tags[..|tags| - 1], tags[|tags| - 1];
      PathsOfDistinct(variant, init);
      assert last !in init;
      DistinctAppend(PathsOf(variant, init), variant.PathsOfAllele(last));
    }
  }

  lemma {:induction false} DistinctCard(s: seq<nat>)
    requires Distinct(s)
    ensures |Elements(s)| == |s|
  {
    if s != [] {
      var init, last := s[..|s| - 1], s[|s| - 1];
      DistinctCard(init);
      forall i | 0 <= i < |init| ensures init[i] != last {
        assert init[i] == s[i];
      }
      assert last !in init;
      assert s == init + [last];
      assert Elements(s) == Elements(init) + {last};
    }
  }

  function Elements(s: seq<nat>): set<nat> {
    set x | x in s
  }

  /** The indices 0..n-1, in order. */
  function Indices(n: nat): (r: seq<nat>)
    ensures |r| == n && forall i :: 0 <= i < n ==> r[i] == i
  {
    if n == 0 then [] else Indices(n - 1) + [n - 1]
  }

  /** With distinct tags, the collected path list has nr_of_paths() elements exactly
      when every path carries one of the tagged alleles. */
  lemma PathsCoverAll(variant: Variant, tags: seq<Tag>)
    requires Distinct(tags)
    ensures |PathsOf(variant, tags)| == variant.NrOfPaths() <==>
            forall p :: 0 <= p < variant.NrOfPaths() ==> variant.pathAlleles[p] in tags
  {
    var ps := PathsOf(variant, tags);
    var n := variant.NrOfPaths();
    var covered := Elements(ps);
    var range := Elements(Indices(n));
    PathsOfDistinct(variant, tags);
    DistinctCard(ps);
    DistinctCard(Indices(n));
    forall x | x in covered ensures x in range {
      assert Indices(n)[x] == x;
    }
    if |ps| == n {
      assert |range - covered| == 0;
      forall p | 0 <= p < n ensures variant.pathAlleles[p] in tags {
        assert Indices(n)[p] == p;
        assert p in range;
      }
    }
    if forall p :: 0 <= p < n ==> variant.pathAlleles[p] in tags {
      forall x | x in range ensures x in covered {
        assert x < n;
      }
      assert |covered - range| == 0;
    }
  }

  /** The collected path list is empty exactly when no path carries a tagged allele. */
  lemma PathsNone(variant: Variant, tags: seq<Tag>)
    ensures |PathsOf(variant, tags)| == 0 <==>
            forall p :: 0 <= p < variant.NrOfPaths() ==> variant.pathAlleles[p] !in tags
  {
    var ps := PathsOf(variant, tags);
    if |ps| > 0 {
      assert ps[0] in ps;
    }
  }

  /** A candidate whose tags are distinct is attached only if its genomic count
      equals the number of alleles holding it, some path carries one of those
      alleles and some path carries none, its read count is at most twice the run's
      coverage, and some copy-number probability is positive; and conversely. */
  lemma InformativeMeaning(f: SiteFilter, kmer: Kmer, tags: seq<Tag>)
    requires f.genomicCounts(kmer) < SIZE_T && |tags| < SIZE_T && Distinct(tags)
    ensures Informative(f, kmer, tags) <==>
            var r := f.readCounts(kmer);
            var pa := f.variant.pathAlleles;
            && f.genomicCounts(kmer) == |tags|
            && (exists p :: 0 <= p < |pa| && pa[p] in tags)
            && (exists p :: 0 <= p < |pa| && pa[p] !in tags)
            && r <= 2 * f.kmerCoverage
            && (f.Probability(0, r) > 0.0 || f.Probability(1, r) > 0.0 || f.Probability(2, r) > 0.0)
  {
    SizeSubZero(f.genomicCounts(kmer), |tags|);
    PathsCoverAll(f.variant, tags);
    PathsNone(f.variant, tags);
  }

  /** At most MaxUsed + 1 k-mers are attached, each of them for an informative
      candidate, and when fewer were accepted every informative candidate was. */
  lemma AttachedKmers(f: SiteFilter, entries: seq<(Kmer, seq<Tag>)>)
    ensures |Capped(Selected(f, entries))| <= MaxUsed + 1
    ensures forall e :: e in Capped(Selected(f, entries)) ==>
              exists j :: 0 <= j < |entries| && Informative(f, entries[j].0, entries[j].1)
                          && e == NewEntry(f, entries[j].0, entries[j].1)
    ensures |Capped(Selected(f, entries))| <= MaxUsed ==>
              forall j :: 0 <= j < |entries| && Informative(f, entries[j].0, entries[j].1) ==>
                NewEntry(f, entries[j].0, entries[j].1) in Capped(Selected(f, entries))
  {
    var sel := Selected(f, entries);
    forall e | e in Capped(sel)
      ensures exists j :: 0 <= j < |entries| && Informative(f, entries[j].0, entries[j].1)
                          && e == NewEntry(f, entries[j].0, entries[j].1)
    {
      var j := SelectedSource(f, entries, e);
    }
    if |Capped(sel)| <= MaxUsed {
      forall j | 0 <= j < |entries| && Informative(f, entries[j].0, entries[j].1)
        ensures NewEntry(f, entries[j].0, entries[j].1) in Capped(sel)
      {
        SelectedComplete(f, entries, j);
      }
    }
  }
}
