/** UniqueKmerComputer: for every variant of one chromosome, the record of its
    path/allele skeleton, its local coverage and its informative k-mers. */
module KmerComputer {
  import opened Kmers
  import opened Collaborators
  import opened Selection
  import opened Coverage

  /** get_error_parameter: the expected count of copy number 0 for a coverage. */
  function ErrorParameter(kmerCoverage: real): (cn0: real)
    ensures 0.8 <= cn0 <= 0.99
    ensures cn0 == 0.99 || cn0 == 0.95 || cn0 == 0.9 || cn0 == 0.8
  {
    if kmerCoverage < 10.0 then 0.99
    else if kmerCoverage < 20.0 then 0.95
    else if kmerCoverage < 40.0 then 0.9
    else 0.8
  }

  /** The brackets are closed on their lower side. */
  lemma ErrorParameterBrackets(c: real)
    ensures c < 10.0 ==> ErrorParameter(c) == 0.99
    ensures 10.0 <= c < 20.0 ==> ErrorParameter(c) == 0.95
    ensures 20.0 <= c < 40.0 ==> ErrorParameter(c) == 0.9
    ensures 40.0 <= c ==> ErrorParameter(c) == 0.8
  {
  }

  /** A higher coverage never gives a higher error parameter. */
  lemma ErrorParameterNonIncreasing(c1: real, c2: real)
    requires c1 <= c2
    ensures ErrorParameter(c2) <= ErrorParameter(c1)
  {
  }

  /** The record after paths 0..n-1 were entered in turn: each path is mapped to
      its allele and the allele gets an (empty) entry; nothing else changes. */
  function SkeletonUpTo(u: SiteRecord, pathAlleles: seq<Tag>, n: nat): (r: SiteRecord)
    requires n <= |pathAlleles|
    ensures r.variantId == u.variantId && r.startPosition == u.startPosition
    ensures r.coverage == u.coverage && r.kmers == u.kmers
  {
    if n == 0 then u
    else
      var r := SkeletonUpTo(u, pathAlleles, n - 1);
      r.(alleles := r.alleles + {pathAlleles[n - 1]}, paths := r.paths[n - 1 := pathAlleles[n - 1]])
  }

  /** The record after every path of the variant was entered. */
  function Skeleton(u: SiteRecord, variant: Variant): SiteRecord {
    SkeletonUpTo(u, variant.pathAlleles, variant.NrOfPaths())
  }

  /** Paths 0..n-1 map to their alleles, every other path keeps its old entry, and
      the alleles are the old ones plus those of paths 0..n-1. */
  lemma {:induction false} SkeletonUpToContents(u: SiteRecord, pathAlleles: seq<Tag>, n: nat)
    requires n <= |pathAlleles|
    ensures var r := SkeletonUpTo(u, pathAlleles, n);
            (forall p :: p in r.paths <==> p in u.paths || 0 <= p < n)
            && (forall p :: 0 <= p < n ==> r.paths[p] == pathAlleles[p])
            && (forall p :: p in u.paths && !(0 <= p < n) ==> r.paths[p] == u.paths[p])
            && (forall a :: a in r.alleles <==> a in u.alleles || a in pathAlleles[..n])
  {
    if n > 0 {
      SkeletonUpToContents(u, pathAlleles, n - 1);
      assert pathAlleles[..n] == pathAlleles[..n - 1] + [pathAlleles[n - 1]];
    }
  }

  /** Every path of the variant is entered with its allele, which gets an entry;
      paths outside the variant keep their entries and no other allele is added. */
  lemma SkeletonContents(u: SiteRecord, variant: Variant)
    ensures var r := Skeleton(u, variant);
            (forall p :: p in r.paths <==> p in u.paths || 0 <= p < variant.NrOfPaths())
            && (forall p :: 0 <= p < variant.NrOfPaths() ==> r.paths[p] == variant.GetAlleleOnPath(p))
            && (forall p :: p in u.paths && !(0 <= p < variant.NrOfPaths()) ==> r.paths[p] == u.paths[p])
            && (forall a :: a in r.alleles <==> a in u.alleles || a in variant.pathAlleles)
  {
    SkeletonUpToContents(u, variant.pathAlleles, variant.NrOfPaths());
    assert variant.pathAlleles[..variant.NrOfPaths()] == variant.pathAlleles;
  }

  /** The loop entering the paths and their alleles (insert_empty_allele, insert_path). */
  method InsertSkeleton(u: SiteRecord, variant: Variant) returns (u': SiteRecord)
    ensures u' == Skeleton(u, variant)
  {
    var pa := variant.pathAlleles;
    u' := u;
    var p := 0;
    while p < variant.NrOfPaths()
      invariant 0 <= p <= variant.NrOfPaths()
      invariant u' == SkeletonUpTo(u, pa, p)
    {
      var a := variant.GetAlleleOnPath(p);
      u' := u'.(alleles := u'.alleles + {a});
      u' := u'.(paths := u'.paths[p := a]);
      p := p + 1;
    }
  }

  /** The number of leading alleles made of A/C/G/T only. */
  function FirstUndefined(alleles: seq<seq<char>>): (n: nat)
    ensures n <= |alleles|
    ensures forall i :: 0 <= i < n ==> !ContainsUndefined(alleles[i])
    ensures n < |alleles| ==> ContainsUndefined(alleles[n])
  {
    if alleles == [] || ContainsUndefined(alleles[0]) then 0
    else 1 + FirstUndefined(alleles[1..])
  }

  /** The unsigned char allele loop ends: either its counter never needs to pass
      255, or an allele among 0..255 holds an undefined symbol and breaks it. */
  predicate AlleleLoopEnds(variant: Variant) {
    variant.NrOfAlleles() <= 255 || FirstUndefined(variant.alleles) < 256
  }

  /** The expected counts of copy numbers 0, 1 and 2 set for a local coverage. */
  function CoverageParameters(c: real): Parameters {
    Parameters(ErrorParameter(c), c / 2.0, c)
  }

  class UniqueKmerComputer {
    const genomicKmers: Kmer -> nat
    const readKmers: Kmer -> nat
    const variants: VariantReader
    const chromosome: string
    const probability: ProbabilityComputer
    /** The run's k-mer coverage (a size_t). */
    const kmerCoverage: nat
    /** The k-mer the rolling window starts from (built from the empty string). */
    const padding: Kmer
    /** The local coverage estimate of each variant of the chromosome, fixed by
        the inputs above (specification only). */
    ghost const siteCoverages: seq<real>

    ghost predicate Valid() {
      && |padding| == variants.kmerSize
      && |siteCoverages| == |Variants()|
      && forall v {:trigger SiteCoverage(v)} :: 0 <= v < |siteCoverages| ==> siteCoverages[v] == SiteCoverage(v)
    }

    constructor (genomicKmers: Kmer -> nat, readKmers: Kmer -> nat, variants: VariantReader,
                 chromosome: string, kmerCoverage: nat, probability: ProbabilityComputer, padding: Kmer)
      requires |padding| == variants.kmerSize
      ensures Valid()
      ensures this.genomicKmers == genomicKmers && this.readKmers == readKmers
      ensures this.variants == variants && this.chromosome == chromosome
      ensures this.kmerCoverage == kmerCoverage && this.probability == probability
      ensures this.padding == padding
    {
      this.genomicKmers := genomicKmers;
      this.readKmers := readKmers;
      this.variants := variants;
      this.chromosome := chromosome;
      this.kmerCoverage := kmerCoverage;
      this.probability := probability;
      this.padding := padding;
      siteCoverages := seq(|variants.variantsOf(chromosome)|, (v: nat) =>
        Estimate(FlankKmers(variants.leftOverhang(chromosome, v, 2 * variants.kmerSize),
                            variants.rightOverhang(chromosome, v, 2 * variants.kmerSize),
                            variants.kmerSize, padding),
                 genomicKmers, readKmers, kmerCoverage));
    }

    /** The variants of this computer's chromosome. */
    function Variants(): seq<Variant> {
      variants.variantsOf(chromosome)
    }

    /** The estimate for the flanks of length `length` around variant varIndex. */
    ghost function LocalCoverage(chrom: string, varIndex: nat, length: nat): real
      requires |padding| == variants.kmerSize
    {
      var keys := FlankKmers(variants.leftOverhang(chrom, varIndex, length),
                             variants.rightOverhang(chrom, varIndex, length),
                             variants.kmerSize, padding);
      Estimate(keys, genomicKmers, readKmers, kmerCoverage)
    }

    /** The local coverage of variant v: the estimate over its flanks of length 2k. */
    ghost function SiteCoverage(v: nat): real
      requires |padding| == variants.kmerSize
    {
      LocalCoverage(chromosome, v, 2 * variants.kmerSize)
    }

    /** The record compute_unique_kmers emits for variant v. */
    ghost function CoveredRecord(v: nat): SiteRecord
      requires Valid() && v < |Variants()|
    {
      var variant := Variants()[v];
      Skeleton(NewRecord(v, variant.startPosition).(coverage := Some(siteCoverages[v])), variant)
    }


    /** The record compute_empty emits for variant v. */
    function EmptyRecord(v: nat): SiteRecord
      requires v < |Variants()|
    {
      Skeleton(NewRecord(v, Variants()[v].startPosition), Variants()[v])
    }

    /** compute_local_coverage: extracts the unique k-mers of both flanks into one
        table (left tagged 0, right tagged 1) and averages the read counts of those
        with genomic count 1 and a read count within [coverage/4, coverage*4]. */
    method ComputeLocalCoverage(chrom: string, varIndex: nat, length: nat) returns (coverage: real)
      requires Valid()
      ensures coverage == LocalCoverage(chrom, varIndex, length)
      ensures (kmerCoverage / 4) as real <= coverage <= (kmerCoverage * 4) as real
    {
      var leftOverhang := variants.leftOverhang(chrom, varIndex, length);
      var rightOverhang := variants.rightOverhang(chrom, varIndex, length);
      var kmerSize := variants.kmerSize;
      var occurences := new OccurrenceTable();
      UniqueKmers(leftOverhang, 0, kmerSize, padding, occurences);
      AddUniquesKeys(map[], Tally(CountedWindows(leftOverhang, kmerSize, padding)), 0);
      ghost var leftTable := occurences.entries;
      UniqueKmers(rightOverhang, 1, kmerSize, padding, occurences);
      AddUniquesKeys(leftTable, Tally(CountedWindows(rightOverhang, kmerSize, padding)), 1);
      assert occurences.entries.Keys == FlankKmers(leftOverhang, rightOverhang, kmerSize, padding);
      coverage := AverageReadCount(occurences.entries.Keys);
      EstimateBounds(occurences.entries.Keys, genomicKmers, readKmers, kmerCoverage);
    }

    /** The averaging loop of compute_local_coverage over the k-mers of the flank table. */
    method AverageReadCount(keys: set<Kmer>) returns (coverage: real)
      ensures coverage == Estimate(keys, genomicKmers, readKmers, kmerCoverage)
    {
      var totalCoverage: real := 0.0;
      var totalKmers: real := 0.0;
      var todo := keys;
      while todo != {}
        invariant todo <= keys
        invariant totalCoverage == SumOf(Kept(keys - todo, genomicKmers, readKmers, kmerCoverage), readKmers) as real
        invariant totalKmers == |Kept(keys - todo, genomicKmers, readKmers, kmerCoverage)| as real
        decreases todo
      {
        var kmer :| kmer in todo;
        KeptAdd(keys - todo, kmer, genomicKmers, readKmers, kmerCoverage);
        assert keys - (todo - {kmer}) == (keys - todo) + {kmer};
        todo := todo - {kmer};
        var genomicCount := genomicKmers(kmer);
        if genomicCount == 1 {
          var readCount := readKmers(kmer);
          if readCount < kmerCoverage / 4 || readCount > kmerCoverage * 4 {
            continue;
          }
          totalCoverage := totalCoverage + readCount as real;
          totalKmers := totalKmers + 1.0;
        }
      }
      assert keys - todo == keys;
      if totalKmers > 0.0 && totalCoverage > 0.0 {
        coverage := totalCoverage / totalKmers;
      } else {
        coverage := kmerCoverage as real;
      }
    }

    /** compute_empty: one skeleton record per variant, in order, after result. */
    method ComputeEmpty(result: seq<SiteRecord>) returns (out: seq<SiteRecord>)
      ensures |out| == |result| + |Variants()| && out[..|result|] == result
      ensures forall j :: |result| <= j < |out| ==> out[j] == EmptyRecord(j - |result|)
      ensures forall j :: |result| <= j < |out| ==> out[j].coverage == None && out[j].kmers == []
    {
      out := result;
      var nrVariants := variants.SizeOf(chromosome);
      var v := 0;
      while v < nrVariants
        invariant 0 <= v <= nrVariants
        invariant |out| == |result| + v && out[..|result|] == result
        invariant forall j :: |result| <= j < |out| ==> out[j] == EmptyRecord(j - |result|)
      {
        var variant := Variants()[v];
        var u := NewRecord(v, variant.startPosition);
        u := InsertSkeleton(u, variant);
        out := out + [u];
        v := v + 1;
      }
    }

    /** The allele loop of compute_unique_kmers: the unique k-mers of alleles 0, 1, ...
        are added to the table, tagged with the allele id, until the first allele
        holding a symbol other than A/C/G/T, which stops the loop and is reported. */
    method ExtractAlleles(variant: Variant, occurences: OccurrenceTable) returns (anyUndefined: bool)
      requires Valid() && AlleleLoopEnds(variant)
      modifies occurences
      ensures anyUndefined <==> FirstUndefined(variant.alleles) < variant.NrOfAlleles()
      ensures occurences.entries
           == ExtractAll(old(occurences.entries), variant.alleles, variants.kmerSize, padding,
                         FirstUndefined(variant.alleles))
    {
      var kmerSize := variants.kmerSize;
      var nrAlleles := variant.NrOfAlleles();
      anyUndefined := false;
      ghost var stop := FirstUndefined(variant.alleles);
      assert stop <= 256;
      var a := 0;
      while a < nrAlleles
        invariant 0 <= a <= nrAlleles && a <= stop
        invariant occurences.entries == ExtractAll(old(occurences.entries), variant.alleles, kmerSize, padding, a)
        invariant !anyUndefined
      {
        var allele := variant.alleles[a];
        if ContainsUndefined(allele) {
          anyUndefined := true;
          break;
        }
        assert a < stop;
        UniqueKmers(allele, a as Tag, kmerSize, padding, occurences);
        a := a + 1;
      }
    }

    /** The body of compute_unique_kmers' loop for variant v. */
    method ComputeSite(v: nat, regularizationConst: real) returns (u: SiteRecord, localCoverage: real)
      requires Valid() && v < |Variants()| && AlleleLoopEnds(Variants()[v])
      modifies probability
      ensures localCoverage == siteCoverages[v]
      ensures u == CoveredRecord(v) && u.kmers == []
      ensures probability.parameters == CoverageParameters(localCoverage)
    {
      var kmerSize := variants.kmerSize;
      localCoverage := ComputeLocalCoverage(chromosome, v, 2 * kmerSize);
      assert localCoverage == SiteCoverage(v);
      var cn0 := ErrorParameter(localCoverage);
      var cn1 := localCoverage / 2.0;
      var cn2 := localCoverage;
      probability.SetParameters(cn0, cn1, cn2);
      u := SiteRecordOf(v, localCoverage, regularizationConst);
    }

    /** The record of variant v given its local coverage: the skeleton, then the
        alleles' unique k-mers, the table being emptied before any k-mer is kept. */
    method SiteRecordOf(v: nat, localCoverage: real, regularizationConst: real) returns (u: SiteRecord)
      requires Valid() && v < |Variants()| && AlleleLoopEnds(Variants()[v])
      ensures u == Skeleton(NewRecord(v, Variants()[v].startPosition).(coverage := Some(localCoverage)), Variants()[v])
      ensures u.kmers == []
    {
      var occurences := new OccurrenceTable();
      var variant := Variants()[v];
      u := NewRecord(v, variant.startPosition);
      u := u.(coverage := Some(localCoverage));
      u := InsertSkeleton(u, variant);

      var anyUndefined := ExtractAlleles(variant, occurences);

      // the table is emptied whatever anyUndefined says
      occurences.Clear();

      var candidates := occurences.Items();
      var filter := SiteFilter(genomicKmers, readKmers, kmerCoverage, variant,
                               probability.density, probability.parameters, regularizationConst);
      var nrKmersUsed;
      u, nrKmersUsed := SelectKmers(u, candidates, filter);
    }

    /** The records of the first n variants of the chromosome, in order. */
    ghost function CoveredRecords(n: nat): (rs: seq<SiteRecord>)
      requires Valid() && n <= |Variants()|
      ensures |rs| == n
    {
      if n == 0 then [] else CoveredRecords(n - 1) + [CoveredRecord(n - 1)]
    }

    /** Entry i of the record list is the record of variant i: its id, its start,
        its local coverage, its skeleton and no k-mer. */
    lemma {:induction false} CoveredRecordsAt(n: nat, i: nat)
      requires Valid() && i < n <= |Variants()|
      ensures CoveredRecords(n)[i] == CoveredRecord(i)
      ensures CoveredRecords(n)[i].variantId == i
      ensures CoveredRecords(n)[i].startPosition == Variants()[i].startPosition
      ensures CoveredRecords(n)[i].coverage == Some(SiteCoverage(i))
      ensures CoveredRecords(n)[i].kmers == []
    {
      if i < n - 1 {
        CoveredRecordsAt(n - 1, i);
      }
    }

    /** compute_unique_kmers: one record per variant, in order, after result, each
        with its local coverage and its skeleton. The occurrence table is cleared
        before the candidate loop, so no record receives a k-mer. The probability
        computer is left with the parameters of the last variant. */
    method ComputeUniqueKmers(result: seq<SiteRecord>, regularizationConst: real) returns (out: seq<SiteRecord>)
      requires Valid()
      requires forall v :: 0 <= v < |Variants()| ==> AlleleLoopEnds(Variants()[v])
      modifies probability
      ensures out == result + CoveredRecords(|Variants()|)
      ensures |Variants()| > 0 ==> probability.parameters == CoverageParameters(siteCoverages[|Variants()| - 1])
      ensures |Variants()| == 0 ==> probability.parameters == old(probability.parameters)
    {
      out := result;
      var nrVariants := variants.SizeOf(chromosome);
      var v := 0;
      while v < nrVariants
        invariant 0 <= v <= nrVariants
        invariant out == result + CoveredRecords(v)
        invariant v > 0 ==> probability.parameters == CoverageParameters(siteCoverages[v - 1])
        invariant v == 0 ==> probability.parameters == old(probability.parameters)
      {
        var u, localCoverage := ComputeSite(v, regularizationConst);
        assert result + CoveredRecords(v + 1) == out + [u];
        out := out + [u];
        v := v + 1;
      }
    }
  }
}
