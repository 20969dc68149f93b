/** The interfaces of the collaborators the computer calls, kept abstract:
    the variant reader, a variant site, the probability computer and the
    per-site record (UniqueKmers) with its copy-number entries. */
module Collaborators {
  import opened Kmers

  datatype Option<T> = None | Some(value: T)

  /** DnaSequence::contains_undefined: some symbol is not one of A/C/G/T. */
  predicate ContainsUndefined(s: seq<char>) {
    !AllBases(s)
  }

  /** The paths 0..n-1 of pathAlleles that carry allele a, ascending. */
  function PathsUpTo(pathAlleles: seq<Tag>, a: Tag, n: nat): (ps: seq<nat>)
    requires n <= |pathAlleles|
    ensures forall p: nat :: p in ps <==> p < n && pathAlleles[p] == a
    ensures forall i :: 0 <= i < |ps| ==> ps[i] < n
    ensures forall i, j :: 0 <= i < j < |ps| ==> ps[i] < ps[j]
  {
    if n == 0 then []
    else PathsUpTo(pathAlleles, a, n - 1) + (if pathAlleles[n - 1] == a then [n - 1] else [])
  }

  /** A variant site: its start, its allele sequences (ids 0..) and the allele of each path. */
  datatype Variant = Variant(startPosition: nat, alleles: seq<seq<char>>, pathAlleles: seq<Tag>) {
    function NrOfAlleles(): nat {
      |alleles|
    }

    function NrOfPaths(): nat {
      |pathAlleles|
    }

    function GetAlleleOnPath(p: nat): Tag
      requires p < |pathAlleles|
    {
      pathAlleles[p]
    }

    /** The paths carrying allele a, in ascending order (get_paths_of_allele appends these). */
    function PathsOfAllele(a: Tag): (ps: seq<nat>)
      ensures forall p: nat :: p in ps <==> p < |pathAlleles| && pathAlleles[p] == a
    {
      PathsUpTo(pathAlleles, a, |pathAlleles|)
    }
  }

  /** VariantReader: the global k, the variants of each chromosome and the flanking
      sequences left and right of a variant, given a chromosome, an index and a length. */
  datatype VariantReader = VariantReader(
    kmerSize: nat,
    variantsOf: string -> seq<Variant>,
    leftOverhang: (string, nat, nat) -> seq<char>,
    rightOverhang: (string, nat, nat) -> seq<char>)
  {
    function SizeOf(chromosome: string): nat {
      |variantsOf(chromosome)|
    }
  }

  /** The expected-count parameters of the three copy-number states. */
  datatype Parameters = Parameters(cn0: real, cn1: real, cn2: real)

  /** ProbabilityComputer: the distribution for each copy-number state under the
      current parameters. The formulas are not part of this model: density stands for them. */
  class ProbabilityComputer {
    const density: (Parameters, nat, nat) -> real
    var parameters: Parameters

    constructor (density: (Parameters, nat, nat) -> real, initial: Parameters)
      ensures this.density == density && parameters == initial
    {
      this.density := density;
      parameters := initial;
    }

    method SetParameters(cn0: real, cn1: real, cn2: real)
      modifies this
      ensures parameters == Parameters(cn0, cn1, cn2)
    {
      parameters := Parameters(cn0, cn1, cn2);
    }
  }

  /** CopyNumber as constructed: plain, or with a regularization constant. */
  datatype CopyNumber =
    | Plain(p0: real, p1: real, p2: real)
    | Regularized(p0: real, p1: real, p2: real, regularization: real)

  /** One insert_kmer call: the copy-number record and the tags of the alleles holding the k-mer. */
  datatype KmerEntry = KmerEntry(copyNumber: CopyNumber, alleles: seq<Tag>)

  /** UniqueKmers, the record of one variant site. */
  datatype SiteRecord = SiteRecord(
    variantId: nat,
    startPosition: nat,
    coverage: Option<real>,
    alleles: set<Tag>,
    paths: map<nat, Tag>,
    kmers: seq<KmerEntry>)

  /** new UniqueKmers(v, start): no coverage, no alleles, no paths, no k-mers. */
  function NewRecord(variantId: nat, startPosition: nat): SiteRecord {
    SiteRecord(variantId, startPosition, None, {}, map[], [])
  }
}
