/** Enumeration of the k-mers of one DNA sequence and selection of those that
    occur exactly once in it (the free function unique_kmers).

    A k-mer is kept as the k symbols it was shifted from, instead of the
    two-bit packing of the k-mer library. The rolling window starts from an
    opaque padding value of k symbols (the k-mer built from the empty string). */
module Kmers {

  type Kmer = seq<char>

  /** An owner tag appended to a k-mer: an allele id or a flank side (unsigned char). */
  newtype Tag = x: int | 0 <= x < 256

  predicate IsBase(c: char) {
    c == 'A' || c == 'C' || c == 'G' || c == 'T'
  }

  predicate AllBases(s: seq<char>) {
    forall i :: 0 <= i < |s| ==> IsBase(s[i])
  }

  /** Length of the longest suffix of p made of A/C/G/T only. */
  function BaseRun(p: seq<char>): (r: nat)
    ensures r <= |p|
    ensures forall j :: |p| - r <= j < |p| ==> IsBase(p[j])
    ensures r < |p| ==> !IsBase(p[|p| - r - 1])
  {
    if p == [] || !IsBase(p[|p| - 1]) then 0 else BaseRun(p[..|p| - 1]) + 1
  }

  /** The value the shift debt has after scanning p: k minus the trailing run, floored at 0. */
  function Debt(p: seq<char>, k: nat): (d: nat)
    ensures d <= k
    ensures d == 0 <==> BaseRun(p) >= k
  {
    if BaseRun(p) >= k then 0 else k - BaseRun(p)
  }

  /** One shift of the rolling window: the first symbol leaves, c enters at the end. */
  function Shift(w: Kmer, c: char): (r: Kmer)
    ensures |r| == |w|
    ensures |w| > 0 ==> r == w[1..] + [c]
  {
    (w + [c])[1..]
  }

  /** The rolling window after the symbols p were shifted into the padding. */
  function WindowAfter(pad: Kmer, p: seq<char>): (w: Kmer)
    ensures |w| == |pad|
  {
    (pad + p)[|p|..]
  }

  /** The k symbols of s starting at st. */
  function WindowAt(s: seq<char>, st: nat, k: nat): Kmer
    requires st + k <= |s|
  {
    s[st..st + k]
  }

  /** The windows counted inside the scan loop during its first i steps: step j
      counts the window ending just before s[j] when the k symbols before s[j]
      are all A/C/G/T. */
  function LoopWindows(s: seq<char>, k: nat, i: nat): seq<Kmer>
    requires i <= |s|
  {
    if i == 0 then []
    else LoopWindows(s, k, i - 1)
         + (if BaseRun(s[..i - 1]) >= k then [s[i - 1 - k..i - 1]] else [])
  }

  /** Every window counted by one extraction: those of the loop, then the final
      window, which is counted whatever it holds. */
  function CountedWindows(s: seq<char>, k: nat, pad: Kmer): seq<Kmer>
    requires |pad| == k
  {
    LoopWindows(s, k, |s|) + [WindowAfter(pad, s)]
  }

  /** counts[w] += 1 on a map whose absent keys read as 0. */
  function Inc(counts: map<Kmer, nat>, w: Kmer): map<Kmer, nat> {
    counts[w := (if w in counts then counts[w] else 0) + 1]
  }

  /** The multiplicity table built by incrementing once per window, in order. */
  function Tally(ws: seq<Kmer>): map<Kmer, nat> {
    if ws == [] then map[] else Inc(Tally(ws[..|ws| - 1]), ws[|ws| - 1])
  }

  /** The k-mers whose multiplicity is exactly one. */
  function Uniques(counts: map<Kmer, nat>): set<Kmer> {
    set w | w in counts && counts[w] == 1
  }

  function Lookup(m: map<Kmer, seq<Tag>>, w: Kmer): seq<Tag> {
    if w in m then m[w] else []
  }

  /** The occurrence table after tag was appended to the list of every unique k-mer. */
  function AddUniques(occ: map<Kmer, seq<Tag>>, counts: map<Kmer, nat>, tag: Tag): map<Kmer, seq<Tag>> {
    map w | w in occ.Keys + Uniques(counts) ::
      if w in Uniques(counts) then Lookup(occ, w) + [tag] else occ[w]
  }

  /** An extraction adds exactly the unique k-mers to the table's keys. */
  lemma AddUniquesKeys(occ: map<Kmer, seq<Tag>>, counts: map<Kmer, nat>, tag: Tag)
    ensures AddUniques(occ, counts, tag).Keys == occ.Keys + Uniques(counts)
  {
  }

  /** The table after unique_kmers ran on seqs[0], ..., seqs[n-1] in turn, each
      tagged with its position. */
  function ExtractAll(occ: map<Kmer, seq<Tag>>, seqs: seq<seq<char>>, k: nat, pad: Kmer, n: nat): map<Kmer, seq<Tag>>
    requires |pad| == k && n <= |seqs| && n <= 256
  {
    if n == 0 then occ
    else AddUniques(ExtractAll(occ, seqs, k, pad, n - 1), Tally(CountedWindows(seqs[n - 1], k, pad)), (n - 1) as Tag)
  }

  /** The caller-owned table k-mer -> owner tags that extractions append to. */
  class OccurrenceTable {
    var entries: map<Kmer, seq<Tag>>

    constructor ()
      ensures entries == map[]
    {
      entries := map[];
    }

    /** entries[w].push_back(tag), creating an empty list first when w is absent. */
    method Append(w: Kmer, tag: Tag)
      modifies this
      ensures entries == old(entries)[w := Lookup(old(entries), w) + [tag]]
    {
      entries := entries[w := Lookup(entries, w) + [tag]];
    }

    method Clear()
      modifies this
      ensures entries == map[]
    {
      entries := map[];
    }

    /** The table's (k-mer, tags) pairs in an iteration order: each key exactly once. */
    method Items() returns (items: seq<(Kmer, seq<Tag>)>)
      ensures forall i :: 0 <= i < |items| ==> items[i].0 in entries && items[i].1 == entries[items[i].0]
      ensures forall w :: w in entries ==> exists i :: 0 <= i < |items| && items[i].0 == w
      ensures forall i, j :: 0 <= i < j < |items| ==> items[i].0 != items[j].0
    {
      items := [];
      var todo := entries.Keys;
      while todo != {}
        invariant todo <= entries.Keys
        invariant forall i :: 0 <= i < |items| ==> items[i].0 in entries - todo && items[i].1 == entries[items[i].0]
        invariant forall w :: w in entries && w !in todo ==> exists i :: 0 <= i < |items| && items[i].0 == w
        invariant forall i, j :: 0 <= i < j < |items| ==> items[i].0 != items[j].0
        decreases todo
      {
        var w :| w in todo;
        ghost var prev := items;
        items := items + [(w, entries[w])];
        assert items[|prev|].0 == w;
        assert forall i :: 0 <= i < |prev| ==> items[i] == prev[i];
        todo := todo - {w};
      }
    }
  }

  lemma ShiftWindow(pad: Kmer, p: seq<char>, c: char)
    ensures Shift(WindowAfter(pad, p), c) == WindowAfter(pad, p + [c])
  {
    assert pad + (p + [c]) == (pad + p) + [c];
    assert WindowAfter(pad, p) + [c] == ((pad + p) + [c])[|p|..];
  }

  /** The scan loop of unique_kmers: counts the windows of s. The debt stays in
      0..k between steps (it is k+1 only inside the step that reads a non-ACGT
      symbol), and it is 0 exactly when the last k symbols read were A/C/G/T. */
  method CountWindows(s: seq<char>, k: nat, pad: Kmer) returns (counts: map<Kmer, nat>)
    requires |pad| == k
    ensures counts == Tally(CountedWindows(s, k, pad))
  {
    counts := map[];
    var extraShifts := k;
    var currentKmer := pad;
    var i := 0;
    while i < |s|
      invariant 0 <= i <= |s|
      invariant extraShifts == Debt(s[..i], k)
      invariant currentKmer == WindowAfter(pad, s[..i])
      invariant counts == Tally(LoopWindows(s, k, i))
    {
      var currentBase := s[i];
      ScanStep(s, k, pad, i);
      if extraShifts == 0 {
        counts := Inc(counts, currentKmer);
      }
      if !IsBase(currentBase) {
        extraShifts := k + 1;
      }
      currentKmer := Shift(currentKmer, currentBase);
      if extraShifts > 0 {
        extraShifts := extraShifts - 1;
      }
      i := i + 1;
    }
    assert s[..i] == s;
    TallyAppend(LoopWindows(s, k, |s|), currentKmer);
    counts := Inc(counts, currentKmer);
  }

  lemma TallyAppend(ws: seq<Kmer>, w: Kmer)
    ensures Tally(ws + [w]) == Inc(Tally(ws), w)
  {
    assert (ws + [w])[..|ws|] == ws;
  }

  /** One step of the scan, on the prefix p = s[..i] and the symbol c = s[i]: the
      window is counted when the debt is 0, the debt follows the symbol, and the
      window shifts by c. */
  lemma ScanStep(s: seq<char>, k: nat, pad: Kmer, i: nat)
    requires |pad| == k && i < |s|
    ensures var p, c := s[..i], s[i];
            && s[..i + 1] == p + [c]
            && LoopWindows(s, k, i + 1)
               == LoopWindows(s, k, i) + (if Debt(p, k) == 0 then [WindowAfter(pad, p)] else [])
            && Tally(LoopWindows(s, k, i + 1))
               == (if Debt(p, k) == 0 then Inc(Tally(LoopWindows(s, k, i)), WindowAfter(pad, p))
                   else Tally(LoopWindows(s, k, i)))
            && Debt(p + [c], k) == (if !IsBase(c) then k else if Debt(p, k) > 0 then Debt(p, k) - 1 else 0)
            && Shift(WindowAfter(pad, p), c) == WindowAfter(pad, p + [c])
  {
    var p, c := s[..i], s[i];
    assert s[..i + 1] == p + [c];
    assert (p + [c])[..i] == p;
    if Debt(p, k) == 0 {
      assert (pad + p)[i..] == s[i - k..i];
      TallyAppend(LoopWindows(s, k, i), WindowAfter(pad, p));
    } else {
      assert LoopWindows(s, k, i) + [] == LoopWindows(s, k, i);
    }
    ShiftWindow(pad, p, c);
  }

  /** unique_kmers: appends index to the list of every k-mer counted exactly once
      in allele; every other entry of the table is left as it was. */
  method UniqueKmers(allele: seq<char>, index: Tag, k: nat, pad: Kmer, occurences: OccurrenceTable)
    requires |pad| == k
    modifies occurences
    ensures occurences.entries
         == AddUniques(old(occurences.entries), Tally(CountedWindows(allele, k, pad)), index)
  {
    var counts := CountWindows(allele, k, pad);
    AppendUniques(counts, index, occurences);
  }

  /** The second loop of unique_kmers: index is appended to the entry of every
      k-mer of multiplicity one, in the table's iteration order. */
  method AppendUniques(counts: map<Kmer, nat>, index: Tag, occurences: OccurrenceTable)
    modifies occurences
    ensures occurences.entries == AddUniques(old(occurences.entries), counts, index)
  {
    ghost var before := occurences.entries;
    var todo := counts.Keys;
    while todo != {}
      invariant todo <= counts.Keys
      invariant forall w :: w in occurences.entries <==>
                  w in before || (w in counts && w !in todo && counts[w] == 1)
      invariant forall w :: w in occurences.entries ==>
                  occurences.entries[w]
                  == if w in counts && w !in todo && counts[w] == 1
                     then Lookup(before, w) + [index] else Lookup(before, w)
      decreases todo
    {
      var w :| w in todo;
      if counts[w] == 1 {
        occurences.Append(w, index);
      }
      todo := todo - {w};
    }
    assert occurences.entries.Keys == before.Keys + Uniques(counts);
  }

  /** The table built by Tally holds exactly the windows of ws, each with its multiplicity. */
  lemma {:induction false} TallyMultiplicity(ws: seq<Kmer>)
    ensures forall w :: w in Tally(ws) <==> w in ws
    ensures forall w :: w in Tally(ws) ==> Tally(ws)[w] == multiset(ws)[w]
  {
    if ws != [] {
      var init, last := ws[..|ws| - 1], ws[|ws| - 1];
      TallyMultiplicity(init);
      assert ws == init + [last];
      assert multiset(ws) == multiset(init) + multiset{last};
    }
  }

  /** What one extraction does to one entry of the table: tag is appended once
      exactly when w was counted once in the sequence; an entry already there is
      only extended, never removed or reordered; nothing else is added. */
  lemma ExtractionEffect(occ: map<Kmer, seq<Tag>>, s: seq<char>, k: nat, pad: Kmer, tag: Tag, w: Kmer)
    requires |pad| == k
    ensures var occ' := AddUniques(occ, Tally(CountedWindows(s, k, pad)), tag);
            var once := multiset(CountedWindows(s, k, pad))[w] == 1;
            && (w in occ' <==> w in occ || once)
            && (once ==> occ'[w] == Lookup(occ, w) + [tag])
            && (!once && w in occ ==> occ'[w] == occ[w])
  {
    TallyMultiplicity(CountedWindows(s, k, pad));
  }

  /** Every window counted inside the loop is k consecutive A/C/G/T symbols of s. */
  lemma {:induction false} LoopWindowsAreBases(s: seq<char>, k: nat, i: nat)
    requires i <= |s|
    ensures forall w :: w in LoopWindows(s, k, i) ==>
              |w| == k && AllBases(w) && exists st: nat :: st + k <= |s| && w == WindowAt(s, st, k)
  {
    if i > 0 {
      LoopWindowsAreBases(s, k, i - 1);
      var prev := LoopWindows(s, k, i - 1);
      var p := s[..i - 1];
      if BaseRun(p) >= k {
        var w := s[i - 1 - k..i - 1];
        assert LoopWindows(s, k, i) == prev + [w];
        assert w == WindowAt(s, i - 1 - k, k);
        forall j | 0 <= j < |w| ensures IsBase(w[j]) {
          assert w[j] == p[|p| - k + j];
        }
        forall x | x in prev + [w]
          ensures |x| == k && AllBases(x) && exists st: nat :: st + k <= |s| && x == WindowAt(s, st, k)
        {
          if x !in prev {
            assert x == WindowAt(s, i - 1 - k, k);
          }
        }
      } else {
        assert LoopWindows(s, k, i) == prev + [];
        assert prev + [] == prev;
      }
    }
  }

  lemma {:induction false} BaseRunOfBases(s: seq<char>)
    requires AllBases(s)
    ensures BaseRun(s) == |s|
  {
    if s != [] {
      BaseRunOfBases(s[..|s| - 1]);
    }
  }

  /** On a sequence of A/C/G/T only, the loop counts the windows starting at 0..n-k-1, in order. */
  lemma {:induction false} LoopWindowsOfBases(s: seq<char>, k: nat, i: nat)
    requires AllBases(s) && i <= |s|
    ensures |LoopWindows(s, k, i)| == if i <= k then 0 else i - k
    ensures forall st :: 0 <= st < |LoopWindows(s, k, i)| ==> LoopWindows(s, k, i)[st] == WindowAt(s, st, k)
  {
    if i > 0 {
      LoopWindowsOfBases(s, k, i - 1);
      var prev := LoopWindows(s, k, i - 1);
      assert AllBases(s[..i - 1]);
      BaseRunOfBases(s[..i - 1]);
      if i - 1 >= k {
        assert LoopWindows(s, k, i) == prev + [WindowAt(s, i - 1 - k, k)];
      } else {
        assert LoopWindows(s, k, i) == prev + [];
        assert prev + [] == prev;
      }
    }
  }

  /** For a sequence of A/C/G/T only with n >= k, the counted windows are exactly
      the n-k+1 windows s[st..st+k], the last one by the trailing count. */
  lemma AllBasesWindows(s: seq<char>, k: nat, pad: Kmer)
    requires |pad| == k && AllBases(s) && |s| >= k
    ensures |CountedWindows(s, k, pad)| == |s| - k + 1
    ensures forall st :: 0 <= st <= |s| - k ==> CountedWindows(s, k, pad)[st] == WindowAt(s, st, k)
  {
    LoopWindowsOfBases(s, k, |s|);
    var lw := LoopWindows(s, k, |s|);
    var last := WindowAfter(pad, s);
    WindowAfterLong(pad, s);
    assert CountedWindows(s, k, pad) == lw + [last];
    forall st | 0 <= st <= |s| - k ensures (lw + [last])[st] == WindowAt(s, st, k) {
      if st < |lw| {
        assert (lw + [last])[st] == lw[st];
      }
    }
  }

  /** Once k symbols were read the window holds the last k of them. */
  lemma WindowAfterLong(pad: Kmer, p: seq<char>)
    requires |p| >= |pad|
    ensures WindowAfter(pad, p) == p[|p| - |pad|..]
  {
    assert (pad + p)[|p|..] == p[|p| - |pad|..];
  }

  /** A sequence shorter than k still contributes one window: the padding
      followed by the whole sequence, which is then unique. */
  lemma ShortSequenceWindows(s: seq<char>, k: nat, pad: Kmer)
    requires |pad| == k && |s| < k
    ensures CountedWindows(s, k, pad) == [pad[|s|..] + s]
    ensures Uniques(Tally(CountedWindows(s, k, pad))) == {pad[|s|..] + s}
  {
    LoopWindowsEmpty(s, k, |s|);
    assert (pad + s)[|s|..] == pad[|s|..] + s;
  }

  lemma {:induction false} LoopWindowsEmpty(s: seq<char>, k: nat, i: nat)
    requires i <= |s| && i <= k
    ensures LoopWindows(s, k, i) == []
  {
    if i > 0 {
      LoopWindowsEmpty(s, k, i - 1);
    }
  }
}
