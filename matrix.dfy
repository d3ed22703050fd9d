/** The `breakfast matrix` subcommand (src/matrix.rs:150-241): sample names
    from the BAM paths, the catalogue of rearrangements, one column of
    supporting-read counts per BAM file, and the tab-separated table it
    prints. */
module Matrix {
  import opened Results
  import opened Text
  import opened Sorting
  import opened Nucleotide
  import opened Rows
  import opened Catalog
  import opened Support

  // ---------------------------------------------------------------------
  // Sample names (src/matrix.rs:159-166)

  /** Where the sample name starts: after the first '/', if any. */
  function SampleStart(path: string): (start: nat)
    ensures start <= |path|
    ensures start == 0 <==> '/' !in path
    ensures start > 0 ==> path[start - 1] == '/' && '/' !in path[..start - 1]
  {
    match Find(path, '/')
    case Some(slash) => slash + 1
    case None => 0
  }

  /** Where the sample name ends: before a trailing ".bam", if any. */
  function SampleEnd(path: string): (end: nat)
    ensures end <= |path|
    ensures end < |path| <==> EndsWith(path, ".bam")
    ensures end < |path| ==> end == |path| - 4
  {
    if EndsWith(path, ".bam") then |path| - 4 else |path|
  }

  /** The slice `start..end` is always in order: a '/' cannot fall inside a
      trailing ".bam", so the slicing never panics. */
  lemma SampleBounds(path: string)
    ensures SampleStart(path) <= SampleEnd(path) <= |path|
  {
  }

  /** The sample name of a BAM path: everything after the first '/', less a
      trailing ".bam". */
  function SampleName(path: string): (name: string)
    ensures var suffix := if EndsWith(path, ".bam") then ".bam" else "";
            |name| + |suffix| <= |path| &&
            var prefix := path[..|path| - |suffix| - |name|];
            path == prefix + name + suffix &&
            ('/' in path <==> prefix != []) &&
            (prefix != [] ==> prefix[|prefix| - 1] == '/' && '/' !in prefix[..|prefix| - 1])
  {
    SampleBounds(path);
    var start, end := SampleStart(path), SampleEnd(path);
    assert path == path[..start] + path[start..end] + path[end..];
    assert start > 0 ==> path[..start][..start - 1] == path[..start - 1];
    path[start..end]
  }

  /** The sample loop of src/matrix.rs:159-166. */
  method SampleNames(paths: seq<string>) returns (samples: seq<string>)
    ensures |samples| == |paths|
    ensures forall i :: 0 <= i < |paths| ==> samples[i] == SampleName(paths[i])
  {
    samples := [];
    for s := 0 to |paths|
      invariant |samples| == s
      invariant forall i :: 0 <= i < s ==> samples[i] == SampleName(paths[i])
    {
      SampleBounds(paths[s]);
      var start := 0;
      var slash := Find(paths[s], '/');
      if slash.Some? {
        start := slash.value + 1;
      }
      var end := |paths[s]|;
      if EndsWith(paths[s], ".bam") {
        end := |paths[s]| - 4;
      }
      samples := samples + [paths[s][start..end]];
    }
  }

  // ---------------------------------------------------------------------
  // The printed table (src/matrix.rs:230-240)

  /** `"\t{}"` for each field in turn. */
  function Tabbed(fields: seq<string>): string {
    if fields == [] then "" else "\t" + fields[0] + Tabbed(fields[1..])
  }

  /** The eleven columns the header names before the sample columns. */
  const LeadingColumns: seq<string> :=
    ["CHROM", "STRAND", "POSITION", "NEARBY FEATURES",
     "CHROM", "STRAND", "POSITION", "NEARBY FEATURES",
     "SUPPORTING READS", "SIGNATURE", "NOTES"]

  /** The header line: the three `print!` calls spell out the eleven
      leading column names with a tab between neighbours, and each sample
      adds a tab and its name. */
  function HeaderLine(samples: seq<string>): string {
    Join(LeadingColumns, '\t') + Tabbed(samples)
  }

  /** The printed header starts with "CHROM" and a tab, so reading a printed
      table back as a rearrangement file skips it. */
  lemma HeaderSkipped(samples: seq<string>)
    ensures IsHeader(HeaderLine(samples))
  {
    var lead := Join(LeadingColumns, '\t');
    assert |lead| >= 6 && lead[..6] == "CHROM\t" by {
      assert lead == "CHROM" + ['\t'] + Join(LeadingColumns[1..], '\t');
    }
    var line := HeaderLine(samples);
    assert line == lead + Tabbed(samples);
    assert line[..6] == lead[..6];
  }

  function Decimals(counts: seq<nat>): (ds: seq<string>)
    ensures |ds| == |counts| && forall i :: 0 <= i < |counts| ==> ds[i] == NatToString(counts[i])
  {
    seq(|counts|, i requires 0 <= i < |counts| => NatToString(counts[i]))
  }

  /** One row: the first eight columns, an empty SUPPORTING READS column,
      the signature with a '|' at the breakpoint, an empty NOTES column, and
      one count per sample. */
  function RowLine(x: Rearrangement, counts: seq<nat>): string
    requires |x.signature| >= FlankLength
  {
    x.first8Cols + "\t\t" + Junction(x) + "\t" + Tabbed(Decimals(counts))
  }

  /** The signature as printed: a '|' between the two 20-base flanks. */
  function Junction(x: Rearrangement): (j: string)
    requires |x.signature| >= FlankLength
    ensures |j| == |x.signature| + 1 && j[FlankLength] == '|'
    ensures j[..FlankLength] + j[FlankLength + 1..] == x.signature
  {
    x.signature[..FlankLength] + "|" + x.signature[FlankLength..]
  }

  lemma {:induction false} TabbedJoin(fields: seq<string>)
    ensures fields != [] ==> Tabbed(fields) == "\t" + Join(fields, '\t')
    decreases |fields|
  {
    if |fields| > 1 {
      TabbedJoin(fields[1..]);
    }
  }

  lemma JoinThenTabbed(a: seq<string>, b: seq<string>)
    requires |a| >= 1
    ensures Join(a, '\t') + Tabbed(b) == Join(a + b, '\t')
  {
    if b == [] {
      assert a + b == a;
    } else {
      TabbedJoin(b);
      JoinAppend(a, b, '\t');
    }
  }

  /** With tab-free sample names, the header splits into the eleven
      leading column names and then one column per sample. */
  lemma HeaderColumns(samples: seq<string>)
    requires forall i :: 0 <= i < |samples| ==> '\t' !in samples[i]
    ensures Split(HeaderLine(samples), '\t') == LeadingColumns + samples
  {
    LeadingColumnsTabFree();
    var all := LeadingColumns + samples;
    forall i | 0 <= i < |all|
      ensures '\t' !in all[i]
    {
      if i < |LeadingColumns| {
        assert all[i] == LeadingColumns[i];
      } else {
        assert all[i] == samples[i - |LeadingColumns|];
      }
    }
    JoinThenTabbed(LeadingColumns, samples);
    SplitJoin(all, '\t');
  }

  lemma LeadingColumnsTabFree()
    ensures forall i :: 0 <= i < |LeadingColumns| ==> '\t' !in LeadingColumns[i]
  {
  }

  /** The row's separators regrouped around the three middle columns. */
  lemma RowLayout(a: string, j: string, t: string)
    ensures a + "\t\t" + j + "\t" + t == (a + "\t" + ("\t" + j + "\t")) + t
  {
    var tab := "\t";
    assert "\t\t" == tab + tab;
    assert a + (tab + tab) == a + tab + tab;
    assert a + tab + tab + j + tab == a + tab + (tab + j + tab);
  }

  lemma JunctionTabFree(x: Rearrangement)
    requires |x.signature| == SignatureLength && IsDna(x.signature)
    ensures '\t' !in Junction(x)
  {
    forall i | 0 <= i < |Junction(x)|
      ensures Junction(x)[i] != '\t'
    {
      if i < FlankLength {
        assert Junction(x)[i] == x.signature[i];
      } else if i > FlankLength {
        assert Junction(x)[i] == x.signature[i - 1];
      }
    }
  }

  /** Columns joined by tabs, then the three middle columns and the counts
      appended, is those eleven-plus columns joined by tabs. */
  lemma JoinRow(a: string, cols: seq<string>, j: string, ds: seq<string>)
    requires |cols| >= 1 && Join(cols, '\t') == a
    ensures a + "\t\t" + j + "\t" + Tabbed(ds) == Join(cols + ["", j, ""] + ds, '\t')
  {
    var mid := ["", j, ""];
    assert Join(mid, '\t') == "\t" + j + "\t" by {
      assert mid[1..] == [j, ""];
      assert mid[1..][1..] == [""];
      assert Join(mid[1..][1..], '\t') == "";
      assert Join(mid[1..], '\t') == j + "\t";
    }
    var t := Tabbed(ds);
    calc {
      a + "\t\t" + j + "\t" + t;
      { RowLayout(a, j, t); }
      (Join(cols, '\t') + "\t" + Join(mid, '\t')) + t;
      { JoinAppend(cols, mid, '\t'); }
      Join(cols + mid, '\t') + t;
      { JoinThenTabbed(cols + mid, ds); }
      Join(cols + mid + ds, '\t');
    }
  }

  /** A row is its columns joined by tabs. */
  lemma RowIsJoin(x: Rearrangement, counts: seq<nat>)
    requires |Split(x.first8Cols, '\t')| == 8 && |x.signature| >= FlankLength
    ensures RowLine(x, counts) == Join(Split(x.first8Cols, '\t') + ["", Junction(x), ""] + Decimals(counts), '\t')
  {
    JoinRow(x.first8Cols, Split(x.first8Cols, '\t'), Junction(x), Decimals(counts));
  }

  /** No column holds a tab. */
  predicate TabFree(parts: seq<string>) {
    forall i :: 0 <= i < |parts| ==> '\t' !in parts[i]
  }

  lemma TabFreeAppend(a: seq<string>, b: seq<string>)
    requires TabFree(a) && TabFree(b)
    ensures TabFree(a + b)
  {
    forall i | 0 <= i < |a + b|
      ensures '\t' !in (a + b)[i]
    {
      if i < |a| {
        assert (a + b)[i] == a[i];
      } else {
        assert (a + b)[i] == b[i - |a|];
      }
    }
  }

  /** Tab-free columns, joined by tabs, split back into themselves. */
  lemma SplitRow(cols: seq<string>, j: string, ds: seq<string>)
    requires |cols| >= 1 && '\t' !in j && TabFree(cols) && TabFree(ds)
    ensures Split(Join(cols + ["", j, ""] + ds, '\t'), '\t') == cols + ["", j, ""] + ds
  {
    var mid := ["", j, ""];
    assert TabFree(mid) by {
      assert mid[0] == [] && mid[1] == j && mid[2] == [];
    }
    TabFreeAppend(cols, mid);
    TabFreeAppend(cols + mid, ds);
    SplitJoin(cols + mid + ds, '\t');
  }

  /** A row splits back into the rearrangement's eight columns, the empty
      SUPPORTING READS column, the signature with its '|', the empty NOTES
      column and the counts in decimal. */
  lemma RowColumns(x: Rearrangement, counts: seq<nat>)
    requires |Split(x.first8Cols, '\t')| == 8
    requires |x.signature| == SignatureLength && IsDna(x.signature)
    ensures Split(RowLine(x, counts), '\t') ==
            Split(x.first8Cols, '\t') + ["", Junction(x), ""] + Decimals(counts)
  {
    var ds := Decimals(counts);
    JunctionTabFree(x);
    assert TabFree(ds) by {
      forall i | 0 <= i < |ds|
        ensures '\t' !in ds[i]
      {
        assert ds[i] == NatToString(counts[i]);
      }
    }
    RowIsJoin(x, counts);
    SplitRow(Split(x.first8Cols, '\t'), Junction(x), ds);
  }

  /** An accepted row keeps the first eight tab-separated columns of its
      line, so its printed row starts with them. */
  lemma AcceptedAnnotation(line: string)
    requires RowSpec(line).Accepted?
    ensures Split(RowSpec(line).rearrangement.first8Cols, '\t') == Split(line, '\t')[..8]
  {
    AcceptedRow(line);
    var cols := Split(line, '\t');
    forall i | 0 <= i < 8
      ensures '\t' !in cols[..8][i]
    {
      assert cols[..8][i] == cols[i];
    }
    SplitJoin(cols[..8], '\t');
  }

  // ---------------------------------------------------------------------
  // The catalogue (src/matrix.rs:209-220)

  /** Strictly increasing in byte order. */
  predicate Increasing(s: seq<string>) {
    forall i, j :: 0 <= i < j < |s| ==> LexLe(s[i], s[j]) && s[i] != s[j]
  }

  /** The signatures of `c`, in order. */
  function Signatures(c: seq<Rearrangement>): (s: seq<string>)
    ensures |s| == |c| && forall k :: 0 <= k < |c| ==> s[k] == c[k].signature
  {
    seq(|c|, k requires 0 <= k < |c| => c[k].signature)
  }

  /** What sorting and deduplicating `rs` may give: signatures strictly
      increasing, every element one of `rs`, every signature of `rs` kept.
      Which of several rows with one signature survives is left open, as
      the unstable sort leaves it open. */
  ghost predicate IsCatalogOf(c: seq<Rearrangement>, rs: seq<Rearrangement>) {
    Increasing(Signatures(c))
    && (forall i :: 0 <= i < |c| ==> c[i] in rs)
    && (forall j :: 0 <= j < |rs| ==> rs[j].signature in Signatures(c))
  }

  /** Equal multisets hold the same elements. */
  lemma PermutationMembers(a: seq<Rearrangement>, b: seq<Rearrangement>)
    requires multiset(a) == multiset(b)
    ensures forall i :: 0 <= i < |a| ==> a[i] in b
  {
    forall i | 0 <= i < |a|
      ensures a[i] in b
    {
      assert a[i] in multiset(a);
    }
  }

  /** Every retained element of a sorted permutation of `rs` is one of `rs`. */
  lemma HeadsMembers(sorted: seq<Rearrangement>, rs: seq<Rearrangement>)
    requires multiset(sorted) == multiset(rs)
    ensures forall i :: 0 <= i < |Heads(sorted)| ==> Heads(sorted)[i] in rs
  {
    var c := Heads(sorted);
    HeadsFromInput(sorted);
    PermutationMembers(sorted, rs);
    forall i | 0 <= i < |c|
      ensures c[i] in rs
    {
      var k :| 0 <= k < |sorted| && c[i] == sorted[k];
    }
  }

  /** Every signature of `rs` is retained from a permutation of it. */
  lemma HeadsSignatures(sorted: seq<Rearrangement>, rs: seq<Rearrangement>)
    requires multiset(sorted) == multiset(rs)
    ensures forall j :: 0 <= j < |rs| ==> rs[j].signature in Signatures(Heads(sorted))
  {
    var c := Heads(sorted);
    HeadsKeepSignatures(sorted);
    PermutationMembers(rs, sorted);
    forall j | 0 <= j < |rs|
      ensures rs[j].signature in Signatures(c)
    {
      var k :| 0 <= k < |sorted| && rs[j] == sorted[k];
      var i :| 0 <= i < |c| && c[i].signature == sorted[k].signature;
      assert Signatures(c)[i] == rs[j].signature;
    }
  }

  /** Deduplicating a sorted permutation of `rs` gives a catalogue of `rs`. */
  lemma SortedHeadsCatalog(sorted: seq<Rearrangement>, rs: seq<Rearrangement>)
    requires SortedBy(sorted, SignatureOf) && multiset(sorted) == multiset(rs)
    ensures IsCatalogOf(Heads(sorted), rs)
  {
    HeadsStrictlyIncreasing(sorted);
    HeadsMembers(sorted, rs);
    HeadsSignatures(sorted, rs);
  }

  /** Without a conflict in the sorted list, deduplication keeps every
      rearrangement of `rs`. */
  lemma NoConflictKeepsAll(sorted: seq<Rearrangement>, rs: seq<Rearrangement>)
    requires multiset(sorted) == multiset(rs) && AllValid(rs)
    requires forall k :: !Conflict(sorted, k)
    ensures forall j :: 0 <= j < |rs| ==> rs[j] in Heads(sorted)
  {
    assert AllValid(sorted) by {
      PermutationMembers(sorted, rs);
      forall k | 0 <= k < |sorted|
        ensures ValidRearrangement(sorted[k])
      {
        var j :| 0 <= j < |rs| && sorted[k] == rs[j];
      }
    }
    NoConflictNoLoss(sorted);
    PermutationMembers(rs, sorted);
    forall j | 0 <= j < |rs|
      ensures rs[j] in Heads(sorted)
    {
      var k :| 0 <= k < |sorted| && rs[j] == sorted[k];
    }
  }

  /** Sort by signature, report the conflicts, drop repeated signatures
      (src/matrix.rs:209-220). Without a conflict warning, no rearrangement
      is lost. */
  method BuildCatalog(rs: seq<Rearrangement>) returns (catalog: seq<Rearrangement>, warned: seq<nat>)
    ensures IsCatalogOf(catalog, rs)
    ensures AllValid(rs) && warned == [] ==> forall j :: 0 <= j < |rs| ==> rs[j] in catalog
  {
    var sorted := SortBySignature(rs);
    warned := ConflictWarnings(sorted);
    catalog := DedupBySignature(sorted);
    SortedHeadsCatalog(sorted, rs);
    if AllValid(rs) && warned == [] {
      NoConflictKeepsAll(sorted, rs);
    }
  }

  /** The rearrangements of a catalogue of valid ones are valid. */
  lemma CatalogValid(c: seq<Rearrangement>, rs: seq<Rearrangement>)
    requires IsCatalogOf(c, rs) && AllValid(rs)
    ensures AllValid(c)
  {
    forall i | 0 <= i < |c|
      ensures ValidRearrangement(c[i])
    {
      var j :| 0 <= j < |rs| && c[i] == rs[j];
    }
  }

  /** Every element of `s` occurs in `t`. */
  predicate Covers(s: seq<string>, t: seq<string>) {
    forall x :: x in s ==> x in t
  }

  /** Two non-empty increasing sequences with the same elements start alike. */
  lemma IncreasingFirst(s: seq<string>, t: seq<string>)
    requires s != [] && t != [] && Increasing(s) && Increasing(t)
    requires Covers(s, t) && Covers(t, s)
    ensures s[0] == t[0]
  {
    assert s[0] in t && t[0] in s;
    var m :| 0 <= m < |t| && t[m] == s[0];
    var n :| 0 <= n < |s| && s[n] == t[0];
    if m > 0 && n > 0 {
      assert LexLe(t[0], t[m]);
      assert LexLe(s[0], s[n]);
      LexLeAntisymmetric(s[0], t[0]);
    }
  }

  /** Dropping a common first element keeps the covering. */
  lemma CoversTail(s: seq<string>, t: seq<string>)
    requires s != [] && t != [] && s[0] == t[0] && Increasing(s) && Covers(s, t)
    ensures Covers(s[1..], t[1..])
  {
    forall x | x in s[1..]
      ensures x in t[1..]
    {
      var k :| 0 <= k < |s| - 1 && s[1..][k] == x;
      assert s[k + 1] == x && s[0] != s[k + 1];
      assert x in t;
      var p :| 0 <= p < |t| && t[p] == x;
      assert t[1..][p - 1] == x;
    }
  }

  /** Only an empty sequence is covered by an empty one. */
  lemma CoversNonEmpty(s: seq<string>, t: seq<string>)
    requires Covers(s, t) && s != []
    ensures t != []
  {
    assert s[0] in s;
  }

  /** Two strictly increasing sequences with the same elements are equal. */
  lemma {:induction false} IncreasingUnique(s: seq<string>, t: seq<string>)
    requires Increasing(s) && Increasing(t) && Covers(s, t) && Covers(t, s)
    ensures s == t
    decreases |s|
  {
    if s != [] {
      CoversNonEmpty(s, t);
    }
    if t != [] {
      CoversNonEmpty(t, s);
    }
    if s != [] && t != [] {
      IncreasingFirst(s, t);
      CoversTail(s, t);
      CoversTail(t, s);
      IncreasingUnique(s[1..], t[1..]);
      assert s == [s[0]] + s[1..] && t == [t[0]] + t[1..];
    }
  }

  /** The signatures of one catalogue all occur in another of the same
      rearrangements. */
  lemma CatalogCovers(c1: seq<Rearrangement>, c2: seq<Rearrangement>, rs: seq<Rearrangement>)
    requires IsCatalogOf(c1, rs) && IsCatalogOf(c2, rs)
    ensures Covers(Signatures(c1), Signatures(c2))
  {
    var s1, s2 := Signatures(c1), Signatures(c2);
    forall x | x in s1
      ensures x in s2
    {
      var k :| 0 <= k < |s1| && s1[k] == x;
      var j :| 0 <= j < |rs| && c1[k] == rs[j];
      assert rs[j].signature == x;
    }
  }

  /** Two catalogues of the same rearrangements list the same signatures in
      the same order: the rows printed depend on how the sort breaks ties
      only through the annotation of a repeated signature. */
  lemma CatalogSignaturesUnique(c1: seq<Rearrangement>, c2: seq<Rearrangement>, rs: seq<Rearrangement>)
    requires IsCatalogOf(c1, rs) && IsCatalogOf(c2, rs)
    ensures |c1| == |c2| && forall k :: 0 <= k < |c1| ==> c1[k].signature == c2[k].signature
  {
    CatalogCovers(c1, c2, rs);
    CatalogCovers(c2, c1, rs);
    IncreasingUnique(Signatures(c1), Signatures(c2));
    assert Signatures(c1) == Signatures(c2);
  }

  // ---------------------------------------------------------------------
  // Evidence and output (src/matrix.rs:222-240)

  /** `count_rearrangements` over every BAM file: the counts of each, or the
      fatal error of one that cannot be opened. The files are processed one
      after the other here; the source spreads them over a thread pool and
      collects the results in file order. */
  method CollectEvidence(bams: seq<BamFile>, catalog: seq<Rearrangement>) returns (r: Result<seq<seq<nat>>>)
    requires AllValid(catalog)
    ensures r.Err? <==> exists i :: 0 <= i < |bams| && bams[i].Unopenable?
    ensures r.Err? ==> r.error == UnreadableAlignments
    ensures r.Ok? ==> |r.value| == |bams| && forall i :: 0 <= i < |bams| ==>
              bams[i].Opened? && r.value[i] == Tally(bams[i].records, catalog)
  {
    var evidence: seq<seq<nat>> := [];
    for i := 0 to |bams|
      invariant |evidence| == i
      invariant forall m :: 0 <= m < i ==> bams[m].Opened? && evidence[m] == Tally(bams[m].records, catalog)
    {
      var counts := CountRearrangements(bams[i], catalog);
      if counts.Err? {
        return Err(counts.error);
      }
      evidence := evidence + [counts.value];
    }
    r := Ok(evidence);
  }

  /** The count of rearrangement `k` in each BAM file. */
  function Column(evidence: seq<seq<nat>>, k: nat): (col: seq<nat>)
    requires forall i :: 0 <= i < |evidence| ==> k < |evidence[i]|
    ensures |col| == |evidence| && forall i :: 0 <= i < |evidence| ==> col[i] == evidence[i][k]
  {
    seq(|evidence|, i requires 0 <= i < |evidence| => evidence[i][k])
  }

  /** The printed table: the header, then one row per rearrangement. */
  function Render(samples: seq<string>, catalog: seq<Rearrangement>, evidence: seq<seq<nat>>): (table: seq<string>)
    requires forall k :: 0 <= k < |catalog| ==> |catalog[k].signature| >= FlankLength
    requires forall i :: 0 <= i < |evidence| ==> |evidence[i]| == |catalog|
    ensures |table| == |catalog| + 1 && table[0] == HeaderLine(samples)
    ensures forall k :: 0 <= k < |catalog| ==> table[k + 1] == RowLine(catalog[k], Column(evidence, k))
  {
    var header, rows := HeaderLine(samples), RowLines(catalog, evidence);
    assert forall k :: 0 <= k < |rows| ==> ([header] + rows)[k + 1] == rows[k];
    [header] + rows
  }

  /** One row per rearrangement, in catalogue order. */
  function RowLines(catalog: seq<Rearrangement>, evidence: seq<seq<nat>>): (rows: seq<string>)
    requires forall k :: 0 <= k < |catalog| ==> |catalog[k].signature| >= FlankLength
    requires forall i :: 0 <= i < |evidence| ==> |evidence[i]| == |catalog|
    ensures |rows| == |catalog|
    ensures forall k :: 0 <= k < |catalog| ==> rows[k] == RowLine(catalog[k], Column(evidence, k))
  {
    seq(|catalog|, k requires 0 <= k < |catalog| => RowLine(catalog[k], Column(evidence, k)))
  }

  /** A rearrangement parsed from `lines` is valid, and its row begins with
      the first eight columns of the line it was read from. */
  lemma RowOrigin(lines: seq<string>, x: Rearrangement, counts: seq<nat>)
    requires ParseAll(lines).Ok? && x in ParseAll(lines).value.rearrangements
    ensures ValidRearrangement(x)
    ensures exists i :: 0 <= i < |lines| && RowSpec(lines[i]) == Accepted(x) &&
              Split(RowLine(x, counts), '\t') == Split(lines[i], '\t')[..8] + ["", Junction(x), ""] + Decimals(counts)
  {
    var rs := ParseAll(lines).value.rearrangements;
    var j :| 0 <= j < |rs| && rs[j] == x;
    var i :| 0 <= i < |lines| && RowSpec(lines[i]) == Accepted(rs[j]);
    AcceptedAnnotation(lines[i]);
    RowColumns(x, counts);
  }

  /** A catalogue of parsed rearrangements holds only valid ones. */
  lemma CatalogOfLinesValid(lines: seq<string>, catalog: seq<Rearrangement>)
    requires ParseAll(lines).Ok? && IsCatalogOf(catalog, ParseAll(lines).value.rearrangements)
    ensures AllValid(catalog)
  {
    CatalogValid(catalog, ParseAll(lines).value.rearrangements);
  }

  /** `row` is the printed row of `x` with `counts`, and `x` was read from
      one of `lines`: the row holds that line's first eight columns, the
      empty SUPPORTING READS column, the signature with its '|', the empty
      NOTES column and the counts in decimal. */
  ghost predicate PrintedFrom(lines: seq<string>, x: Rearrangement, row: string, counts: seq<nat>) {
    |x.signature| >= FlankLength &&
    exists i :: 0 <= i < |lines| && RowSpec(lines[i]) == Accepted(x) &&
      Split(row, '\t') == Split(lines[i], '\t')[..8] + ["", Junction(x), ""] + Decimals(counts)
  }

  /** Row `k + 1` of the table is printed from the line `catalog[k]` came
      from, with the count of `catalog[k]` in each BAM file, in file order. */
  lemma TableRowOrigin(lines: seq<string>, samples: seq<string>, catalog: seq<Rearrangement>, evidence: seq<seq<nat>>, k: nat)
    requires ParseAll(lines).Ok? && IsCatalogOf(catalog, ParseAll(lines).value.rearrangements)
    requires forall i :: 0 <= i < |evidence| ==> |evidence[i]| == |catalog|
    requires k < |catalog|
    ensures AllValid(catalog)
    ensures PrintedFrom(lines, catalog[k], Render(samples, catalog, evidence)[k + 1], Column(evidence, k))
  {
    CatalogOfLinesValid(lines, catalog);
    var row := Render(samples, catalog, evidence)[k + 1];
    assert row == RowLine(catalog[k], Column(evidence, k));
    RowOrigin(lines, catalog[k], Column(evidence, k));
  }

  /** The table is the header followed by one row per catalogue entry, each
      printed from the input line of its rearrangement. */
  lemma TableRows(lines: seq<string>, samples: seq<string>, catalog: seq<Rearrangement>, evidence: seq<seq<nat>>)
    requires ParseAll(lines).Ok? && IsCatalogOf(catalog, ParseAll(lines).value.rearrangements)
    requires forall i :: 0 <= i < |evidence| ==> |evidence[i]| == |catalog|
    ensures AllValid(catalog)
    ensures |Render(samples, catalog, evidence)| == |catalog| + 1
    ensures Render(samples, catalog, evidence)[0] == HeaderLine(samples)
    ensures forall k :: 0 <= k < |catalog| ==>
              PrintedFrom(lines, catalog[k], Render(samples, catalog, evidence)[k + 1], Column(evidence, k))
  {
    CatalogOfLinesValid(lines, catalog);
    forall k | 0 <= k < |catalog|
      ensures PrintedFrom(lines, catalog[k], Render(samples, catalog, evidence)[k + 1], Column(evidence, k))
    {
      TableRowOrigin(lines, samples, catalog, evidence, k);
    }
  }

  // ---------------------------------------------------------------------
  // The whole subcommand (src/matrix.rs:150-240)

  /** The sample column titles of the BAM paths. */
  function Samples(paths: seq<string>): (samples: seq<string>)
    ensures |samples| == |paths|
  {
    seq(|paths|, i requires 0 <= i < |paths| => SampleName(paths[i]))
  }

  /** The counts of every BAM file, when all of them can be opened. */
  function Evidence(bams: seq<BamFile>, catalog: seq<Rearrangement>): (evidence: seq<seq<nat>>)
    requires AllValid(catalog) && forall i :: 0 <= i < |bams| ==> bams[i].Opened?
    ensures |evidence| == |bams| && forall i :: 0 <= i < |bams| ==> |evidence[i]| == |catalog|
  {
    ValidSized(catalog);
    seq(|bams|, i requires 0 <= i < |bams| => Tally(bams[i].records, catalog))
  }

  /** `breakfast matrix`: the rearrangement file is given as its lines and
      each BAM path with the file it names. A malformed rearrangement line
      stops the run before any BAM file is read; an unreadable BAM file
      stops it after; otherwise the result is the printed table, built from
      some catalogue of the parsed rearrangements. */
  method RunMatrix(svLines: seq<string>, bamPaths: seq<string>, bams: seq<BamFile>) returns (r: Result<seq<string>>)
    requires |bams| == |bamPaths|
    ensures ParseAll(svLines).Err? ==> r == Err(ParseAll(svLines).error)
    ensures ParseAll(svLines).Ok? ==>
              (r.Err? <==> exists i :: 0 <= i < |bams| && bams[i].Unopenable?) &&
              (r.Err? ==> r.error == UnreadableAlignments)
    ensures r.Ok? ==>
              ParseAll(svLines).Ok? && (forall i :: 0 <= i < |bams| ==> bams[i].Opened?) &&
              exists catalog :: IsCatalogOf(catalog, ParseAll(svLines).value.rearrangements) &&
                AllValid(catalog) && r.value == Render(Samples(bamPaths), catalog, Evidence(bams, catalog))
  {
    var samples := SampleNames(bamPaths);
    var parsed := ParseRows(svLines);
    if parsed.Err? {
      return Err(parsed.error);
    }
    var catalog, warned := BuildCatalog(parsed.value.rearrangements);
    CatalogOfLinesValid(svLines, catalog);
    var evidence := CollectEvidence(bams, catalog);
    if evidence.Err? {
      return Err(evidence.error);
    }
    assert samples == Samples(bamPaths);
    assert evidence.value == Evidence(bams, catalog);
    r := Ok(Render(samples, catalog, evidence.value));
  }
}
