/** Counting, in one BAM file, the reads that support each rearrangement
    (`count_rearrangements`, src/matrix.rs:91-148). */
module Support {
  import opened Results
  import opened Text
  import opened Nucleotide
  import opened Rows

  /** One slot per 16-bit key: `bitvec![0; 65536]` and the 65536 buckets. */
  const TableSize: nat := 65536

  predicate AllValid(rs: seq<Rearrangement>) {
    forall i :: 0 <= i < |rs| ==> ValidRearrangement(rs[i])
  }

  /** Every signature is long enough to slice out its central eight bases. */
  predicate Sized(rs: seq<Rearrangement>) {
    forall i :: 0 <= i < |rs| ==> |rs[i].signature| >= 24 && |rs[i].signatureRevcomp| >= 24
  }

  lemma ValidSized(rs: seq<Rearrangement>)
    requires AllValid(rs)
    ensures Sized(rs)
  {
    forall i | 0 <= i < |rs|
      ensures |rs[i].signature| >= 24 && |rs[i].signatureRevcomp| >= 24
    {
      assert ValidRearrangement(rs[i]);
    }
  }

  /** The slot a signature is filed under: the key of its eight central
      bases, four on each side of the breakpoint. */
  function Slot(s: string): (k: int)
    requires |s| >= 24
    ensures 0 <= k < TableSize
  {
    KmerKey(s[16..24]) as int
  }

  // ---------------------------------------------------------------------
  // The lookup table (src/matrix.rs:99-112)

  /** The rearrangement numbers filed in slot `k`, in the order the build
      loop pushes them: for each rearrangement its signature, then its
      reverse complement. */
  function Bucket(rs: seq<Rearrangement>, k: int): (b: seq<nat>)
    requires Sized(rs)
    ensures forall j :: 0 <= j < |b| ==> b[j] < |rs|
  {
    if rs == [] then []
    else
      var n := |rs| - 1;
      var r := rs[n];
      assert Sized(rs[..n]) by {
        forall i | 0 <= i < n
          ensures rs[..n][i] == rs[i]
        {
        }
      }
      Bucket(rs[..n], k)
        + (if Slot(r.signature) == k then [n] else [])
        + (if Slot(r.signatureRevcomp) == k then [n] else [])
  }

  /** A rearrangement is in slot `k` exactly when its signature or its
      reverse complement is filed there. */
  lemma {:induction false} BucketMembers(rs: seq<Rearrangement>, k: int, i: nat)
    requires Sized(rs)
    ensures i in Bucket(rs, k) <==>
            i < |rs| && (Slot(rs[i].signature) == k || Slot(rs[i].signatureRevcomp) == k)
  {
    if rs != [] {
      var n := |rs| - 1;
      BucketMembers(rs[..n], k, i);
      if i < n {
        assert rs[..n][i] == rs[i];
      }
    }
  }

  /** Rearrangement numbers appear in a slot in increasing order, a
      palindromic core twice in a row. */
  lemma {:induction false} BucketOrdered(rs: seq<Rearrangement>, k: int)
    requires Sized(rs)
    ensures forall i, j :: 0 <= i < j < |Bucket(rs, k)| ==> Bucket(rs, k)[i] <= Bucket(rs, k)[j]
  {
    if rs != [] {
      var n := |rs| - 1;
      BucketOrdered(rs[..n], k);
      var bp := Bucket(rs[..n], k);
      var forward := if Slot(rs[n].signature) == k then [n] else [];
      var reverse := if Slot(rs[n].signatureRevcomp) == k then [n] else [];
      var b := Bucket(rs, k);
      assert b == bp + forward + reverse;
      forall i, j | 0 <= i < j < |b|
        ensures b[i] <= b[j]
      {
        if j < |bp| {
          assert b[i] == bp[i] && b[j] == bp[j];
          assert bp[i] <= bp[j];
        } else {
          assert b[j] == n;
          if i < |bp| {
            assert b[i] == bp[i];
          } else {
            assert b[i] == n;
          }
        }
      }
    }
  }

  /** `hash_8bp_sequence` on a valid signature's core succeeds, and the slot
      it gives is `Slot`. */
  method SlotOf(s: string) returns (k: int)
    requires |s| == SignatureLength && IsDna(s)
    ensures k == Slot(s)
  {
    var core := s[16..24];
    assert IsDna(core) by {
      forall i | 0 <= i < 8
        ensures IsBase(core[i])
      {
        assert core[i] == s[16 + i];
      }
    }
    var hash := Hash8bpSequence(core);
    BvWiden(KmerKey(core));
    k := hash.value as int;
  }

  /** All 65536 buckets of the table built from `rs`. */
  function BucketTable(rs: seq<Rearrangement>): (t: seq<seq<nat>>)
    requires Sized(rs)
    ensures |t| == TableSize && forall k :: 0 <= k < TableSize ==> t[k] == Bucket(rs, k)
  {
    seq(TableSize, k requires 0 <= k < TableSize => Bucket(rs, k))
  }

  /** `signature_exists` marks exactly the slots that hold something. */
  predicate Flags(present: seq<bool>, buckets: seq<seq<nat>>) {
    |present| == |buckets| && forall k :: 0 <= k < |present| ==> (present[k] <==> buckets[k] != [])
  }

  lemma FlagsFile(present: seq<bool>, buckets: seq<seq<nat>>, k: nat, n: nat)
    requires Flags(present, buckets) && k < |present|
    ensures Flags(present[k := true], buckets[k := buckets[k] + [n]])
  {
  }

  /** One more rearrangement `n` adds `n` to slot `k` once for its
      signature and once for its reverse complement, when they are filed
      there. */
  lemma BucketSnoc(rs: seq<Rearrangement>, n: nat, k: int)
    requires Sized(rs) && n < |rs|
    ensures Sized(rs[..n]) && Sized(rs[..n + 1])
    ensures Bucket(rs[..n + 1], k) == Bucket(rs[..n], k)
              + (if Slot(rs[n].signature) == k then [n] else [])
              + (if Slot(rs[n].signatureRevcomp) == k then [n] else [])
  {
    assert rs[..n + 1][..n] == rs[..n];
    assert rs[..n + 1][n] == rs[n];
  }

  /** Filing rearrangement `n`: its number is pushed under the slot of its
      signature, then under the slot of its reverse complement. */
  lemma TableSnoc(rs: seq<Rearrangement>, n: nat)
    requires Sized(rs) && n < |rs|
    ensures Sized(rs[..n]) && Sized(rs[..n + 1])
    ensures var t := BucketTable(rs[..n]);
            var f, v := Slot(rs[n].signature), Slot(rs[n].signatureRevcomp);
            var t1 := t[f := t[f] + [n]];
            BucketTable(rs[..n + 1]) == t1[v := t1[v] + [n]]
  {
    BucketSnoc(rs, n, 0);
    var t := BucketTable(rs[..n]);
    var f, v := Slot(rs[n].signature), Slot(rs[n].signatureRevcomp);
    var t1 := t[f := t[f] + [n]];
    var t2 := BucketTable(rs[..n + 1]);
    var t3 := t1[v := t1[v] + [n]];
    forall k | 0 <= k < TableSize
      ensures t2[k] == t3[k]
    {
      BucketSnoc(rs, n, k);
    }
    assert t2 == t3;
  }

  /** `signature_exists.set(hash, true)` and `signature_map[hash].push(r)`
      (src/matrix.rs:105-106, src/matrix.rs:110-111). */
  method FileEntry(present: array<bool>, buckets: array<seq<nat>>, k: nat, r: nat)
    requires k < present.Length
    requires Flags(present[..], buckets[..])
    modifies present, buckets
    ensures buckets[..] == old(buckets[..])[k := old(buckets[k]) + [r]]
    ensures Flags(present[..], buckets[..])
  {
    FlagsFile(present[..], buckets[..], k, r);
    present[k] := true;
    buckets[k] := buckets[k] + [r];
  }

  /** The table build of src/matrix.rs:99-112: `present` is
      `signature_exists`, `buckets` is `signature_map`. */
  method BuildIndex(rs: seq<Rearrangement>) returns (present: array<bool>, buckets: array<seq<nat>>)
    requires AllValid(rs)
    ensures fresh(present) && fresh(buckets)
    ensures Sized(rs) && buckets[..] == BucketTable(rs) && Flags(present[..], buckets[..])
  {
    ValidSized(rs);
    present := new bool[TableSize](_ => false);
    buckets := new seq<nat>[TableSize](_ => []);
    assert rs[..0] == [];
    for r := 0 to |rs|
      invariant Sized(rs[..r])
      invariant buckets[..] == BucketTable(rs[..r])
      invariant Flags(present[..], buckets[..])
    {
      TableSnoc(rs, r);
      assert ValidRearrangement(rs[r]);
      ghost var before := buckets[..];
      var forward := SlotOf(rs[r].signature);
      FileEntry(present, buckets, forward, r);
      ghost var middle := buckets[..];
      assert middle == before[forward := before[forward] + [r]];
      var reverse := SlotOf(rs[r].signatureRevcomp);
      FileEntry(present, buckets, reverse, r);
      assert buckets[..] == middle[reverse := middle[reverse] + [r]];
    }
    assert rs[..|rs|] == rs;
  }

  // ---------------------------------------------------------------------
  // Matching one read (src/matrix.rs:124-146)

  /** The read holds the full 40-base junction, in either orientation. */
  predicate Confirms(read: string, r: Rearrangement) {
    Contains(read, r.signature) || Contains(read, r.signatureRevcomp)
  }

  /** The first rearrangement of a bucket whose junction the read holds. */
  function FirstConfirmed(read: string, rs: seq<Rearrangement>, b: seq<nat>): (f: Option<nat>)
    requires forall j :: 0 <= j < |b| ==> b[j] < |rs|
    ensures f.Some? ==> f.value in b && Confirms(read, rs[f.value])
    ensures f.Some? ==>
              exists j :: 0 <= j < |b| && b[j] == f.value &&
                forall i :: 0 <= i < j ==> !Confirms(read, rs[b[i]])
    ensures f.None? <==> forall j :: 0 <= j < |b| ==> !Confirms(read, rs[b[j]])
  {
    if b == [] then None
    else if Confirms(read, rs[b[0]]) then Some(b[0])
    else
      assert forall j :: 1 <= j < |b| ==> b[j] == b[1..][j - 1];
      FirstConfirmed(read, rs, b[1..])
  }

  /** The unambiguous eight bases ending at position `p` of the read, if
      there are eight and none of them is ambiguous. */
  predicate Anchored(read: string, p: int) {
    7 <= p < |read| && IsDna(read[p - 7..p + 1])
  }

  /** What the scan finds at position `p` of the read: nothing unless the
      eight bases ending there are clean, else the first rearrangement of
      their slot whose junction the read holds. */
  function HitAt(read: string, rs: seq<Rearrangement>, p: int): (h: Option<nat>)
    requires Sized(rs)
    ensures h.Some? ==> h.value < |rs| && Confirms(read, rs[h.value])
  {
    if Anchored(read, p) then FirstConfirmed(read, rs, Bucket(rs, KmerKey(read[p - 7..p + 1]) as int))
    else None
  }

  /** The rearrangement credited with the read when the scan starts at
      position `p`: at the first anchored position whose slot holds a
      rearrangement the read confirms, the first such one of the slot. */
  function CreditFrom(read: string, rs: seq<Rearrangement>, p: nat): (c: Option<nat>)
    requires Sized(rs)
    ensures c.Some? ==> c.value < |rs| && Confirms(read, rs[c.value])
    decreases |read| - p
  {
    if p >= |read| then None
    else if HitAt(read, rs, p).Some? then HitAt(read, rs, p)
    else CreditFrom(read, rs, p + 1)
  }

  /** The rearrangement, if any, whose count the read increments. */
  function Credit(read: string, rs: seq<Rearrangement>): (c: Option<nat>)
    requires Sized(rs)
    ensures c.Some? ==> c.value < |rs| && Confirms(read, rs[c.value])
  {
    CreditFrom(read, rs, 0)
  }

  /** The first hit at or after `p` in a list of per-position hits. */
  function FirstHit(hits: seq<Option<nat>>, p: nat): Option<nat>
    decreases |hits| - p
  {
    if p >= |hits| then None
    else if hits[p].Some? then hits[p]
    else FirstHit(hits, p + 1)
  }

  /** `FirstHit` is the hit at the earliest position that has one. */
  lemma {:induction false} FirstHitEarliest(hits: seq<Option<nat>>, p: nat)
    ensures FirstHit(hits, p).None? <==> forall q :: p <= q < |hits| ==> hits[q].None?
    ensures FirstHit(hits, p).Some? ==>
              exists q :: p <= q < |hits| && hits[q] == FirstHit(hits, p) &&
                forall q' :: p <= q' < q ==> hits[q'].None?
    decreases |hits| - p
  {
    if p < |hits| {
      FirstHitEarliest(hits, p + 1);
      if hits[p].None? && FirstHit(hits, p).Some? {
        var q :| p + 1 <= q < |hits| && hits[q] == FirstHit(hits, p) &&
                 forall q' :: p + 1 <= q' < q ==> hits[q'].None?;
        assert forall q' :: p <= q' < q ==> hits[q'].None?;
      }
    }
  }

  /** The hits of the scan at every position of the read. */
  function Hits(read: string, rs: seq<Rearrangement>): (h: seq<Option<nat>>)
    requires Sized(rs)
    ensures |h| == |read| && forall q :: 0 <= q < |read| ==> h[q] == HitAt(read, rs, q)
  {
    seq(|read|, q requires 0 <= q < |read| => HitAt(read, rs, q))
  }

  lemma {:induction false} CreditFromFirstHit(read: string, rs: seq<Rearrangement>, p: nat)
    requires Sized(rs)
    ensures CreditFrom(read, rs, p) == FirstHit(Hits(read, rs), p)
    decreases |read| - p
  {
    if p < |read| {
      CreditFromFirstHit(read, rs, p + 1);
    }
  }

  /** The read is credited to the hit at the earliest position of the scan
      that has one (src/matrix.rs:131-145): the first rearrangement of that
      slot whose junction the read holds; none when no position has a hit. */
  lemma CreditEarliest(read: string, rs: seq<Rearrangement>)
    requires Sized(rs)
    ensures Credit(read, rs).None? <==> forall q :: 0 <= q < |read| ==> HitAt(read, rs, q).None?
    ensures Credit(read, rs).Some? ==>
              exists q :: 0 <= q < |read| && HitAt(read, rs, q) == Credit(read, rs) &&
                forall q' :: 0 <= q' < q ==> HitAt(read, rs, q').None?
  {
    var hits := Hits(read, rs);
    CreditFromFirstHit(read, rs, 0);
    FirstHitEarliest(hits, 0);
  }

  /** A hit at an anchored position `p` reached by the scan is not missed. */
  lemma {:induction false} CreditReaches(read: string, rs: seq<Rearrangement>, q: nat, p: nat)
    requires Sized(rs) && q <= p && Anchored(read, p)
    requires FirstConfirmed(read, rs, Bucket(rs, KmerKey(read[p - 7..p + 1]) as int)).Some?
    ensures CreditFrom(read, rs, q).Some?
    decreases p - q
  {
    if q < p {
      CreditReaches(read, rs, q + 1, p);
    }
  }

  /** A signature `sig` occurring at `i` of the read anchors the scan at the
      last base of its core, `i + 23`, under the slot of `sig`. */
  lemma CoreAnchors(read: string, sig: string, i: int)
    requires |sig| == SignatureLength && IsDna(sig) && OccursAt(read, sig, i)
    ensures Anchored(read, i + 23) && read[i + 16..i + 24] == sig[16..24]
  {
    var core := read[i + 16..i + 24];
    assert read[i..i + 40] == sig;
    forall j | 0 <= j < 8
      ensures core[j] == sig[16 + j] && IsBase(core[j])
    {
      assert core[j] == read[i + 16 + j] == read[i..i + 40][16 + j];
    }
    assert core == sig[16..24];
  }

  /** Every read that holds some rearrangement's junction, in either
      orientation, is credited to one. */
  lemma CreditComplete(read: string, rs: seq<Rearrangement>, r: nat)
    requires AllValid(rs) && r < |rs| && Confirms(read, rs[r])
    ensures Credit(read, rs).Some?
  {
    ValidSized(rs);
    var sig := if Contains(read, rs[r].signature) then rs[r].signature else rs[r].signatureRevcomp;
    var i :| 0 <= i <= |read| - |sig| && OccursAt(read, sig, i);
    CoreAnchors(read, sig, i);
    var p := i + 23;
    var k := KmerKey(read[p - 7..p + 1]) as int;
    assert k == Slot(sig);
    BucketMembers(rs, k, r);
    var b := Bucket(rs, k);
    var j :| 0 <= j < |b| && b[j] == r;
    CreditReaches(read, rs, 0, p);
  }

  /** One step of the rolling hash (src/matrix.rs:128-129): feed the base
      at `p`; when no ambiguity bit is left, the low 16 bits are the slot
      to look up. */
  method RollHash(read: string, p: nat, hash: bv32) returns (next: bv32, slot: Option<int>)
    requires p < |read| && hash == HashSequence(ReadSeed, read[..p])
    ensures next == HashSequence(ReadSeed, read[..p + 1])
    ensures slot.None? <==> !Anchored(read, p)
    ensures slot.Some? ==> slot.value == KmerKey(read[p - 7..p + 1]) as int
  {
    assert read[..p + 1][..p] == read[..p];
    next := HashNucleotide(hash, read[p]);
    RollingHash(read[..p + 1]);
    if next & AmbiguityMask > 0 {
      slot := None;
    } else {
      assert Window(read[..p + 1]) == read[p - 7..p + 1];
      var key := KmerKey(read[p - 7..p + 1]);
      BvLowOnly(next, key);
      BvWiden(key);
      slot := Some(next as int);
    }
  }

  /** The scan of a bucket from position `j` looks at `bucket[j]` first. */
  lemma FirstConfirmedStep(read: string, rs: seq<Rearrangement>, bucket: seq<nat>, j: nat)
    requires forall k :: 0 <= k < |bucket| ==> bucket[k] < |rs|
    requires j < |bucket|
    ensures FirstConfirmed(read, rs, bucket[j..]) ==
            if Confirms(read, rs[bucket[j]]) then Some(bucket[j])
            else FirstConfirmed(read, rs, bucket[j + 1..])
  {
    assert bucket[j..][1..] == bucket[j + 1..];
  }

  /** The inner loop of src/matrix.rs:134-144 over one slot: the first
      rearrangement whose full junction the read holds ends the scan. */
  method ScanBucket(read: string, rs: seq<Rearrangement>, bucket: seq<nat>) returns (hit: Option<nat>)
    requires forall j :: 0 <= j < |bucket| ==> bucket[j] < |rs|
    ensures hit == FirstConfirmed(read, rs, bucket)
  {
    for j := 0 to |bucket|
      invariant FirstConfirmed(read, rs, bucket) == FirstConfirmed(read, rs, bucket[j..])
    {
      FirstConfirmedStep(read, rs, bucket, j);
      var ridx := bucket[j];
      if Contains(read, rs[ridx].signature) || Contains(read, rs[ridx].signatureRevcomp) {
        return Some(ridx);
      }
    }
    hit := None;
  }

  /** The scan of one read, `'outer: for base in seq.bytes()`, given the
      table of `BuildIndex`. The labelled break ends the scan. */
  method MatchRead(read: string, rs: seq<Rearrangement>, present: array<bool>, buckets: array<seq<nat>>)
    returns (hit: Option<nat>)
    requires Sized(rs) && buckets[..] == BucketTable(rs) && Flags(present[..], buckets[..])
    ensures hit == Credit(read, rs)
  {
    var hash := ReadSeed;
    for p := 0 to |read|
      invariant hash == HashSequence(ReadSeed, read[..p])
      invariant CreditFrom(read, rs, p) == Credit(read, rs)
    {
      var slot;
      hash, slot := RollHash(read, p, hash);
      if slot.None? {
        continue;
      }
      if !present[slot.value] {
        continue;
      }
      hit := ScanBucket(read, rs, buckets[slot.value]);
      if hit.Some? {
        return;
      }
    }
    hit := None;
  }

  // ---------------------------------------------------------------------
  // Counting over a BAM file (src/matrix.rs:114-147)

  /** The fields of a BAM record the count looks at. */
  datatype BamRecord = BamRecord(sequence: string, unmapped: bool, duplicate: bool)

  /** Only unaligned reads that are not marked as duplicates are counted. */
  predicate Eligible(rec: BamRecord) {
    rec.unmapped && !rec.duplicate
  }

  /** A BAM file as the count sees it: it cannot be opened, or it yields
      its records in order. */
  datatype BamFile = Unopenable | Opened(records: seq<BamRecord>)

  /** `supporting_reads` after the given records. */
  function Tally(records: seq<BamRecord>, rs: seq<Rearrangement>): (t: seq<nat>)
    requires Sized(rs)
    ensures |t| == |rs|
  {
    if records == [] then seq(|rs|, _ => 0)
    else
      var t := Tally(records[..|records| - 1], rs);
      var rec := records[|records| - 1];
      if !Eligible(rec) then t
      else
        match Credit(rec.sequence, rs)
        case None => t
        case Some(r) => t[r := t[r] + 1]
  }

  /** `count_rearrangements`: build the table, open the file, scan every
      eligible read. */
  method CountRearrangements(bam: BamFile, rs: seq<Rearrangement>) returns (r: Result<seq<nat>>)
    requires AllValid(rs)
    ensures bam.Unopenable? ==> r == Err(UnreadableAlignments)
    ensures bam.Opened? ==> r == Ok(Tally(bam.records, rs))
  {
    ValidSized(rs);
    var present, buckets := BuildIndex(rs);
    var supporting := new nat[|rs|](_ => 0);
    if bam.Unopenable? {
      return Err(UnreadableAlignments);
    }
    var records := bam.records;
    assert supporting[..] == Tally(records[..0], rs);
    for i := 0 to |records|
      modifies supporting
      invariant supporting[..] == Tally(records[..i], rs)
    {
      assert records[..i + 1][..i] == records[..i];
      var rec := records[i];
      if !rec.unmapped {
        continue;
      }
      if rec.duplicate {
        continue;
      }
      var hit := MatchRead(rec.sequence, rs, present, buckets);
      if hit.Some? {
        supporting[hit.value] := supporting[hit.value] + 1;
      }
    }
    assert records[..|records|] == records;
    r := Ok(supporting[..]);
  }

  // ---------------------------------------------------------------------
  // What the counts mean

  function Sum(t: seq<nat>): nat {
    if t == [] then 0 else Sum(t[..|t| - 1]) + t[|t| - 1]
  }

  /** The eligible records that hold some rearrangement's junction. */
  function SupportingReads(records: seq<BamRecord>, rs: seq<Rearrangement>): nat {
    if records == [] then 0
    else
      var rec := records[|records| - 1];
      SupportingReads(records[..|records| - 1], rs)
        + (if Eligible(rec) && exists r :: 0 <= r < |rs| && Confirms(rec.sequence, rs[r]) then 1 else 0)
  }

  lemma {:induction false} SumZeros(n: nat)
    ensures Sum(seq(n, _ => 0)) == 0
  {
    if n > 0 {
      assert seq(n, _ => 0)[..n - 1] == seq(n - 1, _ => 0);
      SumZeros(n - 1);
    }
  }

  lemma {:induction false} SumIncrement(t: seq<nat>, i: nat)
    requires i < |t|
    ensures Sum(t[i := t[i] + 1]) == Sum(t) + 1
  {
    var u := t[i := t[i] + 1];
    if i < |t| - 1 {
      assert u[..|u| - 1] == t[..|t| - 1][i := t[i] + 1];
      SumIncrement(t[..|t| - 1], i);
    } else {
      assert u[..|u| - 1] == t[..|t| - 1];
    }
  }

  /** The counts add up to the number of eligible reads that hold a
      junction: every such read is counted, and once. */
  lemma {:induction false} TallyTotal(records: seq<BamRecord>, rs: seq<Rearrangement>)
    requires AllValid(rs)
    ensures Sum(Tally(records, rs)) == SupportingReads(records, rs)
  {
    if records == [] {
      SumZeros(|rs|);
    } else {
      var prefix, rec := records[..|records| - 1], records[|records| - 1];
      TallyTotal(prefix, rs);
      if Eligible(rec) {
        var c := Credit(rec.sequence, rs);
        if c.Some? {
          SumIncrement(Tally(prefix, rs), c.value);
        } else if exists r :: 0 <= r < |rs| && Confirms(rec.sequence, rs[r]) {
          var r :| 0 <= r < |rs| && Confirms(rec.sequence, rs[r]);
          CreditComplete(rec.sequence, rs, r);
        }
      }
    }
  }

  /** A rearrangement's count is at most the number of eligible reads that
      hold its junction. */
  lemma {:induction false} TallySound(records: seq<BamRecord>, rs: seq<Rearrangement>, r: nat)
    requires Sized(rs) && r < |rs|
    ensures Tally(records, rs)[r] <= CountConfirming(records, rs[r])
  {
    if records != [] {
      TallySound(records[..|records| - 1], rs, r);
    }
  }

  /** One more record: an eligible one adds one to the count of the
      rearrangement it credits, if any. */
  lemma TallySnoc(records: seq<BamRecord>, rec: BamRecord, rs: seq<Rearrangement>)
    requires Sized(rs)
    ensures var before := Tally(records, rs);
            Tally(records + [rec], rs) ==
              if Eligible(rec) && Credit(rec.sequence, rs).Some?
              then before[Credit(rec.sequence, rs).value := before[Credit(rec.sequence, rs).value] + 1]
              else before
  {
    var all := records + [rec];
    assert all[..|all| - 1] == records;
    assert all[|all| - 1] == rec;
  }

  /** One more record leaves every count as it was, unless it is eligible
      and holds some junction; then exactly one count, of a rearrangement
      whose junction it holds, grows by one. */
  lemma TallyStep(records: seq<BamRecord>, rec: BamRecord, rs: seq<Rearrangement>)
    requires AllValid(rs)
    ensures Sized(rs)
    ensures var before, after := Tally(records, rs), Tally(records + [rec], rs);
            (after == before <==> !(Eligible(rec) && exists r :: 0 <= r < |rs| && Confirms(rec.sequence, rs[r]))) &&
            (after != before ==> exists r :: 0 <= r < |rs| && Confirms(rec.sequence, rs[r]) && after == before[r := before[r] + 1])
  {
    ValidSized(rs);
    TallySnoc(records, rec, rs);
    var before, after := Tally(records, rs), Tally(records + [rec], rs);
    var c := Credit(rec.sequence, rs);
    if Eligible(rec) && exists r :: 0 <= r < |rs| && Confirms(rec.sequence, rs[r]) {
      var r :| 0 <= r < |rs| && Confirms(rec.sequence, rs[r]);
      CreditComplete(rec.sequence, rs, r);
      assert after[c.value] == before[c.value] + 1;
    } else if Eligible(rec) {
      assert c.None?;
    }
  }

  /** The eligible records that hold the junction of `x`. */
  function CountConfirming(records: seq<BamRecord>, x: Rearrangement): nat {
    if records == [] then 0
    else
      var rec := records[|records| - 1];
      CountConfirming(records[..|records| - 1], x)
        + (if Eligible(rec) && Confirms(rec.sequence, x) then 1 else 0)
  }
}
