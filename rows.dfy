/** Reading the rearrangement file (src/matrix.rs:168-207): one consensus
    junction signature per row, from the reads listed in its ninth column. */
module Rows {
  import opened Results
  import opened Text
  import opened Nucleotide
  import opened MajorityVote

  /** One called breakpoint: a 40-base junction signature (20 bases on each
      side of the breakpoint), its reverse complement, and the row's first
      eight columns joined by tabs. */
  datatype Rearrangement = Rearrangement(signature: string, signatureRevcomp: string, first8Cols: string)

  const FlankLength: nat := 20
  const SignatureLength: nat := 40

  predicate ValidRearrangement(r: Rearrangement) {
    |r.signature| == SignatureLength && IsDna(r.signature)
    && r.signatureRevcomp == ReverseComplement(r.signature)
  }

  /** `p` is the position of the first '|' of `read`. */
  predicate FirstPipe(read: string, p: int) {
    0 <= p < |read| && read[p] == '|' && '|' !in read[..p]
  }

  /** `read.find('|')` finds the first '|', and there is only one first. */
  lemma FirstPipeIsFind(read: string)
    ensures forall p :: FirstPipe(read, p) ==> Find(read, '|') == Some(p)
  {
    var f := Find(read, '|');
    forall p | FirstPipe(read, p)
      ensures f == Some(p)
    {
      assert read[p] in read;
    }
  }

  /** The candidate signature of one read `left|right` of the ninth column:
      the 20 characters before the first '|' and the 20 after it. A read
      without a '|' or with fewer than 20 characters after it is fatal; one
      with fewer than 20 before it gives no candidate. */
  function CandidateOf(read: string): (r: Result<Option<string>>)
    ensures r == Err(MissingPipe) <==> '|' !in read
    ensures r == Err(TruncatedRead) <==>
              exists p :: FirstPipe(read, p) && FlankLength <= p && |read| <= p + FlankLength
    ensures r.Ok? && r.value.Some? <==>
              exists p :: FirstPipe(read, p) && FlankLength <= p && p + FlankLength < |read|
    ensures r.Err? ==> r == Err(MissingPipe) || r == Err(TruncatedRead)
    ensures r.Ok? && r.value.Some? ==>
              var c := r.value.value;
              |c| == SignatureLength &&
              exists p :: FirstPipe(read, p) && FlankLength <= p && p + FlankLength < |read|
                       && c == read[p - FlankLength..p] + read[p + 1..p + FlankLength + 1]
  {
    FirstPipeIsFind(read);
    match Find(read, '|')
    case None => Err(MissingPipe)
    case Some(pipe) =>
      assert FirstPipe(read, pipe);
      if pipe < FlankLength then Ok(None)
      else if pipe + FlankLength + 1 > |read| then Err(TruncatedRead)
      else Ok(Some(read[pipe - FlankLength..pipe] + read[pipe + 1..pipe + FlankLength + 1]))
  }

  /** The candidates of a row's reads in order; the first fatal read decides
      the error. */
  function Candidates(rowReads: seq<string>): (r: Result<seq<string>>)
    ensures r.Err? <==> exists j :: 0 <= j < |rowReads| && CandidateOf(rowReads[j]).Err?
    ensures r.Err? ==>
              exists j :: 0 <= j < |rowReads| && CandidateOf(rowReads[j]) == Err(r.error) &&
                forall i :: 0 <= i < j ==> CandidateOf(rowReads[i]).Ok?
    ensures r.Err? ==> r.error == MissingPipe || r.error == TruncatedRead
    ensures r.Ok? ==> |r.value| <= |rowReads|
    ensures r.Ok? ==> forall i :: 0 <= i < |r.value| ==>
              exists j :: 0 <= j < |rowReads| && CandidateOf(rowReads[j]) == Ok(Some(r.value[i]))
  {
    if rowReads == [] then Ok([])
    else
      var prefix, read := rowReads[..|rowReads| - 1], rowReads[|rowReads| - 1];
      assert forall j :: 0 <= j < |prefix| ==> prefix[j] == rowReads[j];
      match Candidates(prefix)
      case Err(e) => Err(e)
      case Ok(cs) =>
        match CandidateOf(read)
        case Err(e) => Err(e)
        case Ok(None) => Ok(cs)
        case Ok(Some(c)) => Ok(cs + [c])
  }

  /** The outcome of every read of a row, in read order. */
  function ReadResults(rowReads: seq<string>): (results: seq<Result<Option<string>>>)
    ensures |results| == |rowReads|
    ensures forall j :: 0 <= j < |rowReads| ==> results[j] == CandidateOf(rowReads[j])
  {
    seq(|rowReads|, j requires 0 <= j < |rowReads| => CandidateOf(rowReads[j]))
  }

  /** `idx` lists, in increasing order, exactly the positions of `results`
      that hold a candidate, and `cs` holds those candidates in that order. */
  ghost predicate PicksIn(results: seq<Result<Option<string>>>, cs: seq<string>, idx: seq<nat>) {
    |idx| == |cs|
    && (forall i, j :: 0 <= i < j < |idx| ==> idx[i] < idx[j])
    && (forall i :: 0 <= i < |idx| ==> idx[i] < |results| && results[idx[i]] == Ok(Some(cs[i])))
    && (forall j :: 0 <= j < |results| && results[j].Ok? && results[j].value.Some? ==> j in idx)
  }

  /** `idx` lists, in increasing order, exactly the reads that yield a
      candidate, and `cs` holds their candidates in that order. */
  ghost predicate PicksOf(rowReads: seq<string>, cs: seq<string>, idx: seq<nat>) {
    PicksIn(ReadResults(rowReads), cs, idx)
  }

  /** `PicksIn` carries over from all results but the last to all of them
      when the last one adds `cs'[|cs'| - 1]` at `idx'[|idx'| - 1]`, or
      nothing. */
  lemma PicksExtend(results: seq<Result<Option<string>>>, cs: seq<string>, idx: seq<nat>,
                    cs': seq<string>, idx': seq<nat>)
    requires results != [] && PicksIn(results[..|results| - 1], cs, idx)
    requires var n := |results| - 1;
             if results[n].Ok? && results[n].value.Some?
             then cs' == cs + [results[n].value.value] && idx' == idx + [n]
             else cs' == cs && idx' == idx
    ensures PicksIn(results, cs', idx')
  {
    var n := |results| - 1;
    var prefix := results[..n];
    assert forall i :: 0 <= i < |idx| ==> idx'[i] == idx[i] && cs'[i] == cs[i];
    assert forall i, j :: 0 <= i < j < |idx'| ==> idx'[i] < idx'[j] by {
      forall i, j | 0 <= i < j < |idx'|
        ensures idx'[i] < idx'[j]
      {
        assert idx[i] < |prefix|;
      }
    }
    assert forall i :: 0 <= i < |idx'| ==> idx'[i] < |results| && results[idx'[i]] == Ok(Some(cs'[i])) by {
      forall i | 0 <= i < |idx'|
        ensures idx'[i] < |results| && results[idx'[i]] == Ok(Some(cs'[i]))
      {
        if i < |idx| {
          assert prefix[idx[i]] == results[idx[i]];
        }
      }
    }
    assert forall j :: 0 <= j < |results| && results[j].Ok? && results[j].value.Some? ==> j in idx' by {
      forall j | 0 <= j < |results| && results[j].Ok? && results[j].value.Some?
        ensures j in idx'
      {
        if j < n {
          assert prefix[j] == results[j];
          assert j in idx;
        }
      }
    }
  }

  /** The vote runs over every read's candidate, once per read and in read
      order. */
  lemma {:induction false} CandidatesComplete(rowReads: seq<string>)
    requires Candidates(rowReads).Ok?
    ensures exists idx :: PicksOf(rowReads, Candidates(rowReads).value, idx)
  {
    var results := ReadResults(rowReads);
    if rowReads != [] {
      var n := |rowReads| - 1;
      var prefix := rowReads[..n];
      CandidatesComplete(prefix);
      var cs := Candidates(prefix).value;
      var idx :| PicksOf(prefix, cs, idx);
      assert ReadResults(prefix) == results[..n];
      assert PicksIn(results[..n], cs, idx);
      assert results[n] == CandidateOf(rowReads[n]);
      if results[n].Ok? && results[n].value.Some? {
        var cs' := cs + [results[n].value.value];
        assert Candidates(rowReads).value == cs';
        PicksExtend(results, cs, idx, cs', idx + [n]);
        assert PicksOf(rowReads, cs', idx + [n]);
      } else {
        assert Candidates(rowReads).value == cs;
        PicksExtend(results, cs, idx, cs, idx);
        assert PicksOf(rowReads, cs, idx);
      }
    } else {
      assert PicksIn(results, [], []);
      assert PicksOf(rowReads, [], []);
    }
  }

  /** What one line of the rearrangement file contributes. */
  datatype RowOutcome =
    | Skipped             // the header, or a row with fewer than nine columns
    | Ambiguous           // the consensus has a base other than A, C, G, T
    | Accepted(rearrangement: Rearrangement)
    | Panicked(error: Error)

  predicate IsHeader(line: string) {
    StartsWith(line, "CHROM\t")
  }

  /** What a data row gives once its candidates are collected: the fatal
      read's error, a panic when there is no candidate, or the upper-cased
      winner of the vote, dropped as ambiguous unless it is all A, C, G, T. */
  function Verdict(cands: Result<seq<string>>, first8: seq<string>): RowOutcome {
    match cands
    case Err(e) => Panicked(e)
    case Ok(cs) =>
      if cs == [] then Panicked(NoCandidates)
      else
        var signature := ToUpper(Consensus(cs));
        if !IsDna(signature) then Ambiguous
        else Accepted(Rearrangement(signature, ReverseComplement(signature), Join(first8, '\t')))
  }

  /** The body of the row loop of src/matrix.rs:174-204 for one line. */
  function RowSpec(line: string): (o: RowOutcome)
    ensures o.Accepted? ==> ValidRearrangement(o.rearrangement)
  {
    if IsHeader(line) then Skipped
    else
      var cols := Split(line, '\t');
      if |cols| < 9 then Skipped
      else Verdict(Candidates(Split(cols[8], ';')), cols[..8])
  }

  /** Once a prefix of the reads holds a fatal read, the rest do not matter. */
  lemma {:induction false} CandidatesFailFast(rowReads: seq<string>, i: nat)
    requires i <= |rowReads| && Candidates(rowReads[..i]).Err?
    ensures Candidates(rowReads) == Candidates(rowReads[..i])
    decreases |rowReads| - i
  {
    if i < |rowReads| {
      assert rowReads[..i + 1][..i] == rowReads[..i];
      CandidatesFailFast(rowReads, i + 1);
    } else {
      assert rowReads[..i] == rowReads;
    }
  }

  /** One more read after reads without a fatal one. */
  lemma CandidatesSnoc(rowReads: seq<string>, i: nat, cs: seq<string>)
    requires i < |rowReads| && Candidates(rowReads[..i]) == Ok(cs)
    ensures CandidateOf(rowReads[i]).Err? ==> Candidates(rowReads[..i + 1]) == Err(CandidateOf(rowReads[i]).error)
    ensures CandidateOf(rowReads[i]) == Ok(None) ==> Candidates(rowReads[..i + 1]) == Ok(cs)
    ensures CandidateOf(rowReads[i]).Ok? && CandidateOf(rowReads[i]).value.Some? ==>
              Candidates(rowReads[..i + 1]) == Ok(cs + [CandidateOf(rowReads[i]).value.value])
  {
    assert rowReads[..i + 1][..i] == rowReads[..i];
  }

  /** The inner loop of src/matrix.rs:179-186 over the reads of one row. */
  method CollectCandidates(rowReads: seq<string>) returns (r: Result<seq<string>>)
    ensures r == Candidates(rowReads)
  {
    var signatures: seq<string> := [];
    for i := 0 to |rowReads|
      invariant Candidates(rowReads[..i]) == Ok(signatures)
    {
      CandidatesSnoc(rowReads, i, signatures);
      var read := rowReads[i];
      var found := Find(read, '|');
      if found.None? {
        assert CandidateOf(read) == Err(MissingPipe);
        CandidatesFailFast(rowReads, i + 1);
        return Err(MissingPipe);
      }
      var pipe := found.value;
      if pipe < FlankLength {
        assert CandidateOf(read) == Ok(None);
        continue;
      }
      if pipe + FlankLength + 1 > |read| {
        assert CandidateOf(read) == Err(TruncatedRead);
        CandidatesFailFast(rowReads, i + 1);
        return Err(TruncatedRead);
      }
      var candidate := read[pipe - FlankLength..pipe] + read[pipe + 1..pipe + FlankLength + 1];
      assert CandidateOf(read) == Ok(Some(candidate));
      signatures := signatures + [candidate];
    }
    assert rowReads[..|rowReads|] == rowReads;
    r := Ok(signatures);
  }

  /** One pass of the row loop of src/matrix.rs:174-204. */
  method ParseRow(line: string) returns (o: RowOutcome)
    ensures o == RowSpec(line)
  {
    if IsHeader(line) {
      return Skipped;
    }
    var cols := Split(line, '\t');
    if |cols| < 9 {
      return Skipped;
    }
    var collected := CollectCandidates(Split(cols[8], ';'));
    if collected.Err? {
      return Panicked(collected.error);
    }
    var signatures := collected.value;
    if |signatures| == 0 {
      return Panicked(NoCandidates);
    }
    var signature := MostFrequent(signatures);
    signature := ToUpper(signature);
    if !IsDna(signature) {
      return Ambiguous;
    }
    var signatureRevcomp := ReverseComplement(signature);
    o := Accepted(Rearrangement(signature, signatureRevcomp, Join(cols[..8], '\t')));
  }

  /** The rearrangements read so far, and how many rows were dropped for an
      ambiguous consensus (`skipped_ambiguous`). */
  datatype ParsedRows = ParsedRows(rearrangements: seq<Rearrangement>, skippedAmbiguous: nat)

  /** The row outcomes gathered in order: the first fatal row aborts. */
  function Gather(outcomes: seq<RowOutcome>): (r: Result<ParsedRows>)
    ensures r.Err? <==> exists i :: 0 <= i < |outcomes| && outcomes[i].Panicked?
    ensures r.Ok? ==> |r.value.rearrangements| + r.value.skippedAmbiguous <= |outcomes|
    ensures r.Ok? ==> forall k :: 0 <= k < |r.value.rearrangements| ==>
              exists i :: 0 <= i < |outcomes| && outcomes[i] == Accepted(r.value.rearrangements[k])
  {
    if outcomes == [] then Ok(ParsedRows([], 0))
    else
      var prefix, last := outcomes[..|outcomes| - 1], outcomes[|outcomes| - 1];
      assert forall i :: 0 <= i < |prefix| ==> prefix[i] == outcomes[i];
      match Gather(prefix)
      case Err(e) => Err(e)
      case Ok(p) =>
        match last
        case Skipped => Ok(p)
        case Ambiguous => Ok(p.(skippedAmbiguous := p.skippedAmbiguous + 1))
        case Accepted(r) => Ok(p.(rearrangements := p.rearrangements + [r]))
        case Panicked(e) => Err(e)
  }

  lemma {:induction false} GatherFailFast(outcomes: seq<RowOutcome>, i: nat)
    requires i <= |outcomes| && Gather(outcomes[..i]).Err?
    ensures Gather(outcomes) == Gather(outcomes[..i])
    decreases |outcomes| - i
  {
    if i < |outcomes| {
      assert outcomes[..i + 1][..i] == outcomes[..i];
      GatherFailFast(outcomes, i + 1);
    } else {
      assert outcomes[..i] == outcomes;
    }
  }

  function Outcomes(lines: seq<string>): (o: seq<RowOutcome>)
    ensures |o| == |lines| && forall i :: 0 <= i < |lines| ==> o[i] == RowSpec(lines[i])
  {
    if lines == [] then []
    else Outcomes(lines[..|lines| - 1]) + [RowSpec(lines[|lines| - 1])]
  }

  /** The whole row loop of src/matrix.rs:168-204: the rearrangements of the
      accepted rows in line order and the count of ambiguous rows, or the
      error of the first fatal row. */
  function ParseAll(lines: seq<string>): (r: Result<ParsedRows>)
    ensures r.Err? <==> exists i :: 0 <= i < |lines| && RowSpec(lines[i]).Panicked?
    ensures r.Ok? ==> |r.value.rearrangements| + r.value.skippedAmbiguous <= |lines|
    ensures r.Ok? ==> forall k :: 0 <= k < |r.value.rearrangements| ==>
              ValidRearrangement(r.value.rearrangements[k]) &&
              exists i :: 0 <= i < |lines| && RowSpec(lines[i]) == Accepted(r.value.rearrangements[k])
  {
    var o := Outcomes(lines);
    var r := Gather(o);
    assert r.Ok? ==> forall k :: 0 <= k < |r.value.rearrangements| ==>
              ValidRearrangement(r.value.rearrangements[k]) by {
      if r.Ok? {
        forall k | 0 <= k < |r.value.rearrangements|
          ensures ValidRearrangement(r.value.rearrangements[k])
        {
          var i :| 0 <= i < |o| && o[i] == Accepted(r.value.rearrangements[k]);
        }
      }
    }
    r
  }

  /** One more outcome after rows that parsed: a skipped row adds nothing,
      an ambiguous one counts, an accepted one appends, a panicking one
      stops with its error. */
  lemma GatherSnoc(outcomes: seq<RowOutcome>, last: RowOutcome, rs: seq<Rearrangement>, n: nat)
    requires Gather(outcomes) == Ok(ParsedRows(rs, n))
    ensures last == Skipped ==> Gather(outcomes + [last]) == Ok(ParsedRows(rs, n))
    ensures last == Ambiguous ==> Gather(outcomes + [last]) == Ok(ParsedRows(rs, n + 1))
    ensures last.Accepted? ==> Gather(outcomes + [last]) == Ok(ParsedRows(rs + [last.rearrangement], n))
    ensures last.Panicked? ==> Gather(outcomes + [last]) == Err(last.error)
  {
    assert (outcomes + [last])[..|outcomes|] == outcomes;
  }

  /** Taking one more element of a sequence appends it. */
  lemma TakeSnoc<T>(s: seq<T>, i: nat)
    requires i < |s|
    ensures s[..i + 1] == s[..i] + [s[i]]
  {
  }

  /** One pass of the row loop: how the running totals of the first `i`
      outcomes move to the first `i + 1`, and that a panic decides the
      whole run. */
  lemma GatherStep(all: seq<RowOutcome>, i: nat, rs: seq<Rearrangement>, n: nat)
    requires i < |all| && Gather(all[..i]) == Ok(ParsedRows(rs, n))
    ensures var o, next := all[i], Gather(all[..i + 1]);
            (o == Skipped ==> next == Ok(ParsedRows(rs, n))) &&
            (o == Ambiguous ==> next == Ok(ParsedRows(rs, n + 1))) &&
            (o.Accepted? ==> next == Ok(ParsedRows(rs + [o.rearrangement], n))) &&
            (o.Panicked? ==> Gather(all) == Err(o.error))
  {
    TakeSnoc(all, i);
    GatherSnoc(all[..i], all[i], rs, n);
    if all[i].Panicked? {
      GatherFailFast(all, i + 1);
    }
  }

  /** The row loop of src/matrix.rs:168-204 over the lines of the file. */
  method ParseRows(lines: seq<string>) returns (r: Result<ParsedRows>)
    ensures r == ParseAll(lines)
  {
    var rearrangements: seq<Rearrangement> := [];
    var skippedAmbiguous := 0;
    for i := 0 to |lines|
      invariant Gather(Outcomes(lines)[..i]) == Ok(ParsedRows(rearrangements, skippedAmbiguous))
    {
      GatherStep(Outcomes(lines), i, rearrangements, skippedAmbiguous);
      var outcome := ParseRow(lines[i]);
      match outcome {
        case Skipped =>
        case Ambiguous =>
          skippedAmbiguous := skippedAmbiguous + 1;
        case Accepted(rearrangement) =>
          rearrangements := rearrangements + [rearrangement];
        case Panicked(e) =>
          return Err(e);
      }
    }
    assert Outcomes(lines)[..|lines|] == Outcomes(lines);
    r := Ok(ParsedRows(rearrangements, skippedAmbiguous));
  }

  /** The first '|' of the read has fewer than 20 characters before it. */
  predicate ShortLeft(read: string) {
    exists p :: 0 <= p < FlankLength && FirstPipe(read, p)
  }

  /** A read gives no candidate, without failing, exactly when its first '|'
      has fewer than 20 characters before it. */
  lemma CandidateSkipped(read: string)
    ensures CandidateOf(read) == Ok(None) <==> ShortLeft(read)
  {
    FirstPipeIsFind(read);
    var f := Find(read, '|');
    if f.Some? {
      assert FirstPipe(read, f.value);
    }
  }

  /** A row has no candidate at all, without a fatal read, exactly when every
      read is skipped. */
  lemma AllReadsSkipped(rowReads: seq<string>)
    ensures Candidates(rowReads) == Ok([]) <==>
            forall j :: 0 <= j < |rowReads| ==> CandidateOf(rowReads[j]) == Ok(None)
  {
    var r := Candidates(rowReads);
    if r.Ok? {
      CandidatesComplete(rowReads);
      var idx :| PicksOf(rowReads, r.value, idx);
      var results := ReadResults(rowReads);
      if r.value != [] {
        assert results[idx[0]] != Ok(None);
      } else {
        forall j | 0 <= j < |rowReads|
          ensures CandidateOf(rowReads[j]) == Ok(None)
        {
          assert !(j in idx);
        }
      }
    }
  }

  /** A line is skipped exactly when it is the header or has fewer than nine
      tab-separated columns. */
  lemma RowSkipped(line: string)
    ensures RowSpec(line) == Skipped <==> IsHeader(line) || |Split(line, '\t')| < 9
  {
  }

  /** An accepted row's signature is the upper-cased candidate of one of its
      reads, and its annotation is its first eight columns. */
  lemma AcceptedRow(line: string)
    requires RowSpec(line).Accepted?
    ensures var r := RowSpec(line).rearrangement;
            var cols := Split(line, '\t');
            !IsHeader(line) && |cols| >= 9 && r.first8Cols == Join(cols[..8], '\t') &&
            exists j :: 0 <= j < |Split(cols[8], ';')| &&
              CandidateOf(Split(cols[8], ';')[j]).Ok? &&
              CandidateOf(Split(cols[8], ';')[j]).value.Some? &&
              r.signature == ToUpper(CandidateOf(Split(cols[8], ';')[j]).value.value)
  {
    var cols := Split(line, '\t');
    var cands := Candidates(Split(cols[8], ';')).value;
    var c := Consensus(cands);
    var i :| 0 <= i < |cands| && cands[i] == c;
  }

  /** What a data row (not the header, at least nine columns) gives: a fatal
      read, or no candidate at all (every read has its '|' within the first
      20 characters), panics; otherwise, with `c` the winner of the vote,
      the row is ambiguous exactly when `c` upper-cased is not all A, C, G,
      T, and is accepted with that signature otherwise. */
  lemma RowOutcomes(line: string)
    requires !IsHeader(line) && |Split(line, '\t')| >= 9
    ensures var cols := Split(line, '\t');
            var rowReads := Split(cols[8], ';');
            var o := RowSpec(line);
            (o.Panicked? <==> Candidates(rowReads).Err? || Candidates(rowReads) == Ok([])) &&
            (o == Panicked(NoCandidates) <==>
              forall j :: 0 <= j < |rowReads| ==> ShortLeft(rowReads[j])) &&
            (Candidates(rowReads).Ok? && Candidates(rowReads).value != [] ==>
              forall c :: IsMostFrequent(Candidates(rowReads).value, c) ==>
                (o == Ambiguous <==> !IsDna(ToUpper(c))) &&
                (IsDna(ToUpper(c)) ==>
                  o == Accepted(Rearrangement(ToUpper(c), ReverseComplement(ToUpper(c)), Join(cols[..8], '\t')))))
  {
    var cols := Split(line, '\t');
    var rowReads := Split(cols[8], ';');
    assert RowSpec(line) == Verdict(Candidates(rowReads), cols[..8]);
    ReadsOutcome(rowReads);
    VerdictOutcomes(Candidates(rowReads), cols[..8]);
  }

  /** The reads of a row give no candidate, without a fatal read, exactly
      when every read has its '|' within the first 20 characters. */
  lemma ReadsOutcome(rowReads: seq<string>)
    ensures Candidates(rowReads) == Ok([]) <==>
            forall j :: 0 <= j < |rowReads| ==> ShortLeft(rowReads[j])
  {
    AllReadsSkipped(rowReads);
    if Candidates(rowReads) == Ok([]) {
      forall j | 0 <= j < |rowReads|
        ensures ShortLeft(rowReads[j])
      {
        CandidateSkipped(rowReads[j]);
      }
    } else if forall j :: 0 <= j < |rowReads| ==> ShortLeft(rowReads[j]) {
      forall j | 0 <= j < |rowReads|
        ensures CandidateOf(rowReads[j]) == Ok(None)
      {
        CandidateSkipped(rowReads[j]);
      }
    }
  }

  /** The verdict on collected candidates: a panic exactly for an error or no
      candidate; otherwise the upper-cased winner of the vote decides. */
  lemma VerdictOutcomes(cands: Result<seq<string>>, first8: seq<string>)
    ensures var o := Verdict(cands, first8);
            (o.Panicked? <==> cands.Err? || cands == Ok([])) &&
            (cands.Ok? ==> (o == Panicked(NoCandidates) <==> cands.value == [])) &&
            (cands.Err? ==> o == Panicked(cands.error)) &&
            (cands.Ok? && cands.value != [] ==>
              forall c :: IsMostFrequent(cands.value, c) ==>
                (o == Ambiguous <==> !IsDna(ToUpper(c))) &&
                (IsDna(ToUpper(c)) ==>
                  o == Accepted(Rearrangement(ToUpper(c), ReverseComplement(ToUpper(c)), Join(first8, '\t')))))
  {
    if cands.Ok? && cands.value != [] {
      forall c | IsMostFrequent(cands.value, c)
        ensures c == Consensus(cands.value)
      {
        MostFrequentUnique(cands.value, c, Consensus(cands.value));
      }
    }
  }

  /** One more line: once a line has panicked nothing changes; otherwise a
      skipped line adds nothing, an ambiguous one counts one more skipped
      row, an accepted one appends its rearrangement, and a panicking one
      stops the run with its error. */
  lemma ParseAllSnoc(lines: seq<string>, line: string)
    ensures var before, after := ParseAll(lines), ParseAll(lines + [line]);
            (before.Err? ==> after == before) &&
            (before.Ok? ==>
              after == match RowSpec(line)
                case Skipped => before
                case Ambiguous => Ok(before.value.(skippedAmbiguous := before.value.skippedAmbiguous + 1))
                case Accepted(x) => Ok(before.value.(rearrangements := before.value.rearrangements + [x]))
                case Panicked(e) => Err(e))
  {
    var all := lines + [line];
    assert all[..|lines|] == lines;
    var o := Outcomes(all);
    assert o == Outcomes(lines) + [RowSpec(line)];
    assert o[..|o| - 1] == Outcomes(lines);
  }

  /** `idx` lists, in increasing order, exactly the positions of the
      accepted outcomes, and `rs` holds their rearrangements in that order. */
  ghost predicate AcceptedAt(outcomes: seq<RowOutcome>, rs: seq<Rearrangement>, idx: seq<nat>) {
    |idx| == |rs|
    && (forall i, j :: 0 <= i < j < |idx| ==> idx[i] < idx[j])
    && (forall i :: 0 <= i < |idx| ==> idx[i] < |outcomes| && outcomes[idx[i]] == Accepted(rs[i]))
    && (forall j :: 0 <= j < |outcomes| && outcomes[j].Accepted? ==> j in idx)
  }

  /** The positions of the ambiguous outcomes. */
  ghost function AmbiguousAt(outcomes: seq<RowOutcome>): set<nat> {
    set i: nat | i < |outcomes| && outcomes[i] == Ambiguous
  }

  /** `AcceptedAt` carries over to one more outcome, which adds its
      rearrangement when it is an acceptance. */
  lemma AcceptedExtend(outcomes: seq<RowOutcome>, rs: seq<Rearrangement>, idx: seq<nat>, rs': seq<Rearrangement>, idx': seq<nat>)
    requires outcomes != [] && AcceptedAt(outcomes[..|outcomes| - 1], rs, idx)
    requires var n := |outcomes| - 1;
             if outcomes[n].Accepted?
             then rs' == rs + [outcomes[n].rearrangement] && idx' == idx + [n]
             else rs' == rs && idx' == idx
    ensures AcceptedAt(outcomes, rs', idx')
  {
    var n := |outcomes| - 1;
    var prefix := outcomes[..n];
    assert forall i :: 0 <= i < |idx| ==> idx'[i] == idx[i] && rs'[i] == rs[i];
    assert forall i, j :: 0 <= i < j < |idx'| ==> idx'[i] < idx'[j] by {
      forall i, j | 0 <= i < j < |idx'|
        ensures idx'[i] < idx'[j]
      {
        assert idx[i] < |prefix|;
      }
    }
    assert forall i :: 0 <= i < |idx'| ==>
             idx'[i] < |outcomes| && outcomes[idx'[i]] == Accepted(rs'[i]) by {
      forall i | 0 <= i < |idx'|
        ensures idx'[i] < |outcomes| && outcomes[idx'[i]] == Accepted(rs'[i])
      {
        if i < |idx| {
          assert prefix[idx[i]] == outcomes[idx[i]];
        }
      }
    }
    assert forall j :: 0 <= j < |outcomes| && outcomes[j].Accepted? ==> j in idx' by {
      forall j | 0 <= j < |outcomes| && outcomes[j].Accepted?
        ensures j in idx'
      {
        if j < n {
          assert prefix[j] == outcomes[j];
          assert j in idx;
        }
      }
    }
  }

  /** One more outcome adds its position when it is ambiguous. */
  lemma AmbiguousAtSnoc(outcomes: seq<RowOutcome>)
    requires outcomes != []
    ensures var n := |outcomes| - 1;
            AmbiguousAt(outcomes) ==
              AmbiguousAt(outcomes[..n]) + (if outcomes[n] == Ambiguous then {n} else {})
            && n !in AmbiguousAt(outcomes[..n])
  {
    var n := |outcomes| - 1;
    assert forall i :: 0 <= i < n ==> outcomes[..n][i] == outcomes[i];
  }

  /** Without a panic, gathering keeps the rearrangement of every accepted
      outcome, once and in order, and counts exactly the ambiguous ones. */
  lemma {:induction false} GatherComplete(outcomes: seq<RowOutcome>)
    requires Gather(outcomes).Ok?
    ensures exists idx :: AcceptedAt(outcomes, Gather(outcomes).value.rearrangements, idx)
    ensures Gather(outcomes).value.skippedAmbiguous == |AmbiguousAt(outcomes)|
  {
    if outcomes == [] {
      assert AcceptedAt(outcomes, [], []);
      assert AmbiguousAt(outcomes) == {};
    } else {
      var n := |outcomes| - 1;
      var prefix := outcomes[..n];
      GatherComplete(prefix);
      var p := Gather(prefix).value;
      var idx :| AcceptedAt(prefix, p.rearrangements, idx);
      if outcomes[n].Accepted? {
        AcceptedExtend(outcomes, p.rearrangements, idx, p.rearrangements + [outcomes[n].rearrangement], idx + [n]);
      } else {
        AcceptedExtend(outcomes, p.rearrangements, idx, p.rearrangements, idx);
      }
      AmbiguousAtSnoc(outcomes);
    }
  }

  /** Without a panic, the run keeps the rearrangement of every accepted
      line, once and in line order, and counts exactly the ambiguous lines
      (`Outcomes(lines)[i]` is `RowSpec(lines[i])`). */
  lemma ParseAllComplete(lines: seq<string>)
    requires ParseAll(lines).Ok?
    ensures exists idx :: AcceptedAt(Outcomes(lines), ParseAll(lines).value.rearrangements, idx)
    ensures ParseAll(lines).value.skippedAmbiguous == |AmbiguousAt(Outcomes(lines))|
  {
    GatherComplete(Outcomes(lines));
  }
}
