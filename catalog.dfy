/** Ordering the rearrangements by signature, warning about rows that share a
    signature but not an annotation, and keeping one rearrangement per
    signature (src/matrix.rs:209-220). */
module Catalog {
  import opened Text
  import opened Sorting
  import opened Rows

  function SignatureOf(r: Rearrangement): string {
    r.signature
  }

  /** `sort_unstable_by` on the signature: byte order of the signatures, a
      permutation of its input. The order among equal signatures is left
      open, as the library leaves it open. */
  method SortBySignature(rs: seq<Rearrangement>) returns (sorted: seq<Rearrangement>)
    ensures SortedBy(sorted, SignatureOf) && multiset(sorted) == multiset(rs)
  {
    sorted := SortBy(rs, SignatureOf);
  }

  /** Position `k` of the sorted list repeats the previous signature with a
      different annotation: the case the warning loop reports. */
  predicate Conflict(rs: seq<Rearrangement>, k: int) {
    1 <= k < |rs| && rs[k - 1].signature == rs[k].signature && rs[k - 1].first8Cols != rs[k].first8Cols
  }

  /** The warning loop of src/matrix.rs:210-219: the positions it reports,
      in increasing order. */
  method ConflictWarnings(rs: seq<Rearrangement>) returns (warned: seq<nat>)
    ensures forall k :: k in warned <==> Conflict(rs, k)
    ensures forall i, j :: 0 <= i < j < |warned| ==> warned[i] < warned[j]
  {
    warned := [];
    var k := 1;
    while k < |rs|
      invariant 1 <= k
      invariant forall m :: m in warned <==> Conflict(rs, m) && m < k
      invariant forall i :: 0 <= i < |warned| ==> warned[i] < k
      invariant forall i, j :: 0 <= i < j < |warned| ==> warned[i] < warned[j]
    {
      if rs[k - 1].signature == rs[k].signature && rs[k - 1].first8Cols != rs[k].first8Cols {
        warned := warned + [k];
      }
      k := k + 1;
    }
  }

  /** What `dedup_by` on equal signatures keeps: every element whose
      signature differs from the one just before it. */
  function Heads(rs: seq<Rearrangement>): (h: seq<Rearrangement>)
    ensures |h| <= |rs|
    ensures rs != [] ==> h != [] && h[0] == rs[0] && h[|h| - 1].signature == rs[|rs| - 1].signature
  {
    if rs == [] then []
    else
      var prefix, last := rs[..|rs| - 1], rs[|rs| - 1];
      if prefix != [] && prefix[|prefix| - 1].signature == last.signature then Heads(prefix)
      else Heads(prefix) + [last]
  }

  /** `dedup_by(|a, b| a.signature == b.signature)`: compares each element
      with the last one retained. */
  method DedupBySignature(rs: seq<Rearrangement>) returns (kept: seq<Rearrangement>)
    ensures kept == Heads(rs)
  {
    kept := [];
    for i := 0 to |rs|
      invariant kept == Heads(rs[..i])
    {
      assert rs[..i + 1][..i] == rs[..i];
      if kept == [] || kept[|kept| - 1].signature != rs[i].signature {
        kept := kept + [rs[i]];
      }
    }
    assert rs[..|rs|] == rs;
  }

  /** One step of `Heads`: the last element is kept exactly when its
      signature differs from the one before it. */
  lemma HeadsSnoc(rs: seq<Rearrangement>)
    requires rs != []
    ensures var prefix := rs[..|rs| - 1];
            if prefix != [] && prefix[|prefix| - 1].signature == rs[|rs| - 1].signature
            then Heads(rs) == Heads(prefix)
            else Heads(rs) == Heads(prefix) + [rs[|rs| - 1]]
  {
  }

  /** Deduplication keeps only elements of its input, in their order. */
  lemma {:induction false} HeadsFromInput(rs: seq<Rearrangement>)
    ensures forall i :: 0 <= i < |Heads(rs)| ==> exists k :: 0 <= k < |rs| && Heads(rs)[i] == rs[k]
  {
    if rs != [] {
      var prefix := rs[..|rs| - 1];
      HeadsFromInput(prefix);
      var hp, h := Heads(prefix), Heads(rs);
      HeadsSnoc(rs);
      forall i | 0 <= i < |h|
        ensures exists k :: 0 <= k < |rs| && h[i] == rs[k]
      {
        if i < |hp| {
          assert h[i] == hp[i];
          var k :| 0 <= k < |prefix| && hp[i] == prefix[k];
          assert rs[k] == prefix[k];
        } else {
          assert h[i] == rs[|rs| - 1];
        }
      }
    } else {
      assert Heads(rs) == [];
    }
  }

  /** After sorting, the retained signatures are strictly increasing: one
      rearrangement per signature. */
  lemma {:induction false} HeadsStrictlyIncreasing(rs: seq<Rearrangement>)
    requires SortedBy(rs, SignatureOf)
    ensures var h := Heads(rs);
            forall i, j :: 0 <= i < j < |h| ==>
              LexLe(h[i].signature, h[j].signature) && h[i].signature != h[j].signature
    ensures rs != [] ==> forall i :: 0 <= i < |Heads(rs)| ==> LexLe(Heads(rs)[i].signature, rs[|rs| - 1].signature)
  {
    if rs != [] {
      var prefix, last := rs[..|rs| - 1], rs[|rs| - 1];
      assert SortedBy(prefix, SignatureOf) by {
        forall i, j | 0 <= i < j < |prefix|
          ensures LexLe(SignatureOf(prefix[i]), SignatureOf(prefix[j]))
        {
          assert prefix[i] == rs[i] && prefix[j] == rs[j];
        }
      }
      HeadsStrictlyIncreasing(prefix);
      var hp, h := Heads(prefix), Heads(rs);
      HeadsSnoc(rs);
      if prefix == [] {
        LexLeReflexive(last.signature);
      } else {
        var n := |prefix| - 1;
        assert LexLe(SignatureOf(rs[n]), SignatureOf(rs[n + 1]));
        assert rs[n] == prefix[n];
        forall i | 0 <= i < |hp|
          ensures LexLe(hp[i].signature, last.signature)
          ensures prefix[n].signature != last.signature ==> hp[i].signature != last.signature
        {
          LexLeTransitive(hp[i].signature, prefix[n].signature, last.signature);
          if hp[i].signature == last.signature {
            LexLeAntisymmetric(prefix[n].signature, last.signature);
          }
        }
        if prefix[n].signature != last.signature {
          assert h == hp + [last];
          LexLeReflexive(last.signature);
        }
      }
    }
  }

  /** Deduplication loses no signature: each input signature is the
      signature of a retained element. */
  lemma {:induction false} HeadsKeepSignatures(rs: seq<Rearrangement>)
    ensures forall j :: 0 <= j < |rs| ==>
              exists i :: 0 <= i < |Heads(rs)| && Heads(rs)[i].signature == rs[j].signature
  {
    if rs != [] {
      var prefix, last := rs[..|rs| - 1], rs[|rs| - 1];
      HeadsKeepSignatures(prefix);
      var hp := Heads(prefix);
      var h := Heads(rs);
      HeadsSnoc(rs);
      assert forall i :: 0 <= i < |hp| ==> hp[i] == h[i];
      forall j | 0 <= j < |rs|
        ensures exists i :: 0 <= i < |h| && h[i].signature == rs[j].signature
      {
        if j < |prefix| {
          assert rs[j] == prefix[j];
        } else if prefix != [] && prefix[|prefix| - 1].signature == last.signature {
          assert h[|h| - 1].signature == rs[j].signature;
        } else {
          assert h[|h| - 1] == rs[j];
        }
      }
    }
  }

  /** Without a conflict, deduplicating valid rearrangements drops only exact
      copies: every input rearrangement is still there. */
  lemma {:induction false} NoConflictNoLoss(rs: seq<Rearrangement>)
    requires forall k :: 0 <= k < |rs| ==> ValidRearrangement(rs[k])
    requires forall k :: !Conflict(rs, k)
    ensures forall j :: 0 <= j < |rs| ==> rs[j] in Heads(rs)
    ensures rs != [] ==> Heads(rs)[|Heads(rs)| - 1] == rs[|rs| - 1]
  {
    if rs != [] {
      var prefix, last := rs[..|rs| - 1], rs[|rs| - 1];
      assert forall k :: !Conflict(prefix, k) by {
        forall k ensures !Conflict(prefix, k) {
          assert !Conflict(rs, k);
        }
      }
      NoConflictNoLoss(prefix);
      var hp := Heads(prefix);
      if prefix != [] && prefix[|prefix| - 1].signature == last.signature {
        var n := |prefix| - 1;
        assert !Conflict(rs, n + 1);
        assert rs[n] == last;
      }
      forall j | 0 <= j < |rs|
        ensures rs[j] in Heads(rs)
      {
        if j < |prefix| {
          assert rs[j] == prefix[j];
        }
      }
    }
  }
}
