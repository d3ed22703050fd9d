/** Nucleotides, reverse complements and the 2-bit rolling hash of
    src/matrix.rs. */
module Nucleotide {
  import opened Results

  predicate IsBase(c: char) {
    c == 'A' || c == 'C' || c == 'G' || c == 'T'
  }

  predicate IsDna(s: string) {
    forall i :: 0 <= i < |s| ==> IsBase(s[i])
  }

  function Complement(c: char): char {
    match c
    case 'A' => 'T'
    case 'C' => 'G'
    case 'G' => 'C'
    case 'T' => 'A'
    case _ => c
  }

  /** `reverse_complement`: read the strand backwards, pairing each base with its partner. */
  function ReverseComplement(s: string): (r: string)
    requires IsDna(s)
    ensures |r| == |s| && IsDna(r)
    ensures forall i :: 0 <= i < |s| ==> r[i] == Complement(s[|s| - 1 - i])
  {
    if s == [] then [] else [Complement(s[|s| - 1])] + ReverseComplement(s[..|s| - 1])
  }

  lemma ComplementInvolution(c: char)
    requires IsBase(c)
    ensures IsBase(Complement(c)) && Complement(Complement(c)) == c
  {
  }

  lemma ReverseComplementTwiceAt(s: string, i: nat)
    requires IsDna(s) && i < |s|
    ensures |ReverseComplement(ReverseComplement(s))| == |s|
    ensures ReverseComplement(ReverseComplement(s))[i] == s[i]
  {
    var r := ReverseComplement(s);
    assert r[|s| - 1 - i] == Complement(s[i]);
    ComplementInvolution(s[i]);
  }

  lemma ReverseComplementInvolution(s: string)
    requires IsDna(s)
    ensures ReverseComplement(ReverseComplement(s)) == s
  {
    forall i | 0 <= i < |s|
      ensures ReverseComplement(ReverseComplement(s))[i] == s[i]
    {
      ReverseComplementTwiceAt(s, i);
    }
  }

  // ---------------------------------------------------------------------
  // The hash of src/matrix.rs:50-55.  Bits 0-15 hold the 8-mer key, two bits
  // per base; bits 16-31 hold "ambiguity" bits that a non-ACGT base sets at
  // 16-17 and that the next eight shifts carry out of the word.

  const AmbiguityBits: bv32 := 0x0003_0000
  const KeepMask: bv32 := 0xFFFF_3FFF
  const AmbiguityMask: bv32 := 0xFFFF_0000

  function NucleotideCode(nuc: char): bv32 {
    match nuc
    case 'A' => 0
    case 'C' => 1
    case 'G' => 2
    case 'T' => 3
    case _ => AmbiguityBits
  }

  /** `hash_nucleotide`: the two low bits take the base's code, and a base
      other than A, C, G, T always leaves an ambiguity bit set. */
  function HashNucleotide(hash: bv32, nuc: char): (h: bv32)
    ensures h & 0x3 == KeyDigit(nuc) as bv32
    ensures !IsBase(nuc) ==> h & AmbiguityMask != 0
  {
    ((hash & KeepMask) << 2) + NucleotideCode(nuc)
  }

  /** The mask clears the two bits that the shift would move into bit 16, so
      the addition never carries and never wraps. */
  lemma HashNucleotideNoCarry(hash: bv32, nuc: char)
    ensures HashNucleotide(hash, nuc) == ((hash & KeepMask) << 2) | NucleotideCode(nuc)
    ensures HashNucleotide(hash, nuc) & 0x3 == NucleotideCode(nuc) & 0x3
  {
  }

  /** The hash after feeding the bases of `s` in order. */
  function HashSequence(hash: bv32, s: string): (h: bv32)
    ensures s != [] && !IsBase(s[|s| - 1]) ==> h & AmbiguityMask != 0
  {
    if s == [] then hash else HashNucleotide(HashSequence(hash, s[..|s| - 1]), s[|s| - 1])
  }

  // ---------------------------------------------------------------------
  // The same state as a plain record: the 16-bit key, and the ambiguity
  // marks (3 for a non-ACGT base, 0 otherwise) of the bases that are still
  // within the last eight, in the same base-4 positions as the key.

  datatype HashState = HashState(key: bv16, ambiguity: bv16)

  const Zero := HashState(0, 0)

  function Pack(st: HashState): bv32 {
    ((st.ambiguity as bv32) << 16) | (st.key as bv32)
  }

  function KeyDigit(c: char): bv16 {
    match c
    case 'A' => 0
    case 'C' => 1
    case 'G' => 2
    case 'T' => 3
    case _ => 0
  }

  function AmbiguityDigit(c: char): bv16 {
    if IsBase(c) then 0 else 3
  }

  function Step(st: HashState, c: char): HashState {
    HashState(((st.key & 0x3FFF) << 2) | KeyDigit(c),
              ((st.ambiguity & 0x3FFF) << 2) | AmbiguityDigit(c))
  }

  function Feed(st: HashState, s: string): HashState {
    if s == [] then st else Step(Feed(st, s[..|s| - 1]), s[|s| - 1])
  }

  lemma PackFields(st: HashState)
    ensures (Pack(st) & AmbiguityMask == 0) <==> st.ambiguity == 0
    ensures Pack(st) & 0xFFFF == st.key as bv32
  {
  }

  lemma PackInjective(a: HashState, b: HashState)
    requires Pack(a) == Pack(b)
    ensures a == b
  {
    BvPackSplit(a.key, a.ambiguity, b.key, b.ambiguity);
  }

  /** The code a base adds, split into its key part and its ambiguity part. */
  lemma CodeParts(c: char)
    ensures KeyDigit(c) < 4 && (AmbiguityDigit(c) == 0 || AmbiguityDigit(c) == 3)
    ensures NucleotideCode(c) == KeyDigit(c) as bv32 + ((AmbiguityDigit(c) as bv32) << 16)
  {
  }

  lemma StepPacks(st: HashState, c: char)
    ensures HashNucleotide(Pack(st), c) == Pack(Step(st, c))
  {
    CodeParts(c);
    BvPackStep(st.key, st.ambiguity, KeyDigit(c), AmbiguityDigit(c));
  }

  lemma {:induction false} HashSequencePacks(st: HashState, s: string)
    ensures HashSequence(Pack(st), s) == Pack(Feed(st, s))
    decreases |s|
  {
    if s != [] {
      HashSequencePacks(st, s[..|s| - 1]);
      StepPacks(Feed(st, s[..|s| - 1]), s[|s| - 1]);
    }
  }

  // ---------------------------------------------------------------------
  // Base-4 numbers of digit sequences, most significant digit first.

  predicate AreDigits(ds: seq<bv16>) {
    forall i :: 0 <= i < |ds| ==> ds[i] < 4
  }

  function Base4(ds: seq<bv16>): bv16 {
    if ds == [] then 0 else (Base4(ds[..|ds| - 1]) << 2) | ds[|ds| - 1]
  }

  function KeyDigits(s: string): seq<bv16> {
    seq(|s|, i requires 0 <= i < |s| => KeyDigit(s[i]))
  }

  function AmbiguityDigits(s: string): seq<bv16> {
    seq(|s|, i requires 0 <= i < |s| => AmbiguityDigit(s[i]))
  }

  /** The 16-bit key of a k-mer: its bases' codes as a base-4 number. */
  function KmerKey(s: string): bv16 {
    Base4(KeyDigits(s))
  }

  /** The last eight characters of `s` (all of `s` when it is shorter). */
  function Window(s: string): string {
    if |s| <= 8 then s else s[|s| - 8..]
  }

  /** The low `2 * n` bits of a 16-bit word: the largest base-4 number of n digits. */
  function LowMask(n: nat): bv16
    requires n <= 8
  {
    match n
    case 0 => 0x0000
    case 1 => 0x0003
    case 2 => 0x000F
    case 3 => 0x003F
    case 4 => 0x00FF
    case 5 => 0x03FF
    case 6 => 0x0FFF
    case 7 => 0x3FFF
    case _ => 0xFFFF
  }

  lemma LowMaskStep(n: nat)
    requires n < 8
    ensures LowMask(n + 1) == (LowMask(n) << 2) | 3
    ensures LowMask(n) <= 0x3FFF
  {
  }

  lemma {:induction false} Base4Bound(ds: seq<bv16>)
    requires AreDigits(ds) && |ds| <= 8
    ensures Base4(ds) <= LowMask(|ds|)
    decreases |ds|
  {
    if ds != [] {
      var p := ds[..|ds| - 1];
      Base4Bound(p);
      LowMaskStep(|p|);
      BvBound(Base4(p), ds[|ds| - 1], LowMask(|p|));
    }
  }

  /** Masking off the top digit of a base-4 number drops its first digit. */
  lemma {:induction false} Base4DropFirst(ds: seq<bv16>)
    requires AreDigits(ds) && 1 <= |ds| <= 8
    ensures Base4(ds) & LowMask(|ds| - 1) == Base4(ds[1..])
    decreases |ds|
  {
    var p, d := ds[..|ds| - 1], ds[|ds| - 1];
    if |ds| == 1 {
      assert Base4(ds) == (Base4([]) << 2) | d;
    } else {
      Base4DropFirst(p);
      assert ds[1..] == p[1..] + [d];
      assert ds[1..][..|ds[1..]| - 1] == p[1..];
      LowMaskStep(|p| - 1);
      BvDropDigit(Base4(p), d, LowMask(|p| - 1));
    }
  }

  lemma {:induction false} Base4Zero(ds: seq<bv16>)
    requires AreDigits(ds) && |ds| <= 8
    ensures Base4(ds) == 0 <==> forall i :: 0 <= i < |ds| ==> ds[i] == 0
    decreases |ds|
  {
    if ds != [] {
      var p := ds[..|ds| - 1];
      Base4Zero(p);
      Base4Bound(p);
      LowMaskStep(|p|);
      BvZero(Base4(p), ds[|ds| - 1]);
    }
  }

  lemma Base4Snoc(ds: seq<bv16>, d: bv16)
    ensures Base4(ds + [d]) == (Base4(ds) << 2) | d
  {
    assert (ds + [d])[..|ds|] == ds;
  }

  /** The masked key on eight digits or fewer, without its first digit when
      there are eight. */
  lemma Base4Masked(ds: seq<bv16>)
    requires AreDigits(ds) && |ds| <= 8
    ensures Base4(ds) & 0x3FFF == Base4(if |ds| == 8 then ds[1..] else ds)
    ensures Base4(if |ds| == 8 then ds[1..] else ds) <= 0x3FFF
  {
    if |ds| == 8 {
      Base4DropFirst(ds);
      Base4Bound(ds[1..]);
    } else {
      Base4Bound(ds);
      LowMaskStep(|ds|);
      BvKeepLow(Base4(ds));
    }
  }

  /** One step of the record on the digits of the last eight bases: the
      oldest digit leaves, the new one enters at the bottom. */
  lemma Base4Shift(ds: seq<bv16>, d: bv16)
    requires AreDigits(ds) && |ds| <= 8 && d < 4
    ensures ((Base4(ds) & 0x3FFF) << 2) | d
         == Base4((if |ds| == 8 then ds[1..] else ds) + [d])
  {
    var kept := if |ds| == 8 then ds[1..] else ds;
    Base4Masked(ds);
    Base4Snoc(kept, d);
  }

  /** The base a 2-bit code stands for. */
  function BaseOf(code: bv16): char {
    if code == 0 then 'A' else if code == 1 then 'C' else if code == 2 then 'G' else 'T'
  }

  lemma BaseOfKeyDigit(c: char)
    requires IsBase(c)
    ensures BaseOf(KeyDigit(c)) == c
  {
  }

  lemma KeyDigitBaseOf(d: bv16)
    requires d < 4
    ensures IsBase(BaseOf(d)) && KeyDigit(BaseOf(d)) == d
  {
  }

  /** The last `n` bases encoded in `key`, two bits per base, the last base in
      the lowest two bits. */
  function Decode(key: bv16, n: nat): (s: string)
    ensures |s| == n && IsDna(s)
  {
    if n == 0 then [] else Decode(key >> 2, n - 1) + [BaseOf(key & 3)]
  }

  /** The eight bases of a 16-bit key, the first in the top two bits. */
  function DecodeKmer(key: bv16): string {
    Decode(key, 8)
  }

  lemma {:induction false} DecodeKey(s: string)
    requires |s| <= 8 && IsDna(s)
    ensures Decode(KmerKey(s), |s|) == s
    decreases |s|
  {
    if s != [] {
      var p, c := s[..|s| - 1], s[|s| - 1];
      var x := KmerKey(p);
      DigitsSnoc(p, c);
      assert s == p + [c];
      Base4Snoc(KeyDigits(p), KeyDigit(c));
      Base4Bound(KeyDigits(p));
      LowMaskStep(|p|);
      BvSplitDigit(x, KeyDigit(c));
      DecodeKey(p);
      BaseOfKeyDigit(c);
    }
  }

  lemma {:induction false} KeyOfDecode(key: bv16, n: nat)
    requires n <= 8
    ensures KmerKey(Decode(key, n)) == key & LowMask(n)
    decreases n
  {
    if n > 0 {
      var p := Decode(key >> 2, n - 1);
      KeyOfDecode(key >> 2, n - 1);
      DigitsSnoc(p, BaseOf(key & 3));
      Base4Snoc(KeyDigits(p), KeyDigit(BaseOf(key & 3)));
      KeyDigitBaseOf(key & 3);
      LowMaskStep(n - 1);
      BvJoinDigit(key, LowMask(n - 1));
    }
  }

  /** The key of an 8-mer over A, C, G, T is the base-4 number of its bases'
      codes, first base most significant: decoding it gives the 8-mer back,
      and every 16-bit key is the key of the 8-mer it decodes to. */
  lemma KmerKeyRoundTrip(s: string, key: bv16)
    requires |s| == 8 && IsDna(s)
    ensures DecodeKmer(KmerKey(s)) == s
    ensures |DecodeKmer(key)| == 8 && KmerKey(DecodeKmer(key)) == key
  {
    DecodeKey(s);
    KeyOfDecode(key, 8);
  }

  lemma KmerKeyInjective(s: string, t: string)
    requires |s| == 8 && IsDna(s) && |t| == 8 && IsDna(t)
    requires KmerKey(s) == KmerKey(t)
    ensures s == t
  {
    DecodeKey(s);
    DecodeKey(t);
  }

  lemma WindowSnoc(s: string, c: char)
    ensures var w := Window(s);
            Window(s + [c]) == (if |w| == 8 then w[1..] else w) + [c]
  {
  }

  lemma DigitsSnoc(w: string, c: char)
    ensures KeyDigits(w + [c]) == KeyDigits(w) + [KeyDigit(c)]
    ensures AmbiguityDigits(w + [c]) == AmbiguityDigits(w) + [AmbiguityDigit(c)]
    ensures |w| > 0 ==> KeyDigits(w[1..]) == KeyDigits(w)[1..]
    ensures |w| > 0 ==> AmbiguityDigits(w[1..]) == AmbiguityDigits(w)[1..]
    ensures AreDigits(KeyDigits(w)) && AreDigits(AmbiguityDigits(w))
  {
  }

  /** The record of a window of at most eight bases. */
  function WindowState(w: string): HashState {
    HashState(KmerKey(w), Base4(AmbiguityDigits(w)))
  }

  /** A step moves the window on by one base, dropping its first base when
      it already holds eight. */
  lemma StepWindow(w: string, c: char)
    requires |w| <= 8
    ensures Step(WindowState(w), c) == WindowState((if |w| == 8 then w[1..] else w) + [c])
  {
    var kept := if |w| == 8 then w[1..] else w;
    DigitsSnoc(w, c);
    DigitsSnoc(kept, c);
    Base4Shift(KeyDigits(w), KeyDigit(c));
    Base4Shift(AmbiguityDigits(w), AmbiguityDigit(c));
  }

  /** From a zero hash, the record holds the key and the ambiguity marks of
      the last eight bases fed (of all of them while fewer were fed). */
  lemma {:induction false} FeedFromZero(s: string)
    ensures Feed(Zero, s) == WindowState(Window(s))
    decreases |s|
  {
    if s == [] {
      assert Window(s) == [];
    } else {
      var p, c := s[..|s| - 1], s[|s| - 1];
      assert s == p + [c];
      FeedFromZero(p);
      WindowSnoc(p, c);
      StepWindow(Window(p), c);
    }
  }

  lemma {:induction false} Base4LeadingZero(ds: seq<bv16>)
    ensures Base4([0] + ds) == Base4(ds)
    decreases |ds|
  {
    if ds != [] {
      var p := ds[..|ds| - 1];
      assert ([0] + ds)[..|ds|] == [0] + p;
      Base4LeadingZero(p);
    }
  }

  lemma {:induction false} FeedCons(st: HashState, c: char, s: string)
    ensures Feed(Step(st, c), s) == Feed(st, [c] + s)
    decreases |s|
  {
    if s != [] {
      var p := s[..|s| - 1];
      assert ([c] + s)[..|s|] == [c] + p;
      FeedCons(st, c, p);
    }
  }

  /** A window's ambiguity marks are all zero exactly when it is over A, C, G, T. */
  lemma AmbiguityDigitsZero(w: string)
    requires |w| <= 8
    ensures Base4(AmbiguityDigits(w)) == 0 <==> IsDna(w)
  {
    DigitsSnoc(w, 'A');
    Base4Zero(AmbiguityDigits(w));
    if !IsDna(w) {
      var i :| 0 <= i < |w| && !IsBase(w[i]);
      assert AmbiguityDigits(w)[i] == 3;
    }
  }

  /** Hashing eight characters from 0 (src/matrix.rs:57-62): the ambiguity
      bits stay clear exactly when all eight are A, C, G or T, and the low
      16 bits are the k-mer key. */
  lemma Hash8bp(s: string)
    requires |s| == 8
    ensures var h := HashSequence(0, s);
            (h & AmbiguityMask == 0 <==> IsDna(s)) && h & 0xFFFF == KmerKey(s) as bv32
  {
    assert Pack(Zero) == 0;
    HashSequencePacks(Zero, s);
    FeedFromZero(s);
    PackFields(Feed(Zero, s));
    AmbiguityDigitsZero(s);
  }

  /** An 8-mer over A, C, G, T hashes to its key. */
  lemma Hash8bpKey(s: string)
    requires |s| == 8 && IsDna(s)
    ensures HashSequence(0, s) == KmerKey(s) as bv32
  {
    Hash8bp(s);
    BvLowOnly(HashSequence(0, s), KmerKey(s));
  }

  /** `hash_8bp_sequence`: hash exactly eight characters from 0; an
      ambiguity bit left set is the fatal "Invalid sequence" error. */
  method Hash8bpSequence(s: string) returns (r: Result<bv32>)
    requires |s| == 8
    ensures r.Ok? <==> IsDna(s)
    ensures r.Ok? ==> r.value == KmerKey(s) as bv32
    ensures r.Err? ==> r.error == InvalidSequence
  {
    var hash: bv32 := 0;
    for i := 0 to |s|
      invariant hash == HashSequence(0, s[..i])
    {
      assert s[..i + 1][..i] == s[..i];
      hash := HashNucleotide(hash, s[i]);
    }
    assert s[..|s|] == s;
    Hash8bp(s);
    if hash & AmbiguityMask > 0 {
      r := Err(InvalidSequence);
    } else {
      Hash8bpKey(s);
      r := Ok(hash);
    }
  }

  lemma PolyAHashesToZero()
    ensures KmerKey("AAAAAAAA") == 0 && HashSequence(0, "AAAAAAAA") == 0
  {
    var s := "AAAAAAAA";
    Base4Zero(KeyDigits(s));
    Hash8bpKey(s);
  }

  /** The seed a read's hash starts from (src/matrix.rs:130): the state after
      one ambiguous base, so no key is probed before eight bases are in. */
  const ReadSeed: bv32 := 0x0003_0000

  lemma ReadSeedIsAmbiguousBase()
    ensures Pack(Step(Zero, 'N')) == ReadSeed
  {
  }

  /** The rolling hash of src/matrix.rs:127-133 after the bases of `s`: its
      ambiguity bits are set exactly while fewer than eight bases have been
      fed or one of the last eight is not A, C, G or T, and its low 16 bits
      are always the key of the last eight bases (an ambiguous base counting
      as A). */
  lemma RollingHash(s: string)
    ensures var h := HashSequence(ReadSeed, s);
            (h & AmbiguityMask != 0 <==> |s| < 8 || !IsDna(s[|s| - 8..])) &&
            h & 0xFFFF == KmerKey(Window(s)) as bv32
  {
    var ns := ['N'] + s;
    SeededHash(s);
    FeedFromZero(ns);
    PackFields(Feed(Zero, ns));
    SeededWindow(s);
  }

  lemma SeededHash(s: string)
    ensures HashSequence(ReadSeed, s) == Pack(Feed(Zero, ['N'] + s))
  {
    ReadSeedIsAmbiguousBase();
    HashSequencePacks(Step(Zero, 'N'), s);
    FeedCons(Zero, 'N', s);
  }

  /** The last eight of 'N' followed by `s`: the 'N' is still among them while
      fewer than eight bases of `s` are in, and only adds a leading zero digit
      to the key. */
  lemma SeededWindow(s: string)
    ensures var w := Window(['N'] + s);
            (Base4(AmbiguityDigits(w)) == 0 <==> |s| >= 8 && IsDna(s[|s| - 8..])) &&
            KmerKey(w) == KmerKey(Window(s))
  {
    var ns := ['N'] + s;
    var w := Window(ns);
    AmbiguityDigitsZero(w);
    if |s| < 8 {
      assert w == ns && !IsBase(w[0]);
      assert KeyDigits(w) == [0] + KeyDigits(s);
      Base4LeadingZero(KeyDigits(s));
    } else {
      assert w == s[|s| - 8..] == Window(s);
    }
  }

  // ---------------------------------------------------------------------
  // Bit-vector facts, each on plain words so that the solver meets no
  // sequences while it reasons about bits.  Those whose callers pass words
  // computed by the recursive functions above state an implication rather
  // than a precondition, so that the caller has no bit-level obligation to
  // discharge.

  lemma BvPackStep(k: bv16, a: bv16, kc: bv16, m: bv16)
    requires kc < 4 && (m == 0 || m == 3)
    ensures ((((((a as bv32) << 16) | (k as bv32)) & KeepMask) << 2) + (kc as bv32 + ((m as bv32) << 16)))
         == (((((a & 0x3FFF) << 2) | m) as bv32) << 16) | ((((k & 0x3FFF) << 2) | kc) as bv32)
  {
  }

  lemma BvPackSplit(k: bv16, a: bv16, k2: bv16, a2: bv16)
    ensures ((a as bv32) << 16) | (k as bv32) == ((a2 as bv32) << 16) | (k2 as bv32) ==>
            k == k2 && a == a2
  {
  }

  lemma BvLowOnly(x: bv32, k: bv16)
    ensures x & 0xFFFF_0000 == 0 && x & 0xFFFF == k as bv32 ==> x == k as bv32
  {
  }

  lemma BvWiden(k: bv16)
    ensures (k as bv32) as int == k as int
  {
  }

  lemma BvBound(x: bv16, d: bv16, m: bv16)
    ensures x <= m && m <= 0x3FFF && d < 4 ==>
            (x << 2) | d <= (m << 2) | 3
  {
  }

  lemma BvDropDigit(x: bv16, d: bv16, m: bv16)
    ensures m <= 0x3FFF && d < 4 ==>
            ((x << 2) | d) & ((m << 2) | 3) == ((x & m) << 2) | d
  {
  }

  lemma BvKeepLow(x: bv16)
    ensures x <= 0x3FFF ==>
            x & 0x3FFF == x
  {
  }

  lemma BvZero(x: bv16, d: bv16)
    ensures x <= 0x3FFF && d < 4 ==>
            ((x << 2) | d == 0 <==> x == 0 && d == 0)
  {
  }

  lemma BvSplitDigit(x: bv16, d: bv16)
    ensures x <= 0x3FFF && d < 4 ==>
            ((x << 2) | d) >> 2 == x && ((x << 2) | d) & 3 == d
  {
  }

  lemma BvJoinDigit(k: bv16, m: bv16)
    ensures m <= 0x3FFF ==>
            (((k >> 2) & m) << 2) | (k & 3) == k & ((m << 2) | 3)
  {
  }
}
