/** The fingerprint of a list of tokens and the distance between fingerprints (crawler/dedup.py). */
module SimHash {
  import opened Bits
  import opened Sets

  /** How many of the hashes have bit i set. */
  function Ones(hashes: seq<Word>, i: nat): (n: nat)
    ensures n <= |hashes|
  {
    if hashes == [] then 0
    else Ones(hashes[..|hashes| - 1], i) + if Bit(hashes[|hashes| - 1], i) then 1 else 0
  }

  /** The signed vote on bit i: hashes that have the bit count +1, the others -1. */
  function Vote(hashes: seq<Word>, i: nat): int {
    2 * Ones(hashes, i) - |hashes|
  }

  /** The number whose bits below k are those with a positive vote. */
  function Majority(hashes: seq<Word>, k: nat): (n: nat)
    ensures n < Pow2(k)
  {
    if k == 0 then 0
    else Majority(hashes, k - 1) + if Vote(hashes, k - 1) > 0 then Pow2(k - 1) else 0
  }

  function Fingerprint(hashes: seq<Word>): Word {
    Pow2Is64();
    Majority(hashes, 64)
  }

  function Hashes(tokens: seq<string>, hash64: string -> Word): (hs: seq<Word>)
    ensures |hs| == |tokens| && forall k :: 0 <= k < |hs| ==> hs[k] == hash64(tokens[k])
  {
    seq(|tokens|, k requires 0 <= k < |tokens| => hash64(tokens[k]))
  }

  method Simhash(tokens: seq<string>, hash64: string -> Word) returns (out: Word)
    ensures out == Fingerprint(Hashes(tokens, hash64))
  {
    ghost var hs := Hashes(tokens, hash64);
    if |tokens| == 0 {
      NoTokens();
      return 0;
    }
    var v := new int[64](_ => 0);
    for n := 0 to |tokens|
      invariant forall i :: 0 <= i < 64 ==> v[i] == Vote(hs[..n], i)
    {
      var h := hash64(tokens[n]);
      assert hs[..n + 1][..n] == hs[..n] && hs[n] == h;
      for i := 0 to 64
        invariant forall j :: 0 <= j < i ==> v[j] == Vote(hs[..n + 1], j)
        invariant forall j :: i <= j < 64 ==> v[j] == Vote(hs[..n], j)
      {
        if Shr(h, i) % 2 == 1 {
          v[i] := v[i] + 1;
        } else {
          v[i] := v[i] - 1;
        }
      }
    }
    assert hs[..|tokens|] == hs;
    out := SetBits(v, hs);
  }

  /** The number whose bits are set where the vote is positive. */
  method SetBits(v: array<int>, ghost hs: seq<Word>) returns (out: Word)
    requires v.Length == 64 && forall i :: 0 <= i < 64 ==> v[i] == Vote(hs, i)
    ensures out == Fingerprint(hs)
  {
    var acc: nat := 0;
    for i := 0 to v.Length
      invariant acc == Majority(hs, i)
    {
      if v[i] > 0 {
        OrAbove(acc, i);
        acc := Or(acc, Pow2(i));
      }
    }
    Pow2Is64();
    out := acc;
  }

  lemma NoTokens()
    ensures Fingerprint([]) == 0
  {
    forall i: nat | i < 64
      ensures !Bit(0, i)
    {
      ShrBound(0, i, i);
    }
    FingerprintIsMajority([], 0);
  }

  lemma {:induction false} MajorityBits(hashes: seq<Word>, k: nat)
    ensures forall i: nat :: i < k ==> (Bit(Majority(hashes, k), i) <==> Vote(hashes, i) > 0)
  {
    if k > 0 {
      MajorityBits(hashes, k - 1);
      BitsAbove(Majority(hashes, k - 1), k - 1);
    }
  }

  /** The hashes that have bit i set. */
  ghost function WithBit(hashes: seq<Word>, i: nat): set<nat> {
    set k: nat | k < |hashes| && Bit(hashes[k], i)
  }

  lemma {:induction false} OnesCounts(hashes: seq<Word>, i: nat)
    ensures Ones(hashes, i) == |WithBit(hashes, i)|
  {
    if hashes == [] {
      assert WithBit(hashes, i) == {};
    } else {
      var last := |hashes| - 1;
      OnesCounts(hashes[..last], i);
      assert WithBit(hashes, i) == WithBit(hashes[..last], i) + if Bit(hashes[last], i) then {last} else {};
    }
  }

  /** A fingerprint is the strict bitwise majority, ties giving 0, and nothing else. */
  lemma FingerprintIsMajority(hashes: seq<Word>, w: Word)
    ensures w == Fingerprint(hashes)
       <==> forall i: nat :: i < 64 ==> (Bit(w, i) <==> 2 * Ones(hashes, i) > |hashes|)
  {
    Pow2Is64();
    MajorityBits(hashes, 64);
    if forall i: nat :: i < 64 ==> (Bit(w, i) <==> 2 * Ones(hashes, i) > |hashes|) {
      BitsDetermine(w, Fingerprint(hashes), 0, 64);
    }
  }

  /** Two lists on whose votes the signs agree bit by bit have one fingerprint. */
  lemma SameSigns(hs: seq<Word>, hs': seq<Word>)
    requires forall i: nat :: i < 64 ==> (Vote(hs, i) > 0 <==> Vote(hs', i) > 0)
    ensures Fingerprint(hs) == Fingerprint(hs')
  {
    var w := Fingerprint(hs);
    FingerprintIsMajority(hs, w);
    forall i: nat | i < 64
      ensures Bit(w, i) <==> 2 * Ones(hs', i) > |hs'|
    {
      assert Vote(hs, i) > 0 <==> Vote(hs', i) > 0;
    }
    FingerprintIsMajority(hs', w);
  }

  lemma {:induction false} OnesConcat(hs: seq<Word>, ks: seq<Word>, i: nat)
    ensures Ones(hs + ks, i) == Ones(hs, i) + Ones(ks, i)
  {
    if ks == [] {
      assert hs + ks == hs;
    } else {
      assert (hs + ks)[..|hs + ks| - 1] == hs + ks[..|ks| - 1];
      OnesConcat(hs, ks[..|ks| - 1], i);
    }
  }

  lemma OnesWithout(hs: seq<Word>, p: nat, i: nat)
    requires p < |hs|
    ensures Ones(hs, i) == Ones(hs[..p] + hs[p + 1..], i) + if Bit(hs[p], i) then 1 else 0
    ensures multiset(hs[..p] + hs[p + 1..]) == multiset(hs) - multiset{hs[p]}
  {
    assert hs == hs[..p + 1] + hs[p + 1..] && hs[..p + 1] == hs[..p] + [hs[p]];
    OnesConcat(hs[..p + 1], hs[p + 1..], i);
    OnesConcat(hs[..p], hs[p + 1..], i);
  }

  lemma {:induction false} OnesMultiset(hs: seq<Word>, ks: seq<Word>, i: nat)
    requires multiset(hs) == multiset(ks)
    ensures |hs| == |ks| && Ones(hs, i) == Ones(ks, i)
    decreases |hs|
  {
    assert |hs| == |multiset(hs)| == |multiset(ks)| == |ks|;
    if hs != [] {
      var q := |hs| - 1;
      assert hs[q] in multiset(ks);
      var p :| 0 <= p < |ks| && ks[p] == hs[q];
      OnesWithout(hs, q, i);
      OnesWithout(ks, p, i);
      OnesMultiset(hs[..q] + hs[q + 1..], ks[..p] + ks[p + 1..], i);
    }
  }

  /** The order of the tokens is irrelevant. */
  lemma FingerprintOfMultiset(hs: seq<Word>, ks: seq<Word>)
    requires multiset(hs) == multiset(ks)
    ensures Fingerprint(hs) == Fingerprint(ks)
  {
    forall i: nat | i < 64
      ensures Vote(hs, i) == Vote(ks, i)
    {
      OnesMultiset(hs, ks, i);
    }
    SameSigns(hs, ks);
  }

  function Repeat(hs: seq<Word>, k: nat): seq<Word> {
    if k == 0 then [] else Repeat(hs, k - 1) + hs
  }

  lemma {:induction false} VoteRepeat(hs: seq<Word>, k: nat, i: nat)
    ensures Vote(Repeat(hs, k), i) == k * Vote(hs, i)
  {
    if k > 0 {
      VoteRepeat(hs, k - 1, i);
      OnesConcat(Repeat(hs, k - 1), hs, i);
      var v := Vote(hs, i);
      assert k * v == (k - 1) * v + v;
    }
  }

  /** Saying a text several times over does not change its fingerprint. */
  lemma FingerprintOfRepeat(hs: seq<Word>, k: nat)
    requires k >= 1
    ensures Fingerprint(Repeat(hs, k)) == Fingerprint(hs)
  {
    forall i: nat | i < 64
      ensures Vote(Repeat(hs, k), i) > 0 <==> Vote(hs, i) > 0
    {
      VoteRepeat(hs, k, i);
    }
    SameSigns(Repeat(hs, k), hs);
  }

  lemma FingerprintOfOne(h: Word)
    ensures Fingerprint([h]) == h
  {
    assert [h][..0] == [];
    FingerprintIsMajority([h], h);
  }

  // ---- distance ----

  function Hamming(a: nat, b: nat): nat {
    PopCount(Xor(a, b))
  }

  predicate IsNearDuplicate(a: nat, b: nat, threshold: int) {
    Hamming(a, b) <= threshold
  }

  /** The distance, one bit at a time. */
  lemma HammingStep(a: nat, b: nat)
    ensures Hamming(a, b) == (if a % 2 != b % 2 then 1 else 0) + Hamming(a / 2, b / 2)
  {
  }

  /** Hamming distance is a metric. */
  lemma {:induction false} HammingMetric(a: nat, b: nat, c: nat)
    ensures Hamming(a, b) == 0 <==> a == b
    ensures Hamming(a, b) == Hamming(b, a)
    ensures Hamming(a, c) <= Hamming(a, b) + Hamming(b, c)
    decreases a + b + c
  {
    if a + b + c > 0 {
      HammingStep(a, b);
      HammingStep(b, a);
      HammingStep(a, c);
      HammingStep(b, c);
      HammingMetric(a / 2, b / 2, c / 2);
    }
  }

  ghost function Differing(a: nat, b: nat, from: nat): (s: set<nat>) {
    set i: nat | from <= i < 64 && Bit(a, i) != Bit(b, i)
  }

  lemma {:induction false} HammingFrom(a: Word, b: Word, from: nat)
    requires from <= 64
    ensures Hamming(Shr(a, from), Shr(b, from)) == |Differing(a, b, from)|
    decreases 64 - from
  {
    if from == 64 {
      Pow2Is64();
      ShrBound(a, 64, 64);
      ShrBound(b, 64, 64);
    } else {
      HammingFrom(a, b, from + 1);
      HammingStep(Shr(a, from), Shr(b, from));
      DifferingStep(a, b, from);
      assert Shr(a, from + 1) == Shr(a, from) / 2 && Shr(b, from + 1) == Shr(b, from) / 2;
    }
  }

  lemma DifferingStep(a: Word, b: Word, from: nat)
    requires from < 64
    ensures |Differing(a, b, from)| == |Differing(a, b, from + 1)| + if Bit(a, from) != Bit(b, from) then 1 else 0
  {
    var rest := Differing(a, b, from + 1);
    if Bit(a, from) != Bit(b, from) {
      assert Differing(a, b, from) == {from} + rest;
    } else {
      assert Differing(a, b, from) == rest;
    }
  }

  /** On fingerprints the distance is the number of bits in which they differ. */
  lemma HammingCounts(a: Word, b: Word)
    ensures Hamming(a, b) == |Differing(a, b, 0)|
  {
    HammingFrom(a, b, 0);
  }

  /** Bits whose vote k more tokens can still turn. */
  ghost function Undecided(hashes: seq<Word>, k: nat): set<nat> {
    set i: nat | i < 64 && 0 - k < Vote(hashes, i) <= k
  }

  /** Appending tokens moves the fingerprint by no more than the number of undecided bits. */
  lemma Stability(hs: seq<Word>, ks: seq<Word>)
    ensures Differing(Fingerprint(hs), Fingerprint(hs + ks), 0) <= Undecided(hs, |ks|)
    ensures Hamming(Fingerprint(hs), Fingerprint(hs + ks)) <= |Undecided(hs, |ks|)|
  {
    var a, b := Fingerprint(hs), Fingerprint(hs + ks);
    FingerprintIsMajority(hs, a);
    FingerprintIsMajority(hs + ks, b);
    forall i: nat | i in Differing(a, b, 0)
      ensures i in Undecided(hs, |ks|)
    {
      OnesConcat(hs, ks, i);
    }
    HammingCounts(a, b);
    SubsetSize(Differing(a, b, 0), Undecided(hs, |ks|));
  }

  // ---- hexadecimal form ----

  function HexDigit(d: nat): (c: char)
    requires d < 16
  {
    if d < 10 then ('0' as int + d) as char else ('a' as int + d - 10) as char
  }

  function HexValue(c: char): nat {
    if '0' <= c <= '9' then (c as int) - ('0' as int)
    else if 'a' <= c <= 'f' then (c as int) - ('a' as int) + 10
    else 0
  }

  /** `format(n, "0<width>x")` for n below 16^width */
  function HexFormat(n: nat, width: nat): (s: string)
    ensures |s| == width
  {
    if width == 0 then "" else HexFormat(n / 16, width - 1) + [HexDigit(n % 16)]
  }

  function HexParse(s: string): nat {
    if s == "" then 0 else 16 * HexParse(s[..|s| - 1]) + HexValue(s[|s| - 1])
  }

  function Zeros(n: nat): (s: string)
    ensures |s| == n
  {
    seq(n, _ => '0')
  }

  /** `value & (2^64 - 1)` */
  function Mask(value: nat): Word {
    if value < TWO_64 then value else value % TWO_64
  }

  /** `format(value & (2^64 - 1), "0<digits>x").ljust(width, "0")` */
  function Padded(value: nat, digits: nat, width: nat): (s: string)
    requires digits <= width
    ensures |s| == width
  {
    HexFormat(Mask(value), digits) + Zeros(width - digits)
  }

  /** 16 digits, then zeros up to the 64 characters of the column. */
  function Hex64(value: nat): (s: string)
    ensures |s| == 64
  {
    Padded(value, 16, 64)
  }

  predicate IsHexDigit(c: char) {
    '0' <= c <= '9' || 'a' <= c <= 'f'
  }

  /** 16 lower-case hexadecimal digits and then zeros; only the low 64 bits count. */
  lemma Hex64Form(value: nat)
    ensures forall i :: 0 <= i < 16 ==> IsHexDigit(Hex64(value)[i])
    ensures forall i :: 16 <= i < 64 ==> Hex64(value)[i] == '0'
    ensures Hex64(value) == Hex64(value % TWO_64)
  {
    HexFormatDigits(Mask(value), 16);
    MaskOfRemainder(value);
  }

  lemma MaskOfRemainder(value: nat)
    ensures Mask(value) == Mask(value % TWO_64)
  {
  }

  lemma {:induction false} HexFormatDigits(n: nat, width: nat)
    ensures forall i :: 0 <= i < width ==> IsHexDigit(HexFormat(n, width)[i])
  {
    if width > 0 {
      HexFormatDigits(n / 16, width - 1);
    }
  }

  lemma HexParseAppend(s: string, d: nat)
    requires d < 16
    ensures HexParse(s + [HexDigit(d)]) == 16 * HexParse(s) + d
  {
    assert (s + [HexDigit(d)])[..|s|] == s;
  }

  lemma Sixteenth(n: nat, p: nat)
    requires n < 16 * p
    ensures n / 16 < p && n == 16 * (n / 16) + n % 16
  {
  }

  lemma {:induction false} HexRoundTrip(n: nat, width: nat)
    requires n < Pow2(4 * width)
    ensures HexParse(HexFormat(n, width)) == n
  {
    if width > 0 {
      Pow2Plus4(4 * (width - 1));
      Sixteenth(n, Pow2(4 * (width - 1)));
      var q, d := n / 16, n % 16;
      HexRoundTrip(q, width - 1);
      HexParseAppend(HexFormat(q, width - 1), d);
      assert HexFormat(n, width) == HexFormat(q, width - 1) + [HexDigit(d)];
    }
  }

  lemma PaddedRoundTrip(w: Word, digits: nat, width: nat)
    requires digits == 16 <= width
    ensures HexParse(Padded(w, digits, width)[..digits]) == w
  {
    Pow2Is64();
    HexRoundTrip(w, digits);
    assert Padded(w, digits, width)[..digits] == HexFormat(w, digits);
  }

  /** A fingerprint is recovered from the first 16 characters of its stored form. */
  lemma Hex64RoundTrip(w: Word)
    ensures HexParse(Hex64(w)[..16]) == w
  {
    PaddedRoundTrip(w, 16, 64);
  }
}
