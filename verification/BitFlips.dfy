/** The single-bit-flip loops of audit/fuzz_schnorr_verify.cpp and audit/audit_security.cpp,
    for a buffer of any length and any verifier. */
module BitFlips {

  type Bytes = seq<bv8>

  /** `1u << k` for a bit of one byte. */
  function Mask(k: nat): bv8
    requires k < 8
  {
    match k
    case 0 => 1 case 1 => 2 case 2 => 4 case 3 => 8
    case 4 => 16 case 5 => 32 case 6 => 64 case 7 => 128
  }

  lemma MaskInPlainTerms(k: nat)
    requires k < 8
    ensures Mask(k) == (1 as bv8) << k
  {}

  lemma MasksDiffer(j: nat, k: nat)
    requires j < 8 && k < 8 && j != k
    ensures Mask(j) != Mask(k)
  {}

  lemma FlipTwice(x: bv8, m: bv8)
    ensures (x ^ m) ^ m == x
  {}

  lemma FlipChanges(x: bv8, m: bv8, m': bv8)
    requires x ^ m == x ^ m'
    ensures m == m'
  {
    assert x ^ (x ^ m) == m;
  }

  /** `s` with bit `b` flipped, bits numbered as in the fuzzer's single loop. */
  function Flip(s: Bytes, b: nat): (t: Bytes)
    requires b < 8 * |s|
    ensures |t| == |s|
  {
    s[b / 8 := s[b / 8] ^ Mask(b % 8)]
  }

  /** The number of set bits of a byte. */
  function Weight(x: bv8): nat {
    (if x & 1 != 0 then 1 else 0) + (if x & 2 != 0 then 1 else 0)
    + (if x & 4 != 0 then 1 else 0) + (if x & 8 != 0 then 1 else 0)
    + (if x & 16 != 0 then 1 else 0) + (if x & 32 != 0 then 1 else 0)
    + (if x & 64 != 0 then 1 else 0) + (if x & 128 != 0 then 1 else 0)
  }

  /** The Hamming distance in bits. */
  function Distance(s: Bytes, t: Bytes): nat
    requires |s| == |t|
  {
    if s == [] then 0
    else Weight(s[0] ^ t[0]) + Distance(s[1..], t[1..])
  }

  lemma WeightZero(x: bv8)
    ensures Weight(x) == 0 <==> x == 0
  {}

  lemma WeightOne(x: bv8)
    ensures Weight(x) == 1 <==> exists k: nat :: k < 8 && x == Mask(k)
  {
    assert Weight(x) == 1 ==> x in {1, 2, 4, 8, 16, 32, 64, 128};
    if x in {1, 2, 4, 8, 16, 32, 64, 128} {
      var k :=
        if x == 1 then 0 else if x == 2 then 1 else if x == 4 then 2 else if x == 8 then 3
        else if x == 16 then 4 else if x == 32 then 5 else if x == 64 then 6 else 7;
      assert x == Mask(k);
    }
  }

  lemma {:induction false} DistanceZero(s: Bytes, t: Bytes)
    requires |s| == |t|
    ensures Distance(s, t) == 0 <==> s == t
  {
    if s == [] {
    } else {
      WeightZero(s[0] ^ t[0]);
      DistanceZero(s[1..], t[1..]);
      assert s == [s[0]] + s[1..] && t == [t[0]] + t[1..];
    }
  }

  lemma HeadFlipped(s: Bytes, b: nat)
    requires s != [] && b < 8
    ensures Flip(s, b)[0] == s[0] ^ Mask(b) && Flip(s, b)[1..] == s[1..]
  {
    hide Mask;
  }

  lemma TailFlipped(s: Bytes, b: nat)
    requires 8 <= b < 8 * |s|
    ensures Flip(s, b)[0] == s[0] && Flip(s, b)[1..] == Flip(s[1..], b - 8)
  {
    hide Mask;
  }

  lemma {:induction false} FlipIsANeighbour(s: Bytes, b: nat)
    requires b < 8 * |s|
    ensures Distance(s, Flip(s, b)) == 1
  {
    hide Weight, Mask, Flip;
    if b < 8 {
      HeadFlipped(s, b);
      WeightOne(Mask(b));
      XorIsTheFlip(s[0], Mask(b));
      DistanceZero(s[1..], s[1..]);
    } else {
      TailFlipped(s, b);
      XorSelf(s[0]);
      WeightZero(s[0] ^ s[0]);
      FlipIsANeighbour(s[1..], b - 8);
    }
  }

  lemma XorSelf(x: bv8)
    ensures x ^ x == 0
  {}

  lemma HeadFlip(s: Bytes, t: Bytes)
    requires |s| == |t| > 0 && s[1..] == t[1..] && Weight(s[0] ^ t[0]) == 1
    ensures exists b: nat :: b < 8 && t == Flip(s, b)
  {
    hide Weight, Mask, Flip;
    WeightOne(s[0] ^ t[0]);
    var b: nat :| b < 8 && s[0] ^ t[0] == Mask(b);
    XorIsTheFlip(s[0], t[0]);
    HeadFlipped(s, b);
    assert t == [t[0]] + t[1..];
    assert Flip(s, b) == [Flip(s, b)[0]] + Flip(s, b)[1..];
  }

  lemma TailFlip(s: Bytes, t: Bytes, b: nat)
    requires |s| == |t| > 0 && s[0] == t[0] && b < 8 * |s[1..]| && t[1..] == Flip(s[1..], b)
    ensures t == Flip(s, b + 8)
  {
    hide Mask, Flip;
    TailFlipped(s, b + 8);
    assert t == [t[0]] + t[1..];
    assert Flip(s, b + 8) == [Flip(s, b + 8)[0]] + Flip(s, b + 8)[1..];
  }

  lemma {:induction false} NeighbourIsAFlip(s: Bytes, t: Bytes) returns (b: nat)
    requires |s| == |t| && Distance(s, t) == 1
    ensures b < 8 * |s| && t == Flip(s, b)
  {
    hide Weight, Flip;
    if Distance(s[1..], t[1..]) == 0 {
      DistanceZero(s[1..], t[1..]);
      HeadFlip(s, t);
      b :| b < 8 && t == Flip(s, b);
    } else {
      WeightZero(s[0] ^ t[0]);
      XorIsTheFlip(s[0], t[0]);
      var c := NeighbourIsAFlip(s[1..], t[1..]);
      TailFlip(s, t, c);
      b := c + 8;
    }
  }

  lemma XorIsTheFlip(x: bv8, y: bv8)
    ensures x ^ (x ^ y) == y
    ensures x ^ y == 0 ==> x == y
  {}

  lemma FlipsDiffer(s: Bytes, b: nat, c: nat)
    requires b < 8 * |s| && c < 8 * |s| && Flip(s, b) == Flip(s, c)
    ensures b == c
  {
    hide Mask, Flip;
    var i, j := b / 8, c / 8;
    FlipAt(s, b, i);
    FlipAt(s, c, i);
    if i != j {
      MaskChanges(s[i], b % 8);
    } else {
      FlipChanges(s[i], Mask(b % 8), Mask(c % 8));
      if b % 8 != c % 8 { MasksDiffer(b % 8, c % 8); }
    }
  }

  lemma FlipAt(s: Bytes, b: nat, i: nat)
    requires b < 8 * |s| && i < |s|
    ensures Flip(s, b)[i] == if i == b / 8 then s[i] ^ Mask(b % 8) else s[i]
  {}

  lemma MaskChanges(x: bv8, k: nat)
    requires k < 8
    ensures x ^ Mask(k) != x
  {
    XorIsTheFlip(x, Mask(k));
    XorSelf(x);
  }

  /** The neighbours reached by the first `n` flips that `accept` takes. */
  ghost function AcceptedBelow(s: Bytes, accept: Bytes -> bool, n: nat): set<Bytes>
    requires n <= 8 * |s|
  {
    set b: nat | b < n && accept(Flip(s, b)) :: Flip(s, b)
  }

  predicate Any(t: Bytes) {
    true
  }

  function Not(accept: Bytes -> bool): Bytes -> bool {
    t => !accept(t)
  }

  ghost function Neighbours(s: Bytes): set<Bytes> {
    AcceptedBelow(s, Any, 8 * |s|)
  }

  /** The neighbours `accept` takes. */
  ghost function Accepted(s: Bytes, accept: Bytes -> bool): set<Bytes> {
    set t | t in Neighbours(s) && accept(t)
  }

  ghost function Rejected(s: Bytes, accept: Bytes -> bool): set<Bytes> {
    set t | t in Neighbours(s) && !accept(t)
  }

  lemma OneMoreFlip(s: Bytes, accept: Bytes -> bool, n: nat)
    requires n < 8 * |s|
    ensures |AcceptedBelow(s, accept, n + 1)|
         == |AcceptedBelow(s, accept, n)| + if accept(Flip(s, n)) then 1 else 0
  {
    hide Flip;
    var before, after := AcceptedBelow(s, accept, n), AcceptedBelow(s, accept, n + 1);
    if accept(Flip(s, n)) {
      if Flip(s, n) in before {
        var b: nat :| b < n && Flip(s, b) == Flip(s, n);
        FlipsDiffer(s, b, n);
      }
      assert after == before + {Flip(s, n)};
    } else {
      assert after == before;
    }
  }

  lemma NoFlips(s: Bytes, accept: Bytes -> bool)
    ensures |AcceptedBelow(s, accept, 0)| == 0
  {
    assert AcceptedBelow(s, accept, 0) == {};
  }

  lemma FlipRestores(s: Bytes, b: nat)
    requires b < 8 * |s|
    ensures Flip(s, b)[b / 8 := Flip(s, b)[b / 8] ^ Mask(b % 8)] == s
  {
    FlipTwice(s[b / 8], Mask(b % 8));
  }

  lemma AllFlipsTested(s: Bytes, accept: Bytes -> bool)
    ensures AcceptedBelow(s, accept, 8 * |s|) == Accepted(s, accept)
  {}

  lemma {:induction false} FlipCount(s: Bytes, n: nat)
    requires n <= 8 * |s|
    ensures |AcceptedBelow(s, Any, n)| == n
  {
    if n == 0 {
      assert AcceptedBelow(s, Any, 0) == {};
    } else {
      FlipCount(s, n - 1);
      OneMoreFlip(s, Any, n - 1);
    }
  }

  /** The flips reach exactly the buffers at Hamming distance one, and there are 8n of them. */
  lemma {:induction false} NeighboursAreTheDistanceOneBuffers(s: Bytes)
    ensures |Neighbours(s)| == 8 * |s|
    ensures forall t :: t in Neighbours(s) <==> |t| == |s| && Distance(s, t) == 1
  {
    hide Flip, Distance;
    FlipCount(s, 8 * |s|);
    forall t ensures t in Neighbours(s) <==> |t| == |s| && Distance(s, t) == 1 {
      if t in Neighbours(s) {
        var b: nat :| b < 8 * |s| && t == Flip(s, b);
        FlipIsANeighbour(s, b);
      }
      if |t| == |s| && Distance(s, t) == 1 {
        var b := NeighbourIsAFlip(s, t);
      }
    }
  }

  /** The fuzzer's probe flips, tests and restores one bit at a time in place. */
  method FlipProbe(sig: array<bv8>, accept: Bytes -> bool) returns (forged: nat)
    modifies sig
    ensures sig[..] == old(sig[..])
    ensures forged == |Accepted(sig[..], accept)|
  {
    hide Mask, AcceptedBelow, Accepted;
    ghost var s := sig[..];
    NoFlips(s, accept);
    forged := 0;
    for b := 0 to 8 * sig.Length
      invariant sig[..] == s
      invariant forged == |AcceptedBelow(s, accept, b)|
    {
      sig[b / 8] := sig[b / 8] ^ Mask(b % 8);
      assert sig[..] == Flip(s, b);
      if accept(sig[..]) { forged := forged + 1; }
      OneMoreFlip(s, accept, b);
      FlipRestores(s, b);
      sig[b / 8] := sig[b / 8] ^ Mask(b % 8);
      assert sig[..] == s;
    }
    AllFlipsTested(s, accept);
  }

  /** The fuzzer traps when more than 32 of the flipped signatures verify. */
  method SoundnessProbe(sig: array<bv8>, accept: Bytes -> bool) returns (trap: bool)
    modifies sig
    ensures sig[..] == old(sig[..])
    ensures trap <==> |Accepted(sig[..], accept)| > 32
  {
    var forged := FlipProbe(sig, accept);
    trap := forged > 32;
  }

  /** Takes the buffers that differ from `s` in the first five bytes at most. */
  function AcceptHead(s: Bytes): Bytes -> bool {
    t => |t| == |s| && |s| >= 5 && t[5..] == s[5..]
  }

  lemma {:induction false} HeadFlipsAccepted(s: Bytes, n: nat)
    requires |s| >= 5 && n <= 8 * |s|
    ensures |AcceptedBelow(s, AcceptHead(s), n)| == if n < 40 then n else 40
  {
    if n == 0 {
      NoFlips(s, AcceptHead(s));
    } else {
      HeadFlipsAccepted(s, n - 1);
      OneMoreFlip(s, AcceptHead(s), n - 1);
      HeadFlip40(s, n - 1);
    }
  }

  lemma HeadFlip40(s: Bytes, b: nat)
    requires |s| >= 5 && b < 8 * |s|
    ensures AcceptHead(s)(Flip(s, b)) <==> b < 40
  {
    hide Mask;
    if b >= 40 {
      MaskChanges(s[b / 8], b % 8);
      assert Flip(s, b)[5..][b / 8 - 5] == s[b / 8] ^ Mask(b % 8);
      assert s[5..][b / 8 - 5] == s[b / 8];
    }
  }

  /** The probe traps long before every flip is accepted: here at 40 of the 512. */
  lemma TrapsBeforeAllAreAccepted(s: Bytes)
    requires |s| == 64
    ensures 32 < |Accepted(s, AcceptHead(s))| == 40 < |Neighbours(s)| == 512
  {
    HeadFlipsAccepted(s, 512);
    AllFlipsTested(s, AcceptHead(s));
    FlipCount(s, 512);
  }

  /** The audit's nested byte and bit loops flip a fresh copy each time and count rejections. */
  method BitflipRejections(compact: Bytes, accept: Bytes -> bool) returns (rejections: nat)
    ensures rejections == |Rejected(compact, accept)|
  {
    hide Mask, AcceptedBelow;
    NoFlips(compact, Not(accept));
    rejections := 0;
    for i := 0 to |compact|
      invariant rejections == |AcceptedBelow(compact, Not(accept), 8 * i)|
    {
      for bit := 0 to 8
        invariant rejections == |AcceptedBelow(compact, Not(accept), 8 * i + bit)|
      {
        var flipped := compact[i := compact[i] ^ Mask(bit)];
        assert flipped == Flip(compact, 8 * i + bit);
        OneMoreFlip(compact, Not(accept), 8 * i + bit);
        if !accept(flipped) { rejections := rejections + 1; }
      }
    }
    AllFlipsTested(compact, Not(accept));
    assert Accepted(compact, Not(accept)) == Rejected(compact, accept);
  }

  /** The two loops visit the same neighbours: what one counts as forged the other misses among
      its rejections. The audit's check on the full count passes exactly when no buffer at
      distance one is accepted. */
  lemma {:induction false} ProbesAreComplementary(s: Bytes, accept: Bytes -> bool)
    ensures |Accepted(s, accept)| + |Rejected(s, accept)| == 8 * |s|
    ensures |Rejected(s, accept)| == 8 * |s|
            <==> forall t | |t| == |s| && Distance(s, t) == 1 :: !accept(t)
  {
    NeighboursAreTheDistanceOneBuffers(s);
    assert Accepted(s, accept) + Rejected(s, accept) == Neighbours(s);
    if |Rejected(s, accept)| == 8 * |s| {
      assert Accepted(s, accept) == {};
    } else {
      assert Accepted(s, accept) != {};
      var t :| t in Accepted(s, accept);
    }
  }
}
