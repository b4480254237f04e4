/**
 * A message schedule of 64 words computed in 16, each slot overwritten in
 * turn. Word and working-variable types, the mixing step and the round are
 * parameters.
 */
module RollingSchedule {
  /** The schedule as section 6.2.2 of FIPS 180-4 defines it: word t from words t-16, t-15, t-7 and t-2. */
  function Schedule<W>(mix: (W, W, W, W) -> W, block: seq<W>, t: nat): W
    requires |block| == 16
  {
    if t < 16 then block[t]
    else mix(Schedule(mix, block, t - 16), Schedule(mix, block, t - 15), Schedule(mix, block, t - 7), Schedule(mix, block, t - 2))
  }

  function Rounds<W, V>(mix: (W, W, W, W) -> W, round: (V, nat, W) -> V, v: V, block: seq<W>, t: nat): V
    requires |block| == 16
    decreases t
  {
    if t == 0 then v else round(Rounds(mix, round, v, block, t - 1), t - 1, Schedule(mix, block, t - 1))
  }

  /** When round i starts, the slots hold the 16 words before word max(i, 16). */
  ghost predicate Holds<W>(mix: (W, W, W, W) -> W, block: seq<W>, w: seq<W>, i: nat)
    requires |block| == 16
  {
    && |w| == 16
    && forall j {:trigger Schedule(mix, block, j)} ::
         (if i < 16 then 0 else i - 16) <= j < (if i < 16 then 16 else i) ==> w[j % 16] == Schedule(mix, block, j)
  }

  lemma RollOn<W>(mix: (W, W, W, W) -> W, block: seq<W>, w: seq<W>, i: nat)
    requires |block| == 16 && i >= 16 && Holds(mix, block, w, i)
    ensures mix(w[i % 16], w[(i + 1) % 16], w[(i + 9) % 16], w[(i + 14) % 16]) == Schedule(mix, block, i)
  {
    SlotHolds(mix, block, w, i, i - 16);
    SlotHolds(mix, block, w, i, i - 15);
    SlotHolds(mix, block, w, i, i - 7);
    SlotHolds(mix, block, w, i, i - 2);
    SameSlot(i - 16);
    SameSlot(i - 15);
    SameSlot(i - 7);
    SameSlot(i - 2);
  }

  lemma SameSlot(j: nat)
    ensures j % 16 == (j + 16) % 16
  {
  }

  lemma SlotHolds<W>(mix: (W, W, W, W) -> W, block: seq<W>, w: seq<W>, i: nat, j: nat)
    requires |block| == 16 && Holds(mix, block, w, i) && i - 16 <= j < i
    ensures w[j % 16] == Schedule(mix, block, j)
  {
  }

  lemma OtherSlots(i: nat, j: nat)
    requires i - 16 < j < i
    ensures j % 16 != i % 16
  {
  }

  lemma Overwrite<W>(mix: (W, W, W, W) -> W, block: seq<W>, w: seq<W>, i: nat)
    requires |block| == 16 && i >= 16 && Holds(mix, block, w, i)
    ensures Holds(mix, block, w[i % 16 := Schedule(mix, block, i)], i + 1)
  {
    var w' := w[i % 16 := Schedule(mix, block, i)];
    forall j {:trigger Schedule(mix, block, j)} | i + 1 - 16 <= j < i + 1
      ensures w'[j % 16] == Schedule(mix, block, j)
    {
      if j < i {
        OtherSlots(i, j);
        SlotHolds(mix, block, w, i, j);
      }
    }
  }

  method Run<W, V>(mix: (W, W, W, W) -> W, round: (V, nat, W) -> V, init: V, block: seq<W>, w: array<W>) returns (v: V)
    requires |block| == 16 && w[..] == block
    modifies w
    ensures v == Rounds(mix, round, init, block, 64)
  {
    v := init;
    var i := 0;
    while i < 64
      invariant 0 <= i <= 64
      invariant v == Rounds(mix, round, init, block, i)
      invariant Holds(mix, block, w[..], i)
    {
      if i >= 16 {
        RollOn(mix, block, w[..], i);
        Overwrite(mix, block, w[..], i);
        w[i % 16] := mix(w[i % 16], w[(i + 1) % 16], w[(i + 9) % 16], w[(i + 14) % 16]);
      }
      assert w[..][i % 16] == Schedule(mix, block, i);
      v := round(v, i, w[i % 16]);
      i := i + 1;
    }
  }

  lemma {:induction false} SameSchedule<W(!new)>(mix: (W, W, W, W) -> W, mix': (W, W, W, W) -> W, block: seq<W>, t: nat)
    requires |block| == 16
    requires forall a, b, c, d :: mix(a, b, c, d) == mix'(a, b, c, d)
    ensures Schedule(mix, block, t) == Schedule(mix', block, t)
  {
    if t < 16 {
    } else {
      SameSchedule(mix, mix', block, t - 16);
      SameSchedule(mix, mix', block, t - 15);
      SameSchedule(mix, mix', block, t - 7);
      SameSchedule(mix, mix', block, t - 2);
    }
  }

  lemma {:induction false} SameRounds<W(!new), V>(
    mix: (W, W, W, W) -> W, mix': (W, W, W, W) -> W, round: (V, nat, W) -> V, v: V, block: seq<W>, t: nat)
    requires |block| == 16
    requires forall a, b, c, d :: mix(a, b, c, d) == mix'(a, b, c, d)
    ensures Rounds(mix, round, v, block, t) == Rounds(mix', round, v, block, t)
    decreases t
  {
    if t == 0 {
    } else {
      SameRounds(mix, mix', round, v, block, t - 1);
      SameSchedule(mix, mix', block, t - 1);
    }
  }
}

/** The compression function of bios/payload_sum.c against section 6.2.2 of FIPS 180-4. */
module Sha256 {
  import opened Bytes
  import opened HashChain
  import opened RollingSchedule

  // ---- Section 4.1.2 ----

  function Rotr(x: bv32, n: bv6): bv32
    requires 0 < n < 32
  {
    (x >> n) | (x << (32 - n))
  }

  function Ch(x: bv32, y: bv32, z: bv32): bv32 { (x & y) ^ (!x & z) }
  function Maj(x: bv32, y: bv32, z: bv32): bv32 { (x & y) ^ (x & z) ^ (y & z) }
  function BigSigma0(x: bv32): bv32 { Rotr(x, 2) ^ Rotr(x, 13) ^ Rotr(x, 22) }
  function BigSigma1(x: bv32): bv32 { Rotr(x, 6) ^ Rotr(x, 11) ^ Rotr(x, 25) }
  function SmallSigma0(x: bv32): bv32 { Rotr(x, 7) ^ Rotr(x, 18) ^ (x >> 3) }
  function SmallSigma1(x: bv32): bv32 { Rotr(x, 17) ^ Rotr(x, 19) ^ (x >> 10) }

  const K256: seq<seq<Word>> := [
    [0x428a2f98, 0x71374491, 0xb5c0fbcf, 0xe9b5dba5, 0x3956c25b, 0x59f111f1, 0x923f82a4, 0xab1c5ed5],
    [0xd807aa98, 0x12835b01, 0x243185be, 0x550c7dc3, 0x72be5d74, 0x80deb1fe, 0x9bdc06a7, 0xc19bf174],
    [0xe49b69c1, 0xefbe4786, 0x0fc19dc6, 0x240ca1cc, 0x2de92c6f, 0x4a7484aa, 0x5cb0a9dc, 0x76f988da],
    [0x983e5152, 0xa831c66d, 0xb00327c8, 0xbf597fc7, 0xc6e00bf3, 0xd5a79147, 0x06ca6351, 0x14292967],
    [0x27b70a85, 0x2e1b2138, 0x4d2c6dfc, 0x53380d13, 0x650a7354, 0x766a0abb, 0x81c2c92e, 0x92722c85],
    [0xa2bfe8a1, 0xa81a664b, 0xc24b8b70, 0xc76c51a3, 0xd192e819, 0xd6990624, 0xf40e3585, 0x106aa070],
    [0x19a4c116, 0x1e376c08, 0x2748774c, 0x34b0bcb5, 0x391c0cb3, 0x4ed8aa4a, 0x5b9cca4f, 0x682e6ff3],
    [0x748f82ee, 0x78a5636f, 0x84c87814, 0x8cc70208, 0x90befffa, 0xa4506ceb, 0xbef9a3f7, 0xc67178f2]]

  /** The constant of round t. */
  function K(t: nat): Word
    requires t < 64
  {
    K256[t / 8][t % 8]
  }

  // ---- Section 6.2.2 ----

  /** Step 1. */
  function Mix(w16: bv32, w15: bv32, w7: bv32, w2: bv32): bv32 {
    SmallSigma1(w2) + w7 + SmallSigma0(w15) + w16
  }

  datatype Vars = Vars(a: bv32, b: bv32, c: bv32, d: bv32, e: bv32, f: bv32, g: bv32, h: bv32)

  /** Step 3, one value of t. */
  function Round(v: Vars, t: nat, w: bv32): Vars {
    RoundWith(v, ToBits(if t < 64 then K(t) else 0), w)
  }

  function RoundWith(v: Vars, k: bv32, w: bv32): Vars {
    var t1 := v.h + BigSigma1(v.e) + Ch(v.e, v.f, v.g) + k + w;
    var t2 := BigSigma0(v.a) + Maj(v.a, v.b, v.c);
    Vars(t1 + t2, v.a, v.b, v.c, v.d + t1, v.e, v.f, v.g)
  }

  function ToBits(w: Word): bv32 { w as bv32 }
  function AddTo(w: Word, b: bv32): Word { (w + b as int) % TWO32 }

  function ToVars(s: State): Vars {
    Vars(ToBits(s[0]), ToBits(s[1]), ToBits(s[2]), ToBits(s[3]), ToBits(s[4]), ToBits(s[5]), ToBits(s[6]), ToBits(s[7]))
  }

  /** Step 4. */
  function Plus(s: State, v: Vars): State {
    [AddTo(s[0], v.a), AddTo(s[1], v.b), AddTo(s[2], v.c), AddTo(s[3], v.d),
     AddTo(s[4], v.e), AddTo(s[5], v.f), AddTo(s[6], v.g), AddTo(s[7], v.h)]
  }

  /** A block as 16 words, section 5.2.1. */
  function Words(block: Block): (ws: seq<bv32>)
    ensures |ws| == 16
  {
    seq(16, t requires 0 <= t < 16 => ToBits(UnBe32(block[4 * t..4 * t + 4])))
  }

  function Compress(s: State, block: Block): State {
    Plus(s, Rounds(Mix, Round, ToVars(s), Words(block), 64))
  }

  /** SHA-256. */
  function Sha(msg: seq<Byte>): Digest
    requires |msg| < TWO32
  {
    Hash(Compress, msg)
  }

  // ---- The loader's form ----

  /** The order in which the loader sums the same four words. */
  function LoaderMix(w16: bv32, w15: bv32, w7: bv32, w2: bv32): bv32 {
    w16 + (SmallSigma0(w15) + w7 + SmallSigma1(w2))
  }

  lemma SumReorder(a: bv32, b: bv32, c: bv32, d: bv32)
    ensures a + (b + c + d) == d + c + b + a
  {
  }

  lemma LoaderMixIsMix()
    ensures forall a, b, c, d :: LoaderMix(a, b, c, d) == Mix(a, b, c, d)
  {
    forall a, b, c, d
      ensures LoaderMix(a, b, c, d) == Mix(a, b, c, d)
    {
      SumReorder(a, SmallSigma0(b), c, SmallSigma1(d));
    }
  }

  method CompressBlock(s: State, p: Block) returns (r: State)
    ensures r == Compress(s, p)
  {
    var w := new bv32[16];
    var i := 0;
    while i < 16
      invariant 0 <= i <= 16
      invariant forall j :: 0 <= j < i ==> w[j] == Words(p)[j]
    {
      w[i] := ToBits(UnBe32(p[4 * i..4 * i + 4]));
      i := i + 1;
    }
    assert w[..] == Words(p);
    var v := Run(LoaderMix, Round, ToVars(s), Words(p), w);
    LoaderMixIsMix();
    SameRounds(LoaderMix, Mix, Round, ToVars(s), Words(p), 64);
    r := Plus(s, v);
  }

  function Concat(pieces: seq<seq<Byte>>): seq<Byte> {
    if pieces == [] then [] else Concat(pieces[..|pieces| - 1]) + pieces[|pieces| - 1]
  }

  /** sha256_init(), any number of sha256_update() calls, sha256_final(): SHA-256 however the input is cut. */
  method Digest(pieces: seq<seq<Byte>>) returns (d: HashChain.Digest)
    requires |Concat(pieces)| < TWO32
    ensures d == Sha(Concat(pieces))
  {
    hide Compress, Absorb, Hash, Finish;
    var c := new Context(Compress);
    var i := 0;
    StartsEmpty();
    while i < |pieces|
      invariant 0 <= i <= |pieces|
      invariant fresh(c) && c.Valid() && c.f == Compress && c.View() == Absorb(Compress, INIT, Concat(pieces[..i]))
    {
      AbsorbAppend(Compress, INIT, Concat(pieces[..i]), pieces[i]);
      assert pieces[..i + 1][..i] == pieces[..i];
      c.Update(pieces[i]);
      i := i + 1;
    }
    assert pieces[..|pieces|] == pieces;
    FinishIsHash(Compress, Concat(pieces));
    d := c.Final();
  }

  lemma StartsEmpty()
    ensures Absorb(Compress, INIT, []) == INIT
  {
    assert INIT.tail + [] == [];
  }
}
