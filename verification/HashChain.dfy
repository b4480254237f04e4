/**
 * The streaming half of bios/payload_sum.c: a Merkle-Damgard chain with the
 * padding of section 5.1.1 of FIPS 180-4. The compression function is a
 * parameter, so everything here holds whatever it computes; Sha256 supplies
 * the real one.
 */
module HashChain {
  import opened Bytes

  type State = s: seq<Word> | |s| == 8 witness [0, 0, 0, 0, 0, 0, 0, 0]
  type Block = b: seq<Byte> | |b| == 64 witness Zeros(64)
  type Digest = d: seq<Byte> | |d| == 32 witness Zeros(32)
  type Compressor = (State, Block) -> State

  const IV: State := [0x6a09e667, 0xbb67ae85, 0x3c6ef372, 0xa54ff53a,
                      0x510e527f, 0x9b05688c, 0x1f83d9ab, 0x5be0cd19]

  function StateBytes(s: State): Digest {
    WordsToBytes(s)
  }

  function BytesState(d: Digest): State {
    BytesToWords(d)
  }

  /** A chaining state survives being written out as a table entry. */
  lemma StateRoundTrip(s: State)
    ensures BytesState(StateBytes(s)) == s
  {
    WordsRoundTrip(s);
  }

  // ---- The standard's definition: pad, then fold over the blocks ----

  /** The number of zero bytes section 5.1.1 asks for: the fewest that leave room for 8 bytes of length. */
  function ZeroCount(len: nat): (k: nat)
    ensures len + 1 + k + 8 == 64 * ((len + 8) / 64 + 1) && (len + 1 + k + 8) % 64 == 0
    ensures k < 64
  {
    if len % 64 < 56 then 55 - len % 64 else 119 - len % 64
  }

  /** The message length in bits, 64-bit big-endian. */
  function LengthField(len: nat): (r: seq<Byte>)
    requires len < TWO32
    ensures |r| == 8
  {
    Be32(8 * len / TWO32) + Be32(8 * len % TWO32)
  }

  lemma LengthFieldHalves(total: Word)
    ensures LengthField(total) == Be32(total / 0x2000_0000) + Be32(total * 8 % TWO32)
  {
  }

  function Pad(msg: seq<Byte>): (r: seq<Byte>)
    requires |msg| < TWO32
    ensures |r| % 64 == 0
  {
    msg + [0x80] + Zeros(ZeroCount(|msg|)) + LengthField(|msg|)
  }

  /** H(n) of section 6.2: the first n blocks of a padded message. */
  function HashBlocks(f: Compressor, m: seq<Byte>, n: nat): State
    requires 64 * n <= |m|
  {
    if n == 0 then IV else f(HashBlocks(f, m, n - 1), m[64 * (n - 1)..64 * n])
  }

  function Hash(f: Compressor, msg: seq<Byte>): Digest
    requires |msg| < TWO32
  {
    var m := Pad(msg);
    StateBytes(HashBlocks(f, m, |m| / 64))
  }

  // ---- The streaming context as a value ----

  /** What a context stands for: chaining state, byte count, unhashed tail. */
  datatype Chain = Chain(h: State, total: Word, tail: seq<Byte>)

  const INIT := Chain(IV, 0, [])

  function Drain(f: Compressor, h: State, s: seq<Byte>): (r: (State, seq<Byte>))
    ensures |r.1| < 64
    decreases |s|
  {
    if |s| < 64 then (h, s) else Drain(f, f(h, s[..64]), s[64..])
  }

  lemma {:induction false} DrainLength(f: Compressor, h: State, s: seq<Byte>)
    ensures |Drain(f, h, s).1| == |s| % 64
    decreases |s|
  {
    if |s| < 64 {
    } else {
      DrainLength(f, f(h, s[..64]), s[64..]);
    }
  }

  function Absorb(f: Compressor, c: Chain, data: seq<Byte>): (r: Chain)
    ensures |r.tail| < 64
    ensures r.total == (c.total + |data|) % TWO32
  {
    var d := Drain(f, c.h, c.tail + data);
    Chain(d.0, (c.total + |data|) % TWO32, d.1)
  }

  lemma {:induction false} DrainAppend(f: Compressor, h: State, s: seq<Byte>, t: seq<Byte>)
    ensures var r := Drain(f, h, s); Drain(f, h, s + t) == Drain(f, r.0, r.1 + t)
    decreases |s|
  {
    if |s| < 64 {
    } else {
      DrainAppend(f, f(h, s[..64]), s[64..], t);
      assert (s + t)[..64] == s[..64] && (s + t)[64..] == s[64..] + t;
    }
  }

  /** Splitting the input anywhere makes no difference. */
  lemma AbsorbAppend(f: Compressor, c: Chain, a: seq<Byte>, b: seq<Byte>)
    ensures Absorb(f, Absorb(f, c, a), b) == Absorb(f, c, a + b)
  {
    hide Drain;
    DrainAppend(f, c.h, c.tail + a, b);
    assert c.tail + a + b == c.tail + (a + b);
    CountOn(c.total + |a|, |b|);
  }

  lemma CountOn(total: nat, n: nat)
    ensures (total % TWO32 + n) % TWO32 == (total + n) % TWO32
  {
  }

  /** What the final step appends to the tail. */
  function FinalPad(fill: nat, total: Word): (r: seq<Byte>)
    ensures (fill + |r|) % 64 == 0
  {
    [0x80] + Zeros(ZeroCount(fill)) + LengthField(total)
  }

  function Finish(f: Compressor, c: Chain): Digest {
    StateBytes(Drain(f, c.h, c.tail + FinalPad(|c.tail|, c.total)).0)
  }

  lemma {:induction false} DrainIsHashBlocks(f: Compressor, m: seq<Byte>, n: nat)
    requires |m| % 64 == 0 && 64 * n <= |m|
    ensures Drain(f, IV, m) == Drain(f, HashBlocks(f, m, n), m[64 * n..])
  {
    if n > 0 {
      DrainIsHashBlocks(f, m, n - 1);
      var rest := m[64 * (n - 1)..];
      assert rest[..64] == m[64 * (n - 1)..64 * n] && rest[64..] == m[64 * n..];
    } else {
      assert m[0..] == m;
    }
  }

  lemma DrainPadded(f: Compressor, msg: seq<Byte>, pad: seq<Byte>)
    requires (|msg| + |pad|) % 64 == 0
    ensures var r := Drain(f, IV, msg);
            Drain(f, r.0, r.1 + pad).0 == HashBlocks(f, msg + pad, |msg + pad| / 64)
  {
    var m := msg + pad;
    DrainAppend(f, IV, msg, pad);
    DrainIsHashBlocks(f, m, |m| / 64);
    assert m[64 * (|m| / 64)..] == [];
  }

  /** Padding depends on the tail alone. */
  lemma PadIsFinalPad(msg: seq<Byte>)
    requires |msg| < TWO32
    ensures Pad(msg) == msg + FinalPad(|msg| % 64, |msg|)
  {
    assert ZeroCount(|msg| % 64) == ZeroCount(|msg|);
  }

  /** The streamed hash is the standard's hash, for every message below 4 GiB. */
  lemma FinishIsHash(f: Compressor, msg: seq<Byte>)
    requires |msg| < TWO32
    ensures Finish(f, Absorb(f, INIT, msg)) == Hash(f, msg)
  {
    hide Drain, HashBlocks, Pad, FinalPad;
    var d := Drain(f, IV, msg);
    DrainLength(f, IV, msg);
    var pad := FinalPad(|msg| % 64, |msg|);
    assert Absorb(f, INIT, msg) == Chain(d.0, |msg|, d.1) by {
      assert INIT.tail + msg == msg;
    }
    assert Pad(msg) == msg + pad by {
      PadIsFinalPad(msg);
    }
    DrainPadded(f, msg, pad);
  }

  lemma DrainBlock(f: Compressor, h: State, b: Block)
    ensures Drain(f, h, b) == (f(h, b), [])
  {
    assert b[..64] == b && b[64..] == [];
  }

  /** A short tail is closed with one block. */
  lemma FinishInOne(f: Compressor, h: State, tail: seq<Byte>, total: Word)
    requires |tail| < 56
    ensures var b := tail + [0x80] + Zeros(55 - |tail|) + LengthField(total);
            Finish(f, Chain(h, total, tail)) == StateBytes(f(h, b))
  {
    var b := tail + [0x80] + Zeros(55 - |tail|) + LengthField(total);
    assert tail + FinalPad(|tail|, total) == b;
    DrainBlock(f, h, b);
  }

  /** A tail that leaves no room for the length takes two. */
  lemma FinishInTwo(f: Compressor, h: State, tail: seq<Byte>, total: Word)
    requires 56 <= |tail| < 64
    ensures var h' := f(h, tail + [0x80] + Zeros(63 - |tail|));
            Finish(f, Chain(h, total, tail)) == StateBytes(f(h', Zeros(56) + LengthField(total)))
  {
    var a := tail + [0x80] + Zeros(63 - |tail|);
    var b := Zeros(56) + LengthField(total);
    assert tail + FinalPad(|tail|, total) == a + b;
    DrainAppend(f, h, a, b);
    DrainBlock(f, h, a);
    assert [] + b == b;
    DrainBlock(f, f(h, a), b);
  }

  lemma DrainMore(f: Compressor, c: Chain, p: seq<Byte>, i: nat, j: nat)
    requires i <= j <= |p|
    ensures var r := Drain(f, c.h, c.tail + p[..i]);
            Drain(f, c.h, c.tail + p[..j]) == Drain(f, r.0, r.1 + p[i..j])
  {
    DrainAppend(f, c.h, c.tail + p[..i], p[i..j]);
    assert c.tail + p[..i] + p[i..j] == c.tail + p[..j];
  }

  lemma StepBlock(f: Compressor, c: Chain, p: seq<Byte>, i: nat, h: State)
    requires i + 64 <= |p| && Drain(f, c.h, c.tail + p[..i]) == (h, [])
    ensures Drain(f, c.h, c.tail + p[..i + 64]) == (f(h, p[i..i + 64]), [])
  {
    DrainMore(f, c, p, i, i + 64);
    assert [] + p[i..i + 64] == p[i..i + 64];
    DrainBlock(f, h, p[i..i + 64]);
  }

  lemma StepByte(f: Compressor, c: Chain, p: seq<Byte>, i: nat, h: State, tail: seq<Byte>)
    requires i < |p| && Drain(f, c.h, c.tail + p[..i]) == (h, tail)
    ensures var t := tail + [p[i]];
            Drain(f, c.h, c.tail + p[..i + 1]) == if |t| == 64 then (f(h, t), []) else (h, t)
  {
    DrainMore(f, c, p, i, i + 1);
    assert p[i..i + 1] == [p[i]];
    if |tail| == 63 {
      DrainBlock(f, h, tail + [p[i]]);
    }
  }

  // ---- The context as the loader updates it ----

  class Context {
    const f: Compressor
    var h: State
    var total: Word
    var buf: seq<Byte>
    var fill: nat

    ghost predicate Valid()
      reads this
    {
      |buf| == 64 && fill < 64
    }

    ghost function View(): Chain
      reads this
      requires Valid()
    {
      Chain(h, total, buf[..fill])
    }

    constructor (f: Compressor)
      ensures this.f == f
      ensures Valid() && View() == INIT
    {
      this.f := f;
      h, total, buf, fill := IV, 0, Zeros(64), 0;
    }

    method Update(p: seq<Byte>)
      requires Valid()
      modifies this
      ensures Valid() && View() == Absorb(f, old(View()), p)
    {
      ghost var c := View();
      total := (total + |p|) % TWO32;
      var i := 0;
      assert c.tail + p[..0] == c.tail;
      while i < |p|
        invariant 0 <= i <= |p|
        invariant Valid()
        invariant Drain(f, c.h, c.tail + p[..i]) == (h, buf[..fill])
        decreases |p| - i
        modifies this`h, this`buf, this`fill
      {
        if fill == 0 && |p| - i >= 64 {
          assert buf[..0] == [];
          StepBlock(f, c, p, i, h);
          h := f(h, p[i..i + 64]);
          i := i + 64;
          continue;
        }
        StepByte(f, c, p, i, h, buf[..fill]);
        assert buf[fill := p[i]][..fill + 1] == buf[..fill] + [p[i]];
        buf := buf[fill := p[i]];
        fill := fill + 1;
        i := i + 1;
        if fill == 64 {
          assert buf[..64] == buf;
          h := f(h, buf);
          fill := 0;
        }
      }
      assert p[..|p|] == p;
    }

    method FillZeros(upTo: nat)
      requires |buf| == 64 && fill <= upTo <= 64
      modifies this`buf, this`fill
      ensures |buf| == 64 && fill == upTo
      ensures buf[..fill] == old(buf[..fill]) + Zeros(upTo - old(fill))
    {
      ghost var kept := buf[..fill];
      while fill < upTo
        invariant |kept| <= fill <= upTo && |buf| == 64
        invariant buf[..fill] == kept + Zeros(fill - |kept|)
      {
        assert buf[fill := 0][..fill + 1] == buf[..fill] + [0];
        buf := buf[fill := 0];
        fill := fill + 1;
      }
    }

    /** Closes the chain; the context is used up. */
    method Final() returns (out: Digest)
      requires Valid()
      modifies this
      ensures out == Finish(f, old(View()))
    {
      hide Finish, LengthField, StateBytes, Be32;
      ghost var h0, tail := h, buf[..fill];
      var lo, hi := total * 8 % TWO32, total / 0x2000_0000;
      LengthFieldHalves(total);
      assert buf[fill := 0x80][..fill + 1] == tail + [0x80];
      buf := buf[fill := 0x80];
      fill := fill + 1;
      if fill > 56 {
        FillZeros(64);
        FinishInTwo(f, h0, tail, total);
        assert buf == buf[..64];
        h := f(h, buf);
        fill := 0;
      } else {
        FinishInOne(f, h0, tail, total);
      }
      FillZeros(56);
      ghost var front := buf[..56];
      assert front == if |tail| >= 56 then Zeros(56) else tail + [0x80] + Zeros(55 - |tail|);
      buf := buf[..56] + (Be32(hi) + Be32(lo));
      h := f(h, buf);
      out := StateBytes(h);
    }
  }
}
