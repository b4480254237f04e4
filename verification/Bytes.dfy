/** Bytes, 32-bit words and their encodings. */
module Bytes {
  type Byte = b: int | 0 <= b < 0x100
  type Word = w: int | 0 <= w < 0x1_0000_0000

  const TWO32 := 0x1_0000_0000

  /** The bytes of a text. */
  function Ascii(s: string): (r: seq<Byte>)
    requires forall i :: 0 <= i < |s| ==> s[i] as int < 128
    ensures |r| == |s|
  {
    seq(|s|, i requires 0 <= i < |s| => s[i] as int)
  }

  function Be32(w: Word): (r: seq<Byte>)
    ensures |r| == 4
  {
    [w / 0x100_0000, w / 0x1_0000 % 0x100, w / 0x100 % 0x100, w % 0x100]
  }

  function UnBe32(b: seq<Byte>): (w: Word)
    requires |b| == 4
  {
    var b0: int, b1: int, b2: int, b3: int := b[0], b[1], b[2], b[3];
    b0 * 0x100_0000 + b1 * 0x1_0000 + b2 * 0x100 + b3
  }

  function Le32(b: seq<Byte>): (w: Word)
    requires |b| == 4
  {
    UnBe32([b[3], b[2], b[1], b[0]])
  }

  /** The low k bytes of a number, lowest first. */
  function LeBytes(n: nat, k: nat): (r: seq<Byte>)
    ensures |r| == k
  {
    if k == 0 then [] else [n % 0x100] + LeBytes(n / 0x100, k - 1)
  }

  lemma LeBytesAre(n: nat)
    ensures LeBytes(n, 1) == [n % 0x100]
    ensures LeBytes(n, 2) == [n % 0x100, n / 0x100 % 0x100]
    ensures LeBytes(n, 4) == [n % 0x100, n / 0x100 % 0x100, n / 0x1_0000 % 0x100, n / 0x100_0000 % 0x100]
  {
    var b, c, d := n / 0x100, n / 0x1_0000, n / 0x100_0000;
    assert b / 0x100 == c && c / 0x100 == d;
    assert LeBytes(d, 1) == [d % 0x100] + LeBytes(d / 0x100, 0);
    assert LeBytes(c, 2) == [c % 0x100] + LeBytes(d, 1);
    assert LeBytes(c, 1) == [c % 0x100] + LeBytes(d, 0);
    assert LeBytes(b, 3) == [b % 0x100] + LeBytes(c, 2);
    assert LeBytes(b, 1) == [b % 0x100] + LeBytes(c, 0);
    assert LeBytes(n, 4) == [n % 0x100] + LeBytes(b, 3);
  }

  /** A number written lowest byte first reads back. */
  lemma LeReads(w: Word)
    ensures Le32(LeBytes(w, 4)) == w
  {
    LeBytesAre(w);
    Be32RoundTrip(w);
    assert LeBytes(w, 4)[3] == w / 0x100_0000;
  }

  function WordsToBytes(ws: seq<Word>): (r: seq<Byte>)
    ensures |r| == 4 * |ws|
  {
    if ws == [] then [] else Be32(ws[0]) + WordsToBytes(ws[1..])
  }

  lemma {:induction false} WordsJoined(a: seq<Word>, b: seq<Word>)
    ensures WordsToBytes(a + b) == WordsToBytes(a) + WordsToBytes(b)
  {
    hide Be32;
    if a == [] {
      assert a + b == b;
    } else {
      WordsJoined(a[1..], b);
      assert (a + b)[0] == a[0] && (a + b)[1..] == a[1..] + b;
      Associates(Be32(a[0]), WordsToBytes(a[1..]), WordsToBytes(b));
    }
  }

  lemma Associates(a: seq<Byte>, b: seq<Byte>, c: seq<Byte>)
    ensures a + b + c == a + (b + c)
  {
  }

  lemma TwoWords(ws: seq<Word>)
    requires |ws| == 2
    ensures WordsToBytes(ws) == Be32(ws[0]) + Be32(ws[1])
  {
    hide Be32;
    assert ws[1..][1..] == [];
  }

  lemma FourWords(ws: seq<Word>)
    requires |ws| == 4
    ensures WordsToBytes(ws) == (Be32(ws[0]) + Be32(ws[1])) + (Be32(ws[2]) + Be32(ws[3]))
  {
    hide Be32, WordsToBytes;
    TwoWords(ws[..2]);
    TwoWords(ws[2..]);
    WordsJoined(ws[..2], ws[2..]);
    assert ws[..2] + ws[2..] == ws;
  }

  lemma EightWords(ws: seq<Word>)
    requires |ws| == 8
    ensures WordsToBytes(ws) ==
      ((Be32(ws[0]) + Be32(ws[1])) + (Be32(ws[2]) + Be32(ws[3]))) + ((Be32(ws[4]) + Be32(ws[5])) + (Be32(ws[6]) + Be32(ws[7])))
  {
    hide Be32, WordsToBytes;
    FourWords(ws[..4]);
    FourWords(ws[4..]);
    WordsJoined(ws[..4], ws[4..]);
    assert ws[..4] + ws[4..] == ws;
  }

  function BytesToWords(b: seq<Byte>): (ws: seq<Word>)
    requires |b| % 4 == 0
    ensures 4 * |ws| == |b|
  {
    if b == [] then [] else [UnBe32(b[..4])] + BytesToWords(b[4..])
  }

  lemma Be32RoundTrip(w: Word)
    ensures UnBe32(Be32(w)) == w
  {
    var a, b, c := w / 0x100, w / 0x1_0000, w / 0x100_0000;
    assert a == 0x100 * b + a % 0x100 && b == 0x100 * c + b % 0x100;
  }

  lemma {:induction false} WordsRoundTrip(ws: seq<Word>)
    ensures BytesToWords(WordsToBytes(ws)) == ws
  {
    hide Be32, UnBe32;
    if ws == [] {
    } else {
      Be32RoundTrip(ws[0]);
      var b := WordsToBytes(ws);
      WordsRoundTrip(ws[1..]);
      assert b[..4] == Be32(ws[0]) && b[4..] == WordsToBytes(ws[1..]);
    }
  }

  lemma AtLeastOnce(k: int, b: nat)
    ensures k >= 1 ==> k * b >= b
    ensures k <= -1 ==> k * b + b <= 0
  {
  }

  lemma DivUnique(a: nat, b: nat, q: nat, r: nat)
    requires b > 0 && r < b && a == q * b + r
    ensures a / b == q && a % b == r
  {
    assert (a / b - q) * b == r - a % b;
    AtLeastOnce(a / b - q, b);
  }

  function Pow2(k: nat): (r: nat)
    ensures r >= 1
  {
    if k == 0 then 1 else 2 * Pow2(k - 1)
  }

  function Zeros(n: nat): (z: seq<Byte>)
    ensures |z| == n
    ensures forall i :: 0 <= i < n ==> z[i] == 0
  {
    seq(n, _ => 0)
  }

  type Sector = s: seq<Byte> | |s| == 512 witness Zeros(512)

  /** `data` written over `mem` at `at`. */
  function Write(mem: seq<Byte>, at: nat, data: seq<Byte>): (r: seq<Byte>)
    requires at + |data| <= |mem|
    ensures |r| == |mem|
  {
    mem[..at] + data + mem[at + |data|..]
  }
}
