/** Bytes, little-endian words, and the word-sized PEEK/POKE access of ptrace. */
module Words {
  type Byte = bv8
  type Word = bv64
  type Memory = seq<Byte>

  const INT3: Byte := 0xcc
  const UPPER_BYTES: Word := 0xffff_ffff_ffff_ff00

  function Join(b: seq<Byte>): Word
    requires |b| == 8
  {
    (b[0] as Word) | (b[1] as Word << 8) | (b[2] as Word << 16) | (b[3] as Word << 24)
    | (b[4] as Word << 32) | (b[5] as Word << 40) | (b[6] as Word << 48) | (b[7] as Word << 56)
  }

  // The bytes of a word, lowest first: byte k is (w >> 8*k) & 0xff.
  function Split(w: Word): (b: seq<Byte>)
    ensures |b| == 8
  {
    [(w & 0xff) as Byte, ((w >> 8) & 0xff) as Byte, ((w >> 16) & 0xff) as Byte, ((w >> 24) & 0xff) as Byte,
     ((w >> 32) & 0xff) as Byte, ((w >> 40) & 0xff) as Byte, ((w >> 48) & 0xff) as Byte, ((w >> 56) & 0xff) as Byte]
  }

  function Low(w: Word): Byte {
    (w & 0xff) as Byte
  }

  // The word that replaces the lowest byte of `w` and keeps the other seven.
  function WithLow(w: Word, x: Byte): Word {
    (w & UPPER_BYTES) | (x as Word)
  }

  function Peek(m: Memory, a: nat): Word
    requires a + 8 <= |m|
  {
    Join(m[a..a + 8])
  }

  function Poke(m: Memory, a: nat, w: Word): (m': Memory)
    requires a + 8 <= |m|
    ensures |m'| == |m|
  {
    m[..a] + Split(w) + m[a + 8..]
  }

  lemma SplitJoin(b: seq<Byte>)
    requires |b| == 8
    ensures Split(Join(b)) == b
  {
    SplitJoinBits(b[0], b[1], b[2], b[3], b[4], b[5], b[6], b[7]);
    assert b == [b[0], b[1], b[2], b[3], b[4], b[5], b[6], b[7]];
  }

  lemma SplitJoinBits(b0: Byte, b1: Byte, b2: Byte, b3: Byte, b4: Byte, b5: Byte, b6: Byte, b7: Byte)
    ensures Split(Join([b0, b1, b2, b3, b4, b5, b6, b7])) == [b0, b1, b2, b3, b4, b5, b6, b7]
  {
  }

  /** Bytes are stored lowest first: the first is the low byte, and shifting right by one byte drops it. */
  lemma SplitShifted(w: Word)
    ensures Split(w)[0] == Low(w) && Split(w >> 8) == Split(w)[1..] + [0]
  {
    assert (w >> 8) >> 8 == w >> 16 && (w >> 8) >> 16 == w >> 24 && (w >> 8) >> 24 == w >> 32;
    assert (w >> 8) >> 32 == w >> 40 && (w >> 8) >> 40 == w >> 48 && (w >> 8) >> 48 == w >> 56;
    assert ((w >> 8) >> 56) & 0xff == 0;
  }

  lemma SplitWithLow(w: Word, x: Byte)
    ensures Split(WithLow(w, x)) == [x] + Split(w)[1..]
    ensures Low(WithLow(w, x)) == x
  {
    WithLowBits(w, x, WithLow(w, x));
    SplitTail(w, x, WithLow(w, x));
  }

  lemma SplitTail(w: Word, x: Byte, v: Word)
    requires (v & 0xff) as Byte == x
    requires (v >> 8) & 0xff == (w >> 8) & 0xff && (v >> 16) & 0xff == (w >> 16) & 0xff
    requires (v >> 24) & 0xff == (w >> 24) & 0xff && (v >> 32) & 0xff == (w >> 32) & 0xff
    requires (v >> 40) & 0xff == (w >> 40) & 0xff && (v >> 48) & 0xff == (w >> 48) & 0xff
    requires (v >> 56) & 0xff == (w >> 56) & 0xff
    ensures Split(v) == [x] + Split(w)[1..]
  {
  }

  lemma WithLowBits(w: Word, x: Byte, v: Word)
    requires v == (w & 0xffff_ffff_ffff_ff00) | (x as Word)
    ensures (v & 0xff) as Byte == x
    ensures (v >> 8) & 0xff == (w >> 8) & 0xff && (v >> 16) & 0xff == (w >> 16) & 0xff
    ensures (v >> 24) & 0xff == (w >> 24) & 0xff && (v >> 32) & 0xff == (w >> 32) & 0xff
    ensures (v >> 40) & 0xff == (w >> 40) & 0xff && (v >> 48) & 0xff == (w >> 48) & 0xff
    ensures (v >> 56) & 0xff == (w >> 56) & 0xff
  {
  }

  lemma PokeParts(m: Memory, a: nat, w: Word, x: Byte)
    requires a + 8 <= |m| && Split(w) == [x] + m[a..a + 8][1..]
    ensures Poke(m, a, w) == m[a := x] && Split(w) == [x] + m[a + 1..a + 8]
  {
    assert m[a..a + 8][1..] == m[a + 1..a + 8];
  }

  /** Reading a word, replacing its low byte and writing it back changes exactly one byte of memory. */
  lemma PokeLowByte(m: Memory, a: nat, x: Byte)
    requires a + 8 <= |m|
    ensures Poke(m, a, WithLow(Peek(m, a), x)) == m[a := x]
    ensures Split(WithLow(Peek(m, a), x)) == [x] + m[a + 1..a + 8]
    ensures Low(WithLow(Peek(m, a), x)) == x && Low(Peek(m, a)) == m[a]
  {
    var word := Peek(m, a);
    SplitJoin(m[a..a + 8]);
    SplitWithLow(word, x);
    PokeParts(m, a, WithLow(word, x), x);
    assert Split(word)[0] == Low(word);
  }
}
