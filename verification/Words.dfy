/** Machine integers as the firmware's C uses them: bytes, 32-bit unsigned words
    with wrap-around, and their little-endian encodings. */
module Words {

  const WORD_MOD := 0x1_0000_0000

  type Byte = x: int | 0 <= x < 256
  type Half = x: int | 0 <= x < 0x1_0000
  type Word = x: int | 0 <= x < WORD_MOD

  datatype Option<+T> = None | Some(value: T)

  // `a - b` and `a + 1` on uint32_t.
  function Sub32(a: int, b: int): Word {
    (a - b) % WORD_MOD
  }

  function Succ32(a: Word): Word {
    (a + 1) % WORD_MOD
  }

  // A clock read twice, less than a wrap apart.
  lemma Elapsed(from: nat, to: nat)
    requires from <= to < from + WORD_MOD
    ensures Sub32(to % WORD_MOD, from % WORD_MOD) == to - from
  {
  }

  // C's division, which truncates.
  function TruncDiv(a: int, b: int): int
    requires b > 0
  {
    if a >= 0 then a / b else -(-a / b)
  }

  // `(int32_t)(a - b) > 0`
  predicate NewerThan(a: Word, b: Word) {
    0 < Sub32(a, b) < 0x8000_0000
  }

  function Le16(w: Half): (b: seq<Byte>)
    ensures |b| == 2
  {
    [w % 256, w / 256]
  }

  function FromLe16(b: seq<Byte>): Half
    requires |b| == 2
  {
    var lo: int, hi: int := b[0], b[1];
    lo + 256 * hi
  }

  function Le32(w: Word): (b: seq<Byte>)
    ensures |b| == 4
  {
    [w % 256, w / 256 % 256, w / 0x1_0000 % 256, w / 0x100_0000]
  }

  function FromLe32(b: seq<Byte>): Word
    requires |b| == 4
  {
    var b0: int, b1: int, b2: int, b3: int := b[0], b[1], b[2], b[3];
    b0 + 256 * b1 + 0x1_0000 * b2 + 0x100_0000 * b3
  }

  lemma Le16RoundTrip(w: Half)
    ensures FromLe16(Le16(w)) == w
  {
  }

  lemma FromLe16RoundTrip(b: seq<Byte>)
    requires |b| == 2
    ensures Le16(FromLe16(b)) == b
  {
    assert FromLe16(b) / 256 == b[1];
  }

  lemma Le32RoundTrip(w: Word)
    ensures FromLe32(Le32(w)) == w
  {
    assert w / 256 == w / 0x1_0000 * 256 + w / 256 % 256;
    assert w / 0x1_0000 == w / 0x100_0000 * 256 + w / 0x1_0000 % 256;
  }

  lemma FromLe32RoundTrip(b: seq<Byte>)
    requires |b| == 4
    ensures Le32(FromLe32(b)) == b
  {
    var b0: int, b1: int, b2: int, b3: int := b[0], b[1], b[2], b[3];
    var w := FromLe32(b);
    assert w / 256 == b1 + 256 * b2 + 0x1_0000 * b3;
    assert w / 0x1_0000 == b2 + 256 * b3;
    assert w / 0x100_0000 == b3;
  }
}
