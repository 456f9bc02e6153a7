/**
 * One record of main/history_store.c, byte by byte.
 *
 * An erase sets bytes to 0xFF, a write ANDs, and either may stop after any number
 * of bytes.  The checksum is a parameter about which nothing is assumed.
 */
module HistoryRecord {
  import opened Words

  const SECTOR_SIZE := 4096
  const HEADER_SIZE := 20
  const MAX_PAYLOAD := SECTOR_SIZE - HEADER_SIZE
  const SLOT_MAGIC: Word := 0x31484744
  const ERASED: Byte := 255

  type Checksum = seq<Byte> -> Word
  type Sector = s: seq<Byte> | |s| == SECTOR_SIZE witness seq(SECTOR_SIZE, _ => ERASED)
  type Payload = p: seq<Byte> | |p| <= MAX_PAYLOAD

  // ---------------- records ----------------

  function Field(s: Sector, off: nat): Word
    requires off + 4 <= HEADER_SIZE
  {
    FromLe32(s[off..off + 4])
  }

  function MagicOf(s: Sector): Word { Field(s, 0) }
  function SeqOf(s: Sector): Word { Field(s, 4) }
  function LenOf(s: Sector): Word { Field(s, 8) }
  function CrcOf(s: Sector): Word { Field(s, 12) }

  function RecordCrc(crc: Checksum, payload: seq<Byte>): Word {
    if |payload| > 0 then crc(payload) else 0
  }

  function Header(crc: Checksum, sq: Word, payload: Payload): (h: seq<Byte>)
    ensures |h| == HEADER_SIZE
  {
    Le32(SLOT_MAGIC) + Le32(sq) + Le32(|payload|) + Le32(RecordCrc(crc, payload)) + Le32(0)
  }

  // slot_valid() on the bytes of one sector.
  predicate Valid(crc: Checksum, s: Sector, cap: nat) {
    && MagicOf(s) == SLOT_MAGIC
    && LenOf(s) <= MAX_PAYLOAD
    && LenOf(s) <= cap
    && RecordCrc(crc, s[HEADER_SIZE..HEADER_SIZE + LenOf(s)]) == CrcOf(s)
  }

  function PayloadOf(s: Sector): Payload
    requires LenOf(s) <= MAX_PAYLOAD
  {
    s[HEADER_SIZE..HEADER_SIZE + LenOf(s)]
  }

  // ---------------- the medium ----------------

  function And(a: nat, b: nat): (r: nat)
    ensures r <= b
  {
    if a == 0 || b == 0 then 0
    else 2 * And(a / 2, b / 2) + (if a % 2 == 1 && b % 2 == 1 then 1 else 0)
  }

  function Pow2(k: nat): nat {
    if k == 0 then 1 else 2 * Pow2(k - 1)
  }

  lemma {:induction false} AndOnes(k: nat, b: nat)
    requires b < Pow2(k)
    ensures And(Pow2(k) - 1, b) == b
  {
    if k > 0 && b > 0 {
      AndOnes(k - 1, b / 2);
      assert (Pow2(k) - 1) / 2 == Pow2(k - 1) - 1;
    }
  }

  // Writing over an erased byte stores the byte.
  lemma AndErased(b: Byte)
    ensures And(ERASED, b) == b
  {
    assert Pow2(8) == 256 by {
      assert Pow2(4) == 16;
    }
    AndOnes(8, b);
  }

  // An erase that stopped after `k` bytes.
  function EraseFirst(s: Sector, k: nat): Sector
    requires k <= SECTOR_SIZE
  {
    seq(SECTOR_SIZE, i requires 0 <= i < SECTOR_SIZE => if i < k then ERASED else s[i])
  }

  // A write of `data` at `off` that stopped after `k` bytes.
  function ProgramFirst(s: Sector, off: nat, data: seq<Byte>, k: nat): Sector
    requires k <= |data| && off + |data| <= SECTOR_SIZE
  {
    seq(SECTOR_SIZE, i requires 0 <= i < SECTOR_SIZE =>
      if off <= i < off + k then And(s[i], data[i - off]) else s[i])
  }

  // ---------------- what a save leaves behind ----------------

  // Bytes the chip handles in one save: the erase, the payload, the header.
  function SaveBytes(payload: Payload): nat {
    SECTOR_SIZE + |payload| + HEADER_SIZE
  }

  // The sector being written, after `n` of those bytes.
  function Torn(was: Sector, payload: Payload, header: seq<Byte>, n: nat): Sector
    requires |header| == HEADER_SIZE && n <= SaveBytes(payload)
  {
    if n <= SECTOR_SIZE then EraseFirst(was, n)
    else
      var blank := EraseFirst(was, SECTOR_SIZE);
      if n <= SECTOR_SIZE + |payload| then ProgramFirst(blank, HEADER_SIZE, payload, n - SECTOR_SIZE)
      else ProgramFirst(ProgramFirst(blank, HEADER_SIZE, payload, |payload|), 0, header,
                        n - SECTOR_SIZE - |payload|)
  }

  // Bytes of the header still unwritten after `n`, as they read: all 0xFF.
  predicate RestErased(header: seq<Byte>, from: nat)
    requires |header| == HEADER_SIZE && from <= 16
  {
    forall i | from <= i < 16 :: header[i] == ERASED
  }

  // The record is visible after `n` bytes: its header has landed up to the
  // checksum, or what is missing of the checksum happens to read as written.
  predicate Landed(crc: Checksum, sq: Word, payload: Payload, n: nat) {
    var h := n - SECTOR_SIZE - |payload|;
    h >= 16 || (h >= 12 && RestErased(Header(crc, sq, payload), h))
  }

  lemma HeaderFields(crc: Checksum, sq: Word, payload: Payload)
    ensures var h := Header(crc, sq, payload);
            && h[0..4] == Le32(SLOT_MAGIC) && h[4..8] == Le32(sq)
            && h[8..12] == Le32(|payload|) && h[12..16] == Le32(RecordCrc(crc, payload))
  {
  }

  // A sector whose first byte is erased is nobody's record.
  lemma ErasedHeadIsInvalid(crc: Checksum, s: Sector)
    requires s[0] == ERASED
    ensures !Valid(crc, s, MAX_PAYLOAD) && MagicOf(s) != SLOT_MAGIC
  {
    assert s[0..4][0] == ERASED;
    assert FromLe32(s[0..4]) % 256 == ERASED;
    assert SLOT_MAGIC % 256 == 0x44;
  }

  lemma TornHeaderBytes(was: Sector, payload: Payload, header: seq<Byte>, n: nat)
    requires |header| == HEADER_SIZE
    requires SECTOR_SIZE + |payload| <= n <= SaveBytes(payload)
    ensures var s := Torn(was, payload, header, n);
            var h := n - SECTOR_SIZE - |payload|;
            && (forall i | 0 <= i < h :: s[i] == header[i])
            && (forall i | h <= i < HEADER_SIZE :: s[i] == ERASED)
            && s[HEADER_SIZE..HEADER_SIZE + |payload|] == payload
  {
    forall b: Byte { AndErased(b); }
    var s := Torn(was, payload, header, n);
    assert forall i | 0 <= i < |payload| :: s[HEADER_SIZE + i] == payload[i];
  }

  // Equal words have equal encodings, so a header field reads as written only
  // if its bytes do.
  lemma FieldIff(s: Sector, off: nat, w: Word)
    requires off + 4 <= HEADER_SIZE
    ensures Field(s, off) == w <==> s[off..off + 4] == Le32(w)
  {
    Le32RoundTrip(w);
    FromLe32RoundTrip(s[off..off + 4]);
  }

  /** The torn sector is the old one, no record at all, or the complete new one:
      never anything else, whatever the checksum is. */
  lemma TornSector(crc: Checksum, was: Sector, sq: Word, payload: Payload, n: nat)
    requires n <= SaveBytes(payload)
    ensures var s := Torn(was, payload, Header(crc, sq, payload), n);
            && (n == 0 ==> s == was)
            && (n > 0 ==> (Valid(crc, s, MAX_PAYLOAD) <==> Landed(crc, sq, payload, n)))
            && (n > 0 && Valid(crc, s, MAX_PAYLOAD) ==> SeqOf(s) == sq && PayloadOf(s) == payload)
            && (0 < n <= SECTOR_SIZE + |payload| ==> MagicOf(s) != SLOT_MAGIC)
  {
    var header := Header(crc, sq, payload);
    var s := Torn(was, payload, header, n);
    if n == 0 {
      assert s == was;
    } else if n <= SECTOR_SIZE + |payload| {
      assert s[0] == ERASED;
      ErasedHeadIsInvalid(crc, s);
    } else {
      TornWithHeader(crc, was, sq, payload, n);
    }
  }

  lemma TornWithHeader(crc: Checksum, was: Sector, sq: Word, payload: Payload, n: nat)
    requires SECTOR_SIZE + |payload| < n <= SaveBytes(payload)
    ensures var s := Torn(was, payload, Header(crc, sq, payload), n);
            && (Valid(crc, s, MAX_PAYLOAD) <==> Landed(crc, sq, payload, n))
            && (Valid(crc, s, MAX_PAYLOAD) ==> SeqOf(s) == sq && PayloadOf(s) == payload)
  {
    var header := Header(crc, sq, payload);
    var s := Torn(was, payload, header, n);
    var h := n - SECTOR_SIZE - |payload|;
    TornHeaderBytes(was, payload, header, n);
    if h < 12 {
      ErasedLengthIsInvalid(crc, s);
    } else {
      FieldsLanded(crc, s, sq, payload, h);
      CrcLanded(crc, s, sq, payload, h);
      ValidByCrc(crc, s, payload);
    }
  }

  // A length with its top byte still reading 0xFF is absurd.
  lemma ErasedLengthIsInvalid(crc: Checksum, s: Sector)
    requires s[11] == ERASED
    ensures !Valid(crc, s, MAX_PAYLOAD)
  {
    assert s[8..12][3] == ERASED;
    assert LenOf(s) > MAX_PAYLOAD;
  }

  lemma ValidByCrc(crc: Checksum, s: Sector, payload: Payload)
    requires MagicOf(s) == SLOT_MAGIC && LenOf(s) == |payload| && s[HEADER_SIZE..HEADER_SIZE + |payload|] == payload
    ensures Valid(crc, s, MAX_PAYLOAD) <==> CrcOf(s) == RecordCrc(crc, payload)
    ensures PayloadOf(s) == payload
  {
  }

  // The three fields ahead of the checksum, and the payload behind the header.
  lemma FieldsLanded(crc: Checksum, s: Sector, sq: Word, payload: Payload, h: nat)
    requires 12 <= h <= HEADER_SIZE && forall i | 0 <= i < h :: s[i] == Header(crc, sq, payload)[i]
    ensures MagicOf(s) == SLOT_MAGIC && SeqOf(s) == sq && LenOf(s) == |payload|
  {
    var header := Header(crc, sq, payload);
    HeaderFields(crc, sq, payload);
    FieldIff(s, 0, SLOT_MAGIC);
    FieldIff(s, 4, sq);
    FieldIff(s, 8, |payload|);
    assert s[0..4] == header[0..4];
    assert s[4..8] == header[4..8];
    assert s[8..12] == header[8..12];
  }

  // The checksum reads as written only if what is missing of it does.
  lemma CrcLanded(crc: Checksum, s: Sector, sq: Word, payload: Payload, h: nat)
    requires 12 <= h <= HEADER_SIZE && forall i | 0 <= i < h :: s[i] == Header(crc, sq, payload)[i]
    requires forall i | h <= i < HEADER_SIZE :: s[i] == ERASED
    ensures CrcOf(s) == RecordCrc(crc, payload)
        <==> h >= 16 || RestErased(Header(crc, sq, payload), h)
  {
    var header := Header(crc, sq, payload);
    HeaderFields(crc, sq, payload);
    FieldIff(s, 12, RecordCrc(crc, payload));
    if h >= 16 || RestErased(header, h) {
      assert s[12..16] == header[12..16];
    } else {
      var i :| h <= i < 16 && header[i] != ERASED;
      assert s[12..16][i - 12] != header[12..16][i - 12];
    }
  }

  /** The magic, all that ensure_scanned() looks for, is there from the header's fourth
      byte on. */
  lemma TornMagic(crc: Checksum, was: Sector, sq: Word, payload: Payload, n: nat)
    requires 0 < n <= SaveBytes(payload)
    ensures MagicOf(Torn(was, payload, Header(crc, sq, payload), n)) == SLOT_MAGIC
        <==> n >= SECTOR_SIZE + |payload| + 4
  {
    var header := Header(crc, sq, payload);
    var s := Torn(was, payload, header, n);
    if n <= SECTOR_SIZE + |payload| {
      assert s[0] == ERASED;
      ErasedHeadIsInvalid(crc, s);
    } else {
      var h := n - SECTOR_SIZE - |payload|;
      TornHeaderBytes(was, payload, header, n);
      HeaderFields(crc, sq, payload);
      FieldIff(s, 0, SLOT_MAGIC);
      if h >= 4 {
        assert s[0..4] == header[0..4];
      } else {
        assert s[0..4][3] == ERASED && Le32(SLOT_MAGIC)[3] != ERASED;
      }
    }
  }
}
