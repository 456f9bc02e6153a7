/**
 * The conversation in RAM: the arena and its index in main/dg_agent.c, and the
 * record they are written to flash as.
 *
 * A conversation is a sequence of turns.  `Pack` is the arena they fill and `Index`
 * the entries that tile it; `Encode` is the record.  The class works in place on
 * the two arrays, and every method is proved to do to the turns what it says.
 */
module HistoryArena {
  import opened Words
  import opened Utf8

  const HISTORY_BYTES := 3072
  const MAX_TURNS := 40
  const TURN_MAX := 512
  const ENTRY_SIZE := 6
  const RECORD_MAX := 2 + ENTRY_SIZE * MAX_TURNS + HISTORY_BYTES

  const USER: Byte := 0
  const ASSISTANT: Byte := 1

  // `pad` is the structure's padding byte, which the flush copies with the rest.
  datatype Turn = Turn(role: Byte, pad: Byte, content: seq<Byte>)
  datatype Entry = Entry(off: Half, len: Half, role: Byte, pad: Byte)

  // ---------------- a conversation, packed ----------------

  function Pack(ts: seq<Turn>): seq<Byte> {
    if |ts| == 0 then [] else ts[0].content + [0] + Pack(ts[1..])
  }

  predicate Fits(ts: seq<Turn>) {
    |ts| <= MAX_TURNS && |Pack(ts)| <= HISTORY_BYTES
  }

  function Index(ts: seq<Turn>, off: nat): (ix: seq<Entry>)
    requires off + |Pack(ts)| <= HISTORY_BYTES
    ensures |ix| == |ts|
  {
    if |ts| == 0 then []
    else
      var len := |ts[0].content|;
      [Entry(off, len, ts[0].role, ts[0].pad)] + Index(ts[1..], off + len + 1)
  }

  lemma {:induction false} PackAppend(ts: seq<Turn>, t: Turn)
    ensures Pack(ts + [t]) == Pack(ts) + t.content + [0]
  {
    if |ts| == 0 {
      assert [t][1..] == [];
    } else {
      PackAppend(ts[1..], t);
      assert (ts + [t])[1..] == ts[1..] + [t];
    }
  }

  lemma {:induction false} IndexAppend(ts: seq<Turn>, t: Turn, off: nat)
    requires off + |Pack(ts + [t])| <= HISTORY_BYTES
    ensures |Pack(ts + [t])| == |Pack(ts)| + |t.content| + 1
    ensures Index(ts + [t], off) == Index(ts, off) + [Entry(off + |Pack(ts)|, |t.content|, t.role, t.pad)]
  {
    PackAppend(ts, t);
    if |ts| > 0 {
      assert (ts + [t])[1..] == ts[1..] + [t];
      IndexAppend(ts[1..], t, off + |ts[0].content| + 1);
    }
  }

  // Moving the arena down by `d` takes `d` off every entry.
  lemma {:induction false} IndexShift(ts: seq<Turn>, off: nat, d: nat)
    requires off + d + |Pack(ts)| <= HISTORY_BYTES
    ensures var hi, lo := Index(ts, off + d), Index(ts, off);
            forall i | 0 <= i < |ts| :: hi[i].off >= d && lo[i] == hi[i].(off := hi[i].off - d)
  {
    if |ts| > 0 {
      var next := off + |ts[0].content| + 1;
      IndexShift(ts[1..], next, d);
      assert Index(ts, off) == [Index(ts, off)[0]] + Index(ts[1..], next);
      assert Index(ts, off + d) == [Index(ts, off + d)[0]] + Index(ts[1..], next + d);
    }
  }

  // ---------------- which old turns stay ----------------

  function Kept(ts: seq<Turn>, t: Turn): seq<Turn> {
    if |ts| == 0 || Fits(ts + [t]) then ts else Kept(ts[1..], t)
  }

  predicate IsSuffix(s: seq<Turn>, ts: seq<Turn>) {
    |s| <= |ts| && s == ts[|ts| - |s|..]
  }

  /** What stays is the longest suffix of the old turns that fits with the new. */
  lemma {:induction false} KeptIsLongestSuffix(ts: seq<Turn>, t: Turn)
    requires Fits([t])
    ensures IsSuffix(Kept(ts, t), ts) && Fits(Kept(ts, t) + [t])
    ensures forall k | 0 <= k < |ts| - |Kept(ts, t)| :: !Fits(ts[k..] + [t])
  {
    if |ts| == 0 {
      assert ts + [t] == [t];
    } else if !Fits(ts + [t]) {
      KeptIsLongestSuffix(ts[1..], t);
      forall k | 0 <= k < |ts| - |Kept(ts, t)|
        ensures !Fits(ts[k..] + [t])
      {
        assert ts[0..] == ts;
        assert k > 0 ==> ts[k..] == ts[1..][k - 1..];
      }
    }
  }

  // The bytes of `content` that are stored.
  function Clip(content: seq<Byte>): (len: nat)
    ensures len <= TURN_MAX && len <= |content|
  {
    BackOff(content, if |content| > TURN_MAX then TURN_MAX else |content|)
  }

  /** A valid UTF-8 turn is stored as its longest valid prefix of at most 512
      bytes: the whole of it, when it is no longer than that. */
  lemma ClipKeepsUtf8(content: seq<Byte>)
    requires ValidUtf8(content)
    ensures ValidUtf8(content[..Clip(content)])
    ensures forall k | Clip(content) < k <= TURN_MAX && k <= |content| :: !ValidUtf8(content[..k])
    ensures |content| <= TURN_MAX ==> Clip(content) == |content|
  {
    BackOffIsLongestValidPrefix(content, if |content| > TURN_MAX then TURN_MAX else |content|);
    assert content[..|content|] == content;
  }

  function RoleId(role: string): Byte {
    if role == "assistant" then ASSISTANT else USER
  }

  function NewTurn(role: string, content: seq<Byte>): Turn {
    Turn(RoleId(role), 0, content[..Clip(content)])
  }

  function Added(ts: seq<Turn>, role: string, content: seq<Byte>): seq<Turn> {
    Kept(ts, NewTurn(role, content)) + [NewTurn(role, content)]
  }

  // history_role_name(): what a stored role is replayed as.
  function RoleName(role: Byte): string {
    if role == 1 then "assistant" else "user"
  }

  predicate Speaker(role: string) {
    role == "user" || role == "assistant"
  }

  // A conversation as it is replayed: who said what.
  datatype Line = Line(speaker: string, text: seq<Byte>)

  function Replayed(ts: seq<Turn>): seq<Line> {
    seq(|ts|, i requires 0 <= i < |ts| => Line(RoleName(ts[i].role), ts[i].content))
  }

  // What a line of `role` saying `content` is stored as: the speaker, and of a valid
  // text its longest valid prefix of at most 512 bytes.
  ghost predicate LineOf(l: Line, role: string, content: seq<Byte>) {
    && l.speaker == role && l.text <= content && |l.text| <= TURN_MAX
    && (ValidUtf8(content) ==>
          && ValidUtf8(l.text)
          && forall k | |l.text| < k <= TURN_MAX && k <= |content| :: !ValidUtf8(content[..k]))
  }

  lemma NewLine(role: string, content: seq<Byte>)
    requires Speaker(role)
    ensures var t := NewTurn(role, content); LineOf(Line(RoleName(t.role), t.content), role, content)
  {
    if ValidUtf8(content) {
      ClipKeepsUtf8(content);
    }
  }

  /** Whoever speaks is replayed as the speaker, after the last of the lines before that
      fit. */
  lemma {:induction false} AddedIsReplayed(ts: seq<Turn>, role: string, content: seq<Byte>)
    requires Speaker(role)
    ensures var lines, before := Replayed(Added(ts, role, content)), Replayed(ts);
      && |lines| > 0 && LineOf(lines[|lines| - 1], role, content)
      && |lines| - 1 <= |before| && lines[..|lines| - 1] == before[|before| - (|lines| - 1)..]
  {
    var t := NewTurn(role, content);
    NewTurnFits(role, content);
    NewLine(role, content);
    KeptIsLongestSuffix(ts, t);
    ReplayedAfter(ts, Kept(ts, t), t);
  }

  lemma {:induction false} ReplayedAfter(ts: seq<Turn>, s: seq<Turn>, t: Turn)
    requires IsSuffix(s, ts)
    ensures Replayed(s + [t]) == Replayed(s) + [Line(RoleName(t.role), t.content)]
    ensures Replayed(s) == Replayed(ts)[|ts| - |s|..]
  {
  }

  lemma NewTurnFits(role: string, content: seq<Byte>)
    ensures Fits([NewTurn(role, content)])
  {
    var t := NewTurn(role, content);
    assert Pack([t]) == t.content + [0] by { assert [t][1..] == []; }
  }

  lemma {:induction false} KeptFits(ts: seq<Turn>, t: Turn)
    requires Fits(ts) && |t.content| <= TURN_MAX
    ensures Fits(Kept(ts, t) + [t])
  {
    assert Pack([t]) == t.content + [0] by { assert [t][1..] == []; }
    KeptIsLongestSuffix(ts, t);
  }

  // ---------------- the record ----------------

  function EncodeEntry(e: Entry): (b: seq<Byte>)
    ensures |b| == ENTRY_SIZE
  {
    Le16(e.off) + Le16(e.len) + [e.role, e.pad]
  }

  function DecodeEntry(b: seq<Byte>): Entry
    requires |b| == ENTRY_SIZE
  {
    Entry(FromLe16(b[0..2]), FromLe16(b[2..4]), b[4], b[5])
  }

  function EncodeEntries(ix: seq<Entry>): (b: seq<Byte>)
    ensures |b| == ENTRY_SIZE * |ix|
  {
    if |ix| == 0 then [] else EncodeEntry(ix[0]) + EncodeEntries(ix[1..])
  }

  function DecodeEntries(b: seq<Byte>, n: nat): (ix: seq<Entry>)
    requires |b| == ENTRY_SIZE * n
    ensures |ix| == n
  {
    if n == 0 then [] else [DecodeEntry(b[..ENTRY_SIZE])] + DecodeEntries(b[ENTRY_SIZE..], n - 1)
  }

  // What dg_agent_flush_history() writes.
  function Encode(ts: seq<Turn>): (rec: seq<Byte>)
    requires Fits(ts)
    ensures |rec| <= RECORD_MAX
  {
    Le16(|ts|) + EncodeEntries(Index(ts, 0)) + Pack(ts)
  }

  // Entry `i` of a record, and its bytes, where the layout puts them.
  lemma {:induction false} EntryAt(ix: seq<Entry>, i: nat)
    requires i < |ix|
    ensures EncodeEntries(ix)[ENTRY_SIZE * i..ENTRY_SIZE * i + ENTRY_SIZE] == EncodeEntry(ix[i])
    decreases ix
  {
    var b, rest := EncodeEntries(ix), EncodeEntries(ix[1..]);
    if i > 0 {
      EntryAt(ix[1..], i - 1);
      assert b[ENTRY_SIZE * i..ENTRY_SIZE * i + ENTRY_SIZE]
          == rest[ENTRY_SIZE * (i - 1)..ENTRY_SIZE * (i - 1) + ENTRY_SIZE];
    }
  }

  // Turn `i` of what `p` packs, by its entry.
  predicate PackedAt(p: seq<Byte>, at: int, e: Entry, t: Turn) {
    && e.len == |t.content| && e.role == t.role
    && 0 <= at && at + e.len < |p| && p[at..at + e.len] == t.content && p[at + e.len] == 0
  }

  lemma {:induction false} TurnAt(ts: seq<Turn>, off: nat, i: nat, p: seq<Byte>, ix: seq<Entry>)
    requires p == Pack(ts) && off + |p| <= HISTORY_BYTES && i < |ts| && ix == Index(ts, off)
    ensures PackedAt(p, ix[i].off - off, ix[i], ts[i])
    decreases ts
  {
    if i > 0 {
      var front, rest := ts[0].content + [0], Pack(ts[1..]);
      SameEntry(ts, off, i);
      var tail := Index(ts[1..], off + |front|);
      TurnAt(ts[1..], off + |front|, i - 1, rest, tail);
      PackedBehind(front, rest, tail[i - 1].off - off - |front|, tail[i - 1], ts[i]);
    } else {
      FirstPacked(ts, off);
    }
  }

  lemma {:induction false} SameEntry(ts: seq<Turn>, off: nat, i: nat)
    requires off + |Pack(ts)| <= HISTORY_BYTES && 0 < i < |ts|
    ensures Index(ts, off)[i] == Index(ts[1..], off + |ts[0].content| + 1)[i - 1] && ts[i] == ts[1..][i - 1]
    ensures Pack(ts) == ts[0].content + [0] + Pack(ts[1..])
  {
  }

  lemma {:induction false} FirstPacked(ts: seq<Turn>, off: nat)
    requires off + |Pack(ts)| <= HISTORY_BYTES && |ts| > 0
    ensures PackedAt(Pack(ts), 0, Index(ts, off)[0], ts[0])
  {
  }

  lemma {:induction false} PackedBehind(front: seq<Byte>, p: seq<Byte>, at: int, e: Entry, t: Turn)
    requires PackedAt(p, at, e, t)
    ensures PackedAt(front + p, at + |front|, e, t)
  {
    var q, k := front + p, at + |front|;
    assert q[k..k + e.len] == p[at..at + e.len];
  }

  // A 16-bit field of the record.
  function HalfAt(b: seq<Byte>, i: nat): int
    requires i + 1 < |b|
  {
    var lo: int, hi: int := b[i], b[i + 1];
    lo + 256 * hi
  }

  // Turn `t` as entry `i` of a record of `n` turns, read off its bytes.
  predicate LaidAt(rec: seq<Byte>, n: nat, i: nat, t: Turn)
    requires i < n
  {
    var k, base := 2 + ENTRY_SIZE * i, 2 + ENTRY_SIZE * n;
    && base <= |rec| && HalfAt(rec, k + 2) == |t.content| && rec[k + 4] == t.role
    && var at := base + HalfAt(rec, k);
       && base <= at < |rec| - |t.content|
       && rec[at..at + |t.content|] == t.content && rec[at + |t.content|] == 0
  }

  /** The record, byte for byte: the count; six bytes a turn giving offset, length and
      role; and at that offset of what follows, the text and its terminator. */
  lemma {:induction false} RecordLayout(ts: seq<Turn>, i: nat)
    requires Fits(ts) && i < |ts|
    ensures |Encode(ts)| >= 2 && HalfAt(Encode(ts), 0) == |ts|
    ensures LaidAt(Encode(ts), |ts|, i, ts[i])
  {
    CountFirst(ts);
    RecordParts(ts);
    TurnLaid(ts, i, Encode(ts), EncodeEntries(Index(ts, 0)), Pack(ts));
  }

  lemma {:induction false} TurnLaid(ts: seq<Turn>, i: nat, rec: seq<Byte>, entries: seq<Byte>, p: seq<Byte>)
    requires Fits(ts) && i < |ts| && entries == EncodeEntries(Index(ts, 0)) && p == Pack(ts)
    requires |rec| == 2 + |entries| + |p| && rec[2..2 + |entries|] == entries && rec[2 + |entries|..] == p
    ensures LaidAt(rec, |ts|, i, ts[i])
  {
    var ix := Index(ts, 0);
    EntryFields(ix, i);
    TurnAt(ts, 0, i, p, ix);
    Laid(rec, entries, p, i, |ts|, ix[i], ts[i]);
  }

  lemma {:induction false} CountFirst(ts: seq<Turn>)
    requires Fits(ts)
    ensures |Encode(ts)| >= 2 && HalfAt(Encode(ts), 0) == |ts|
  {
    var count := Le16(|ts|);
    assert Encode(ts)[0] == count[0] && Encode(ts)[1] == count[1];
  }

  lemma {:induction false} RecordParts(ts: seq<Turn>)
    requires Fits(ts)
    ensures var rec, base := Encode(ts), 2 + ENTRY_SIZE * |ts|;
      |rec| == base + |Pack(ts)| && rec[2..base] == EncodeEntries(Index(ts, 0)) && rec[base..] == Pack(ts)
  {
    Split3(Le16(|ts|), EncodeEntries(Index(ts, 0)), Pack(ts));
  }

  lemma {:induction false} EntryBytes(e: Entry, b: seq<Byte>)
    requires b == EncodeEntry(e)
    ensures HalfAt(b, 0) == e.off && HalfAt(b, 2) == e.len && b[4] == e.role
  {
  }

  lemma {:induction false} EntryFields(ix: seq<Entry>, i: nat)
    requires i < |ix|
    ensures var b := EncodeEntries(ix)[ENTRY_SIZE * i..ENTRY_SIZE * i + ENTRY_SIZE];
      HalfAt(b, 0) == ix[i].off && HalfAt(b, 2) == ix[i].len && b[4] == ix[i].role
  {
    EntryAt(ix, i);
    EntryBytes(ix[i], EncodeEntry(ix[i]));
  }

  lemma {:induction false} Laid(rec: seq<Byte>, entries: seq<Byte>, p: seq<Byte>, i: nat, n: nat, e: Entry, t: Turn)
    requires i < n && |entries| == ENTRY_SIZE * n && |rec| == 2 + |entries| + |p|
    requires rec[2..2 + |entries|] == entries && rec[2 + |entries|..] == p
    requires var b := entries[ENTRY_SIZE * i..ENTRY_SIZE * i + ENTRY_SIZE];
      HalfAt(b, 0) == e.off && HalfAt(b, 2) == e.len && b[4] == e.role
    requires PackedAt(p, e.off, e, t)
    ensures LaidAt(rec, n, i, t)
  {
    var s := ENTRY_SIZE * i;
    var b := entries[s..s + ENTRY_SIZE];
    assert forall j | 0 <= j < ENTRY_SIZE :: rec[2 + s + j] == entries[s + j] == b[j];
    var base := 2 + |entries|;
    assert rec[base + e.off..base + e.off + e.len] == rec[base..][e.off..e.off + e.len];
    assert rec[base + e.off + e.len] == rec[base..][e.off + e.len];
  }

  // The entries butt end to end from `walk` and account for every byte.
  predicate Tiles(ix: seq<Entry>, arena: seq<Byte>, walk: nat) {
    if |ix| == 0 then walk == |arena|
    else
      && ix[0].off == walk
      && walk + ix[0].len < |arena|
      && arena[walk + ix[0].len] == 0
      && Tiles(ix[1..], arena, walk + ix[0].len + 1)
  }

  function Cut(ix: seq<Entry>, arena: seq<Byte>, walk: nat): (ts: seq<Turn>)
    requires Tiles(ix, arena, walk)
    ensures |ts| == |ix|
  {
    if |ix| == 0 then []
    else
      [Turn(ix[0].role, ix[0].pad, arena[walk..walk + ix[0].len])]
      + Cut(ix[1..], arena, walk + ix[0].len + 1)
  }

  // history_load()'s checks, in its order.
  function Decode(rec: seq<Byte>): Option<seq<Turn>> {
    if |rec| < 2 then None
    else
      var count := FromLe16(rec[..2]);
      var at := 2 + ENTRY_SIZE * count;
      if count > MAX_TURNS || |rec| < at || |rec| - at > HISTORY_BYTES then None
      else
        var ix := DecodeEntries(rec[2..at], count);
        if Tiles(ix, rec[at..], 0) then Some(Cut(ix, rec[at..], 0)) else None
  }

  lemma {:induction false} CutPacks(ix: seq<Entry>, arena: seq<Byte>, walk: nat)
    requires Tiles(ix, arena, walk)
    ensures walk <= |arena| && Pack(Cut(ix, arena, walk)) == arena[walk..]
    decreases ix
  {
    if |ix| > 0 {
      var end := walk + ix[0].len;
      CutPacks(ix[1..], arena, end + 1);
      CutFrom(ix, arena, walk);
      Resplit(arena, walk, end);
    }
  }

  lemma {:induction false} CutFrom(ix: seq<Entry>, arena: seq<Byte>, walk: nat)
    requires Tiles(ix, arena, walk) && |ix| > 0
    ensures var ts, rest := Cut(ix, arena, walk), Cut(ix[1..], arena, walk + ix[0].len + 1);
      ts[0].content == arena[walk..walk + ix[0].len] && ts[1..] == rest
      && Pack(ts) == ts[0].content + [0] + Pack(rest)
  {
  }

  lemma Resplit(a: seq<Byte>, i: nat, j: nat)
    requires i <= j < |a| && a[j] == 0
    ensures a[i..] == a[i..j] + [0] + a[j + 1..]
  {
  }

  lemma {:induction false} CutTiled(ix: seq<Entry>, arena: seq<Byte>, walk: nat)
    requires Tiles(ix, arena, walk) && |arena| <= HISTORY_BYTES
    ensures walk <= |arena| && Pack(Cut(ix, arena, walk)) == arena[walk..]
    ensures Index(Cut(ix, arena, walk), walk) == ix
    decreases ix
  {
    CutPacks(ix, arena, walk);
    if |ix| > 0 {
      CutTiled(ix[1..], arena, walk + ix[0].len + 1);
      assert Cut(ix, arena, walk)[1..] == Cut(ix[1..], arena, walk + ix[0].len + 1);
    }
  }

  lemma {:induction false} IndexTiles(ts: seq<Turn>, before: seq<Byte>)
    requires |before| + |Pack(ts)| <= HISTORY_BYTES
    ensures var ix, arena := Index(ts, |before|), before + Pack(ts);
            Tiles(ix, arena, |before|) && Cut(ix, arena, |before|) == ts
  {
    if |ts| > 0 {
      var next := before + ts[0].content + [0];
      var arena := before + Pack(ts);
      assert arena == next + Pack(ts[1..]);
      IndexTiles(ts[1..], next);
      assert arena[|before|..|before| + |ts[0].content|] == ts[0].content;
      assert ts == [ts[0]] + ts[1..];
    }
  }

  lemma {:induction false} EntriesRoundTrip(ix: seq<Entry>)
    ensures DecodeEntries(EncodeEntries(ix), |ix|) == ix
  {
    if |ix| > 0 {
      var b := EncodeEntries(ix);
      assert b[..ENTRY_SIZE] == EncodeEntry(ix[0]) && b[ENTRY_SIZE..] == EncodeEntries(ix[1..]);
      EntriesRoundTrip(ix[1..]);
    }
  }

  lemma {:induction false} DecodedEntriesRoundTrip(b: seq<Byte>, n: nat)
    requires |b| == ENTRY_SIZE * n
    ensures EncodeEntries(DecodeEntries(b, n)) == b
  {
    if n > 0 {
      var head := b[..ENTRY_SIZE];
      FromLe16RoundTrip(head[0..2]);
      FromLe16RoundTrip(head[2..4]);
      assert EncodeEntry(DecodeEntry(head)) == head;
      DecodedEntriesRoundTrip(b[ENTRY_SIZE..], n - 1);
    }
  }

  lemma Split3(a: seq<Byte>, b: seq<Byte>, c: seq<Byte>)
    ensures var s := a + b + c;
            s[..|a|] == a && s[|a|..|a| + |b|] == b && s[|a| + |b|..] == c
  {
  }

  lemma {:induction false} DecodeEncode(ts: seq<Turn>)
    requires Fits(ts)
    ensures Decode(Encode(ts)) == Some(ts)
  {
    var ix := Index(ts, 0);
    var entries := EncodeEntries(ix);
    var rec := Encode(ts);
    var at := 2 + ENTRY_SIZE * |ts|;
    Le16RoundTrip(|ts|);
    Split3(Le16(|ts|), entries, Pack(ts));
    assert rec[..2] == Le16(|ts|) && rec[2..at] == entries && rec[at..] == Pack(ts);
    EntriesRoundTrip(ix);
    IndexTiles(ts, []);
    assert [] + Pack(ts) == Pack(ts);
  }

  lemma EncodeDecode(rec: seq<Byte>)
    requires Decode(rec).Some?
    ensures Fits(Decode(rec).value) && Encode(Decode(rec).value) == rec
  {
    var count := FromLe16(rec[..2]);
    var at := 2 + ENTRY_SIZE * count;
    var ix := DecodeEntries(rec[2..at], count);
    CutTiled(ix, rec[at..], 0);
    DecodedEntriesRoundTrip(rec[2..at], count);
    FromLe16RoundTrip(rec[..2]);
    assert rec == rec[..2] + rec[2..at] + rec[at..];
  }

  /** A load accepts exactly the records a flush can have written: those, and no
      other bytes, come back as the turns they hold. */
  lemma {:induction false} DecodeIff(rec: seq<Byte>, ts: seq<Turn>)
    ensures Decode(rec) == Some(ts) <==> Fits(ts) && rec == Encode(ts)
  {
    if Decode(rec) == Some(ts) {
      EncodeDecode(rec);
    }
    if Fits(ts) && rec == Encode(ts) {
      DecodeEncode(ts);
    }
  }

  // ---------------- the arrays ----------------

  class Arena {
    const arena: array<Byte>
    const idx: array<Entry>
    var count: nat
    var bytes: nat
    var frozen: bool
    ghost var turns: seq<Turn>

    ghost predicate Ready()
      reads this, arena, idx
    {
      && arena.Length == HISTORY_BYTES && idx.Length == MAX_TURNS
      && Fits(turns)
      && count == |turns| && bytes == |Pack(turns)|
      && arena[..bytes] == Pack(turns)
      && idx[..count] == Index(turns, 0)
    }

    constructor ()
      ensures Ready() && turns == [] && !frozen && fresh(arena) && fresh(idx)
    {
      arena := new Byte[HISTORY_BYTES](_ => 0);
      idx := new Entry[MAX_TURNS](_ => Entry(0, 0, 0, 0));
      count, bytes, frozen, turns := 0, 0, false, [];
    }

    // The index half of history_evict_oldest(): every entry down one place, and
    // its offset down by what was dropped.
    method SlideIndex(n: nat, drop: nat, ghost ts: seq<Turn>)
      requires n == |ts| && n < idx.Length && drop + |Pack(ts)| <= HISTORY_BYTES
      requires idx[1..n + 1] == Index(ts, drop)
      modifies idx
      ensures idx[..n] == Index(ts, 0)
    {
      ghost var target := Index(ts, 0);
      ghost var full := idx[..];
      IndexShift(ts, 0, drop);
      for i := 0 to n
        invariant forall j | 0 <= j < i :: idx[j] == target[j]
        invariant forall j | i <= j <= n :: idx[j] == full[j]
      {
        assert full[i + 1] == Index(ts, drop)[i];
        idx[i] := idx[i + 1];
        idx[i] := idx[i].(off := idx[i].off - drop);
      }
    }

    // history_evict_oldest()
    method EvictOldest()
      requires Ready()
      modifies this`count, this`bytes, this`turns, arena, idx
      ensures Ready()
      ensures turns == if |old(turns)| == 0 then [] else old(turns)[1..]
    {
      if count == 0 {
        return;
      }
      var drop := idx[0].len + 1;
      ghost var ix := idx[..count];
      assert ix == [ix[0]] + Index(turns[1..], drop);
      assert idx[1..count] == ix[1..];
      SlideIndex(count - 1, drop, turns[1..]);
      assert Pack(turns)[drop..] == Pack(turns[1..]);
      ghost var was := arena[..bytes];
      forall i | 0 <= i < bytes - drop {
        arena[i] := arena[i + drop];
      }
      assert arena[..bytes - drop] == was[drop..];
      bytes := bytes - drop;
      count := count - 1;
      turns := turns[1..];
    }

    /** history_add(), up to raising the dirty flag. */
    method Add(role: string, content: seq<Byte>)
      requires Ready()
      modifies this`count, this`bytes, this`turns, arena, idx
      ensures Ready()
      ensures turns == if frozen then old(turns) else Added(old(turns), role, content)
      ensures !frozen && Speaker(role) ==>
        |turns| > 0 && RoleName(turns[|turns| - 1].role) == role && turns[|turns| - 1].content <= content
    {
      var len := |content|;
      if len > TURN_MAX {
        len := TURN_MAX;
      }
      if len + 1 > HISTORY_BYTES {
        len := HISTORY_BYTES - 1;
      }
      while len > 0 && Continuation(At(content, len))
        invariant 0 <= len <= |content| && len <= TURN_MAX && BackOff(content, len) == Clip(content)
      {
        len := len - 1;
      }
      if frozen {
        return;
      }
      ghost var t := NewTurn(role, content);
      while count >= MAX_TURNS || bytes + len + 1 > HISTORY_BYTES
        invariant Ready() && Kept(turns, t) == Kept(old(turns), t)
        decreases count
      {
        PackAppend(turns, t);
        EvictOldest();
      }
      PackAppend(turns, t);
      assert Kept(turns, t) == turns;
      Append(RoleId(role), content[..len]);
    }

    // The copy, the terminator and the index entry.
    method Append(role: Byte, content: seq<Byte>)
      requires Ready() && count < MAX_TURNS && bytes + |content| + 1 <= HISTORY_BYTES
      modifies this`count, this`bytes, this`turns, arena, idx
      ensures Ready() && turns == old(turns) + [Turn(role, 0, content)]
    {
      ghost var t := Turn(role, 0, content);
      PackAppend(turns, t);
      IndexAppend(turns, t, 0);
      forall i | 0 <= i < |content| {
        arena[bytes + i] := content[i];
      }
      arena[bytes + |content|] := 0;
      idx[count] := Entry(bytes, |content|, role, 0);
      assert arena[..bytes + |content| + 1] == old(arena[..bytes]) + content + [0];
      assert idx[..count + 1] == old(idx[..count]) + [Entry(bytes, |content|, role, 0)];
      bytes := bytes + |content| + 1;
      count := count + 1;
      turns := turns + [t];
    }

    // dg_agent_clear_history(), up to raising the dirty flag.
    method Clear()
      requires Ready()
      modifies this`count, this`bytes, this`turns, this`frozen
      ensures Ready() && turns == [] && frozen
    {
      count, bytes, frozen, turns := 0, 0, true, [];
    }

    // The record dg_agent_flush_history() stages.
    method Snapshot() returns (rec: seq<Byte>)
      requires Ready()
      ensures rec == Encode(turns)
    {
      rec := Le16(count) + EncodeEntries(idx[..count]) + arena[..bytes];
    }

    /** history_load() at boot, on a record of any bytes at all. */
    method Load(rec: seq<Byte>) returns (accepted: bool)
      requires Ready() && count == 0
      modifies this`count, this`bytes, this`turns, arena, idx
      ensures Ready()
      ensures accepted <==> Decode(rec).Some?
      ensures turns == if accepted then Decode(rec).value else []
    {
      if |rec| < 2 {
        return false;
      }
      var n := FromLe16(rec[..2]);
      if n > MAX_TURNS {
        return false;
      }
      var at := 2 + ENTRY_SIZE * n;
      if |rec| < at {
        return false;
      }
      ghost var entries := DecodeEntries(rec[2..at], n);
      CopyIndex(rec, at, n);
      if |rec| - at > HISTORY_BYTES {
        return false;
      }
      CopyArena(rec, at);
      var tiled := CheckTiles(n, |rec| - at);
      if !tiled {
        return false;
      }
      count, bytes := n, |rec| - at;
      turns := Cut(entries, rec[at..], 0);
      CutTiled(entries, rec[at..], 0);
      return true;
    }

    // The index, and then the arena, out of the record.
    method CopyIndex(rec: seq<Byte>, at: nat, n: nat)
      requires idx.Length == MAX_TURNS && n <= MAX_TURNS && at == 2 + ENTRY_SIZE * n <= |rec|
      modifies idx
      ensures idx[..n] == DecodeEntries(rec[2..at], n)
    {
      var entries := DecodeEntries(rec[2..at], n);
      forall i | 0 <= i < n {
        idx[i] := entries[i];
      }
    }

    method CopyArena(rec: seq<Byte>, at: nat)
      requires arena.Length == HISTORY_BYTES && at <= |rec| <= at + HISTORY_BYTES
      modifies arena
      ensures arena[..|rec| - at] == rec[at..]
    {
      forall i | 0 <= i < |rec| - at {
        arena[i] := rec[at + i];
      }
    }

    // The bounds check: whether the index tiles the arena.
    method CheckTiles(n: nat, arenaBytes: nat) returns (ok: bool)
      requires n <= idx.Length && arenaBytes <= arena.Length
      ensures ok <==> Tiles(idx[..n], arena[..arenaBytes], 0)
    {
      ghost var entries, all := idx[..n], arena[..arenaBytes];
      var walk := 0;
      for i := 0 to n
        invariant walk >= 0
        invariant Tiles(entries, all, 0) <==> Tiles(entries[i..], all, walk)
      {
        if idx[i].off != walk || walk + idx[i].len >= arenaBytes || arena[walk + idx[i].len] != 0 {
          return false;
        }
        walk := walk + idx[i].len + 1;
      }
      return walk == arenaBytes;
    }
  }
}
