/** Well-formed UTF-8, as the grammar in section 4 of RFC 3629 gives it, and the
    cut history_add() makes in it. */
module Utf8 {
  import opened Words

  predicate Tail(b: Byte) {
    0x80 <= b <= 0xBF
  }

  // The length of the character `s` starts with, or 0 if it starts with none.
  function CharLen(s: seq<Byte>): (n: nat)
    ensures n <= |s| && n <= 4
  {
    if |s| >= 1 && s[0] <= 0x7F then 1
    else if |s| >= 2 && 0xC2 <= s[0] <= 0xDF && Tail(s[1]) then 2
    else if |s| >= 3 && 0xE0 <= s[0] <= 0xEF && Tail(s[1]) && Tail(s[2])
         && (s[0] == 0xE0 ==> 0xA0 <= s[1]) && (s[0] == 0xED ==> s[1] <= 0x9F) then 3
    else if |s| >= 4 && 0xF0 <= s[0] <= 0xF4 && Tail(s[1]) && Tail(s[2]) && Tail(s[3])
         && (s[0] == 0xF0 ==> 0x90 <= s[1]) && (s[0] == 0xF4 ==> s[1] <= 0x8F) then 4
    else 0
  }

  predicate ValidUtf8(s: seq<Byte>) {
    |s| == 0 || (CharLen(s) > 0 && ValidUtf8(s[CharLen(s)..]))
  }

  // `content[i]` of a NUL-terminated string.
  function At(s: seq<Byte>, i: nat): Byte {
    if i < |s| then s[i] else 0
  }

  // `(content[i] & 0xC0) == 0x80`
  predicate Continuation(b: Byte) {
    (b as bv8) & 0xC0 == 0x80
  }

  lemma ContinuationIsTail(b: Byte)
    ensures Continuation(b) <==> Tail(b)
  {
    var v := b as bv8;
    assert v & 0xC0 == 0x80 <==> 0x80 <= v < 0xC0;
  }

  function BackOff(s: seq<Byte>, len: nat): (r: nat)
    ensures r <= len
  {
    if len > 0 && Continuation(At(s, len)) then BackOff(s, len - 1) else len
  }

  // A character cut short is not a character.
  lemma CutCharacter(s: seq<Byte>, k: nat)
    requires 0 < k < CharLen(s)
    ensures CharLen(s[..k]) == 0 && Tail(s[k])
  {
  }

  lemma {:induction false} BackOffInside(s: seq<Byte>, len: nat)
    requires len < CharLen(s)
    ensures BackOff(s, len) == 0
  {
    if len > 0 {
      CutCharacter(s, len);
      ContinuationIsTail(s[len]);
      BackOffInside(s, len - 1);
    }
  }

  lemma {:induction false} BackOffPast(s: seq<Byte>, len: nat)
    requires ValidUtf8(s) && 0 < CharLen(s) <= len <= |s|
    ensures BackOff(s, len) == CharLen(s) + BackOff(s[CharLen(s)..], len - CharLen(s))
  {
    var n := CharLen(s);
    ContinuationIsTail(At(s, len));
    assert At(s[n..], len - n) == At(s, len);
    if len > n {
      if Continuation(At(s, len)) {
        BackOffPast(s, len - 1);
      }
    } else if |s[n..]| > 0 {
      assert !Tail(s[n..][0]);
    }
  }

  /** Backing off from any length in a valid text lands on its longest valid
      prefix of at most that length. */
  lemma {:induction false} BackOffIsLongestValidPrefix(s: seq<Byte>, len: nat)
    requires ValidUtf8(s) && len <= |s|
    ensures ValidUtf8(s[..BackOff(s, len)])
    ensures forall k | BackOff(s, len) < k <= len :: !ValidUtf8(s[..k])
    decreases |s|
  {
    if |s| > 0 {
      var n := CharLen(s);
      if len < n {
        BackOffInside(s, len);
        forall k | 0 < k <= len
          ensures !ValidUtf8(s[..k])
        {
          CutCharacter(s, k);
        }
      } else {
        BackOffPast(s, len);
        BackOffIsLongestValidPrefix(s[n..], len - n);
        forall k | n <= k <= |s|
          ensures ValidUtf8(s[..k]) <==> ValidUtf8(s[n..][..k - n])
        {
          WholeFirst(s, k);
        }
      }
    }
  }

  lemma WholeFirst(s: seq<Byte>, k: nat)
    requires 0 < CharLen(s) <= k <= |s|
    ensures ValidUtf8(s[..k]) <==> ValidUtf8(s[CharLen(s)..][..k - CharLen(s)])
  {
    var n := CharLen(s);
    assert CharLen(s[..k]) == n;
    assert s[..k][n..] == s[n..][..k - n];
  }
}
