/**
 * The shape of the shareable codes: a room code is 8 and an invitation code
 * 12 characters, each picked by one draw of `Random.Next(36)` from the
 * alphabet A-Z0-9. The draws are inputs; uniqueness of codes is not checked
 * by the source and is not claimed here.
 */
module Codes {

  const Alphabet: string := "ABCDEFGHIJKLMNOPQRSTUVWXYZ0123456789"
  const RoomCodeLength: nat := 8
  const InvitationCodeLength: nat := 12

  /** One draw of `Random.Next(Alphabet.Length)`. */
  type Pick = i: int | 0 <= i < 36

  predicate InAlphabet(c: char) {
    'A' <= c <= 'Z' || '0' <= c <= '9'
  }

  /** `s` is `length` characters long and every character is in A-Z0-9. */
  predicate IsCode(s: string, length: nat) {
    |s| == length && forall i :: 0 <= i < |s| ==> InAlphabet(s[i])
  }

  /** The draw that picks character `c` of the alphabet. */
  function PickOf(c: char): (p: Pick)
    requires InAlphabet(c)
    ensures Alphabet[p] == c
  {
    if 'A' <= c <= 'Z' then (c as int) - ('A' as int) else (c as int) - ('0' as int) + 26
  }

  lemma AlphabetAt(p: Pick)
    ensures InAlphabet(Alphabet[p]) && PickOf(Alphabet[p]) == p
  {
  }

  /** The code spelled by a sequence of draws: character i is `Alphabet[picks[i]]`. */
  function CodeFromPicks(picks: seq<Pick>): (code: string)
    ensures IsCode(code, |picks|)
  {
    var code := seq(|picks|, i requires 0 <= i < |picks| => Alphabet[picks[i]]);
    assert forall i :: 0 <= i < |picks| ==> InAlphabet(code[i]) by {
      forall i | 0 <= i < |picks| ensures InAlphabet(code[i]) {
        AlphabetAt(picks[i]);
      }
    }
    code
  }

  /** The draws that spell a code. */
  function PicksOf(code: string): (picks: seq<Pick>)
    requires IsCode(code, |code|)
    ensures |picks| == |code|
  {
    seq(|code|, i requires 0 <= i < |code| && InAlphabet(code[i]) => PickOf(code[i]))
  }

  /** Distinct draws spell distinct codes: the draws can be read back from the code. */
  lemma PicksRoundTrip(picks: seq<Pick>)
    ensures PicksOf(CodeFromPicks(picks)) == picks
  {
    var code := CodeFromPicks(picks);
    forall i | 0 <= i < |picks| ensures PicksOf(code)[i] == picks[i] {
      AlphabetAt(picks[i]);
    }
  }

  /** Every code of the right shape is spelled by some draws. */
  lemma CodeRoundTrip(code: string)
    requires IsCode(code, |code|)
    ensures CodeFromPicks(PicksOf(code)) == code
  {
  }

  /** `GenerateRoomCode`: eight draws give an 8-character code over A-Z0-9. */
  function GenerateRoomCode(picks: seq<Pick>): (code: string)
    requires |picks| == RoomCodeLength
    ensures IsCode(code, RoomCodeLength)
  {
    CodeFromPicks(picks)
  }

  /** `GenerateInvitationCode`: twelve draws give a 12-character code over A-Z0-9. */
  function GenerateInvitationCode(picks: seq<Pick>): (code: string)
    requires |picks| == InvitationCodeLength
    ensures IsCode(code, InvitationCodeLength)
  {
    CodeFromPicks(picks)
  }
}
