/** Concrete inputs on which the converter does less than one might expect, and a character set whose decoder
    resumes inside a character. */
module IconvWitness {
  import opened Bits
  import opened Memory
  import opened Options
  import opened Conversion
  import opened NulInput
  import opened InputPieces
  import opened Iconv

  const FRESH := Output([], [], [])

  // ---- one byte a character ----

  /** ASCII on both sides. */
  function Ascii(): Codec {
    Codec((s: Bytes, st: Shift) => (AsciiDecode(s), st), (wc: int, st: Shift) => (AsciiEncode(wc), st))
  }

  function AsciiDecode(s: Bytes): Decoded {
    if s == [] then Partial else if s[0] == 0 then Nul else if s[0] >= 0x80 then Malformed else Char(1, s[0])
  }

  function AsciiEncode(wc: int): Option<Bytes> {
    if 0 <= wc < 0x80 then Some([wc]) else None
  }

  lemma {:induction false} AsciiKeepsPromises()
    ensures Lawful(Ascii()) && Productive(Ascii())
  {
  }

  /** An 'A' in front of a malformed byte converts, and then the input gets stuck. */
  lemma {:induction false} StuckBehindA(room: nat)
    ensures Stuck(Ascii(), [65, 0x80], 1, 1, [], []) && Due(Ascii(), [65, 0x80], 1, FRESH) == [65]
    ensures Loses(Ascii(), [65, 0x80], FRESH, room) <==> room > 1
    ensures Fails(Ascii(), [65, 0x80], FRESH, room) <==> room > 1
  {
    var c, s: Bytes := Ascii(), [65, 0x80];
    assert s[1..] == [0x80];
    assert Encoding(c, s[1..], 0, [], []) == Some(Output([], [], []));
    var a, none: Bytes := [65], [];
    assert a + none == a;
    assert Encoding(c, s, 1, [], []) == Some(Output([65], [], []));
    assert FailsAt(c, s, 1, 1, FRESH, room) <==> room > 1;
    forall j, p | FailsAt(c, s, j, p, FRESH, room)
      ensures j == 1 && p == 1
    {
      StuckUnique(c, s, j, p, 1, 1, [], []);
    }
  }

  /** With room for both, that 'A' is written but not reported. */
  method LoseByte() returns (outcome: Outcome, inUsed: nat, outUsed: nat, written: u8)
    ensures outcome == Fail && inUsed == 1 && outUsed == 0 && written == 65
  {
    AsciiKeepsPromises();
    StuckBehindA(16);
    hide Encoding, Stuck, Due;
    var converter := new Converter(Ascii(), []);
    var out := new u8[16](_ => 0);
    outcome, inUsed, outUsed := converter.Convert([65, 0x80], out, 0, 16);
    ghost var j :| && FailsAt(Ascii(), [65, 0x80], j, inUsed, FRESH, 16)
                   && RefusedAt(Ascii(), [65, 0x80], j, FRESH, converter.Now())
                   && WrittenOff(Ascii(), [65, 0x80], j, FRESH, 0, out[..]);
    StuckUnique(Ascii(), [65, 0x80], j, inUsed, 1, 1, [], []);
    assert out[..][0..1] == [65];
    written := out[0];
  }

  /** Dividing the room differently then gives another stream: two rooms of 1 and 15 report the 'A'. */
  lemma {:induction false} DivisionShows()
    ensures StuckStream([65], [16]) == [] && StuckStream([65], [1, 15]) == [65]
  {
    var one, two: seq<nat> := [16], [1, 15];
    assert one[..0] == [] && two[..1] == [1] && two[..1][..0] == [];
    assert Sum(two[..1]) == 1 && Sum(two) == 16 && Sum(one) == 16;
    assert Settled(two, 1) == Settled(two[..1], 1) == 1;
    assert Settled(one, 1) == Settled(one[..0], 1) == 0;
  }

  /** A byte behind a NUL is consumed and never converted. */
  lemma {:induction false} ByteBehindNul()
    ensures Encoding(Ascii(), [65, 0, 66], 3, [], []) == Some(Output([65, 0], [], []))
    ensures Whole(Ascii(), [65, 0, 66], 3, [], []) == Some(Output([65, 0, 66], [], []))
    ensures Drops(Ascii(), [65, 0, 66], 3, [])
  {
    var c, s: Bytes := Ascii(), [65, 0, 66];
    assert s[1..] == [0, 66] && s[1..][1..] == [66] && s[1..][1..][1..] == [];
    var a, nul, b, none: Bytes := [65], [0], [66], [];
    assert b + none == b && nul + b == [0, 66] && a + [0, 66] == [65, 0, 66] && a + nul == [65, 0];
    assert c.mbtowc(s, []) == (Char(1, 65), []) && c.mbtowc(s[1..], []) == (Nul, []);
    assert c.mbtowc(s[1..][1..], []) == (Char(1, 66), []);
    assert Encoding(c, s[1..], 2, [], []) == Some(Output([0], [], []));
    assert Whole(c, s[1..][1..][1..], 0, [], []) == Some(Output([], [], []));
    assert Whole(c, s[1..][1..], 1, [], []) == Some(Output([66], [], []));
    assert NulLen(s[1..]) == 1;
    assert Whole(c, s[1..], 2, [], []) == Some(Output([0, 66], [], []));
    assert Drops(c, s[1..], 2, []);
  }

  // ---- a lead byte and a trail byte ----

  /** Characters from 0x8000 on take two bytes; a lone lead byte is remembered in the state. */
  function TwoByte(): Codec {
    Codec((s: Bytes, st: Shift) => TwoByteDecode(s, st), (wc: int, st: Shift) => (AsciiEncode(wc), st))
  }

  function Wide(lead: int, trail: int): int {
    0x100 * lead + trail
  }

  function TwoByteDecode(s: Bytes, st: Shift): (Decoded, Shift) {
    if s == [] then (Partial, st)
    else if st != [] then (Char(1, Wide(st[0], s[0])), [])
    else if s[0] == 0 then (Nul, [])
    else if s[0] < 0x80 then (Char(1, s[0]), [])
    else if |s| == 1 then (Partial, [s[0]])
    else (Char(2, Wide(s[0], s[1])), [])
  }

  /** Such a decoder resumes. */
  lemma {:induction false} TwoByteResumes()
    ensures Lawful(TwoByte()) && Resumable(TwoByte())
  {
    forall s, t, st | s != []
      ensures match TwoByteDecode(s, st).0
              case Malformed => TwoByteDecode(s + t, st).0 == Malformed
              case Char(_, _) => TwoByteDecode(s + t, st) == TwoByteDecode(s, st)
              case Partial =>
                t != [] ==> Resumed(TwoByteDecode(s + t, st), |s|, TwoByteDecode(t, TwoByteDecode(s, st).1))
              case Nul => true
    {
    }
  }

  // ---- what a failing call leaves behind ----

  /** A caller that steps over `skip` bytes of bad input and calls again: what follows is converted from the shift
      states behind the character that could not be converted, whatever the decoder and the encoder are. */
  method SkipAndGoOn(converter: Converter, input: Bytes, skip: nat, out: array<u8>)
    returns (first: Outcome, used: nat, second: Outcome, used': nat, sent: Bytes, ghost j: nat, ghost left: Output)
    requires converter.Valid() && out != converter.buf
    modifies converter, converter.buf, out
    ensures converter.Valid() && used <= |input|
    ensures first == Fail <==> Fails(converter.codec, input, old(converter.Now()), out.Length)
    ensures first == Fail ==>
              && FailsAt(converter.codec, input, j, used, old(converter.Now()), out.Length)
              && RefusedAt(converter.codec, input, j, old(converter.Now()), left) && left.bytes == []
    ensures first == Fail && used + skip <= |input| ==>
              && (second == Fail <==> Fails(converter.codec, input[used + skip..], left, out.Length))
              && (second == Done ==>
                    Carried(converter.codec, input[used + skip..], used', left, sent, converter.Now()))
              && (second == Done ==>
                    |sent| == out.Length || (used' == |input| - used - skip && converter.Now().bytes == []))
  {
    hide Encoding, Carried, Lawful, Stuck, Fails, FailsAt, Loses, Conserved, OnlyWrote, RefusedAt, WrittenOff;
    hide Productive, Complete, Drops;
    ghost var start := converter.Now();
    var n;
    first, used, n := converter.Convert(input, out, 0, out.Length);
    second, used', sent, j := Done, 0, [], 0;
    left := converter.Now();
    if first == Fail {
      j :| && FailsAt(converter.codec, input, j, used, start, out.Length)
           && WrittenOff(converter.codec, input, j, start, 0, out[..])
           && RefusedAt(converter.codec, input, j, start, left);
    }
    if first == Fail && used + skip <= |input| {
      second, used', n := converter.Convert(input[used + skip..], out, 0, out.Length);
      sent := out[..][0..n];
    }
  }

  /** Shift codes: byte 14 shifts the decoder into the characters from 0x100 on, of which the target set lacks the
      last one. The encoder shifts with 14 and 15 and sets the high bit while shifted. */
  function Shifting(): Codec {
    Codec((s: Bytes, st: Shift) => ShiftDecode(s, st), (wc: int, st: Shift) => ShiftEncode(wc, st))
  }

  function ShiftDecode(s: Bytes, st: Shift): (Decoded, Shift) {
    if s == [] then (Partial, st)
    else if s[0] == 0 then (Nul, st)
    else if s[0] >= 0x80 then (Malformed, st)
    else if s[0] == 14 then if |s| == 1 then (Partial, [1]) else (Char(2, Wide(1, s[1])), [1])
    else (Char(1, if st == [] then s[0] else Wide(1, s[0])), st)
  }

  function ShiftEncode(wc: int, st: Shift): (Option<Bytes>, Shift) {
    if 0 <= wc < 0x80 then (Some(if st == [] then [wc] else [15, wc]), [])
    else if 0x100 <= wc < 0x17F then (Some(if st == [] then [14, wc - 0x80] else [wc - 0x80]), [1])
    else (None, st)
  }

  lemma {:induction false} ShiftingStuck(bad: u8)
    requires bad >= 0x80 || bad == 0x7F
    ensures Lawful(Shifting())
    ensures Stuck(Shifting(), [14, 97, bad, 97], 2, if bad == 0x7F then 3 else 2, [], [])
    ensures Due(Shifting(), [14, 97, bad, 97], 2, FRESH) == [14, 0xE1]
    ensures forall left :: RefusedAt(Shifting(), [14, 97, bad, 97], 2, FRESH, left) ==>
                             left.inState == [1] && left.outState == [1]
  {
    var c, s: Bytes := Shifting(), [14, 97, bad, 97];
    var shifted, none: Bytes := [14, 0xE1], [];
    assert s[2..] == [bad, 97];
    assert c.mbtowc(s, []) == (Char(2, 0x161), [1]) && c.wctomb(0x161, []) == (Some(shifted), [1]);
    assert Encoding(c, s[2..], 0, [1], [1]) == Some(Output(none, [1], [1]));
    assert shifted + none == shifted;
    assert Encoding(c, s, 2, [], []) == Some(Output(shifted, [1], [1]));
  }

  lemma {:induction false} ShiftedLetter()
    ensures Encoding(Shifting(), [97], 1, [1], [1]) == Some(Output([0xE1], [1], [1]))
  {
    var c, s, none: Bytes := Shifting(), [97], [];
    assert s[1..] == none;
    assert Encoding(c, s[1..], 0, [1], [1]) == Some(Output(none, [1], [1]));
    assert [0xE1] + none == [0xE1];
  }

  lemma {:induction false} LetterSent(left: Output, failed: bool, used: nat, sent: Bytes, now: Output)
    requires left == Output([], [1], [1]) && (failed <==> Fails(Shifting(), [97], left, 16))
    requires !failed ==> Carried(Shifting(), [97], used, left, sent, now)
    requires !failed ==> |sent| == 16 || (used == 1 && now.bytes == [])
    ensures !failed && sent == [0xE1]
  {
    hide Encoding, Stuck;
    ShiftedLetter();
    if failed {
      var j, pos :| FailsAt(Shifting(), [97], j, pos, left, 16);
      StuckIsNone(Shifting(), [97], j, pos, [1], [1]);
    } else {
      EmptyEncoding(Shifting(), [97], [1], [1]);
      var r: Bytes := left.bytes + [0xE1];
      assert |sent + now.bytes| <= 1;
      assert sent + [] == sent && r == [0xE1];
    }
  }

  /** A shifted letter, a character that cannot be converted (malformed, or not in the target set), and the letter
      again without a shift code: behind the failure it is still the shifted letter, and the target needs no shift
      code for it. */
  method ShiftKept(bad: u8) returns (first: Outcome, used: nat, second: Outcome, sent: Bytes)
    requires bad >= 0x80 || bad == 0x7F
    ensures first == Fail && used == (if bad == 0x7F then 3 else 2)
    ensures second == Done && sent == [0xE1]
  {
    ShiftingStuck(bad);
    ShiftedLetter();
    hide Encoding, Stuck, Lawful, Carried, Fails, RefusedAt;
    var converter := new Converter(Shifting(), []);
    var out := new u8[16](_ => 0);
    var input: Bytes := [14, 97, bad, 97];
    ghost var at: nat := if bad == 0x7F then 3 else 2;
    assert FailsAt(Shifting(), input, 2, at, FRESH, 16);
    var used';
    ghost var j, left;
    first, used, second, used', sent, j, left :=
      SkipAndGoOn(converter, input, if bad == 0x7F then 0 else 1, out);
    StuckUnique(Shifting(), input, j, used, 2, at, [], []);
    assert input[3..] == [97];
    LetterSent(left, second == Fail, used', sent, converter.Now());
  }
}
