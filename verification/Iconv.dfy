/** The streaming character converter: one descriptor, called again and again, that carries the bytes of a
    character which did not fit from one call to the next. The mode is the default one. */
module Iconv {
  import opened Bits
  import opened Memory
  import opened Options
  import opened Conversion
  import opened NulInput
  import opened InputPieces

  /** Buffers that differ at most in the `n` bytes from `d` on. */
  ghost predicate OnlyWrote(b: Bytes, b': Bytes, d: nat, n: nat) {
    d + n <= |b| == |b'| && b'[..d] == b[..d] && b'[d + n..] == b[d + n..]
  }

  /** A call under way: `o` of the `room` bytes from `at` on are written, and nothing outside them changed. */
  ghost predicate Written(c: Codec, s: Bytes, pos: nat, start: Output, was: Bytes, b: Bytes, at: nat, o: nat,
                          room: nat, now: Output) {
    o <= room && OnlyWrote(was, b, at, room) && Carried(c, s, pos, start, b[at..at + o], now)
  }

  lemma {:induction false} WriteNone(c: Codec, s: Bytes, start: Output, b: Bytes, at: nat, room: nat)
    requires at + room <= |b|
    ensures Written(c, s, 0, start, b, b, at, 0, room, start)
  {
    hide Carried;
    Begin(c, s, start);
    assert b[at..at + 0] == [];
  }

  lemma {:induction false} WrittenIs(c: Codec, s: Bytes, pos: nat, start: Output, was: Bytes, b: Bytes, at: nat, o: nat,
                                     room: nat, now: Output)
    requires Written(c, s, pos, start, was, b, at, o, room, now)
    ensures at + o <= |b| && Carried(c, s, pos, start, b[at..at + o], now) && OnlyWrote(was, b, at, room)
  {
    hide Carried;
  }

  /** Bytes that are written behind the ones already there, within the room, change nothing else. */
  lemma {:induction false} KeepOutside(was: Bytes, b: Bytes, c: Bytes, at: nat, o: nat, n: nat, room: nat)
    requires OnlyWrote(was, b, at, room) && OnlyWrote(b, c, at + o, n) && o + n <= room
    ensures c[at..at + o + n] == b[at..at + o] + c[at + o..at + o + n] && OnlyWrote(was, c, at, room)
  {
    assert c[at..at + o] == c[..at + o][at..];
    assert b[at..at + o] == b[..at + o][at..];
    assert c[..at] == c[..at + o][..at];
    assert b[..at] == b[..at + o][..at];
    assert c[at + room..] == c[at + o + n..][room - o - n..];
    assert b[at + room..] == b[at + o + n..][room - o - n..];
  }

  lemma {:induction false} WriteDrained(c: Codec, s: Bytes, pos: nat, start: Output, was: Bytes, b: Bytes, b': Bytes,
                                        at: nat, o: nat, n: nat, room: nat, now: Output)
    requires Written(c, s, pos, start, was, b, at, o, room, now) && o + n <= room && OnlyWrote(b, b', at + o, n)
    requires n <= |now.bytes| && b'[at + o..at + o + n] == now.bytes[..n]
    ensures Written(c, s, pos, start, was, b', at, o + n, room, now.(bytes := now.bytes[n..]))
  {
    hide Carried;
    KeepOutside(was, b, b', at, o, n, room);
    Flush(c, s, pos, start, b[at..at + o], now, n);
  }

  lemma {:induction false} WriteUnit(c: Codec, s: Bytes, pos: nat, used: nat, start: Output, was: Bytes, b: Bytes,
                                     b': Bytes, at: nat, o: nat, n: nat, room: nat, now: Output, now': Output)
    requires Written(c, s, pos, start, was, b, at, o, room, now) && o + n <= room && OnlyWrote(b, b', at + o, n)
    requires pos + used <= |s| && now.bytes == []
    requires Encoding(c, s[pos..], used, now.inState, now.outState) ==
             Some(now'.(bytes := b'[at + o..at + o + n] + now'.bytes))
    ensures Written(c, s, pos + used, start, was, b', at, o + n, room, now')
  {
    hide Carried, Encoding;
    KeepOutside(was, b, b', at, o, n, room);
    Advance(c, s, pos, used, start, b[at..at + o], now, b'[at + o..at + o + n], now');
  }

  /** The character at the current position cannot be converted, with everything due written. */
  lemma {:induction false} WriteStuck(c: Codec, s: Bytes, pos: nat, used: nat, start: Output, was: Bytes, b: Bytes,
                                      at: nat, o: nat, room: nat, now: Output, left: Output)
    requires Written(c, s, pos, start, was, b, at, o, room, now) && o < room && now.bytes == []
    requires Stuck(c, s[pos..], 0, used, now.inState, now.outState) && Refused(c, s[pos..], now, left)
    ensures Failed(c, s, pos + used, start, room, at, b, left) && OnlyWrote(was, b, at, room)
  {
    hide Stuck, Encoding, Refused;
    var sent := b[at..at + o];
    EmptyEncoding(c, s[pos..], now.inState, now.outState);
    StuckRest(c, s, pos, 0, used, start, sent, now);
    assert Due(c, s[pos..], 0, now) == [];
    assert sent + [] == sent;
    StuckBelow(c, s, pos, pos + used, start.inState, start.outState);
    RefusedHere(c, s, pos, start, sent, now, left);
    assert FailsAt(c, s, pos, pos + used, start, room) && WrittenOff(c, s, pos, start, at, b);
  }

  /** What one unit leaves when it fails, in one word. */
  lemma {:induction false} UnitRefused(c: Codec, s: Bytes, used: nat, was: Output, now: Output)
    requires Stuck(c, s, 0, used, was.inState, was.outState)
    requires var (ret, left) := c.mbtowc(s, was.inState);
             && now.inState == left
             && (ret.Malformed? ==> now.outState == was.outState)
             && (ret.Nul? ==> now.outState == c.wctomb(0, was.outState).1)
             && (ret.Char? ==> now.outState == c.wctomb(ret.wc, was.outState).1)
    ensures Refused(c, s, was, now)
  {
    assert s[0..] == s;
    EmptyEncoding(c, s, was.inState, was.outState);
  }

  lemma {:induction false} RefusedHere(c: Codec, s: Bytes, pos: nat, start: Output, sent: Bytes, now: Output,
                                       left: Output)
    requires Carried(c, s, pos, start, sent, now) && Refused(c, s[pos..], now, left)
    ensures RefusedAt(c, s, pos, start, left)
  {
    hide Encoding;
  }

  lemma {:induction false} OnlyOverwritten(b: Bytes, d: nat, x: Bytes)
    requires d + |x| <= |b|
    ensures OnlyWrote(b, Overwritten(b, d, x), d, |x|) && Overwritten(b, d, x)[d..d + |x|] == x
  {
    hide Overwritten;
    OverwrittenParts(b, d, x);
  }

  lemma {:induction false} Remainder(b: Bytes, lo: nat, hi: nat, n: nat)
    requires lo + n <= hi <= |b|
    ensures b[lo..hi][..n] == b[lo..lo + n] && b[lo..hi][n..] == b[lo + n..hi]
    ensures lo + n == hi ==> b[lo..hi][n..] == b[0..0]
  {
  }

  lemma {:induction false} CallFailed(c: Codec, s: Bytes, pos: nat, start: Output, room: nat, at: nat, b: Bytes,
                                      now: Output)
    requires Failed(c, s, pos, start, room, at, b, now) && now.bytes == [] && at <= |b|
    ensures Fails(c, s, start, room)
    ensures Conserved(c, s, pos, start, Fail, b[at..at], now) <==> !Loses(c, s, start, room)
  {
    hide FailsAt, WrittenOff, RefusedAt, Loses, Conserved;
    var j :| FailsAt(c, s, j, pos, start, room) && WrittenOff(c, s, j, start, at, b) && RefusedAt(c, s, j, start, now);
    FailureLoses(c, s, pos, start, room, now);
    assert b[at..at] == [];
  }

  lemma {:induction false} CallDone(c: Codec, s: Bytes, pos: nat, start: Output, sent: Bytes, now: Output, room: nat)
    requires Carried(c, s, pos, start, sent, now)
    requires |sent| == room || (pos == |s| && now.bytes == [])
    ensures !Fails(c, s, start, room) && !Loses(c, s, start, room)
    ensures Conserved(c, s, pos, start, Done, sent, now)
  {
    hide FailsAt, Carried, Conserved;
    DoneIsNoFailure(c, s, pos, start, sent, now, room);
    SuccessConserves(c, s, pos, start, sent, now);
  }

  /** The conversion descriptor. */
  class Converter {
    const codec: Codec
    var inState: Shift
    var outState: Shift
    var bufLen: nat
    var bufOff: nat
    const buf: array<u8>

    /** `iconv_open`: zeroed states and an empty carry buffer. */
    constructor (codec: Codec, zero: Shift)
      requires Lawful(codec)
      ensures Valid() && fresh(buf) && this.codec == codec && Now() == Output([], zero, zero)
    {
      this.codec, inState, outState := codec, zero, zero;
      bufLen, bufOff, buf := 0, 0, new u8[MB_LEN_MAX](_ => 0);
    }

    ghost predicate Valid()
      reads this
    {
      && Lawful(codec) && buf.Length == MB_LEN_MAX
      && bufOff <= bufLen <= MB_LEN_MAX && (bufOff == bufLen ==> bufLen == 0)
    }

    /** The bytes that wait for room, and the shift states. */
    ghost function Now(): Output
      requires Valid()
      reads this, buf
    {
      Output(buf[..][bufOff..bufLen], inState, outState)
    }

    /** Moves as many pending bytes out as there is room for. */
    method Drain(out: array<u8>, d: nat, room: nat) returns (n: nat)
      requires Valid() && bufLen != 0 && room != 0 && out != buf && d + room <= out.Length
      modifies this`bufLen, this`bufOff, out
      ensures Valid() && n == if |old(Now()).bytes| > room then room else |old(Now()).bytes|
      ensures n > 0
      ensures Now() == old(Now()).(bytes := old(Now()).bytes[n..])
      ensures out[..][d..d + n] == old(Now()).bytes[..n]
      ensures OnlyWrote(old(out[..]), out[..], d, n)
    {
      hide Lawful, Overwritten, OnlyWrote;
      n := bufLen - bufOff;
      if n > room {
        n := room;
      }
      Remainder(buf[..], bufOff, bufLen, n);
      OnlyOverwritten(out[..], d, Now().bytes[..n]);
      ghost var b := buf[..];
      Copy(out, d, buf, bufOff, n);
      bufOff := bufOff + n;
      if bufOff == bufLen {
        bufOff, bufLen := 0, 0;
      }
      assert buf[..] == b;
    }

    /** Stores an encoded character in the output when any character would fit, in the carry buffer otherwise. */
    method Emit(e: Bytes, out: array<u8>, d: nat, room: nat) returns (n: nat)
      requires Valid() && bufLen == 0 && |e| <= MB_LEN_MAX && out != buf && d + room <= out.Length
      modifies this`bufLen, buf, out
      ensures Valid() && n <= room && e == out[..][d..d + n] + Now().bytes
      ensures n == if room >= MB_LEN_MAX then |e| else 0
      ensures bufLen == |Now().bytes|
      ensures OnlyWrote(old(out[..]), out[..], d, n)
    {
      hide Lawful, Overwritten;
      if room >= MB_LEN_MAX {
        OverwrittenParts(out[..], d, e);
        Store(out, d, e);
        n := |e|;
      } else {
        OverwrittenParts(buf[..], 0, e);
        Store(buf, 0, e);
        bufLen := |e|;
        n := 0;
      }
    }

    /** Consumes one unit of the remaining input. */
    method ConvertUnit(rest: Bytes, out: array<u8>, d: nat, room: nat)
      returns (outcome: Option<Outcome>, used: nat, n: nat)
      requires Valid() && bufLen == 0 && rest != [] && out != buf && d + room <= out.Length
      modifies this, buf, out
      ensures Valid() && used <= |rest| && n <= room
      ensures outcome != Some(Fail) ==>
                Encoding(codec, rest, used, old(inState), old(outState)) ==
                Some(Now().(bytes := out[..][d..d + n] + Now().bytes))
      ensures outcome != Some(Fail) ==> used > 0
      ensures outcome == Some(Done) ==> used == |rest| && Now().bytes == []
      ensures outcome == Some(Fail) ==> Stuck(codec, rest, 0, used, old(inState), old(outState))
      ensures outcome == Some(Fail) ==> bufLen == 0 && out[..] == old(out[..])
      ensures outcome == Some(Fail) ==>
                var (ret, left) := codec.mbtowc(rest, old(inState));
                && inState == left
                && (ret.Malformed? ==> outState == old(outState))
                && (ret.Nul? ==> outState == codec.wctomb(0, old(outState)).1)
                && (ret.Char? ==> outState == codec.wctomb(ret.wc, old(outState)).1)
      ensures OnlyWrote(old(out[..]), out[..], d, n)
    {
      hide Encoding, Stuck;
      OneUnit(codec, rest, inState, outState);
      var (ret, inState') := codec.mbtowc(rest, inState);
      inState := inState';
      outcome, used, n := None, |rest|, 0;
      var wc := 0;
      match ret {
        case Nul =>
        case Malformed =>
          return Some(Fail), 0, 0;
        case Partial =>
          assert out[..][d..d] + Now().bytes == [];
          return Some(Done), |rest|, 0;
        case Char(k, w) =>
          used, wc := k, w;
      }
      var (e, outState') := codec.wctomb(wc, outState);
      outState := outState';
      if e.None? {
        return Some(Fail), used, 0;
      }
      n := Emit(e.value, out, d, room);
    }

    /** One round of the loop: pending bytes move out, or else one unit of input is consumed. */
    method Round(input: Bytes, pos: nat, out: array<u8>, at: nat, o: nat, room: nat, ghost start: Output,
                 ghost was: Bytes)
      returns (ended: Option<Outcome>, pos': nat, o': nat)
      requires Valid() && out != buf && at + room <= out.Length && o < room && pos <= |input|
      requires Written(codec, input, pos, start, was, out[..], at, o, room, Now())
      requires bufLen != 0 || pos < |input|
      modifies this, buf, out
      ensures Valid() && pos <= pos' <= |input| && o <= o' <= room
      ensures ended.None? ==> pos < pos' || o < o'
      ensures ended != Some(Fail) ==> Written(codec, input, pos', start, was, out[..], at, o', room, Now())
      ensures ended == Some(Done) ==> pos' == |input| && Now().bytes == []
      ensures ended == Some(Fail) ==>
                && Failed(codec, input, pos', start, room, at, out[..], Now())
                && Now().bytes == [] && OnlyWrote(was, out[..], at, room)
    {
      hide Encoding, Carried, Lawful, Stuck, Failed, Written, OnlyWrote;
      ghost var b, now := out[..], Now();
      if bufLen != 0 {
        var n := Drain(out, at + o, room - o);
        WriteDrained(codec, input, pos, start, was, b, out[..], at, o, n, room, now);
        ended, pos', o' := None, pos, o + n;
      } else {
        var used, n;
        ended, used, n := ConvertUnit(input[pos..], out, at + o, room - o);
        pos', o' := pos + used, o + n;
        if ended == Some(Fail) {
          UnitRefused(codec, input[pos..], used, now, Now());
          WriteStuck(codec, input, pos, used, start, was, b, at, o, room, now, Now());
        } else {
          WriteUnit(codec, input, pos, used, start, was, b, out[..], at, o, n, room, now, Now());
        }
      }
    }

    /** `iconv`: converts `input` into `outBytes` bytes of `out` from `at` on. What was pending goes out
        first. A call that does not fail carries every byte of the conversion over to the output or to the
        carry buffer, and it stops early only when no input and nothing pending is left. A call fails exactly
        when the input gets stuck at a place that leaves room behind what is due in front of it. It then
        reports no output at all, so it keeps the law exactly when nothing was due; but the shift states are
        those behind the character at which the input got stuck. Everything behind a NUL is
        consumed and dropped: the call meets the conversion that goes on behind NULs exactly when nothing but
        an unfinished character follows the first one. */
    method Convert(input: Bytes, out: array<u8>, at: nat, outBytes: nat)
      returns (outcome: Outcome, inUsed: nat, outUsed: nat)
      requires Valid() && out != buf && at + outBytes <= out.Length
      modifies this, buf, out
      ensures Valid() && inUsed <= |input| && outUsed <= outBytes
      ensures outcome == Done ==>
                Carried(codec, input, inUsed, old(Now()), out[..][at..at + outUsed], Now())
      ensures outcome == Done ==> outUsed == outBytes || (inUsed == |input| && Now().bytes == [])
      ensures outcome == Fail <==> Fails(codec, input, old(Now()), outBytes)
      ensures outcome == Fail ==>
                && outUsed == 0 && Now().bytes == []
                && Failed(codec, input, inUsed, old(Now()), outBytes, at, out[..], Now())
      ensures Conserved(codec, input, inUsed, old(Now()), outcome, out[..][at..at + outUsed], Now()) <==>
              !Loses(codec, input, old(Now()), outBytes)
      ensures outcome == Done && Productive(codec) ==>
                (Complete(codec, input, inUsed, old(Now()), out[..][at..at + outUsed], Now()) <==>
                 !Drops(codec, input, inUsed, old(inState)))
      ensures OnlyWrote(old(out[..]), out[..], at, outBytes)
    {
      hide Encoding, Carried, Lawful, Stuck, Failed, Fails, Loses, Conserved, Written, OnlyWrote;
      hide Productive, Complete, Drops;
      ghost var start, was := Now(), out[..];
      var pos: nat, o: nat := 0, 0;
      WriteNone(codec, input, start, was, at, outBytes);
      while o < outBytes && (bufLen != 0 || pos < |input|)
        invariant Valid() && pos <= |input| && o <= outBytes
        invariant Written(codec, input, pos, start, was, out[..], at, o, outBytes, Now())
        decreases |input| - pos, outBytes - o
      {
        var ended;
        ended, pos, o := Round(input, pos, out, at, o, outBytes, start, was);
        match ended {
          case None =>
          case Some(Fail) =>
            CallFailed(codec, input, pos, start, outBytes, at, out[..], Now());
            return Fail, pos, 0;
          case Some(Done) => break;
        }
      }
      WrittenIs(codec, input, pos, start, was, out[..], at, o, outBytes, Now());
      CallDone(codec, input, pos, start, out[..][at..at + o], Now(), outBytes);
      if Productive(codec) {
        CompleteExact(codec, input, pos, start, out[..][at..at + o], Now());
      }
      outcome, inUsed, outUsed := Done, pos, o;
    }

    /** Successive calls, each with its own output room, that continue where the one before stopped. How the
        room is divided among the calls makes no difference to whether one fails: one does exactly when a
        single call with all the room would. Without a failure the stream is what is due, up to the end of
        the input or to the place where it gets stuck, cut off at the total room. With a failure the stream
        ends with the last room that was filled before. */
    method Stream(input: Bytes, rooms: seq<nat>) returns (outcome: Outcome, pos: nat, stream: Bytes)
      requires Valid()
      modifies this, buf
      ensures Valid() && pos <= |input|
      ensures outcome == Fail <==> Fails(codec, input, old(Now()), Sum(rooms))
      ensures outcome == Done ==> Carried(codec, input, pos, old(Now()), stream, Now())
      ensures Encoding(codec, input, |input|, old(inState), old(outState)).Some? ==>
                outcome == Done && stream == CutOff(Due(codec, input, |input|, old(Now())), Sum(rooms))
      ensures forall j, p | Stuck(codec, input, j, p, old(inState), old(outState)) ::
                && stream == StuckStream(Due(codec, input, j, old(Now())), rooms)
                && (outcome == Fail ==> pos == p && RefusedAt(codec, input, j, old(Now()), Now()))
      ensures outcome == Fail ==> Now().bytes == []
    {
      hide Encoding, Carried, Lawful, Stuck, Failed, Fails, Loses, Conserved, OnlyWrote, CutOff, StuckStream;
      hide Productive, Complete, Drops;
      ghost var start := Now();
      pos, stream := 0, [];
      Begin(codec, input, start);
      SumNone(rooms);
      for i := 0 to |rooms|
        invariant Valid() && pos <= |input|
        invariant Carried(codec, input, pos, start, stream, Now())
        invariant Filled(codec, input, pos, stream, Now(), Sum(rooms[..i]))
      {
        var out := new u8[rooms[i]](_ => 0);
        ghost var now := Now();
        ghost var rest := input[pos..];
        var called, used, n := Convert(input[pos..], out, 0, rooms[i]);
        SumOne(rooms, i);
        if called == Fail {
          StreamFails(codec, input, pos, used, start, stream, now, rooms, i, out[..], Now());
          return Fail, pos + used, stream;
        }
        Chain(codec, input, pos, used, start, stream, now, out[..][0..n], Now());
        NothingMore(codec, rest, used, now, out[..][0..n], Now());
        pos, stream := pos + used, stream + out[0..n];
      }
      assert rooms[..|rooms|] == rooms;
      outcome := Done;
      StreamDone(codec, input, pos, start, stream, Now(), rooms);
    }

    /** Input that arrives piece by piece: each call gets what is left of the earlier pieces and a new one, and
        has its own output room. Once everything is consumed and nothing is pending, the stream is the
        conversion of the joined pieces: neither the division of the input nor that of the output shows. When
        the joined pieces get stuck, nothing goes out but what is due in front of that place. */
    method Pieces(pieces: seq<Bytes>, rooms: seq<nat>) returns (outcome: Outcome, pos: nat, stream: Bytes)
      requires Valid() && Resumable(codec) && |rooms| == |pieces| && 0 !in Joined(pieces)
      modifies this, buf
      ensures Valid() && pos <= |Joined(pieces)|
      ensures Encoding(codec, Joined(pieces), |Joined(pieces)|, old(inState), old(outState)).Some? ==> outcome == Done
      ensures outcome == Done ==> Owed(codec, Joined(pieces), pos, old(Now()), stream, Now())
      ensures outcome == Done && pos == |Joined(pieces)| && Now().bytes == [] ==>
                && Encoding(codec, Joined(pieces), pos, old(inState), old(outState)).Some?
                && stream == Due(codec, Joined(pieces), pos, old(Now()))
      ensures forall j, p | Stuck(codec, Joined(pieces), j, p, old(inState), old(outState)) ::
                stream <= Due(codec, Joined(pieces), j, old(Now()))
    {
      hide Encoding, Carried, Lawful, Resumable, Stuck, Failed, Fails, Loses, Conserved, OnlyWrote, Owed;
      hide Joined, Productive, Complete, Drops, Due, OwedStuck;
      ghost var start, all := Now(), Joined(pieces);
      pos, stream := 0, [];
      var arrived: Bytes := [];
      assert Joined([]) == [] by { NothingJoined(); }
      assert pieces[..0] == [];
      OwedStart(codec, all, start);
      ghost var j, at := ConvertsOrSticks(codec, all, start.inState, start.outState);
      ghost var stuck := Stuck(codec, all, j, at, start.inState, start.outState);
      ghost var due := DueAt(codec, all, j, at, start);
      PiecesStart(codec, all, start, j, at);
      for i := 0 to |pieces|
        invariant Valid() && pos <= |arrived| && arrived == Joined(pieces[..i]) && arrived <= all
        invariant Owed(codec, all, pos, start, stream, Now())
        invariant stuck ==> OwedStuck(codec, all, pos, stream, Now(), due)
      {
        JoinedOne(pieces, i);
        JoinedPrefix(pieces, i + 1);
        arrived := arrived + pieces[i];
        var out := new u8[rooms[i]](_ => 0);
        ghost var now := Now();
        assert arrived[pos..] == all[pos..|arrived|];
        var called, used, n := Convert(arrived[pos..], out, 0, rooms[i]);
        if called == Fail {
          PiecesFail(codec, all, |arrived|, pos, used, start, stream, now, rooms[i], out[..], Now());
          PiecesEnd(codec, all, pos, start, stream, now, j, at);
          return Fail, pos + used, stream;
        }
        OwedStep(codec, all, |arrived|, pos, used, start, stream, now, out[..][0..n], Now());
        if stuck {
          OwedStuckStep(codec, all, |arrived|, pos, used, stream, now, out[..][0..n], Now(), due);
        }
        pos, stream := pos + used, stream + out[0..n];
      }
      assert pieces[..|pieces|] == pieces;
      outcome := Done;
      PiecesEnd(codec, all, pos, start, stream, Now(), j, at);
      if pos == |all| && Now().bytes == [] {
        OwedEnd(codec, all, start, stream, Now());
      }
    }
  }

  /** What is due in front of the place where the input gets stuck, if it does. */
  ghost function DueAt(c: Codec, s: Bytes, j: nat, at: nat, start: Output): Bytes {
    if Stuck(c, s, j, at, start.inState, start.outState) then Due(c, s, j, start) else []
  }

  lemma {:induction false} PiecesStart(c: Codec, all: Bytes, start: Output, j: nat, at: nat)
    ensures Stuck(c, all, j, at, start.inState, start.outState) ==>
              OwedStuck(c, all, 0, [], start, DueAt(c, all, j, at, start))
  {
    hide Encoding;
    if Stuck(c, all, j, at, start.inState, start.outState) {
      OwedStuckStart(c, all, start, j, at);
    }
  }

  lemma {:induction false} PiecesEnd(c: Codec, all: Bytes, pos: nat, start: Output, sent: Bytes, now: Output, j: nat,
                                     at: nat)
    requires Encoding(c, all, |all|, start.inState, start.outState).Some? <==>
             !Stuck(c, all, j, at, start.inState, start.outState)
    requires Stuck(c, all, j, at, start.inState, start.outState) ==>
               OwedStuck(c, all, pos, sent, now, DueAt(c, all, j, at, start))
    ensures forall k, p | Stuck(c, all, k, p, start.inState, start.outState) :: sent <= Due(c, all, k, start)
  {
    hide Encoding;
    if Stuck(c, all, j, at, start.inState, start.outState) {
      StuckPrefix(c, all, pos, start, sent, now, j, at);
    } else {
      forall k, p
        ensures !Stuck(c, all, k, p, start.inState, start.outState)
      {
        StuckConverts(c, all, k, p, start.inState, start.outState);
      }
    }
  }

  lemma {:induction false} StuckConverts(c: Codec, s: Bytes, k: nat, p: nat, inState: Shift, outState: Shift)
    requires Encoding(c, s, |s|, inState, outState).Some?
    ensures !Stuck(c, s, k, p, inState, outState)
  {
    hide Encoding, Stuck;
    if Stuck(c, s, k, p, inState, outState) {
      StuckIsNone(c, s, k, p, inState, outState);
    }
  }

  lemma {:induction false} PiecesFail(c: Codec, all: Bytes, end: nat, pos: nat, used: nat, start: Output, sent: Bytes,
                                      was: Output, room: nat, b: Bytes, left: Output)
    requires Lawful(c) && Resumable(c) && 0 !in all && pos <= end <= |all| && Owed(c, all, pos, start, sent, was)
    requires Failed(c, all[pos..end], used, was, room, 0, b, left)
    ensures Encoding(c, all, |all|, start.inState, start.outState).None?
  {
    hide Encoding, Lawful, Resumable, Stuck, Owed;
    var j :| FailsAt(c, all[pos..end], j, used, was, room);
    OwedFailure(c, all, end, pos, start, sent, was, j, used);
  }

  /** All the room so far is filled, or there is nothing left to put out. */
  ghost predicate Filled(c: Codec, s: Bytes, pos: nat, sent: Bytes, now: Output, room: nat) {
    |sent| == room || (|sent| <= room && pos == |s| && now.bytes == [])
  }

  /** What comes out of successive calls on input that gets stuck when `due` is due in front of that place. */
  function StuckStream(due: Bytes, rooms: seq<nat>): Bytes {
    CutOff(due, Settled(rooms, |due|))
  }

  lemma {:induction false} StreamFails(c: Codec, s: Bytes, pos: nat, used: nat, start: Output, sent: Bytes, now: Output,
                                       rooms: seq<nat>, i: nat, b: Bytes, left: Output)
    requires Carried(c, s, pos, start, sent, now) && i < |rooms|
    requires Filled(c, s, pos, sent, now, Sum(rooms[..i])) && Failed(c, s[pos..], used, now, rooms[i], 0, b, left)
    ensures Fails(c, s, start, Sum(rooms)) && Encoding(c, s, |s|, start.inState, start.outState).None?
    ensures forall j, p | Stuck(c, s, j, p, start.inState, start.outState) ::
              sent == StuckStream(Due(c, s, j, start), rooms) && pos + used == p && RefusedAt(c, s, j, start, left)
  {
    hide Encoding, Sum, Settled, RefusedAt;
    var j :| FailsAt(c, s[pos..], j, used, now, rooms[i]) && RefusedAt(c, s[pos..], j, now, left);
    RefusedRest(c, s, pos, j, start, sent, now, left);
    StuckRest(c, s, pos, j, used, start, sent, now);
    StuckBelow(c, s[pos..], j, used, now.inState, now.outState);
    StuckIsNone(c, s, pos + j, pos + used, start.inState, start.outState);
    var due := Due(c, s, pos + j, start);
    SumOne(rooms, i);
    SumGrows(rooms, i + 1);
    assert FailsAt(c, s, pos + j, pos + used, start, Sum(rooms));
    SettledAt(rooms, |due|, i);
    forall k, p | Stuck(c, s, k, p, start.inState, start.outState)
      ensures k == pos + j && p == pos + used
    {
      StuckUnique(c, s, k, p, pos + j, pos + used, start.inState, start.outState);
    }
  }

  lemma {:induction false} StreamDone(c: Codec, s: Bytes, pos: nat, start: Output, sent: Bytes, now: Output,
                                      rooms: seq<nat>)
    requires Carried(c, s, pos, start, sent, now) && Filled(c, s, pos, sent, now, Sum(rooms))
    ensures !Fails(c, s, start, Sum(rooms))
    ensures Encoding(c, s, |s|, start.inState, start.outState).Some? ==>
              sent == CutOff(Due(c, s, |s|, start), Sum(rooms))
    ensures forall j, p | Stuck(c, s, j, p, start.inState, start.outState) ::
              sent == StuckStream(Due(c, s, j, start), rooms)
  {
    hide Encoding, Carried, Sum, Settled;
    DoneIsNoFailure(c, s, pos, start, sent, now, Sum(rooms));
    if Encoding(c, s, |s|, start.inState, start.outState).Some? {
      AllOut(c, s, pos, start, sent, now, Sum(rooms));
    }
    forall j, p | Stuck(c, s, j, p, start.inState, start.outState)
      ensures sent == StuckStream(Due(c, s, j, start), rooms)
    {
      FilledBefore(c, s, pos, start, sent, now, Sum(rooms), j, p);
      SumWhole(rooms, |Due(c, s, j, start)|);
    }
  }
}
