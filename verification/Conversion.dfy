/** What the streaming converter is for: the conversion of a stretch of input, how conversions compose, and
    where they get stuck. */
module Conversion {
  import opened Bits
  import opened Memory
  import opened Options

  /** `MB_LEN_MAX`, the size of the carry buffer. */
  const MB_LEN_MAX: nat := 8

  /** The contents of an `mbstate_t`. */
  type Shift = seq<u8>

  /** What `in_mbtowc` returns: 0, -1, -2, or the length of a character. */
  datatype Decoded = Nul | Malformed | Partial | Char(n: int, wc: int)

  /** The two character sets. `out_wctomb` returns -1 for a character that it does not have. */
  datatype Codec = Codec(mbtowc: (Bytes, Shift) -> (Decoded, Shift), wctomb: (int, Shift) -> (Option<Bytes>, Shift))

  /** The promises of `mbtowc` and `wctomb` that the converter relies on. */
  ghost predicate Lawful(c: Codec) {
    && (forall s, st :: s != [] && c.mbtowc(s, st).0.Char? ==> 0 < c.mbtowc(s, st).0.n <= |s|)
    && (forall w, st :: c.wctomb(w, st).0.Some? ==> |c.wctomb(w, st).0.value| <= MB_LEN_MAX)
  }

  /** What a stretch of input converts to, and the shift states afterwards. */
  datatype Output = Output(bytes: Bytes, inState: Shift, outState: Shift)

  /** The conversion of the first `k` bytes of `s`, if they are whole characters that both sets have. A NUL
      and an unfinished character both end the input. */
  function Encoding(c: Codec, s: Bytes, k: nat, inState: Shift, outState: Shift): Option<Output>
    requires k <= |s|
    decreases k
  {
    if k == 0 then Some(Output([], inState, outState))
    else
      var (d, inState') := c.mbtowc(s, inState);
      match d
      case Malformed => None
      case Partial => if k == |s| then Some(Output([], inState', outState)) else None
      case Nul =>
        var (e, outState') := c.wctomb(0, outState);
        if k == |s| && e.Some? then Some(Output(e.value, inState', outState')) else None
      case Char(n, wc) =>
        var (e, outState') := c.wctomb(wc, outState);
        if 0 < n <= k && e.Some? then Prefixed(e.value, Encoding(c, s[n..], k - n, inState', outState')) else None
  }

  function Prefixed(head: Bytes, tail: Option<Output>): Option<Output> {
    match tail
    case None => None
    case Some(o) => Some(o.(bytes := head + o.bytes))
  }

  /** Converting a stretch and then what follows it is converting both at once. */
  lemma {:induction false} EncodingConcat(c: Codec, s: Bytes, j: nat, k: nat, inState: Shift, outState: Shift)
    requires j <= k <= |s| && Encoding(c, s, j, inState, outState).Some?
    ensures var o := Encoding(c, s, j, inState, outState).value;
            Encoding(c, s, k, inState, outState) ==
            Prefixed(o.bytes, Encoding(c, s[j..], k - j, o.inState, o.outState))
    decreases j
  {
    hide Encoding, Prefixed;
    if j == 0 {
      assert s[0..] == s;
      EmptyEncoding(c, s, inState, outState);
      PrefixedNone(Encoding(c, s, k, inState, outState));
    } else if c.mbtowc(s, inState).0.Char? {
      var (d, inState') := c.mbtowc(s, inState);
      var (e, outState') := c.wctomb(d.wc, outState);
      CharFirst(c, s, j, inState, outState);
      EncodingConcat(c, s[d.n..], j - d.n, k - d.n, inState', outState');
      CharFirst(c, s, k, inState, outState);
      assert s[d.n..][j - d.n..] == s[j..];
      var o := Encoding(c, s[d.n..], j - d.n, inState', outState').value;
      PrefixedTwice(e.value, o.bytes, Encoding(c, s[j..], k - j, o.inState, o.outState));
      PrefixedSome(e.value, o);
    } else {
      LastUnit(c, s, j, inState, outState);
      PrefixedEnd(c, s[j..], Encoding(c, s, j, inState, outState).value);
    }
  }

  lemma {:induction false} EmptyEncoding(c: Codec, s: Bytes, inState: Shift, outState: Shift)
    ensures Encoding(c, s, 0, inState, outState) == Some(Output([], inState, outState))
  {
  }

  /** A conversion that starts with a character is that character's, then the conversion of the rest. */
  lemma {:induction false} CharFirst(c: Codec, s: Bytes, k: nat, inState: Shift, outState: Shift)
    requires 0 < k <= |s| && c.mbtowc(s, inState).0.Char?
    ensures var d := c.mbtowc(s, inState);
            var e := c.wctomb(d.0.wc, outState);
            Encoding(c, s, k, inState, outState) ==
            if 0 < d.0.n <= k && e.0.Some? then Prefixed(e.0.value, Encoding(c, s[d.0.n..], k - d.0.n, d.1, e.1))
            else None
    ensures Encoding(c, s, k, inState, outState).Some? ==>
              Encoding(c, s[c.mbtowc(s, inState).0.n..], k - c.mbtowc(s, inState).0.n, c.mbtowc(s, inState).1,
                       c.wctomb(c.mbtowc(s, inState).0.wc, outState).1).Some?
  {
  }

  lemma {:induction false} LastUnit(c: Codec, s: Bytes, k: nat, inState: Shift, outState: Shift)
    requires 0 < k <= |s| && !c.mbtowc(s, inState).0.Char? && Encoding(c, s, k, inState, outState).Some?
    ensures k == |s|
  {
  }

  lemma {:induction false} PrefixedSome(head: Bytes, o: Output)
    ensures Prefixed(head, Some(o)) == Some(o.(bytes := head + o.bytes))
  {
  }

  lemma {:induction false} PrefixedNone(o: Option<Output>)
    ensures Prefixed([], o) == o
  {
    if o.Some? {
      assert [] + o.value.bytes == o.value.bytes;
    }
  }

  lemma {:induction false} PrefixedTwice(a: Bytes, b: Bytes, o: Option<Output>)
    ensures Prefixed(a, Prefixed(b, o)) == Prefixed(a + b, o)
  {
    if o.Some? {
      assert a + (b + o.value.bytes) == a + b + o.value.bytes;
    }
  }

  lemma {:induction false} PrefixedEnd(c: Codec, s: Bytes, o: Output)
    ensures Prefixed(o.bytes, Encoding(c, s, 0, o.inState, o.outState)) == Some(o)
  {
    assert o.bytes + [] == o.bytes;
  }

  // ---- how far a call gets ----

  datatype Outcome = Done | Fail

  /** Where a conversion stands: `pos` bytes of `s` are consumed, and together with what was pending before
      they are what went out and what is pending now. */
  ghost predicate Carried(c: Codec, s: Bytes, pos: nat, start: Output, sent: Bytes, now: Output) {
    && pos <= |s|
    && var r := Encoding(c, s, pos, start.inState, start.outState);
    r.Some? && start.bytes + r.value.bytes == sent + now.bytes
    && r.value.inState == now.inState && r.value.outState == now.outState
  }

  /** The character at `j` cannot be converted; the input pointer is left at `pos`. */
  ghost predicate Stuck(c: Codec, s: Bytes, j: nat, pos: nat, inState: Shift, outState: Shift) {
    && j < |s|
    && var r := Encoding(c, s, j, inState, outState);
    r.Some? &&
    match c.mbtowc(s[j..], r.value.inState).0
    case Malformed => pos == j
    case Partial => false
    case Nul => pos == |s| && c.wctomb(0, r.value.outState).0.None?
    case Char(n, wc) => pos == j + n && n > 0 && c.wctomb(wc, r.value.outState).0.None?
  }

  /** What is due when the first `j` bytes are converted: the pending bytes, then their conversion. */
  function Due(c: Codec, s: Bytes, j: nat, start: Output): Bytes
    requires j <= |s| && Encoding(c, s, j, start.inState, start.outState).Some?
  {
    start.bytes + Encoding(c, s, j, start.inState, start.outState).value.bytes
  }

  /** The input gets stuck at `j`, and everything due in front of it leaves room to notice. */
  ghost predicate FailsAt(c: Codec, s: Bytes, j: nat, pos: nat, start: Output, room: nat) {
    Stuck(c, s, j, pos, start.inState, start.outState) && |Due(c, s, j, start)| < room
  }

  /** Will a call with this input and this room fail? */
  ghost predicate Fails(c: Codec, s: Bytes, start: Output, room: nat) {
    exists j, pos :: FailsAt(c, s, j, pos, start, room)
  }

  /** Will it fail with something already written? */
  ghost predicate Loses(c: Codec, s: Bytes, start: Output, room: nat) {
    exists j, pos :: FailsAt(c, s, j, pos, start, room) && Due(c, s, j, start) != []
  }

  /** The input in front of `j` is what a call converted that ended at `pos`. */
  ghost predicate Converted(c: Codec, s: Bytes, j: nat, pos: nat, start: Output, outcome: Outcome) {
    && j <= |s| && Encoding(c, s, j, start.inState, start.outState).Some?
    && if outcome == Done then j == pos else Stuck(c, s, j, pos, start.inState, start.outState)
  }

  /** Everything due for the input that was converted is reported or pending. */
  ghost predicate Conserved(c: Codec, s: Bytes, pos: nat, start: Output, outcome: Outcome, sent: Bytes, now: Output) {
    exists j :: Converted(c, s, j, pos, start, outcome) && Due(c, s, j, start) == sent + now.bytes
  }

  /** Everything due was written from `at` on, although the call failed. */
  ghost predicate WrittenOff(c: Codec, s: Bytes, j: nat, start: Output, at: nat, b: Bytes) {
    && j <= |s| && Encoding(c, s, j, start.inState, start.outState).Some?
    && at + |Due(c, s, j, start)| <= |b|
    && b[at..at + |Due(c, s, j, start)|] == Due(c, s, j, start)
  }

  /** The shift states after the first character of `s` could not be converted: the decoder's behind that
      character, and the encoder's as the refusal leaves it. A malformed character does not get to the encoder. */
  ghost predicate Refused(c: Codec, s: Bytes, was: Output, now: Output) {
    var (d, inState) := c.mbtowc(s, was.inState);
    now.inState == inState &&
    match d
    case Malformed => now.outState == was.outState
    case Partial => false
    case Nul => now.outState == c.wctomb(0, was.outState).1
    case Char(_, wc) => now.outState == c.wctomb(wc, was.outState).1
  }

  /** The same after the character at `j`, in the states that the input in front of it leads to. */
  ghost predicate RefusedAt(c: Codec, s: Bytes, j: nat, start: Output, now: Output) {
    && j <= |s| && Encoding(c, s, j, start.inState, start.outState).Some?
    && Refused(c, s[j..], Encoding(c, s, j, start.inState, start.outState).value, now)
  }

  /** The call ended at `pos` because the input gets stuck; what it had written is not reported, and the shift
      states are those behind the character at which it got stuck. */
  ghost predicate Failed(c: Codec, s: Bytes, pos: nat, start: Output, room: nat, at: nat, b: Bytes, now: Output) {
    exists j ::
      FailsAt(c, s, j, pos, start, room) && WrittenOff(c, s, j, start, at, b) && RefusedAt(c, s, j, start, now)
  }

  /** A failing call keeps the law exactly when nothing was due. */
  lemma {:induction false} FailureLoses(c: Codec, s: Bytes, pos: nat, start: Output, room: nat, now: Output)
    requires exists j :: FailsAt(c, s, j, pos, start, room)
    requires now.bytes == []
    ensures Conserved(c, s, pos, start, Fail, [], now) <==> !Loses(c, s, start, room)
  {
    hide Stuck, Encoding;
    var j :| FailsAt(c, s, j, pos, start, room);
    StuckBelow(c, s, j, pos, start.inState, start.outState);
    assert Converted(c, s, j, pos, start, Fail);
    forall k, p | FailsAt(c, s, k, p, start, room)
      ensures k == j
    {
      StuckUnique(c, s, k, p, j, pos, start.inState, start.outState);
    }
    forall k | Converted(c, s, k, pos, start, Fail)
      ensures k == j
    {
      StuckUnique(c, s, k, pos, j, pos, start.inState, start.outState);
    }
    assert [] + now.bytes == [];
  }

  /** A call that does not fail keeps it. */
  lemma {:induction false} SuccessConserves(c: Codec, s: Bytes, pos: nat, start: Output, sent: Bytes, now: Output)
    requires Carried(c, s, pos, start, sent, now)
    ensures Conserved(c, s, pos, start, Done, sent, now)
  {
    hide Encoding;
    assert Converted(c, s, pos, pos, start, Done);
  }

  /** Nothing behind the place where the input gets stuck can be converted. */
  lemma {:induction false} StuckStops(c: Codec, s: Bytes, j: nat, pos: nat, k: nat, inState: Shift, outState: Shift)
    requires Stuck(c, s, j, pos, inState, outState)
    requires k <= |s| && Encoding(c, s, k, inState, outState).Some?
    ensures k <= j
  {
    if k > j {
      EncodingConcat(c, s, j, k, inState, outState);
    }
  }

  /** Input gets stuck in one place only. */
  lemma {:induction false} StuckUnique(c: Codec, s: Bytes, j: nat, pos: nat, j': nat, pos': nat, inState: Shift,
                                       outState: Shift)
    requires Stuck(c, s, j, pos, inState, outState) && Stuck(c, s, j', pos', inState, outState)
    ensures j == j' && pos == pos'
  {
    hide Encoding;
    StuckStops(c, s, j, pos, j', inState, outState);
    StuckStops(c, s, j', pos', j, inState, outState);
  }

  /** Every input has a conversion or gets stuck. */
  lemma {:induction false} ConvertsOrSticks(c: Codec, s: Bytes, inState: Shift, outState: Shift)
    returns (j: nat, pos: nat)
    requires Lawful(c)
    ensures Encoding(c, s, |s|, inState, outState).Some? <==> !Stuck(c, s, j, pos, inState, outState)
    decreases |s|
  {
    hide Encoding, Stuck;
    j, pos := 0, 0;
    if s == [] {
      EmptyEncoding(c, s, inState, outState);
      StuckBelow(c, s, j, pos, inState, outState);
    } else {
      OneUnit(c, s, inState, outState);
      var (d, inState') := c.mbtowc(s, inState);
      var used := if d.Char? then d.n else |s|;
      var r := Encoding(c, s, used, inState, outState);
      if r.None? {
        pos := if d.Malformed? then 0 else used;
      } else {
        EncodingConcat(c, s, used, |s|, inState, outState);
        var j', pos' := ConvertsOrSticks(c, s[used..], r.value.inState, r.value.outState);
        j, pos := used + j', used + pos';
        StuckShift(c, s, used, j', pos', inState, outState);
      }
      if Stuck(c, s, j, pos, inState, outState) {
        StuckIsNone(c, s, j, pos, inState, outState);
      }
    }
  }

  lemma {:induction false} StuckBelow(c: Codec, s: Bytes, j: nat, pos: nat, inState: Shift, outState: Shift)
    ensures Stuck(c, s, j, pos, inState, outState) ==> j < |s| && Encoding(c, s, j, inState, outState).Some?
  {
  }

  /** Input that gets stuck has no conversion. */
  lemma {:induction false} StuckIsNone(c: Codec, s: Bytes, j: nat, pos: nat, inState: Shift, outState: Shift)
    requires Stuck(c, s, j, pos, inState, outState)
    ensures Encoding(c, s, |s|, inState, outState).None?
  {
    hide Encoding, Stuck;
    StuckBelow(c, s, j, pos, inState, outState);
    if Encoding(c, s, |s|, inState, outState).Some? {
      StuckStops(c, s, j, pos, |s|, inState, outState);
    }
  }

  /** The rest of an input gets stuck where the input does. */
  lemma {:induction false} StuckShift(c: Codec, s: Bytes, k: nat, j: nat, pos: nat, inState: Shift, outState: Shift)
    requires k <= |s| && Encoding(c, s, k, inState, outState).Some?
    ensures var o := Encoding(c, s, k, inState, outState).value;
            Stuck(c, s[k..], j, pos, o.inState, o.outState) == Stuck(c, s, k + j, k + pos, inState, outState)
  {
    hide Encoding;
    if j <= |s| - k {
      EncodingConcat(c, s, k, k + j, inState, outState);
      assert s[k..][j..] == s[k + j..];
    }
  }

  /** One more character, NUL, or unfinished rest consumed: `x` of its bytes go out, `y` wait. */
  lemma {:induction false} Advance(c: Codec, s: Bytes, pos: nat, n: nat, start: Output, sent: Bytes, was: Output,
                                   x: Bytes, now: Output)
    requires Carried(c, s, pos, start, sent, was) && pos + n <= |s| && was.bytes == []
    requires Encoding(c, s[pos..], n, was.inState, was.outState) == Some(now.(bytes := x + now.bytes))
    ensures Carried(c, s, pos + n, start, sent + x, now)
  {
    hide Encoding;
    EncodingConcat(c, s, pos, pos + n, start.inState, start.outState);
    var done := Encoding(c, s, pos, start.inState, start.outState).value.bytes;
    assert start.bytes + (done + (x + now.bytes)) == start.bytes + done + (x + now.bytes);
    assert sent + [] == sent;
    assert sent + (x + now.bytes) == sent + x + now.bytes;
  }

  /** Pending bytes go out. */
  lemma {:induction false} Flush(c: Codec, s: Bytes, pos: nat, start: Output, sent: Bytes, now: Output, n: nat)
    requires Carried(c, s, pos, start, sent, now) && n <= |now.bytes|
    ensures Carried(c, s, pos, start, sent + now.bytes[..n], now.(bytes := now.bytes[n..]))
  {
    hide Encoding;
    assert now.bytes == now.bytes[..n] + now.bytes[n..];
  }

  /** Nothing consumed yet. */
  lemma {:induction false} Begin(c: Codec, s: Bytes, start: Output)
    ensures Carried(c, s, 0, start, [], start)
  {
    assert start.bytes + [] == [] + start.bytes;
  }

  /** The conversion of one unit: a character, a NUL with the rest of the input, or an unfinished rest. */
  lemma {:induction false} OneUnit(c: Codec, s: Bytes, inState: Shift, outState: Shift)
    requires Lawful(c) && s != []
    ensures var (d, inState') := c.mbtowc(s, inState);
            match d
            case Malformed => Stuck(c, s, 0, 0, inState, outState)
            case Partial => Encoding(c, s, |s|, inState, outState) == Some(Output([], inState', outState))
            case Nul =>
              var (e, outState') := c.wctomb(0, outState);
              if e.None? then Stuck(c, s, 0, |s|, inState, outState)
              else Encoding(c, s, |s|, inState, outState) == Some(Output(e.value, inState', outState'))
            case Char(n, wc) =>
              var (e, outState') := c.wctomb(wc, outState);
              0 < n <= |s| &&
              if e.None? then Stuck(c, s, 0, n, inState, outState)
              else Encoding(c, s, n, inState, outState) == Some(Output(e.value, inState', outState'))
  {
    var (d, inState') := c.mbtowc(s, inState);
    assert s[0..] == s;
    if d.Char? {
      var (e, outState') := c.wctomb(d.wc, outState);
      if e.Some? {
        assert Encoding(c, s[d.n..], 0, inState', outState') == Some(Output([], inState', outState'));
        assert e.value + [] == e.value;
      }
    }
  }

  // ---- successive calls ----

  function Sum(ns: seq<nat>): nat {
    if ns == [] then 0 else Sum(ns[..|ns| - 1]) + ns[|ns| - 1]
  }

  /** At most the first `n` bytes. */
  function CutOff(b: Bytes, n: nat): Bytes {
    if n <= |b| then b[..n] else b
  }

  lemma {:induction false} SumNone(ns: seq<nat>)
    ensures Sum(ns[..0]) == 0
  {
  }

  lemma {:induction false} SumOne(ns: seq<nat>, i: nat)
    requires i < |ns|
    ensures Sum(ns[..i + 1]) == Sum(ns[..i]) + ns[i]
  {
    assert ns[..i + 1][..i] == ns[..i];
  }

  /** Two calls in a row. */
  lemma {:induction false} Chain(c: Codec, s: Bytes, pos: nat, used: nat, start: Output, sent: Bytes, mid: Output,
                                 sent': Bytes, now: Output)
    requires Carried(c, s, pos, start, sent, mid) && Carried(c, s[pos..], used, mid, sent', now)
    ensures Carried(c, s, pos + used, start, sent + sent', now)
  {
    hide Encoding;
    EncodingConcat(c, s, pos, pos + used, start.inState, start.outState);
    var x := Encoding(c, s, pos, start.inState, start.outState).value.bytes;
    var y := Encoding(c, s[pos..], used, mid.inState, mid.outState).value.bytes;
    assert start.bytes + (x + y) == start.bytes + x + y;
    assert sent + mid.bytes + y == sent + (mid.bytes + y);
    assert sent + (sent' + now.bytes) == sent + sent' + now.bytes;
  }

  /** The rest of an input converts exactly when all of it does. */
  lemma {:induction false} RestConverts(c: Codec, s: Bytes, pos: nat, start: Output, sent: Bytes, now: Output)
    requires Carried(c, s, pos, start, sent, now)
    ensures var all := Encoding(c, s, |s|, start.inState, start.outState);
            var rest := Encoding(c, s[pos..], |s| - pos, now.inState, now.outState);
            && all.Some? == rest.Some?
            && (all.Some? ==> start.bytes + all.value.bytes == sent + now.bytes + rest.value.bytes)
  {
    hide Encoding;
    EncodingConcat(c, s, pos, |s|, start.inState, start.outState);
    var x := Encoding(c, s, pos, start.inState, start.outState).value.bytes;
    var rest := Encoding(c, s[pos..], |s| - pos, now.inState, now.outState);
    if rest.Some? {
      assert start.bytes + (x + rest.value.bytes) == start.bytes + x + rest.value.bytes;
    }
  }

  /** With nothing to consume and nothing pending a call does nothing. */
  lemma {:induction false} NothingMore(c: Codec, s: Bytes, used: nat, was: Output, sent: Bytes, now: Output)
    requires Carried(c, s, used, was, sent, now)
    ensures s == [] && was.bytes == [] ==> sent == [] && now.bytes == []
  {
  }

  /** The stream so far is what fits into the room, once the room is full or everything is out. */
  lemma {:induction false} AllOut(c: Codec, s: Bytes, pos: nat, start: Output, sent: Bytes, now: Output, room: nat)
    requires Carried(c, s, pos, start, sent, now) && Encoding(c, s, |s|, start.inState, start.outState).Some?
    requires |sent| == room || (|sent| < room && pos == |s| && now.bytes == [])
    ensures sent == CutOff(start.bytes + Encoding(c, s, |s|, start.inState, start.outState).value.bytes, room)
  {
    hide Encoding;
    RestConverts(c, s, pos, start, sent, now);
    if |sent| < room {
      EmptyEncoding(c, s[pos..], now.inState, now.outState);
    }
  }

  /** What is due up to a place in the rest of the input is, after what went out, what is due up to that place. */
  lemma {:induction false} DueRest(c: Codec, s: Bytes, pos: nat, j: nat, start: Output, sent: Bytes, now: Output)
    requires Carried(c, s, pos, start, sent, now)
    requires j <= |s| - pos && Encoding(c, s[pos..], j, now.inState, now.outState).Some?
    ensures Encoding(c, s, pos + j, start.inState, start.outState).Some?
    ensures Due(c, s, pos + j, start) == sent + Due(c, s[pos..], j, now)
  {
    hide Encoding;
    EncodingConcat(c, s, pos, pos + j, start.inState, start.outState);
    var x := Encoding(c, s, pos, start.inState, start.outState).value.bytes;
    var y := Encoding(c, s[pos..], j, now.inState, now.outState).value.bytes;
    assert start.bytes + (x + y) == start.bytes + x + y;
    assert sent + now.bytes + y == sent + (now.bytes + y);
  }

  /** Where the rest of the input gets stuck. */
  lemma {:induction false} StuckRest(c: Codec, s: Bytes, pos: nat, j: nat, used: nat, start: Output, sent: Bytes,
                                     now: Output)
    requires Carried(c, s, pos, start, sent, now) && Stuck(c, s[pos..], j, used, now.inState, now.outState)
    ensures Stuck(c, s, pos + j, pos + used, start.inState, start.outState)
    ensures Due(c, s, pos + j, start) == sent + Due(c, s[pos..], j, now)
  {
    hide Encoding;
    StuckShift(c, s, pos, j, used, start.inState, start.outState);
    DueRest(c, s, pos, j, start, sent, now);
  }

  /** The shift states after the rest got stuck are those after the input did. */
  lemma {:induction false} RefusedRest(c: Codec, s: Bytes, pos: nat, j: nat, start: Output, sent: Bytes, was: Output,
                                       now: Output)
    requires Carried(c, s, pos, start, sent, was) && RefusedAt(c, s[pos..], j, was, now)
    ensures RefusedAt(c, s, pos + j, start, now)
  {
    hide Encoding;
    EncodingConcat(c, s, pos, pos + j, start.inState, start.outState);
    assert s[pos..][j..] == s[pos + j..];
  }

  /** A conversion that filled its room, or got to the end, filled it from what is due in front of the place
      where the input gets stuck. */
  lemma {:induction false} FilledBefore(c: Codec, s: Bytes, pos: nat, start: Output, sent: Bytes, now: Output,
                                        room: nat, j: nat, at: nat)
    requires Carried(c, s, pos, start, sent, now)
    requires |sent| == room || (pos == |s| && now.bytes == [])
    requires Stuck(c, s, j, at, start.inState, start.outState)
    ensures |sent| == room <= |Due(c, s, j, start)| && sent == Due(c, s, j, start)[..room]
  {
    hide Encoding;
    StuckStops(c, s, j, at, pos, start.inState, start.outState);
    EncodingConcat(c, s, pos, j, start.inState, start.outState);
    var x := Encoding(c, s, pos, start.inState, start.outState).value.bytes;
    var y := Encoding(c, s[pos..], j - pos, now.inState, now.outState).value.bytes;
    assert start.bytes + (x + y) == start.bytes + x + y;
    assert sent + now.bytes + y == sent + (now.bytes + y);
    assert Due(c, s, j, start) == sent + (now.bytes + y);
  }

  /** Such a conversion does not fail. */
  lemma {:induction false} DoneIsNoFailure(c: Codec, s: Bytes, pos: nat, start: Output, sent: Bytes, now: Output,
                                           room: nat)
    requires Carried(c, s, pos, start, sent, now)
    requires |sent| == room || (pos == |s| && now.bytes == [])
    ensures !Fails(c, s, start, room)
  {
    hide Stuck, Carried;
    if j, at :| FailsAt(c, s, j, at, start, room) {
      FilledBefore(c, s, pos, start, sent, now, room, j, at);
    }
  }

  /** The most that the first of several calls can put out when `due` bytes are due: whole rooms only. */
  function Settled(rooms: seq<nat>, due: nat): nat {
    if Sum(rooms) <= due then Sum(rooms) else Settled(rooms[..|rooms| - 1], due)
  }

  lemma {:induction false} SettledAt(rooms: seq<nat>, due: nat, i: nat)
    requires i < |rooms| && Sum(rooms[..i]) <= due < Sum(rooms[..i + 1])
    ensures Settled(rooms, due) == Sum(rooms[..i])
    decreases |rooms|
  {
    hide Sum;
    var n := |rooms| - 1;
    if i == n {
      assert rooms[..i + 1] == rooms;
      SumWhole(rooms[..i], due);
    } else {
      SumGrows(rooms, i + 1);
      assert rooms[..n][..i] == rooms[..i] && rooms[..n][..i + 1] == rooms[..i + 1];
      SettledAt(rooms[..n], due, i);
    }
  }

  lemma {:induction false} SumWhole(rooms: seq<nat>, due: nat)
    ensures Sum(rooms) <= due ==> Settled(rooms, due) == Sum(rooms)
  {
  }

  lemma {:induction false} SumGrows(rooms: seq<nat>, i: nat)
    requires i <= |rooms|
    ensures Sum(rooms[..i]) <= Sum(rooms)
    decreases |rooms|
  {
    if i < |rooms| {
      assert rooms[..|rooms| - 1][..i] == rooms[..i];
      SumGrows(rooms[..|rooms| - 1], i);
    } else {
      assert rooms[..i] == rooms;
    }
  }
}
