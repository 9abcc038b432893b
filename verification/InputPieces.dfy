/** Input that arrives in pieces: for character sets whose decoder resumes inside a character, the division of
    the input makes no difference either. */
module InputPieces {
  import opened Memory
  import opened Options
  import opened Conversion

  /** `whole` is how a decoder sees `k` bytes and what follows, if it sees what follows them as `rest`. */
  ghost predicate Resumed(whole: (Decoded, Shift), k: nat, rest: (Decoded, Shift)) {
    match rest.0
    case Malformed => whole.0 == Malformed
    case Char(m, wc) => whole == (Char(k + m, wc), rest.1)
    case Partial => whole == rest
    case Nul => whole == rest
  }

  /** The promise of `mbrtowc`: a decision does not depend on what follows, an unfinished character is
      remembered in the state, and NUL needs a zero byte. */
  ghost predicate Resumable(c: Codec) {
    && (forall s, st :: c.mbtowc(s, st).0.Nul? ==> 0 in s)
    && forall s, t, st | s != [] ::
         match c.mbtowc(s, st).0
         case Malformed => c.mbtowc(s + t, st).0 == Malformed
         case Char(_, _) => c.mbtowc(s + t, st) == c.mbtowc(s, st)
         case Partial => t != [] ==> Resumed(c.mbtowc(s + t, st), |s|, c.mbtowc(t, c.mbtowc(s, st).1))
         case Nul => true
  }

  lemma {:induction false} Resume(c: Codec, s: Bytes, t: Bytes, st: Shift)
    requires Resumable(c) && s != [] && c.mbtowc(s, st).0.Partial? && t != []
    ensures Resumed(c.mbtowc(s + t, st), |s|, c.mbtowc(t, c.mbtowc(s, st).1))
  {
  }

  lemma {:induction false} Decided(c: Codec, s: Bytes, t: Bytes, st: Shift)
    requires Resumable(c) && s != []
    ensures c.mbtowc(s, st).0.Malformed? ==> c.mbtowc(s + t, st).0 == Malformed
    ensures c.mbtowc(s, st).0.Char? ==> c.mbtowc(s + t, st) == c.mbtowc(s, st)
    ensures c.mbtowc(s, st).0.Nul? ==> 0 in s
  {
  }

  /** What is converted of a first piece need not be looked at again when more input follows. */
  lemma {:induction false} Divide(c: Codec, s: Bytes, t: Bytes, k: nat, inState: Shift, outState: Shift)
    requires Lawful(c) && Resumable(c) && 0 !in s && k <= |s| && Encoding(c, s, k, inState, outState).Some?
    ensures var o := Encoding(c, s, k, inState, outState).value;
            Encoding(c, s + t, |s + t|, inState, outState) ==
            Prefixed(o.bytes, Encoding(c, s[k..] + t, |s[k..] + t|, o.inState, o.outState))
    decreases k
  {
    hide Encoding, Prefixed, Lawful, Resumable;
    var o := Encoding(c, s, k, inState, outState).value;
    if k == 0 {
      assert s[0..] == s;
      EmptyEncoding(c, s, inState, outState);
      PrefixedNone(Encoding(c, s + t, |s + t|, inState, outState));
    } else {
      Decided(c, s, t, inState);
      var (d, inState') := c.mbtowc(s, inState);
      if d.Char? {
        var (e, outState') := c.wctomb(d.wc, outState);
        CharFirst(c, s, k, inState, outState);
        CharFirst(c, s + t, |s + t|, inState, outState);
        assert (s + t)[d.n..] == s[d.n..] + t;
        Divide(c, s[d.n..], t, k - d.n, inState', outState');
        assert s[d.n..][k - d.n..] == s[k..];
        var r := Encoding(c, s[d.n..], k - d.n, inState', outState').value;
        PrefixedTwice(e.value, r.bytes, Encoding(c, s[k..] + t, |s[k..] + t|, o.inState, o.outState));
        PrefixedSome(e.value, r);
      } else {
        UnfinishedEnd(c, s, k, inState, outState);
        assert s[k..] + t == t;
        Unfinished(c, s, t, inState, outState);
        PrefixedNone(Encoding(c, t, |t|, inState', outState));
      }
    }
  }

  /** Without a zero byte, the only unit other than a character is an unfinished one at the end. */
  lemma {:induction false} UnfinishedEnd(c: Codec, s: Bytes, k: nat, inState: Shift, outState: Shift)
    requires Resumable(c) && 0 !in s && 0 < k <= |s| && !c.mbtowc(s, inState).0.Char?
    requires Encoding(c, s, k, inState, outState).Some?
    ensures c.mbtowc(s, inState).0.Partial? && k == |s|
    ensures Encoding(c, s, k, inState, outState) == Some(Output([], c.mbtowc(s, inState).1, outState))
  {
    hide Resumable;
    Decided(c, s, [], inState);
  }

  /** An unfinished character and what completes it convert as one. */
  lemma {:induction false} Unfinished(c: Codec, s: Bytes, t: Bytes, inState: Shift, outState: Shift)
    requires Lawful(c) && Resumable(c) && s != [] && c.mbtowc(s, inState).0.Partial?
    ensures Encoding(c, s + t, |s + t|, inState, outState) ==
            Encoding(c, t, |t|, c.mbtowc(s, inState).1, outState)
  {
    hide Resumable;
    if t == [] {
      assert s + t == s;
    } else {
      Resume(c, s, t, inState);
      var d := c.mbtowc(t, c.mbtowc(s, inState).1).0;
      if d.Char? {
        assert 0 < d.n <= |t|;
        assert (s + t)[|s| + d.n..] == t[d.n..];
      }
    }
  }

  /** Input that gets stuck still does when more follows. */
  lemma {:induction false} StuckLonger(c: Codec, s: Bytes, t: Bytes, j: nat, pos: nat, inState: Shift, outState: Shift)
    requires Lawful(c) && Resumable(c) && 0 !in s && Stuck(c, s, j, pos, inState, outState)
    ensures Encoding(c, s + t, |s + t|, inState, outState).None?
  {
    hide Resumable;
    Divide(c, s, t, j, inState, outState);
    var o := Encoding(c, s, j, inState, outState).value;
    Decided(c, s[j..], t, o.inState);
  }

  /** What has gone out, what is pending and the conversion of the rest make up the conversion of it all. */
  ghost predicate Owed(c: Codec, all: Bytes, pos: nat, start: Output, sent: Bytes, now: Output) {
    && pos <= |all|
    && Prefixed(start.bytes, Encoding(c, all, |all|, start.inState, start.outState)) ==
       Prefixed(sent + now.bytes, Encoding(c, all[pos..], |all| - pos, now.inState, now.outState))
  }

  lemma {:induction false} OwedStart(c: Codec, all: Bytes, start: Output)
    ensures Owed(c, all, 0, start, [], start)
  {
    hide Encoding;
    assert all[0..] == all;
    assert [] + start.bytes == start.bytes;
  }

  /** A call on the part of the input that has arrived keeps that. */
  lemma {:induction false} OwedStep(c: Codec, all: Bytes, end: nat, pos: nat, used: nat, start: Output, sent: Bytes,
                                    was: Output, sent': Bytes, now: Output)
    requires Lawful(c) && Resumable(c) && 0 !in all && pos <= end <= |all| && Owed(c, all, pos, start, sent, was)
    requires Carried(c, all[pos..end], used, was, sent', now)
    ensures Owed(c, all, pos + used, start, sent + sent', now)
  {
    hide Encoding, Prefixed, Lawful, Resumable;
    var s, t := all[pos..end], all[end..];
    NoZero(all, pos, end);
    Divide(c, s, t, used, was.inState, was.outState);
    var o := Encoding(c, s, used, was.inState, was.outState).value;
    assert s + t == all[pos..];
    assert s[used..] + t == all[pos + used..];
    var rest := Encoding(c, all[pos + used..], |all| - pos - used, now.inState, now.outState);
    PrefixedTwice(sent + was.bytes, o.bytes, rest);
    assert sent + was.bytes + o.bytes == sent + (was.bytes + o.bytes) == sent + sent' + now.bytes;
  }

  lemma {:induction false} NoZero(s: Bytes, lo: nat, hi: nat)
    requires 0 !in s && lo <= hi <= |s|
    ensures 0 !in s[lo..hi]
  {
  }

  /** A call that fails on the part that has arrived tells that all of the input has no conversion. */
  lemma {:induction false} OwedFailure(c: Codec, all: Bytes, end: nat, pos: nat, start: Output, sent: Bytes,
                                       was: Output,
                                       j: nat, at: nat)
    requires Lawful(c) && Resumable(c) && 0 !in all && pos <= end <= |all| && Owed(c, all, pos, start, sent, was)
    requires Stuck(c, all[pos..end], j, at, was.inState, was.outState)
    ensures Encoding(c, all, |all|, start.inState, start.outState).None?
  {
    hide Encoding, Lawful, Resumable, Stuck;
    NoZero(all, pos, end);
    StuckLonger(c, all[pos..end], all[end..], j, at, was.inState, was.outState);
    assert all[pos..end] + all[end..] == all[pos..];
  }

  /** With everything consumed and nothing pending, all of the conversion has gone out. */
  lemma {:induction false} OwedEnd(c: Codec, all: Bytes, start: Output, sent: Bytes, now: Output)
    requires Owed(c, all, |all|, start, sent, now) && now.bytes == []
    ensures Encoding(c, all, |all|, start.inState, start.outState).Some?
    ensures sent == Due(c, all, |all|, start)
  {
    hide Encoding;
    EmptyEncoding(c, all[|all|..], now.inState, now.outState);
    assert sent + [] + [] == sent;
  }

  // ---- input that gets stuck ----

  /** Where the rest gets stuck when the input does, and what is due in front of that place. */
  lemma {:induction false} DivideStuck(c: Codec, s: Bytes, t: Bytes, k: nat, inState: Shift, outState: Shift, j: nat,
                                       pos: nat)
    returns (j': nat, pos': nat)
    requires Lawful(c) && Resumable(c) && 0 !in s && k <= |s| && Encoding(c, s, k, inState, outState).Some?
    requires Stuck(c, s + t, j, pos, inState, outState)
    ensures var o := Encoding(c, s, k, inState, outState).value;
            && Stuck(c, s[k..] + t, j', pos', o.inState, o.outState)
            && Encoding(c, s + t, j, inState, outState).value.bytes ==
               o.bytes + Encoding(c, s[k..] + t, j', o.inState, o.outState).value.bytes
    decreases k
  {
    hide Encoding, Stuck, Prefixed, Lawful, Resumable;
    StuckBelow(c, s + t, j, pos, inState, outState);
    var o := Encoding(c, s, k, inState, outState).value;
    if k == 0 {
      assert s[0..] == s;
      EmptyEncoding(c, s, inState, outState);
      j', pos' := j, pos;
      assert [] + Encoding(c, s + t, j, inState, outState).value.bytes ==
             Encoding(c, s + t, j, inState, outState).value.bytes;
    } else {
      Decided(c, s, t, inState);
      var (d, inState') := c.mbtowc(s, inState);
      if d.Char? {
        var (e, outState') := c.wctomb(d.wc, outState);
        CharSome(c, s, k, inState, outState);
        StuckBehind(c, s + t, j, pos, inState, outState);
        assert (s + t)[d.n..] == s[d.n..] + t;
        j', pos' := DivideStuck(c, s[d.n..], t, k - d.n, inState', outState', j - d.n, pos - d.n);
        assert s[d.n..][k - d.n..] == s[k..];
        var r := Encoding(c, s[d.n..], k - d.n, inState', outState').value;
        StuckBelow(c, s[k..] + t, j', pos', o.inState, o.outState);
        var rest := Encoding(c, s[k..] + t, j', o.inState, o.outState).value.bytes;
        assert e.value + (r.bytes + rest) == e.value + r.bytes + rest;
      } else {
        UnfinishedEnd(c, s, k, inState, outState);
        assert s[k..] + t == t;
        PartialNotStuck(c, s, j, pos, inState, outState);
        EmptyTail(s, t);
        j', pos' := UnfinishedStuck(c, s, t, inState, outState, j, pos);
        StuckBelow(c, t, j', pos', inState', outState);
        assert [] + Encoding(c, t, j', inState', outState).value.bytes ==
               Encoding(c, t, j', inState', outState).value.bytes;
      }
    }
  }

  /** The first character of a conversion, and the conversion behind it. */
  lemma {:induction false} CharSome(c: Codec, s: Bytes, k: nat, inState: Shift, outState: Shift)
    requires 0 < k <= |s| && c.mbtowc(s, inState).0.Char? && Encoding(c, s, k, inState, outState).Some?
    ensures var d := c.mbtowc(s, inState);
            var e := c.wctomb(d.0.wc, outState);
            && 0 < d.0.n <= k && e.0.Some?
            && var r := Encoding(c, s[d.0.n..], k - d.0.n, d.1, e.1);
            && r.Some?
            && Encoding(c, s, k, inState, outState).value ==
               Output(e.0.value + r.value.bytes, r.value.inState, r.value.outState)
  {
  }

  /** If the input starts with a character that converts, it gets stuck behind it. */
  lemma {:induction false} StuckBehind(c: Codec, s: Bytes, j: nat, pos: nat, inState: Shift, outState: Shift)
    requires Lawful(c) && s != [] && c.mbtowc(s, inState).0.Char? && Stuck(c, s, j, pos, inState, outState)
    requires c.wctomb(c.mbtowc(s, inState).0.wc, outState).0.Some?
    ensures var d := c.mbtowc(s, inState);
            var e := c.wctomb(d.0.wc, outState);
            && 0 < d.0.n <= j && d.0.n <= pos
            && Stuck(c, s[d.0.n..], j - d.0.n, pos - d.0.n, d.1, e.1)
            && Encoding(c, s, j, inState, outState).value.bytes ==
               e.0.value + Encoding(c, s[d.0.n..], j - d.0.n, d.1, e.1).value.bytes
  {
    assert s[0..] == s;
    assert j > 0;
    CharSome(c, s, j, inState, outState);
    var n := c.mbtowc(s, inState).0.n;
    assert s[n..][j - n..] == s[j..];
  }

  lemma {:induction false} PartialNotStuck(c: Codec, s: Bytes, j: nat, pos: nat, inState: Shift, outState: Shift)
    requires s != [] && c.mbtowc(s, inState).0.Partial?
    ensures !Stuck(c, s, j, pos, inState, outState)
  {
    assert s[0..] == s;
  }

  lemma {:induction false} EmptyTail(s: Bytes, t: Bytes)
    ensures t == [] ==> s + t == s
  {
  }

  /** The same for an unfinished character at the end of the first piece. */
  lemma {:induction false} UnfinishedStuck(c: Codec, s: Bytes, t: Bytes, inState: Shift, outState: Shift, j: nat,
                                           pos: nat)
    returns (j': nat, pos': nat)
    requires Lawful(c) && Resumable(c) && s != [] && t != [] && c.mbtowc(s, inState).0.Partial?
    requires Stuck(c, s + t, j, pos, inState, outState)
    ensures Stuck(c, t, j', pos', c.mbtowc(s, inState).1, outState)
    ensures Encoding(c, s + t, j, inState, outState).value.bytes ==
            Encoding(c, t, j', c.mbtowc(s, inState).1, outState).value.bytes
  {
    hide Resumable, Lawful, Encoding, Stuck;
    Resume(c, s, t, inState);
    StuckBelow(c, s + t, j, pos, inState, outState);
    var inState' := c.mbtowc(s, inState).1;
    var d := c.mbtowc(t, inState').0;
    if d.Char? && j > 0 {
      LawfulChar(c, t, inState');
      CharSome(c, s + t, j, inState, outState);
      StuckBehind(c, s + t, j, pos, inState, outState);
      assert (s + t)[|s| + d.n..] == t[d.n..];
      j', pos' := j - |s|, pos - |s|;
      StuckInFront(c, t, j', pos', inState', outState);
    } else {
      j', pos' := StuckAtOnce(c, s, t, inState, outState, j, pos);
    }
  }

  lemma {:induction false} LawfulChar(c: Codec, s: Bytes, st: Shift)
    requires Lawful(c) && s != [] && c.mbtowc(s, st).0.Char?
    ensures 0 < c.mbtowc(s, st).0.n <= |s|
  {
  }

  /** The unfinished character itself turns out to be the place. */
  lemma {:induction false} StuckAtOnce(c: Codec, s: Bytes, t: Bytes, inState: Shift, outState: Shift, j: nat, pos: nat)
    returns (j': nat, pos': nat)
    requires Lawful(c) && s != [] && t != [] && c.mbtowc(s, inState).0.Partial?
    requires Resumed(c.mbtowc(s + t, inState), |s|, c.mbtowc(t, c.mbtowc(s, inState).1))
    requires Stuck(c, s + t, j, pos, inState, outState) && (c.mbtowc(t, c.mbtowc(s, inState).1).0.Char? ==> j == 0)
    ensures Stuck(c, t, j', pos', c.mbtowc(s, inState).1, outState)
    ensures Encoding(c, s + t, j, inState, outState).value.bytes ==
            Encoding(c, t, j', c.mbtowc(s, inState).1, outState).value.bytes
  {
    assert (s + t)[0..] == s + t && t[0..] == t;
    var d := c.mbtowc(t, c.mbtowc(s, inState).1).0;
    j', pos' := 0, 0;
    if d.Nul? {
      pos' := |t|;
    } else if d.Char? {
      LawfulChar(c, t, c.mbtowc(s, inState).1);
      pos' := d.n;
    }
  }

  /** Input that starts with a character that converts gets stuck where the input behind it does. */
  lemma {:induction false} StuckInFront(c: Codec, s: Bytes, j: nat, pos: nat, inState: Shift, outState: Shift)
    requires s != [] && c.mbtowc(s, inState).0.Char? && 0 < c.mbtowc(s, inState).0.n <= |s|
    requires var d := c.mbtowc(s, inState);
             var e := c.wctomb(d.0.wc, outState);
             && e.0.Some? && d.0.n <= j && d.0.n <= pos
             && Stuck(c, s[d.0.n..], j - d.0.n, pos - d.0.n, d.1, e.1)
    ensures Stuck(c, s, j, pos, inState, outState)
    ensures var d := c.mbtowc(s, inState);
            var e := c.wctomb(d.0.wc, outState);
            Encoding(c, s, j, inState, outState).value.bytes ==
            e.0.value + Encoding(c, s[d.0.n..], j - d.0.n, d.1, e.1).value.bytes
  {
    var n := c.mbtowc(s, inState).0.n;
    assert s[n..][j - n..] == s[j..];
  }

  /** What has gone out, and what is due up to the place where the rest gets stuck, make up `due`. */
  ghost predicate OwedStuck(c: Codec, all: Bytes, pos: nat, sent: Bytes, now: Output, due: Bytes) {
    pos <= |all| && exists j, at :: StuckDue(c, all[pos..], j, at, sent, now, due)
  }

  ghost predicate StuckDue(c: Codec, rest: Bytes, j: nat, at: nat, sent: Bytes, now: Output, due: Bytes) {
    Stuck(c, rest, j, at, now.inState, now.outState) && due == sent + Due(c, rest, j, now)
  }

  lemma {:induction false} OwedStuckStart(c: Codec, all: Bytes, start: Output, j: nat, at: nat)
    requires Stuck(c, all, j, at, start.inState, start.outState)
    ensures OwedStuck(c, all, 0, [], start, Due(c, all, j, start))
  {
    assert all[0..] == all;
    assert [] + Due(c, all, j, start) == Due(c, all, j, start);
    assert StuckDue(c, all[0..], j, at, [], start, Due(c, all, j, start));
  }

  /** A call keeps that. */
  lemma {:induction false} OwedStuckStep(c: Codec, all: Bytes, end: nat, pos: nat, used: nat, sent: Bytes, was: Output,
                                         sent': Bytes, now: Output, due: Bytes)
    requires Lawful(c) && Resumable(c) && 0 !in all && pos <= end <= |all| && OwedStuck(c, all, pos, sent, was, due)
    requires Carried(c, all[pos..end], used, was, sent', now)
    ensures OwedStuck(c, all, pos + used, sent + sent', now, due)
  {
    hide Encoding, Stuck, Lawful, Resumable;
    var s, t := all[pos..end], all[end..];
    NoZero(all, pos, end);
    assert s + t == all[pos..];
    assert s[used..] + t == all[pos + used..];
    var j, at :| StuckDue(c, all[pos..], j, at, sent, was, due);
    StuckBelow(c, s + t, j, at, was.inState, was.outState);
    var j', at' := DivideStuck(c, s, t, used, was.inState, was.outState, j, at);
    StuckBelow(c, s[used..] + t, j', at', now.inState, now.outState);
    var o := Encoding(c, s, used, was.inState, was.outState).value.bytes;
    var rest := Encoding(c, s[used..] + t, j', now.inState, now.outState).value.bytes;
    assert was.bytes + (o + rest) == was.bytes + o + rest;
    assert sent' + now.bytes + rest == sent' + (now.bytes + rest);
    assert sent + (sent' + (now.bytes + rest)) == sent + sent' + (now.bytes + rest);
    assert StuckDue(c, all[pos + used..], j', at', sent + sent', now, due);
  }

  /** Nothing else goes out than what is due in front of that place. */
  lemma {:induction false} StuckPrefix(c: Codec, all: Bytes, pos: nat, start: Output, sent: Bytes, now: Output,
                                       j: nat, at: nat)
    requires Stuck(c, all, j, at, start.inState, start.outState)
    requires OwedStuck(c, all, pos, sent, now, Due(c, all, j, start))
    ensures forall k, p | Stuck(c, all, k, p, start.inState, start.outState) :: sent <= Due(c, all, k, start)
  {
    hide Encoding;
    var k, p :| StuckDue(c, all[pos..], k, p, sent, now, Due(c, all, j, start));
    assert sent <= Due(c, all, j, start);
    forall k, p | Stuck(c, all, k, p, start.inState, start.outState)
      ensures k == j
    {
      StuckUnique(c, all, k, p, j, at, start.inState, start.outState);
    }
  }

  function Joined(pieces: seq<Bytes>): Bytes {
    if pieces == [] then [] else Joined(pieces[..|pieces| - 1]) + pieces[|pieces| - 1]
  }

  lemma {:induction false} NothingJoined()
    ensures Joined([]) == []
  {
  }

  lemma {:induction false} JoinedOne(pieces: seq<Bytes>, i: nat)
    requires i < |pieces|
    ensures Joined(pieces[..i + 1]) == Joined(pieces[..i]) + pieces[i]
  {
    assert pieces[..i + 1][..i] == pieces[..i];
  }

  lemma {:induction false} JoinedPrefix(pieces: seq<Bytes>, i: nat)
    requires i <= |pieces|
    ensures Joined(pieces[..i]) <= Joined(pieces)
    decreases |pieces|
  {
    if i < |pieces| {
      assert pieces[..|pieces| - 1][..i] == pieces[..i];
      JoinedPrefix(pieces[..|pieces| - 1], i);
    } else {
      assert pieces[..i] == pieces;
    }
  }
}
