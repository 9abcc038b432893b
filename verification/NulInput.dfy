/** The NUL that ends the input: a conversion that goes on behind it, and when the converter agrees with it. */
module NulInput {
  import opened Memory
  import opened Options
  import opened Conversion

  /** A NUL is one zero byte, behind any bytes that only shift the state. */
  function NulLen(s: Bytes): (n: nat)
    requires s != []
    ensures 0 < n <= |s|
  {
    if s[0] == 0 || |s| == 1 then 1 else 1 + NulLen(s[1..])
  }

  /** The conversion in which NUL is a character like any other. */
  function Whole(c: Codec, s: Bytes, k: nat, inState: Shift, outState: Shift): Option<Output>
    requires k <= |s|
    decreases k
  {
    if k == 0 then Some(Output([], inState, outState))
    else
      var (d, inState') := c.mbtowc(s, inState);
      match d
      case Malformed => None
      case Partial => if k == |s| then Some(Output([], inState', outState)) else None
      case Nul =>
        var n := NulLen(s);
        var (e, outState') := c.wctomb(0, outState);
        if n <= k && e.Some? then Prefixed(e.value, Whole(c, s[n..], k - n, inState', outState')) else None
      case Char(n, wc) =>
        var (e, outState') := c.wctomb(wc, outState);
        if 0 < n <= k && e.Some? then Prefixed(e.value, Whole(c, s[n..], k - n, inState', outState')) else None
  }

  /** Does a NUL among the first `k` bytes have input behind it that is more than an unfinished character? */
  predicate Drops(c: Codec, s: Bytes, k: nat, inState: Shift)
    requires k <= |s|
    decreases k
  {
    k > 0 &&
    var (d, inState') := c.mbtowc(s, inState);
    match d
    case Malformed => false
    case Partial => false
    case Nul => NulLen(s) < k && !c.mbtowc(s[NulLen(s)..], inState').0.Partial?
    case Char(n, wc) => 0 < n <= k && Drops(c, s[n..], k - n, inState')
  }

  /** Every character that the target set has takes at least one byte. */
  ghost predicate Productive(c: Codec) {
    forall w, st :: c.wctomb(w, st).0.Some? ==> c.wctomb(w, st).0.value != []
  }

  /** Together with what was pending, the conversion that goes on behind NULs is what went out and is pending. */
  ghost predicate Complete(c: Codec, s: Bytes, pos: nat, start: Output, sent: Bytes, now: Output) {
    && pos <= |s|
    && var r := Whole(c, s, pos, start.inState, start.outState);
    r.Some? && start.bytes + r.value.bytes == sent + now.bytes
  }

  /** Only input that is empty or unfinished converts to nothing. */
  lemma {:induction false} WholeNothing(c: Codec, s: Bytes, inState: Shift, outState: Shift)
    requires Productive(c)
    ensures (var r := Whole(c, s, |s|, inState, outState); r.Some? && r.value.bytes == []) <==>
            s == [] || c.mbtowc(s, inState).0.Partial?
  {
  }

  /** The two conversions give the same bytes exactly when no NUL drops input. */
  lemma {:induction false} NulExact(c: Codec, s: Bytes, k: nat, inState: Shift, outState: Shift)
    requires Productive(c) && k <= |s| && Encoding(c, s, k, inState, outState).Some?
    ensures (var r := Whole(c, s, k, inState, outState);
             r.Some? && r.value.bytes == Encoding(c, s, k, inState, outState).value.bytes) <==>
            !Drops(c, s, k, inState)
    decreases k
  {
    if k > 0 {
      var (d, inState') := c.mbtowc(s, inState);
      match d
      case Partial =>
      case Nul =>
        var n := NulLen(s);
        var (e, outState') := c.wctomb(0, outState);
        WholeNothing(c, s[n..], inState', outState');
        PrefixCancels(e.value, Whole(c, s[n..], k - n, inState', outState'), []);
        assert e.value + [] == e.value;
      case Char(n, wc) =>
        var (e, outState') := c.wctomb(wc, outState);
        NulExact(c, s[n..], k - n, inState', outState');
        PrefixCancels(e.value, Whole(c, s[n..], k - n, inState', outState'),
                      Encoding(c, s[n..], k - n, inState', outState').value.bytes);
    }
  }

  lemma {:induction false} PrefixCancels(head: Bytes, o: Option<Output>, tail: Bytes)
    ensures (var r := Prefixed(head, o); r.Some? && r.value.bytes == head + tail) <==> o.Some? && o.value.bytes == tail
  {
    if o.Some? {
      assert (head + o.value.bytes)[|head|..] == o.value.bytes;
      assert (head + tail)[|head|..] == tail;
    }
  }

  /** What a call carries over is the complete conversion exactly when no NUL drops input. */
  lemma {:induction false} CompleteExact(c: Codec, s: Bytes, pos: nat, start: Output, sent: Bytes, now: Output)
    requires Productive(c) && Carried(c, s, pos, start, sent, now)
    ensures Complete(c, s, pos, start, sent, now) <==> !Drops(c, s, pos, start.inState)
  {
    hide Whole, Encoding, Drops;
    NulExact(c, s, pos, start.inState, start.outState);
    var r := Whole(c, s, pos, start.inState, start.outState);
    var e := Encoding(c, s, pos, start.inState, start.outState).value.bytes;
    if r.Some? {
      assert (start.bytes + r.value.bytes)[|start.bytes|..] == r.value.bytes;
      assert (start.bytes + e)[|start.bytes|..] == e;
    }
  }
}
