/** The Unicode class table, and the binary search in it. */
module CtypeTable {
  import opened Bits

  /** A set of class flags; `CLASS_none` is the empty one. */
  type Category = u16
  const NONE: Category := 0

  datatype Entry = Entry(code: int, cat: Category)

  const WEOF := -1

  // ---- what a table means ----

  ghost predicate Increasing(t: seq<Entry>) {
    forall i, j | 0 <= i < j < |t| :: t[i].code < t[j].code
  }

  /** No entry repeats the class of the one before it. */
  ghost predicate Compressed(t: seq<Entry>) {
    forall i | 0 < i < |t| :: Differ(t, i)
  }

  ghost predicate Differ(t: seq<Entry>, i: int)
    requires 0 < i < |t|
  {
    t[i].cat != t[i - 1].cat
  }

  /** The class of `x`: that of the last entry that does not lie above it. */
  function Decode(t: seq<Entry>, x: int): Category {
    if t == [] then NONE
    else if t[|t| - 1].code <= x then t[|t| - 1].cat
    else Decode(t[..|t| - 1], x)
  }

  lemma {:induction false} DecodeAppend(t: seq<Entry>, e: Entry, x: int)
    ensures Decode(t + [e], x) == if e.code <= x then e.cat else Decode(t, x)
  {
    assert (t + [e])[..|t|] == t;
  }

  /** The code lies from entry `k` on and below the next entry, if there is one. */
  ghost predicate Covers(t: seq<Entry>, k: int, ic: int) {
    0 <= k < |t| && t[k].code <= ic && (k + 1 < |t| ==> ic < t[k + 1].code)
  }

  /** The entry that covers a code decides its class. */
  lemma {:induction false} DecodeAt(t: seq<Entry>, x: int, k: nat)
    requires Increasing(t) && Covers(t, k, x)
    ensures Decode(t, x) == t[k].cat
    decreases |t|
  {
    if k + 1 < |t| {
      DecodeAt(t[..|t| - 1], x, k);
    }
  }

  /** There is only one such table for a classification: what decodes alike is alike. */
  lemma {:induction false} TableUnique(t: seq<Entry>, u: seq<Entry>, end: int)
    requires Increasing(t) && Compressed(t) && Increasing(u) && Compressed(u)
    requires t != [] && u != [] && t[0].code == u[0].code
    requires t[|t| - 1].code < end && u[|u| - 1].code < end
    requires forall x | t[0].code <= x < end :: Decode(t, x) == Decode(u, x)
    ensures t == u
    decreases |t|
  {
    LastNotAbove(t, u, end);
    LastNotAbove(u, t, end);
    var e := t[|t| - 1];
    assert Decode(t, e.code) == Decode(u, e.code);
    assert u[|u| - 1] == e;
    var t', u' := t[..|t| - 1], u[..|u| - 1];
    if e.code > t[0].code {
      assert |t| > 1 && |u| > 1;
      forall x | t[0].code <= x < e.code
        ensures Decode(t', x) == Decode(u', x)
      {
        assert Decode(t, x) == Decode(u, x);
      }
      Shorter(t);
      Shorter(u);
      TableUnique(t', u', e.code);
    } else {
      OnlyFirst(t);
      OnlyFirst(u);
    }
    assert t == t' + [e] && u == u' + [e];
  }

  lemma {:induction false} Shorter(t: seq<Entry>)
    requires Increasing(t) && Compressed(t) && t != []
    ensures Increasing(t[..|t| - 1]) && Compressed(t[..|t| - 1])
  {
    var t' := t[..|t| - 1];
    forall i | 0 < i < |t'|
      ensures Differ(t', i)
    {
      assert Differ(t, i);
    }
  }

  lemma {:induction false} OnlyFirst(t: seq<Entry>)
    requires Increasing(t) && t != [] && t[0].code == t[|t| - 1].code
    ensures |t| == 1
  {
  }

  /** A last entry above all of another table would repeat the class in front of it. */
  lemma {:induction false} LastNotAbove(t: seq<Entry>, u: seq<Entry>, end: int)
    requires Increasing(t) && Compressed(t) && t != [] && u != [] && t[0].code == u[0].code
    requires Increasing(u) && t[|t| - 1].code < end
    requires forall x | t[0].code <= x < end :: Decode(t, x) == Decode(u, x)
    ensures t[|t| - 1].code <= u[|u| - 1].code
  {
    var n, c := |t|, t[|t| - 1].code;
    if c > u[|u| - 1].code && n > 1 {
      assert Differ(t, n - 1);
      DecodeAt(t, c, n - 1);
      DecodeAt(t, c - 1, n - 2);
    }
  }

  // ---- the search ----

  /** What a search ends with: a class, or an upper index that stepped below 0, which as a `size_t` is huge and
      lets the next comparison read far outside the table. */
  datatype Search = Found(cat: Category) | Underflow

  /** For a code below the first entry the upper index goes from `high` to `high / 2 - 1`. Does it step below 0? */
  predicate StepsBelow(high: nat) {
    high == 1 || (high > 1 && StepsBelow(high / 2 - 1))
  }

  /** What the search answers: negative codes, and tables that do not start at 0, included. */
  function Answer(t: seq<Entry>, ic: int, inC: bool): Search
    requires t != []
  {
    if ic == WEOF || (ic >= 0x80 && inC) then Found(NONE)
    else if t[0].code <= ic then Found(Decode(t, ic))
    else if StepsBelow(|t| - 1) then Underflow
    else Found(t[0].cat)
  }

  /** `__ctype_table_lookup`. Outside of ASCII the C locale has no classes. */
  method Lookup(t: seq<Entry>, ic: int, inC: bool) returns (answer: Search)
    requires Increasing(t) && t != []
    ensures answer == Answer(t, ic, inC)
    ensures ic == WEOF || (inC && ic >= 0x80) ==> answer == Found(NONE)
    ensures forall k | Covers(t, k, ic) ::
              ic != WEOF && !(inC && ic >= 0x80) ==> answer == Found(t[k].cat)
  {
    var low: nat, high: nat := 0, |t| - 1;
    if ic == WEOF {
      return Found(NONE);
    }
    var c := ic;
    if c >= 0x80 && inC {
      return Found(NONE);
    }
    while low < high
      invariant low <= high < |t|
      invariant if t[0].code <= c then t[low].code <= c && (high + 1 < |t| ==> c < t[high + 1].code)
                else low == 0 && StepsBelow(high) == StepsBelow(|t| - 1)
    {
      var mid := (low + high) / 2;
      if c < t[mid].code {
        if mid == 0 {
          return Underflow;
        }
        high := mid - 1;
      } else if mid >= |t| || c >= t[mid + 1].code {
        low := mid + 1;
      } else {
        high := mid;
        break;
      }
    }
    if t[0].code <= c {
      DecodeAt(t, c, high);
    }
    answer := Found(t[high].cat);
    AnswerCovers(t, ic, inC);
  }

  /** In every locale the answer is the class of the entry that covers the code; WEOF has none, and in the C locale
      neither has anything outside of ASCII. */
  lemma {:induction false} AnswerCovers(t: seq<Entry>, ic: int, inC: bool)
    requires Increasing(t) && t != []
    ensures ic == WEOF || (inC && ic >= 0x80) ==> Answer(t, ic, inC) == Found(NONE)
    ensures forall k | Covers(t, k, ic) ::
              ic != WEOF && !(inC && ic >= 0x80) ==> Answer(t, ic, inC) == Found(t[k].cat)
  {
    forall k | Covers(t, k, ic)
      ensures Decode(t, ic) == t[k].cat && t[0].code <= ic
    {
      DecodeAt(t, ic, k);
    }
  }

  /** A code from the first entry's on is covered, and a code below it is not. */
  lemma {:induction false} CoveredExact(t: seq<Entry>, ic: int)
    requires Increasing(t) && t != []
    ensures t[0].code <= ic <==> exists k :: Covers(t, k, ic)
  {
    if t[0].code <= ic {
      var k := LastAtMost(t, ic, |t| - 1);
      assert Covers(t, k, ic);
    }
  }

  lemma {:induction false} LastAtMost(t: seq<Entry>, ic: int, n: nat) returns (k: nat)
    requires n < |t| && t[0].code <= ic && (n + 1 < |t| ==> ic < t[n + 1].code)
    ensures Covers(t, k, ic)
  {
    if t[n].code <= ic {
      k := n;
    } else {
      k := LastAtMost(t, ic, n - 1);
    }
  }

  /** Below the first entry the search answers with its class, if it answers at all. */
  lemma {:induction false} BelowFirst(t: seq<Entry>, ic: int, inC: bool)
    requires t != [] && ic < t[0].code && ic != WEOF && !(inC && ic >= 0x80)
    ensures Answer(t, ic, inC) == if UnderflowSize(|t|) then Underflow else Found(t[0].cat)
  {
    hide UnderflowSize;
    StepsBelowExact(|t| - 1);
  }

  /** A table of `n` entries lies between 3 * 2^k - 1 and 4 * 2^k - 2 entries. */
  predicate InBand(n: nat, k: nat) {
    3 * Pow2(k) - 1 <= n <= 4 * Pow2(k) - 2
  }

  /** The sizes of the tables in which a search for a code below the first entry underflows. */
  ghost predicate UnderflowSize(n: nat) {
    exists k: nat :: InBand(n, k)
  }

  /** The index sequence reaches 1 exactly from the last indices of such tables. */
  lemma {:induction false} StepsBelowExact(high: nat)
    ensures StepsBelow(high) <==> UnderflowSize(high + 1)
  {
    if StepsBelow(high) {
      var k := BandOf(high);
    }
    if UnderflowSize(high + 1) {
      var k: nat :| InBand(high + 1, k);
      BandSteps(high, k);
    }
  }

  lemma {:induction false} BandOf(high: nat) returns (k: nat)
    requires StepsBelow(high)
    ensures InBand(high + 1, k)
  {
    if high == 1 {
      k := 0;
      assert Pow2(0) == 1;
    } else {
      k := BandOf(high / 2 - 1);
      Pow2Succ(k);
      k := k + 1;
    }
  }

  lemma {:induction false} BandSteps(high: nat, k: nat)
    requires InBand(high + 1, k)
    ensures StepsBelow(high)
    decreases k
  {
    if k > 0 {
      Pow2Succ(k - 1);
      BandSteps(high / 2 - 1, k - 1);
    } else {
      assert Pow2(0) == 1;
    }
  }

  /** A search steps below 0 exactly when the code lies below the first entry and the table has such a size. */
  lemma {:induction false} UnderflowExact(t: seq<Entry>, ic: int, inC: bool)
    requires t != []
    ensures Answer(t, ic, inC) == Underflow <==>
            ic != WEOF && !(ic >= 0x80 && inC) && ic < t[0].code && UnderflowSize(|t|)
  {
    StepsBelowExact(|t| - 1);
  }

  /** With two entries, any code below the first one underflows. */
  lemma {:induction false} TwoEntriesUnderflow(inC: bool)
    ensures Answer([Entry(0, 1), Entry(1, NONE)], -5, inC) == Underflow
  {
  }

  /** In the tables that the repository has, of 1216 and 2221 entries, none does: the search answers with the
      class of the first entry. */
  lemma {:induction false} ShippedTablesDoNot(t: seq<Entry>, ic: int, inC: bool)
    requires (|t| == 1216 || |t| == 2221) && ic != WEOF && !(inC && ic >= 0x80) && ic < t[0].code
    ensures Answer(t, ic, inC) == Found(t[0].cat)
  {
    hide Pow2;
    UnderflowExact(t, ic, inC);
    if UnderflowSize(|t|) {
      var k: nat :| InBand(|t|, k);
      PowersNear1000();
      if k <= 8 {
        Pow2Mono(k, 8);
      } else if k >= 10 {
        Pow2Mono(10, k);
      }
    }
  }

  lemma {:induction false} PowersNear1000()
    ensures Pow2(8) == 256 && Pow2(9) == 512 && Pow2(10) == 1024
  {
    assert Pow2(4) == 16;
  }
}
