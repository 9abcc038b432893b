/** The argz functions on buffers. A vector is the pair (argz, argz_len): one array that the functions
    reallocate to exactly the length they need. Allocation always succeeds. */
module ArgzVector {
  import opened Bits
  import opened Memory
  import opened Argz
  import opened ArgzSplit
  import opened ArgzEdit
  import opened Tokenizer
  import opened Options

  /** Character `k` of a C string, its terminator included. */
  function CharAt(str: Bytes, k: nat): u8
    requires k <= |str|
  {
    if k < |str| then str[k] else 0
  }

  /** What the functions return: 0, EINVAL or ENOMEM. */
  datatype Status = Success | Invalid | NoMemory

  /** `_buf_findstr`: finds the first occurrence and moves past it, or to the end of the buffer. The empty
      string is found at the first terminator, which is not passed. */
  method FindStr(str: Bytes, buf: array<u8>, off: nat, len: nat) returns (found: bool, off': nat, len': nat)
    requires Clean(str)
    requires off + len <= buf.Length && WellFormed(buf[off..off + len])
    ensures var s := buf[off..off + len];
            var i := FoundAt(s, str);
            if i < |s| then found && off' == off + i + |str| && len' == len - i - |str|
            else !found && off' == off + len && len' == 0
    ensures off' + len' == off + len && buf[off'..off' + len'] == AfterRound(buf[off..off + len], str)
  {
    hide FoundAt, Hit;
    ghost var s := buf[off..off + len];
    for i := 0 to len
      invariant forall k: nat | k < i :: !Hit(s, str, k)
    {
      if CharAt(str, 0) == buf[off + i] {
        var j := i;
        while CharAt(str, j - i) != 0 && CharAt(str, j - i) == buf[off + j]
          invariant i <= j < len && j - i <= |str|
          invariant str[..j - i] == s[i..j]
          decreases |str| - (j - i)
        {
          j := j + 1;
        }
        if CharAt(str, j - i) == 0 {
          assert j - i == |str|;
          assert s[i] == buf[off + i];
          FoundAtIs(s, str, i);
          assert buf[off + j..off + len] == s[i + |str|..];
          return true, off + j, len - j;
        }
        NoMatch(s, str, i, j);
      } else {
        NoMatch(s, str, i, i);
      }
    }
    FoundAtNone(s, str);
    return false, off + len, 0;
  }

  /** A mismatch at position j rules out an occurrence at i. */
  lemma {:induction false} NoMatch(s: Bytes, str: Bytes, i: nat, j: nat)
    requires i <= j < |s| && j - i <= |str| && CharAt(str, j - i) != s[j]
    requires str != [] ==> j - i < |str|
    ensures !Hit(s, str, i)
  {
    if str != [] {
      assert s[i..][j - i] == s[j];
    }
  }

  /** Where the search continues: what follows an occurrence is again well-formed. */
  lemma {:induction false} RestWellFormed(b: Bytes, i: nat)
    requires WellFormed(b) && i <= |b|
    ensures WellFormed(b[i..])
  {
  }

  class Vector {
    var data: array<u8>

    /** A vector of the given entries. */
    constructor (es: seq<Bytes>)
      ensures fresh(data) && data[..] == Flatten(es)
    {
      var b := Flatten(es);
      data := new u8[|b|](k requires 0 <= k < |b| => b[k]);
    }

    /** The sizing pass of `argz_replace`: how often the string occurs, and the new length. */
    method CountAndSize(str: Bytes, with: Bytes) returns (count: nat, newLen: nat)
      requires (str != [] || data.Length == 0) && Clean(str) && WellFormed(data[..])
      ensures str != [] ==> count == Occurrences(data[..], str) && newLen == |Replaced(data[..], str, with)|
      ensures str == [] ==> count == 0 && newLen == data.Length
    {
      hide First, MatchAt, Replaced, Occurrences, WellFormed, Counting;
      ghost var b := data[..];
      var off: nat, len: nat := 0, data.Length;
      var size: int := data.Length;
      count := 0;
      assert b[0..] == b;
      if str != [] {
        CountingStart(b, str, with);
      }
      while len != 0
        invariant off + len == data.Length && WellFormed(b[off..])
        invariant if str == [] then len == 0 && count == 0 && size == |b|
                  else Counting(b, str, with, off, count, size)
        decreases len
      {
        ghost var i := First(b[off..], str);
        if i < |b| - off {
          CountMatch(b, str, with, off, count, size, i);
        } else {
          CountRest(b, str, with, off, count, size);
        }
        assert data[off..off + len] == b[off..];
        var found;
        found, off, len := FindStr(str, data, off, len);
        if found {
          count := count + 1;
          size := size + |with| - |str|;
        }
      }
      if str != [] {
        CountingEnd(b, str, with, off, count, size);
      }
      newLen := size;
    }

    /** What is counted so far and what the rest of the buffer holds make up the whole. */
    static ghost predicate Counting(b: Bytes, str: Bytes, with: Bytes, off: nat, count: nat, size: int)
      requires str != []
    {
      && off <= |b|
      && count + Occurrences(b[off..], str) == Occurrences(b, str)
      && size - (|b| - off) + |Replaced(b[off..], str, with)| == |Replaced(b, str, with)|
    }

    static lemma {:induction false} CountingStart(b: Bytes, str: Bytes, with: Bytes)
      requires str != []
      ensures Counting(b, str, with, 0, 0, |b|)
    {
      hide Occurrences, Replaced;
      assert b[0..] == b;
    }

    static lemma {:induction false} CountMatch(b: Bytes, str: Bytes, with: Bytes, off: nat, count: nat, size: int,
                                               i: nat)
      requires str != [] && Counting(b, str, with, off, count, size)
      requires i == First(b[off..], str) < |b| - off && WellFormed(b[off..])
      ensures off + i + |str| <= |b| && WellFormed(b[off + i + |str|..])
      ensures Counting(b, str, with, off + i + |str|, count + 1, size + |with| - |str|)
    {
      hide First, MatchAt, Occurrences, Replaced, WellFormed;
      ReplacedAt(b[off..], str, with, i);
      RestWellFormed(b[off..], i + |str|);
      assert b[off + i + |str|..] == b[off..][i + |str|..];
    }

    static lemma {:induction false} CountRest(b: Bytes, str: Bytes, with: Bytes, off: nat, count: nat, size: int)
      requires str != [] && Counting(b, str, with, off, count, size) && First(b[off..], str) == |b| - off
      ensures Counting(b, str, with, |b|, count, size) && WellFormed(b[|b|..])
    {
      hide First, MatchAt, Occurrences, Replaced;
      ReplacedNone(b[off..], str, with);
      assert b[|b|..] == [];
      CountingNothing(str, with);
    }

    static lemma {:induction false} CountingNothing(str: Bytes, with: Bytes)
      requires str != []
      ensures Occurrences([], str) == 0 && Replaced([], str, with) == []
    {
    }

    static lemma {:induction false} CountingEnd(b: Bytes, str: Bytes, with: Bytes, off: nat, count: nat, size: int)
      requires str != [] && off == |b| && Counting(b, str, with, off, count, size)
      ensures count == Occurrences(b, str) && size == |Replaced(b, str, with)|
    {
      hide Occurrences, Replaced;
      assert b[off..] == [];
      CountingNothing(str, with);
    }

    /** Copies what stands before an occurrence, and the replacement after it. */
    method CopyMatch(result: array<u8>, at: nat, last: nat, n: nat, with: Bytes) returns (at': nat)
      requires result != data && at + n + |with| <= result.Length && last + n <= data.Length
      modifies result
      ensures at' == at + n + |with|
      ensures result[..][..at'] == old(result[..])[..at] + data[..][last..last + n] + with
    {
      hide Overwritten;
      ghost var x := data[..][last..last + n];
      OverwrittenPrefix(result[..], at, x);
      Copy(result, at, data, last, n);
      OverwrittenPrefix(result[..], at + n, with);
      Store(result, at + n, with);
      at' := at + n + |with|;
    }

    static lemma {:induction false} NextMatch(b: Bytes, str: Bytes, with: Bytes, off: nat, i: nat)
      requires str != [] && off <= |b| && i == First(b[off..], str) < |b| - off && WellFormed(b[off..])
      ensures off + i + |str| <= |b|
      ensures Replaced(b[off..], str, with) == b[off..off + i] + with + Replaced(b[off + i + |str|..], str, with)
      ensures WellFormed(b[off + i + |str|..])
    {
      hide First, MatchAt, Replaced, WellFormed;
      var rest := b[off..];
      ReplacedAt(rest, str, with, i);
      RestWellFormed(rest, i + |str|);
      assert b[off + i + |str|..] == rest[i + |str|..];
      assert b[off..off + i] == rest[..i];
    }

    static lemma {:induction false} TailDone(b: Bytes, str: Bytes, with: Bytes, last: nat)
      requires str != [] && last <= |b|
      ensures last == |b| ==> Replaced(b[last..], str, with) == b[last..]
    {
      hide First, MatchAt;
      if last == |b| {
        ReplacedNone(b[last..], str, with);
      }
    }

    /** The copying pass has put out `out`: the search continues at `off`, and `last` ends what is copied. */
    static ghost predicate Rebuilding(b: Bytes, str: Bytes, with: Bytes, off: nat, last: nat, out: Bytes) {
      && str != [] && last <= off <= |b| && WellFormed(b[off..])
      && Replaced(b, str, with) == out + Replaced(b[last..], str, with)
      && (off < |b| ==> off == last)
      && (off == |b| ==> Replaced(b[last..], str, with) == b[last..])
    }

    static lemma {:induction false} RebuildStart(b: Bytes, str: Bytes, with: Bytes)
      requires str != [] && WellFormed(b)
      ensures Rebuilding(b, str, with, 0, 0, [])
    {
      hide First, MatchAt, Replaced, WellFormed;
      assert b[0..] == b;
      TailDone(b, str, with, 0);
    }

    static lemma {:induction false} RebuildMatch(b: Bytes, str: Bytes, with: Bytes, off: nat, out: Bytes, i: nat)
      requires off < |b| && Rebuilding(b, str, with, off, off, out) && i == First(b[off..], str) < |b| - off
      ensures off + i + |str| <= |b|
      ensures Rebuilding(b, str, with, off + i + |str|, off + i + |str|, out + b[off..off + i] + with)
      ensures |out| + i + |with| <= |Replaced(b, str, with)|
    {
      hide First, MatchAt, Replaced, WellFormed;
      NextMatch(b, str, with, off, i);
      TailDone(b, str, with, off + i + |str|);
    }

    static lemma {:induction false} RebuildRest(b: Bytes, str: Bytes, with: Bytes, off: nat, out: Bytes)
      requires off < |b| && Rebuilding(b, str, with, off, off, out) && First(b[off..], str) == |b| - off
      ensures Rebuilding(b, str, with, |b|, off, out)
    {
      hide First, MatchAt, Replaced;
      ReplacedNone(b[off..], str, with);
    }

    /** Everything up to an occurrence, then the replacement, and so on to the end of the buffer. */
    method Rebuild(str: Bytes, with: Bytes, newLen: nat) returns (result: array<u8>)
      requires str != [] && Clean(str) && WellFormed(data[..])
      requires newLen == |Replaced(data[..], str, with)|
      ensures fresh(result) && result[..] == Replaced(data[..], str, with)
    {
      hide First, MatchAt, Replaced, WellFormed, Clean, Rebuilding, Overwritten;
      ghost var b := data[..];
      result := new u8[newLen](_ => 0);
      var off: nat, len: nat, last: nat, at: nat := 0, data.Length, 0, 0;
      RebuildStart(b, str, with);
      while len != 0
        invariant off + len == data.Length && at <= newLen && (len > 0 ==> off == last)
        invariant Rebuilding(b, str, with, off, last, result[..][..at])
        decreases len
      {
        RestOfBuffer(b, str, with, off, last, result[..][..at]);
        ghost var i := First(b[off..], str);
        if i < |b| - off {
          RebuildMatch(b, str, with, off, result[..][..at], i);
        } else {
          RebuildRest(b, str, with, off, result[..][..at]);
        }
        assert data[off..off + len] == b[off..];
        var found;
        found, off, len := FindStr(str, data, off, len);
        if found {
          at := CopyMatch(result, at, last, off - last - |str|, with);
          last := off;
        }
      }
      RebuildEnd(b, str, with, last, result[..][..at]);
      OverwrittenPrefix(result[..], at, b[last..|b|]);
      Copy(result, at, data, last, data.Length - last);
    }

    static lemma {:induction false} RestOfBuffer(b: Bytes, str: Bytes, with: Bytes, off: nat, last: nat, out: Bytes)
      requires Rebuilding(b, str, with, off, last, out)
      ensures off <= |b| && str != [] && WellFormed(b[off..])
    {
      hide Replaced, WellFormed;
    }

    static lemma {:induction false} RebuildEnd(b: Bytes, str: Bytes, with: Bytes, last: nat, out: Bytes)
      requires Rebuilding(b, str, with, |b|, last, out)
      ensures last <= |b| && Replaced(b, str, with) == out + b[last..|b|]
    {
      hide Replaced;
      assert b[last..|b|] == b[last..];
    }

    /** `argz_replace`: every entry is rewritten to its leftmost non-overlapping replacement. For the empty
        search string the counting loop ends only on an empty vector, which stays as it is. */
    method Replace(str: Bytes, with: Bytes) returns (count: nat)
      requires (str != [] || data.Length == 0) && Clean(str) && Clean(with) && WellFormed(data[..])
      modifies this
      ensures str != [] ==>
                && data[..] == Flatten(ReplacedEach(Entries(old(data[..])), str, with))
                && count == OccurrencesIn(Entries(old(data[..])), str)
                && WellFormed(data[..]) && Entries(data[..]) == ReplacedEach(Entries(old(data[..])), str, with)
      ensures if count == 0 then data == old(data) else fresh(data)
      ensures str == [] ==> count == 0
    {
      hide Replaced, Occurrences, Flatten, Entries, WellFormed, Clean, First, MatchAt;
      ghost var b := data[..];
      if str != [] {
        ReplacedVector(b, str, with);
      }
      var newLen;
      count, newLen := CountAndSize(str, with);
      if count != 0 {
        data := Rebuild(str, with, newLen);
      } else if str != [] {
        NothingReplaced(b, str, with);
      }
    }

    /** Replacing in a vector, seen on its entries. */
    static lemma {:induction false} ReplacedVector(b: Bytes, str: Bytes, with: Bytes)
      requires str != [] && Clean(str) && Clean(with) && WellFormed(b)
      ensures var es := ReplacedEach(Entries(b), str, with);
              && Replaced(b, str, with) == Flatten(es) && Occurrences(b, str) == OccurrencesIn(Entries(b), str)
              && WellFormed(Flatten(es)) && Entries(Flatten(es)) == es
    {
      hide Replaced, Occurrences, Flatten, Entries, WellFormed, Clean, First, MatchAt;
      FlattenEntries(b);
      ReplacedFlatten(Entries(b), str, with);
      ReplacedAllClean(Entries(b), str, with);
      EntriesFlatten(ReplacedEach(Entries(b), str, with));
    }

    lemma {:induction false} NothingReplaced(b: Bytes, str: Bytes, with: Bytes)
      requires str != [] && Occurrences(b, str) == 0
      ensures Replaced(b, str, with) == b
    {
      hide First, MatchAt;
    }

    // ---- splitting and joining ----

    /** `strdup`: a fresh copy of a string, terminator included. */
    static method Duplicate(s: Bytes) returns (copy: array<u8>)
      requires Clean(s)
      ensures fresh(copy) && Tokenizing(copy[..], Some(0)) && RestOf(copy[..], Some(0)) == Some(s)
    {
      hide StrLen;
      copy := new u8[|s| + 1](k requires 0 <= k <= |s| => CharAt(s, k));
      assert copy[..] == s + [0];
      assert copy[..][0..|s|] == s;
      StringIs(copy[..], 0);
    }

    /** The sizing pass of `argz_create_sep`: how many tokens there are, and the bytes they need. */
    static method SizeTokens(s: Bytes, sep: u8) returns (size: nat, count: nat)
      requires Clean(s)
      ensures size == |Flatten(Split(s, sep))| && count == |Split(s, sep)|
    {
      hide Flatten, Split, StringAt, Tokenizing, Clean, AtToken;
      var copy := Duplicate(s);
      ghost var rest := Split(s, sep);
      var token, running := StrSep(copy, Some(0), sep);
      size, count := 0, 0;
      while token.Some?
        invariant AtToken(copy[..], token, running, sep, rest)
        invariant size + |Flatten(rest)| == |Flatten(Split(s, sep))|
        invariant count + |rest| == |Split(s, sep)|
        decreases |rest|
      {
        TokenHead(copy[..], token.value, running, sep, rest);
        rest := rest[1..];
        size := size + StrLen(copy[token.value..]) + 1;
        count := count + 1;
        token, running := StrSep(copy, running, sep);
      }
      NoToken(copy[..], running, sep, rest);
    }

    /** The token the tokenizer stands at is the first of those left. */
    static lemma {:induction false} TokenHead(b: Bytes, p: nat, run: Option<nat>, sep: u8, rest: seq<Bytes>)
      requires AtToken(b, Some(p), run, sep, rest)
      ensures rest != [] && Tokenizing(b, run) && rest[1..] == SplitRest(RestOf(b, run), sep)
      ensures p < |b| && p + StrLen(b[p..]) + 1 <= |b|
      ensures b[p..p + StrLen(b[p..]) + 1] == rest[0] + [0]
      ensures Flatten(rest) == rest[0] + [0] + Flatten(rest[1..])
    {
      hide StrLen, Split;
      assert b[p..p + StrLen(b[p..]) + 1] == b[p..][..StrLen(b[p..]) + 1];
    }

    static lemma {:induction false} NoToken(b: Bytes, run: Option<nat>, sep: u8, rest: seq<Bytes>)
      requires AtToken(b, None, run, sep, rest)
      ensures rest == [] && Flatten(rest) == []
    {
    }

    /** The output so far and what is still to come make up the whole. */
    static ghost predicate Emitted(all: Bytes, out: Bytes, tail: Bytes) {
      all == out + tail
    }

    static lemma {:induction false} EmitStart(all: Bytes)
      ensures Emitted(all, [], all)
    {
    }

    static lemma {:induction false} EmitMore(all: Bytes, out: Bytes, x: Bytes, tail: Bytes)
      requires Emitted(all, out, x + tail)
      ensures Emitted(all, out + x, tail) && |out| + |x| <= |all|
    {
    }

    static lemma {:induction false} EmitEnd(all: Bytes, out: Bytes)
      requires Emitted(all, out, [])
      ensures all == out
    {
    }

    /** The copying pass fills exactly the bytes that the sizing pass counted. */
    static method CopyTokens(s: Bytes, sep: u8, size: nat, count: nat) returns (result: array<u8>)
      requires Clean(s) && size == |Flatten(Split(s, sep))| && count == |Split(s, sep)|
      ensures fresh(result) && result[..] == Flatten(Split(s, sep))
    {
      hide Flatten, Split, StringAt, Clean, AtToken, RestOf, Overwritten, Emitted;
      result := new u8[size](_ => 0);
      var copy := Duplicate(s);
      var running: Option<nat>, iter: nat := Some(0), 0;
      ghost var all, rest := Flatten(Split(s, sep)), Split(s, sep);
      EmitStart(all);
      for i := 0 to count
        invariant fresh(result) && fresh(copy) && result != copy && result.Length == size
        invariant Tokenizing(copy[..], running) && rest == SplitRest(RestOf(copy[..], running), sep)
        invariant |rest| == count - i && iter <= size && Emitted(all, result[..][..iter], Flatten(rest))
      {
        var token;
        token, running := StrSep(copy, running, sep);
        TokenIs(copy[..], token, running, sep, rest);
        var p := token.value;
        TokenHead(copy[..], p, running, sep, rest);
        var n := StrLen(copy[p..]) + 1;
        EmitMore(all, result[..][..iter], rest[0] + [0], Flatten(rest[1..]));
        OverwrittenPrefix(result[..], iter, rest[0] + [0]);
        Copy(result, iter, copy, p, n);
        iter := iter + n;
        rest := rest[1..];
      }
      FlattenNone();
      EmitEnd(all, result[..][..iter]);
    }

    static lemma {:induction false} TokenIs(b: Bytes, token: Option<nat>, run: Option<nat>, sep: u8, rest: seq<Bytes>)
      requires AtToken(b, token, run, sep, rest) && rest != []
      ensures token.Some?
    {
    }

    /** `argz_create_sep`: the vector of the tokens of a string. */
    method CreateSep(s: Bytes, sep: u8)
      requires Clean(s)
      modifies this
      ensures fresh(data) && data[..] == Flatten(Split(s, sep))
    {
      if s == [] {
        FlattenNone();
        data := new u8[0];
      } else {
        var size, count := SizeTokens(s, sep);
        data := CopyTokens(s, sep, size, count);
      }
    }

    /** `argz_stringify`: joins the entries in place. */
    method Stringify(sep: u8)
      modifies data
      ensures data[..] == Stringified(old(data[..]), sep)
      ensures forall i | 0 <= i < data.Length ::
                data[i] == if old(data[i]) == 0 && i < data.Length - 1 then sep else old(data[i])
    {
      if data.Length > 1 {
        for i := 0 to data.Length - 1
          invariant forall k | 0 <= k < i :: data[k] == Stringified(old(data[..]), sep)[k]
          invariant forall k | i <= k < data.Length :: data[k] == old(data[k])
        {
          if data[i] == 0 {
            data[i] := sep;
          }
        }
      }
    }

    /** Splitting a string into a vector and joining it again in place gives the string back exactly when it
        does not end with the separator; a separator at its end is lost. */
    method SplitThenJoin(s: Bytes, sep: u8)
      requires s != [] && Clean(s)
      modifies this
      ensures fresh(data)
      ensures data[..] == s + [0] <==> !EndsWithSep(s, sep)
      ensures EndsWithSep(s, sep) ==> data[..] == s[..|s| - 1] + [0]
    {
      hide Stringified, Split, Flatten;
      CreateSep(s, sep);
      Stringify(sep);
      RoundTrip(s, sep);
      JoinSplit(s, sep);
    }

    // ---- inserting and deleting ----

    /** `realloc`: as many of the old bytes as fit, then arbitrary ones. */
    method Resize(n: nat)
      modifies this
      ensures fresh(data) && data.Length == n
      ensures n <= old(data.Length) ==> data[..] == old(data[..])[..n]
      ensures n >= old(data.Length) ==> data[..][..old(data.Length)] == old(data[..])
    {
      var was := data;
      data := new u8[n](k requires 0 <= k < n reads was => if k < was.Length then was[k] else 0);
    }

    /** `argz_add`: a new last entry, if a string is given. */
    method Add(entry: Option<Bytes>)
      modifies this
      ensures entry.None? ==> data == old(data)
      ensures entry.Some? ==> fresh(data) && data[..] == old(data[..]) + entry.value + [0]
    {
      hide Overwritten;
      if entry.None? {
        return;
      }
      var str := entry.value;
      var last := data.Length;
      Resize(last + |str| + 1);
      OverwrittenPrefix(data[..], last, str + [0]);
      Store(data, last, str + [0]);
    }

    /** `argz_insert`: `before` is no position, or one relative to the start of the vector. */
    method Insert(before: Option<int>, entry: Bytes) returns (status: Status)
      requires Clean(entry)
      modifies this
      ensures status != NoMemory
      ensures status == Invalid <==> before.Some? && !(0 <= before.value < old(data.Length))
      ensures if status == Invalid then data == old(data) else fresh(data)
      ensures before.None? ==> data[..] == old(data[..]) + entry + [0]
      ensures status == Success && before.Some? ==> data[..] == Inserted(old(data[..]), before.value, entry)
    {
      hide EntryStart, Clean;
      if before.None? {
        Add(Some(entry));
        return Success;
      }
      if before.value < 0 || before.value >= data.Length {
        return Invalid;
      }
      var p := EntryStartOf(before.value);
      InsertAt(p, entry);
      return Success;
    }

    /** Makes room at `p` and stores a string there. */
    method InsertAt(p: nat, entry: Bytes)
      requires p <= data.Length
      modifies this
      ensures fresh(data) && data[..] == old(data[..])[..p] + entry + [0] + old(data[..])[p..]
    {
      hide Overwritten;
      var n, added := data.Length, |entry| + 1;
      ghost var b := data[..];
      Resize(n + added);
      RoomMade(b, data[..], p, entry + [0]);
      Copy(data, p + added, data, p, n - p);
      Store(data, p, entry + [0]);
    }

    static lemma {:induction false} RoomMade(b: Bytes, r: Bytes, p: nat, text: Bytes)
      requires p <= |b| && |r| == |b| + |text| && r[..|b|] == b
      ensures Overwritten(Overwritten(r, p + |text|, r[p..|b|]), p, text) == b[..p] + text + b[p..]
    {
      assert r[..p] == b[..p] && r[p..|b|] == b[p..];
    }

    static lemma {:induction false} GapClosed(b: Bytes, p: nat, n: nat)
      requires p + n <= |b|
      ensures Overwritten(b, p, b[p + n..|b|])[..|b| - n] == b[..p] + b[p + n..]
    {
    }

    /** The back-scan of `argz_insert`. */
    method EntryStartOf(before: nat) returns (p: nat)
      requires before < data.Length
      ensures p == EntryStart(data[..], before)
    {
      p := before;
      while p != 0 && data[p - 1] != 0
        invariant p <= before && EntryStart(data[..], p) == EntryStart(data[..], before)
      {
        p := p - 1;
      }
    }

    /** `argz_delete`: the string at `entry`, if one is given, goes away. The library's `realloc` to no bytes
        frees the vector and returns a null pointer, which the function takes for a failure: it reports one
        exactly when the deleted string filled the vector. */
    method Delete(entry: Option<nat>) returns (status: Status)
      requires WellFormed(data[..]) && (entry.Some? ==> entry.value < data.Length)
      modifies this, data
      ensures entry.None? ==> data == old(data) && data[..] == old(data[..])
      ensures entry.Some? ==> fresh(data) && data[..] == Deleted(old(data[..]), entry.value)
      ensures status == NoMemory <==>
              entry.Some? && entry.value == 0 && StrLen(old(data[..])) + 1 == old(data.Length)
      ensures status == NoMemory <==> entry.Some? && data.Length == 0
      ensures status != Invalid
    {
      hide StrLen, Overwritten, WellFormed, Deleted;
      if entry.Some? {
        var p := entry.value;
        DeletedIs(data[..], p);
        assert data[..][0..] == data[..];
        var n := StrLen(data[p..]) + 1;
        GapClosed(data[..], p, n);
        Copy(data, p, data, p + n, data.Length - p - n);
        Resize(data.Length - n);
        if data.Length == 0 {
          return NoMemory;
        }
      }
      status := Success;
    }

    static lemma {:induction false} DeletedIs(b: Bytes, p: nat)
      requires WellFormed(b) && p < |b|
      ensures p + StrLen(b[p..]) < |b| && Deleted(b, p) == b[..p] + b[p + StrLen(b[p..]) + 1..]
    {
      hide StrLen;
      assert b[|b| - 1] in b[p..];
    }

    /** Deleting the only entry of a vector leaves the empty vector and reports a failure. */
    method DeleteOnlyEntry(entry: Bytes) returns (status: Status)
      requires Clean(entry) && data[..] == entry + [0]
      modifies this, data
      ensures data[..] == [] && status == NoMemory
    {
      hide StrLen, Deleted;
      StrLenOf(entry, []);
      assert data[..] == entry + [0] + [];
      status := Delete(Some(0));
    }

    /** Inserting before any position of a vector puts the entry in front of the one that holds the position. */
    method InsertEntry(before: nat, entry: Bytes)
      requires Clean(entry) && WellFormed(data[..]) && before < data.Length
      modifies this
      ensures WellFormed(data[..])
      ensures var es := Entries(old(data[..]));
              && Flatten(es) == old(data[..])
              && var k := EntryOf(es, before);
              Entries(data[..]) == es[..k] + [entry] + es[k..]
    {
      hide EntryStart, EntryOf, Clean, Entries, Flatten, WellFormed, Inserted;
      ghost var es := Entries(data[..]);
      FlattenEntries(data[..]);
      var status := Insert(Some(before), entry);
      InsertedEntries(es, before, entry);
      EntriesFlatten(es[..EntryOf(es, before)] + [entry] + es[EntryOf(es, before)..]);
    }

    /** Deleting at the inserted entry restores the vector, bytes and length. */
    method InsertThenDelete(before: nat, entry: Bytes) returns (status: Status)
      requires Clean(entry) && WellFormed(data[..]) && before < data.Length
      modifies this
      ensures data[..] == old(data[..]) && status == Success
    {
      hide Deleted, Inserted, WellFormed, Clean, EntryStart;
      var p := EntryStartOf(before);
      DeleteUndoesInsert(data[..], before, entry);
      var inserted := Insert(Some(before), entry);
      status := Delete(Some(p));
    }
  }
}
