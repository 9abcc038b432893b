/** The string tokenizer on a buffer (strsep, with __strtok_r behind it), as splitting uses it. */
module Tokenizer {
  import opened Bits
  import opened Memory
  import opened Argz
  import opened ArgzSplit
  import opened Options

  /** The C string at position `r` of a buffer. */
  ghost function StringAt(b: Bytes, r: nat): Bytes
    requires r <= |b|
  {
    b[r..][..StrLen(b[r..])]
  }

  /** What a tokenizer pointer designates. */
  ghost function RestOf(b: Bytes, run: Option<nat>): Option<Bytes>
    requires run.Some? ==> run.value <= |b|
  {
    match run
    case None => None
    case Some(r) => Some(StringAt(b, r))
  }

  /** The buffer is a string whose terminator is its last byte; the pointer is within it. */
  ghost predicate Tokenizing(b: Bytes, run: Option<nat>) {
    && b != [] && b[|b| - 1] == 0
    && (run.Some? ==> run.value < |b| && Clean(b[run.value..|b| - 1]))
  }

  lemma {:induction false} StringIs(b: Bytes, r: nat)
    requires Tokenizing(b, Some(r))
    ensures StringAt(b, r) == b[r..|b| - 1]
  {
    hide StrLen;
    StrLenOf(b[r..|b| - 1], []);
    assert b[r..] == b[r..|b| - 1] + [0] + [];
  }

  /** The tokenizer stands at `token` of buffer `b`, and `rest` are the tokens from this one on. The token
      is now a string of its own; without a token nothing is left. */
  ghost predicate AtToken(b: Bytes, token: Option<nat>, run: Option<nat>, sep: u8, rest: seq<Bytes>) {
    && Tokenizing(b, run)
    && match token
       case None => rest == [] && run == None
       case Some(p) =>
         && p < |b| && StringAt(b, p) + [0] <= b[p..]
         && rest == [StringAt(b, p)] + SplitRest(RestOf(b, run), sep)
  }

  /** Position `e` ends the token that starts at `s`. */
  ghost predicate TokenEnd(b: Bytes, s: nat, e: nat, sep: u8) {
    s <= e < |b| && (b[e] == 0 || b[e] == sep) && sep !in b[s..e] && 0 !in b[s..e]
  }

  /** The scan of the tokenizer for the end of a token, behind its first character. */
  method ScanToken(buf: array<u8>, s: nat, sep: u8) returns (e: nat)
    requires Tokenizing(buf[..], Some(s)) && buf[s] != 0 && buf[s] != sep
    ensures TokenEnd(buf[..], s, e, sep)
  {
    e := s + 1;
    while buf[e] != 0 && (sep == 0 || buf[e] != sep)
      invariant s < e < buf.Length && sep !in buf[s..e] && 0 !in buf[s..e]
      decreases buf.Length - e
    {
      assert buf[s..e + 1] == buf[s..e] + [buf[e]];
      e := e + 1;
    }
    assert buf[s..e] == buf[..][s..e];
  }

  /** `strsep` with a one-character delimiter string (empty for the NUL separator): returns the next token
      and overwrites the separator that ends it. With no characters left it returns nothing. */
  method StrSep(buf: array<u8>, run: Option<nat>, sep: u8) returns (token: Option<nat>, run': Option<nat>)
    requires Tokenizing(buf[..], run)
    modifies buf
    ensures token.Some? ==> token == run && (run'.Some? ==> run.value < run'.value)
    ensures AtToken(buf[..], token, run', sep, SplitRest(old(RestOf(buf[..], run)), sep))
  {
    hide StrLen, Split, StringAt;
    if run.None? {
      return None, None;
    }
    var s := run.value;
    ghost var b := buf[..];
    assert b[s] == buf[s];
    if sep != 0 && buf[s] == sep {
      run' := Some(s + 1);
      buf[s] := 0;
      token := Some(s);
      TakeToken(b, buf[..], s, s, sep);
    } else if buf[s] == 0 {
      NoCharacters(b, s, sep);
      token, run' := None, None;
    } else {
      var e := ScanToken(buf, s, sep);
      token := Some(s);
      if buf[e] == 0 {
        run' := None;
        TakeLastToken(b, s, e, sep);
      } else {
        run' := Some(e + 1);
        buf[e] := 0;
        TakeToken(b, buf[..], s, e, sep);
      }
    }
  }

  lemma {:induction false} NoCharacters(b: Bytes, s: nat, sep: u8)
    requires Tokenizing(b, Some(s)) && b[s] == 0
    ensures AtToken(b, None, None, sep, SplitRest(RestOf(b, Some(s)), sep))
  {
    hide StringAt;
    StringIs(b, s);
    OnlyTerminator(b, s, s);
  }

  /** A NUL within the string is its terminator. */
  lemma {:induction false} OnlyTerminator(b: Bytes, s: nat, e: nat)
    requires s <= e < |b| && Clean(b[s..|b| - 1]) && b[e] == 0
    ensures e == |b| - 1
  {
    forall i | s <= i < |b| - 1
      ensures b[i] != 0
    {
      assert b[i] == b[s..|b| - 1][i - s];
    }
  }

  lemma {:induction false} Without(t: Bytes, n: nat, x: u8)
    requires n <= |t| && x !in t[..n]
    ensures forall i | 0 <= i < n :: t[i] != x
  {
    forall i | 0 <= i < n
      ensures t[i] != x
    {
      assert t[i] == t[..n][i];
    }
  }

  /** The tokens of `t`, given where the first separator is. */
  lemma {:induction false} FirstToken(t: Bytes, k: nat, sep: u8)
    requires k <= |t| && t != [] && sep !in t[..k] && (k < |t| ==> t[k] == sep)
    ensures Split(t, sep) == [t[..k]] + if k < |t| then Split(t[k + 1..], sep) else []
  {
    hide SepIndex, Split, Flatten;
    var j := SepIndex(t, sep);
    Without(t, k, sep);
    Without(t, j, sep);
    SplitStep(t, sep);
  }

  /** The last token ends at the terminator of the whole string. */
  lemma {:induction false} TakeLastToken(b: Bytes, s: nat, e: nat, sep: u8)
    requires Tokenizing(b, Some(s)) && s < e && TokenEnd(b, s, e, sep) && b[e] == 0
    ensures AtToken(b, Some(s), None, sep, SplitRest(RestOf(b, Some(s)), sep))
  {
    hide StrLen, Split, StringAt;
    var t := b[s..|b| - 1];
    StringIs(b, s);
    OnlyTerminator(b, s, e);
    assert t[..|t|] == t;
    FirstToken(t, |t|, sep);
    assert t + [0] == b[s..];
  }

  /** After a separator is overwritten, the token ends there and the pointer is behind it. */
  lemma {:induction false} TakeToken(b: Bytes, c: Bytes, s: nat, e: nat, sep: u8)
    requires Tokenizing(b, Some(s)) && TokenEnd(b, s, e, sep) && b[e] != 0 && c == b[e := 0]
    ensures AtToken(c, Some(s), Some(e + 1), sep, SplitRest(RestOf(b, Some(s)), sep))
  {
    hide StrLen, Split, StringAt;
    var t, k := b[s..|b| - 1], e - s;
    StringIs(b, s);
    assert t[..k] == b[s..e];
    FirstToken(t, k, sep);
    assert c[e + 1..|c| - 1] == t[k + 1..];
    CleanParts(t, k + 1);
    StringIs(c, e + 1);
    assert c[s..] == t[..k] + [0] + c[e + 1..];
    StringFirst(c, s, t[..k], c[e + 1..]);
  }

  lemma {:induction false} StringFirst(c: Bytes, s: nat, x: Bytes, rest: Bytes)
    requires s <= |c| && c[s..] == x + [0] + rest && Clean(x)
    ensures StringAt(c, s) == x
  {
    hide StrLen;
    StrLenOf(x, rest);
  }
}
