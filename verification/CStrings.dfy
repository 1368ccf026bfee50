/** The C string functions: strings in buffers, searched, copied and cut up in place. */
module CStrings {

  const NUL: char := '\0'

  /** There is a terminator at or after `p`. */
  predicate Terminated(b: seq<char>, p: nat) {
    exists q :: p <= q < |b| && b[q] == NUL
  }

  /** The string that starts at `p`. */
  function StringAt(b: seq<char>, p: nat): (s: string)
    ensures NUL !in s
    decreases |b| - p
  {
    if p >= |b| || b[p] == NUL then [] else [b[p]] + StringAt(b, p + 1)
  }

  lemma StringStep(b: seq<char>, p: nat)
    requires Terminated(b, p)
    ensures p < |b|
    ensures b[p] == NUL ==> StringAt(b, p) == []
    ensures b[p] != NUL ==> Terminated(b, p + 1) && StringAt(b, p) == [b[p]] + StringAt(b, p + 1)
  {
  }

  /** A string depends only on what stands from its start on. */
  lemma {:induction false} StringAtAgree(b: seq<char>, b': seq<char>, p: nat)
    requires |b| == |b'| && forall i | p <= i < |b| :: b[i] == b'[i]
    ensures StringAt(b, p) == StringAt(b', p) && (Terminated(b, p) ==> Terminated(b', p))
    decreases |b| - p
  {
    if p < |b| && b[p] != NUL {
      StringAtAgree(b, b', p + 1);
    }
  }

  /** A stretch without terminators before a terminator is the string there. */
  lemma {:induction false} StringIs(b: seq<char>, p: nat, s: string)
    requires p + |s| < |b| && b[p..p + |s|] == s && b[p + |s|] == NUL && NUL !in s
    ensures StringAt(b, p) == s && Terminated(b, p)
    decreases |s|
  {
    if s != [] {
      assert b[p] == s[0];
      assert b[p + 1..p + 1 + |s[1..]|] == s[1..];
      StringIs(b, p + 1, s[1..]);
    }
  }

  // ----- strlen, strcmp, strchr -----

  method StrLen(b: array<char>, p: nat) returns (len: nat)
    requires Terminated(b[..], p)
    ensures len == |StringAt(b[..], p)|
  {
    len := 0;
    StringStep(b[..], p);
    while b[p + len] != NUL
      invariant p + len < b.Length && Terminated(b[..], p + len)
      invariant len + |StringAt(b[..], p + len)| == |StringAt(b[..], p)|
      decreases b.Length - len
    {
      StringStep(b[..], p + len);
      StringStep(b[..], p + len + 1);
      len := len + 1;
    }
  }

  /** The strings agree before `k`, and `r` is the difference of what they hold there. */
  predicate FirstDifference(s1: string, s2: string, k: nat, r: int) {
    k <= |s1| && k <= |s2| && s1[..k] == s2[..k] && r == CharAt(s1, k) - CharAt(s2, k)
  }

  /** Zero exactly for equal strings; otherwise the difference at the first place they differ. */
  method StrCmp(s1: string, s2: string) returns (r: int)
    requires NUL !in s1 && NUL !in s2
    ensures r == 0 <==> s1 == s2
    ensures exists k :: FirstDifference(s1, s2, k, r)
  {
    var i := 0;
    while CharAt(s1, i) != 0 && CharAt(s1, i) == CharAt(s2, i)
      invariant i <= |s1| && i <= |s2| && s1[..i] == s2[..i]
      decreases |s1| - i
    {
      assert s1[..i + 1] == s1[..i] + [s1[i]] && s2[..i + 1] == s2[..i] + [s2[i]];
      i := i + 1;
    }
    r := CharAt(s1, i) - CharAt(s2, i);
    assert i < |s1| ==> s1[i] in s1;
    assert i < |s2| ==> s2[i] in s2;
    assert FirstDifference(s1, s2, i, r);
    assert s1[..|s1|] == s1 && s2[..|s2|] == s2;
  }

  /** What a string holds at an index, its terminator included. */
  function CharAt(s: string, i: nat): int {
    if i < |s| then s[i] as int else 0
  }

  /** The index of the first `c`, that of the terminator for NUL, or -1. */
  method StrChr(s: string, c: char) returns (r: int)
    requires NUL !in s
    ensures r == -1 <==> c != NUL && c !in s
    ensures r != -1 ==> 0 <= r <= |s| && c !in s[..r] && (r < |s| ==> s[r] == c) && (r == |s| <==> c == NUL)
  {
    var i := 0;
    while i < |s|
      invariant i <= |s| && c !in s[..i]
    {
      if s[i] == c {
        return i;
      }
      assert s[..i + 1] == s[..i] + [s[i]];
      i := i + 1;
    }
    assert s[..i] == s;
    if c == NUL {
      return i;
    }
    return -1;
  }

  // ----- memcpy and memmove -----

  /** Copies bytes into a buffer; the source is another buffer, so a value here. */
  method MemCpy<T>(b: array<T>, at: nat, src: seq<T>)
    requires at + |src| <= b.Length
    modifies b
    ensures b[..] == old(b[..at]) + src + old(b[at + |src|..])
  {
    ghost var was := b[..];
    for i := 0 to |src|
      invariant b[..] == was[..at] + src[..i] + was[at + i..]
    {
      b[at + i] := src[i];
    }
  }

  /** The buffer after `n` elements have been copied from `src` to `dest`. */
  function Moved<T>(s: seq<T>, dest: nat, src: nat, n: nat): (t: seq<T>)
    requires dest + n <= |s| && src + n <= |s|
  {
    s[..dest] + s[src..src + n] + s[dest + n..]
  }

  /** Copies inside one buffer, in whichever direction keeps overlapping sources intact. */
  method MemMove<T>(b: array<T>, dest: nat, src: nat, n: nat)
    requires dest + n <= b.Length && src + n <= b.Length
    modifies b
    ensures b[..] == Moved(old(b[..]), dest, src, n)
  {
    hide Moved;
    ghost var was := b[..];
    if dest < src || dest >= src + n {
      for i := 0 to n
        invariant forall k | dest <= k < dest + i :: b[k] == was[src + k - dest]
        invariant forall k | 0 <= k < b.Length && !(dest <= k < dest + i) :: b[k] == was[k]
      {
        assert b[src + i] == was[src + i];
        b[dest + i] := b[src + i];
      }
    } else {
      for i := n downto 0
        invariant forall k | dest + i <= k < dest + n :: b[k] == was[src + k - dest]
        invariant forall k | 0 <= k < b.Length && !(dest + i <= k < dest + n) :: b[k] == was[k]
      {
        assert b[src + i] == was[src + i];
        b[dest + i] := b[src + i];
      }
    }
    MovedAt(was, b[..], dest, src, n);
  }

  lemma MovedAt<T>(s: seq<T>, t: seq<T>, dest: nat, src: nat, n: nat)
    requires dest + n <= |s| && src + n <= |s| && |t| == |s|
    requires forall k | dest <= k < dest + n :: t[k] == s[src + k - dest]
    requires forall k | 0 <= k < |s| && !(dest <= k < dest + n) :: t[k] == s[k]
    ensures t == Moved(s, dest, src, n)
  {
    assert t[..dest] == s[..dest] && t[dest..dest + n] == s[src..src + n] && t[dest + n..] == s[dest + n..];
    assert t == t[..dest] + t[dest..dest + n] + t[dest + n..];
  }

  // ----- tokens -----

  /** The longest prefix free of delimiters. */
  function Token(s: string, delim: string): (t: string)
    ensures |t| <= |s| && s[..|t|] == t
    ensures forall c | c in t :: c !in delim
    ensures |t| < |s| ==> s[|t|] in delim
  {
    if s == [] || s[0] in delim then [] else [s[0]] + Token(s[1..], delim)
  }

  /** The maximal delimiter-free runs of a string, in order. */
  function Tokens(s: string, delim: string): (ts: seq<string>)
    ensures forall t | t in ts :: t != []
    decreases |s|
  {
    if s == [] then []
    else if s[0] in delim then Tokens(s[1..], delim)
    else [Token(s, delim)] + Tokens(s[|Token(s, delim)|..], delim)
  }

  /** A delimiter between two strings keeps their tokens apart. */
  lemma {:induction false} TokensJoin(s: string, d: char, n: string, delim: string)
    requires d in delim
    ensures Tokens(s + [d] + n, delim) == Tokens(s, delim) + Tokens(n, delim)
    decreases |s|
  {
    hide Token;
    var all := s + [d] + n;
    if s == [] {
      assert all[1..] == n;
    } else if s[0] in delim {
      assert all[1..] == s[1..] + [d] + n;
      TokensJoin(s[1..], d, n, delim);
    } else {
      var t := Token(s, delim);
      var rest := s[|t|..] + [d] + n;
      assert t != [];
      assert all == t + rest;
      assert rest[0] in delim;
      TakeToken(t, rest, delim);
      TokensJoin(s[|t|..], d, n, delim);
      assert Tokens(s, delim) == [t] + Tokens(s[|t|..], delim);
    }
  }

  /** A string is its own single token exactly when it is not empty and has no delimiter. */
  lemma OwnToken(n: string, delim: string)
    ensures Tokens(n, delim) == [n] <==> n != [] && forall c | c in n :: c !in delim
  {
    if n != [] && forall c | c in n :: c !in delim {
      TakeToken(n, [], delim);
      assert n + [] == n;
    }
    if Tokens(n, delim) == [n] {
      TokensClean(n, delim);
    }
  }

  lemma {:induction false} TokensClean(s: string, delim: string)
    ensures forall t, c | t in Tokens(s, delim) && c in t :: c !in delim
    decreases |s|
  {
    if s != [] {
      if s[0] in delim {
        TokensClean(s[1..], delim);
      } else {
        TokensClean(s[|Token(s, delim)|..], delim);
      }
    }
  }

  /** Whatever follows a run is scanned from its delimiter on. */
  lemma {:induction false} TokenUpTo(t: string, rest: string, delim: string)
    requires forall c | c in t :: c !in delim
    requires rest == [] || rest[0] in delim
    ensures Token(t + rest, delim) == t
    decreases |t|
  {
    if t != [] {
      assert (t + rest)[1..] == t[1..] + rest;
      TokenUpTo(t[1..], rest, delim);
    } else {
      assert t + rest == rest;
    }
  }

  /** What is left to cut up when `strtok` remembers `last`; -1 stands for NULL. */
  function RestOf(b: seq<char>, last: int): string {
    if last < 0 then [] else StringAt(b, last)
  }

  /** One call of `strtok` on the string `s` at `from`, with the buffer and the remembered place after
      it: the token is the first of `s`, the rest holds the others, and the only byte written ends
      the token; without tokens the answer is NULL and nothing is left. */
  predicate Cuts(b: seq<char>, b': seq<char>, s: string, from: int, token: int, last: int, delim: string) {
    var ts := Tokens(s, delim);
    if ts == [] then token == -1 && last == -1 && b' == b
    else
      && token >= 0 && token >= from && StringAt(b', token) == ts[0]
      && Tokens(RestOf(b', last), delim) == ts[1..]
      && token + |ts[0]| < |b| && b' == b[token + |ts[0]| := NUL]
  }

  /** `strtok`, with the place it remembers between calls. */
  class Tokenizer {
    var last: int

    ghost predicate Ready(b: array<char>)
      reads this, b
    {
      last >= 0 ==> Terminated(b[..], last)
    }

    /** Cuts a token off the string given, or else off what is left of the last one. */
    method StrTok(b: array<char>, str: int, delim: string) returns (token: int)
      requires NUL !in delim && if str >= 0 then Terminated(b[..], str) else Ready(b)
      modifies this, b
      ensures Ready(b) && token >= -1
      ensures var from := if str >= 0 then str else old(last);
        Cuts(old(b[..]), b[..], RestOf(old(b[..]), from), from, token, last, delim)
    {
      hide StringAt, Tokens, Token, Terminated, Cuts;
      ghost var c, from := b[..], if str >= 0 then str else last;
      NoTokens(delim);
      NothingCut(c, from, delim);
      if str >= 0 {
        last := str;
      } else if last < 0 {
        last := -1;
        return -1;
      }
      last := SkipDelimiters(b, last, delim);
      StringStep(c, last);
      if b[last] == NUL {
        last := -1;
        return -1;
      }
      token := last;
      last := SkipToken(b, last, delim);
      StringStep(c, last);
      if b[last] != NUL {
        b[last] := NUL;
        last := last + 1;
        assert b[..] == c[last - 1 := NUL];
        CutToken(c, from, token, last - 1, delim);
      } else {
        LastToken(c, from, token, last, delim);
        last := -1;
      }
    }
  }

  /** The first call on a string and the calls with NULL after it yield its tokens in order, and
      then NULL. */
  method Enumerate(t: Tokenizer, b: array<char>, delim: string) returns (ts: seq<string>)
    requires NUL !in delim && Terminated(b[..], 0)
    modifies t, b
    ensures ts == Tokens(StringAt(old(b[..]), 0), delim) && t.last == -1
  {
    hide StringAt, Tokens, Token, Terminated;
    ts := [];
    var token := t.StrTok(b, 0, delim);
    ghost var left := Tokens(StringAt(old(b[..]), 0), delim);
    while token >= 0
      invariant t.Ready(b) && token >= -1
      invariant ts + left == Tokens(StringAt(old(b[..]), 0), delim)
      invariant token == -1 <==> left == []
      invariant if token >= 0
        then StringAt(b[..], token) == left[0] && Tokens(RestOf(b[..], t.last), delim) == left[1..]
        else t.last == -1
      decreases |left|
    {
      ts := ts + [StringAt(b[..], token)];
      left := left[1..];
      token := t.StrTok(b, -1, delim);
    }
  }

  lemma NothingCut(b: seq<char>, from: int, delim: string)
    requires Tokens([], delim) == []
    ensures Tokens(RestOf(b, from), delim) == [] ==> Cuts(b, b, RestOf(b, from), from, -1, -1, delim)
    ensures from < 0 ==> Tokens(RestOf(b, from), delim) == []
  {
    hide StringAt, Tokens;
  }

  /** Skips leading delimiters. */
  method SkipDelimiters(b: array<char>, p: nat, delim: string) returns (q: nat)
    requires NUL !in delim && Terminated(b[..], p)
    ensures p <= q < b.Length && Terminated(b[..], q) && b[q] !in delim
    ensures Tokens(StringAt(b[..], q), delim) == Tokens(StringAt(b[..], p), delim)
    ensures b[q] == NUL ==> Tokens(StringAt(b[..], p), delim) == []
  {
    q := p;
    StringStep(b[..], p);
    while b[q] != NUL && b[q] in delim
      invariant p <= q < b.Length && Terminated(b[..], q)
      invariant Tokens(StringAt(b[..], q), delim) == Tokens(StringAt(b[..], p), delim)
      decreases b.Length - q
    {
      StringStep(b[..], q);
      StringStep(b[..], q + 1);
      SkipOne(StringAt(b[..], q), delim);
      assert StringAt(b[..], q)[1..] == StringAt(b[..], q + 1);
      q := q + 1;
    }
  }

  /** Finds the end of a token. */
  method SkipToken(b: array<char>, p: nat, delim: string) returns (q: nat)
    requires Terminated(b[..], p) && p < b.Length && b[p] != NUL && b[p] !in delim
    ensures p < q < b.Length && Terminated(b[..], q) && (b[q] == NUL || b[q] in delim)
    ensures NUL !in b[p..q] && StringAt(b[..], p) == b[p..q] + StringAt(b[..], q)
    ensures Tokens(StringAt(b[..], p), delim) == [b[p..q]] + Tokens(StringAt(b[..], q), delim)
  {
    hide StringAt, Tokens, Terminated;
    q := p;
    StringStep(b[..], p);
    ghost var u := StringAt(b[..], p);
    while b[q] != NUL && b[q] !in delim
      invariant p <= q < b.Length && Terminated(b[..], q)
      invariant u == b[p..q] + StringAt(b[..], q)
      invariant NUL !in b[p..q] && forall c | c in b[p..q] :: c !in delim
      invariant q == p ==> b[q] != NUL && b[q] !in delim
      decreases b.Length - q
    {
      StringStep(b[..], q);
      StringStep(b[..], q + 1);
      assert b[p..q + 1] == b[p..q] + [b[q]];
      q := q + 1;
    }
    StringStep(b[..], q);
    TakeToken(b[p..q], StringAt(b[..], q), delim);
  }

  lemma NoTokens(delim: string)
    ensures Tokens([], delim) == []
  {
  }

  lemma SkipOne(s: string, delim: string)
    requires s != [] && s[0] in delim
    ensures Tokens(s, delim) == Tokens(s[1..], delim)
  {
  }

  /** A run followed by a delimiter or the end is the first token. */
  lemma TakeToken(t: string, rest: string, delim: string)
    requires t != [] && forall c | c in t :: c !in delim
    requires rest == [] || rest[0] in delim
    ensures Tokens(t + rest, delim) == [t] + Tokens(rest, delim)
  {
    TokenUpTo(t, rest, delim);
    assert (t + rest)[0] == t[0];
    assert (t + rest)[|t|..] == rest;
  }

  /** Writing a terminator over the delimiter after a token splits the string in two. */
  lemma CutToken(b: seq<char>, from: int, p: nat, q: nat, delim: string)
    requires 0 <= from <= p <= q < |b| && NUL !in b[p..q] && Terminated(b, q) && b[q] in delim && b[q] != NUL
    requires Tokens(RestOf(b, from), delim) == [b[p..q]] + Tokens(StringAt(b, q), delim)
    ensures var b' := b[q := NUL];
      Cuts(b, b', RestOf(b, from), from, p, q + 1, delim) && Terminated(b', q + 1)
  {
    hide Tokens, StringAt, Terminated;
    CutString(b, p, q);
    StringStep(b, q);
    SkipOne(StringAt(b, q), delim);
    ghost var ts := Tokens(RestOf(b, from), delim);
    assert ts[0] == b[p..q] && ts[1..] == Tokens(StringAt(b, q), delim);
    assert StringAt(b, q)[1..] == StringAt(b, q + 1);
  }

  lemma CutString(b: seq<char>, p: nat, q: nat)
    requires p <= q < |b| && NUL !in b[p..q] && Terminated(b, q) && b[q] != NUL
    ensures var b' := b[q := NUL];
      && StringAt(b', p) == b[p..q] && StringAt(b', q + 1) == StringAt(b, q + 1) && Terminated(b', q + 1)
  {
    hide StringAt, Terminated;
    var b' := b[q := NUL];
    assert b'[p..q] == b[p..q];
    StringIs(b', p, b[p..q]);
    StringStep(b, q);
    StringAtAgree(b, b', q + 1);
  }

  lemma LastToken(b: seq<char>, from: int, p: nat, q: nat, delim: string)
    requires 0 <= from <= p <= q < |b| && NUL !in b[p..q] && b[q] == NUL
    requires Tokens(RestOf(b, from), delim) == [b[p..q]] + Tokens(StringAt(b, q), delim)
    requires Tokens([], delim) == []
    ensures Cuts(b, b, RestOf(b, from), from, p, -1, delim)
  {
    hide Tokens;
    StringIs(b, p, b[p..q]);
    assert b[q := NUL] == b;
    assert StringAt(b, q) == [];
  }
}
