/** The Python string operations the sensor server calls: str.find,
    str.split, str.startswith/endswith and the whitespace stripping that
    int() and float() perform. Count, Join and Concat are not called by the
    server; they are the reference definitions its properties are stated with. */
module Text {

  datatype Option<+T> = None | Some(value: T)

  /** str.find(c, start): the first index at or after start holding c, or -1. */
  function Find(s: string, c: char, start: nat): (r: int)
    ensures r == -1 || (start <= r < |s| && s[r] == c)
    decreases |s| - start
  {
    if start >= |s| then -1
    else if s[start] == c then start
    else Find(s, c, start + 1)
  }

  /** No c stands between start and the index Find returns; with -1, none stands after start at all. */
  lemma {:induction false} FindIsFirst(s: string, c: char, start: nat)
    ensures forall k :: start <= k < |s| && (Find(s, c, start) < 0 || k < Find(s, c, start)) ==> s[k] != c
    decreases |s| - start
  {
    if start < |s| && s[start] != c {
      FindIsFirst(s, c, start + 1);
    }
  }

  /** No c stands between start and the index Find returns. */
  lemma FindGapFree(s: string, c: char, start: nat)
    requires Find(s, c, start) >= 0
    ensures c !in s[start..Find(s, c, start)]
  {
    FindIsFirst(s, c, start);
    var e := Find(s, c, start);
    assert forall k :: 0 <= k < e - start ==> s[start..e][k] == s[start + k];
  }

  /** Searching the first n characters finds what searching the whole finds before n, and nothing otherwise. */
  lemma FindInTake(s: string, c: char, k: nat, n: nat)
    requires n <= |s|
    ensures Find(s[..n], c, k) == (if 0 <= Find(s, c, k) < n then Find(s, c, k) else -1)
  {
    var i := Find(s, c, k);
    FindIsFirst(s, c, k);
    FindIsFirst(s[..n], c, k);
    if 0 <= i < n {
      assert s[..n][i] == c;
    } else {
      assert forall j :: k <= j < n ==> s[..n][j] == s[j];
    }
  }

  /** Searching past a c-free prefix d is searching the rest, shifted by |d|. */
  lemma FindAfterFreePrefix(d: string, z: string, c: char)
    requires c !in d
    ensures Find(d + z, c, 0) == (if Find(z, c, 0) < 0 then -1 else |d| + Find(z, c, 0))
  {
    var i := Find(z, c, 0);
    FindIsFirst(z, c, 0);
    FindIsFirst(d + z, c, 0);
    if i >= 0 {
      assert (d + z)[|d| + i] == c;
      assert forall k :: 0 <= k < |d| + i ==> (d + z)[k] != c;
    } else {
      assert forall k :: 0 <= k < |d + z| ==> (d + z)[k] != c;
    }
  }

  /** How often c occurs (str.count); a reference definition for the proofs. */
  function Count(s: string, c: char): nat
    decreases |s|
  {
    if s == [] then 0 else (if s[0] == c then 1 else 0) + Count(s[1..], c)
  }

  lemma {:induction false} CountAppend(a: string, b: string, c: char)
    ensures Count(a + b, c) == Count(a, c) + Count(b, c)
    decreases |a|
  {
    if a == [] {
      assert a + b == b;
    } else {
      assert (a + b)[1..] == a[1..] + b;
      CountAppend(a[1..], b, c);
    }
  }

  lemma {:induction false} CountAbsent(s: string, c: char)
    ensures Count(s, c) == 0 <==> c !in s
    decreases |s|
  {
    if s != [] {
      CountAbsent(s[1..], c);
      assert s == [s[0]] + s[1..];
    }
  }

  /** From start on, the text holds no c once Find reports none. */
  lemma FindNoneCount(s: string, c: char, start: nat)
    requires start <= |s| && Find(s, c, start) < 0
    ensures Count(s[start..], c) == 0
  {
    FindIsFirst(s, c, start);
    var t := s[start..];
    assert forall k :: 0 <= k < |t| ==> t[k] == s[start + k];
    CountAbsent(t, c);
  }

  /** Text in which Find reports no c holds none. */
  lemma FindNoneAbsent(s: string, c: char)
    requires Find(s, c, 0) < 0
    ensures c !in s
  {
    FindIsFirst(s, c, 0);
  }

  /** Text in which Find reports one c and none after it is c-free text, c, and c-free text. */
  lemma FindOnly(s: string, c: char)
    requires Find(s, c, 0) >= 0 && Find(s, c, Find(s, c, 0) + 1) < 0
    ensures var k := Find(s, c, 0);
      s == s[..k] + [c] + s[k + 1..] && c !in s[..k] && c !in s[k + 1..]
  {
    var k := Find(s, c, 0);
    FindIsFirst(s, c, 0);
    FindIsFirst(s, c, k + 1);
  }

  /** The c that Find reports is the first of those from start on: one, then those after it. */
  lemma FindCount(s: string, c: char, start: nat)
    requires Find(s, c, start) >= 0
    ensures Count(s[start..], c) == 1 + Count(s[Find(s, c, start) + 1..], c)
  {
    var e := Find(s, c, start);
    FindGapFree(s, c, start);
    assert s[start..] == s[start..e] + ([s[e]] + s[e + 1..]);
    CountAppend(s[start..e], [s[e]] + s[e + 1..], c);
    CountAppend([s[e]], s[e + 1..], c);
    CountAbsent(s[start..e], c);
  }

  /** str.split(sep) with an explicit separator: the pieces between separators, empty ones kept. */
  function Split(s: string, sep: char): (parts: seq<string>)
    ensures |parts| >= 1
    ensures forall i :: 0 <= i < |parts| ==> sep !in parts[i]
    decreases |s|
  {
    var k := Find(s, sep, 0);
    FindIsFirst(s, sep, 0);
    if k < 0 then [s] else [s[..k]] + Split(s[k + 1..], sep)
  }

  /** The parts with sep between them (sep.join); a reference definition for the proofs. */
  function Join(parts: seq<string>, sep: char): string
    decreases |parts|
  {
    if |parts| == 0 then ""
    else if |parts| == 1 then parts[0]
    else parts[0] + [sep] + Join(parts[1..], sep)
  }

  /** Splitting yields one more piece than there are separators. */
  lemma {:induction false} SplitCount(s: string, sep: char)
    ensures |Split(s, sep)| == Count(s, sep) + 1
    decreases |s|
  {
    var k := Find(s, sep, 0);
    FindIsFirst(s, sep, 0);
    if k < 0 {
      CountAbsent(s, sep);
    } else {
      assert s == s[..k] + ([s[k]] + s[k + 1..]);
      CountAppend(s[..k], [s[k]] + s[k + 1..], sep);
      CountAppend([s[k]], s[k + 1..], sep);
      CountAbsent(s[..k], sep);
      SplitCount(s[k + 1..], sep);
    }
  }

  /** Joining the pieces of a split gives the text back. */
  lemma {:induction false} JoinSplit(s: string, sep: char)
    ensures Join(Split(s, sep), sep) == s
    decreases |s|
  {
    var k := Find(s, sep, 0);
    if k >= 0 {
      JoinSplit(s[k + 1..], sep);
      assert s == s[..k] + [sep] + s[k + 1..];
    }
  }

  /** Splitting a join of separator-free pieces gives the pieces back. */
  lemma {:induction false} SplitJoin(parts: seq<string>, sep: char)
    requires |parts| >= 1
    requires forall i :: 0 <= i < |parts| ==> sep !in parts[i]
    ensures Split(Join(parts, sep), sep) == parts
    decreases |parts|
  {
    if |parts| > 1 {
      assert sep !in parts[0];
      assert forall i :: 0 <= i < |parts| - 1 ==> parts[1..][i] == parts[i + 1];
      SplitJoin(parts[1..], sep);
      SplitAfterFreeHead(parts[0], sep, Join(parts[1..], sep));
      assert parts == [parts[0]] + parts[1..];
    }
  }

  /** A head free of the separator, the separator and a rest split into the head followed by the pieces of the rest. */
  lemma SplitAfterFreeHead(head: string, sep: char, rest: string)
    requires sep !in head
    ensures Split(head + [sep] + rest, sep) == [head] + Split(rest, sep)
  {
    var s := head + [sep] + rest;
    assert s == head + ([sep] + rest);
    FindAfterFreePrefix(head, [sep] + rest, sep);
    assert s[..|head|] == head;
    assert s[|head| + 1..] == rest;
  }

  /** The characters int() and float() ignore around a number: the ASCII
      whitespace ' ', \t, \n, \v, \f, \r and every non-ASCII Unicode
      whitespace character. The ASCII separators \x1c-\x1f, although
      whitespace for str.isspace, are not skipped by the conversions. */
  predicate IsConversionSpace(c: char)
  {
    c == ' ' || '\t' <= c <= '\r' || c == '\U{85}' || c == '\U{A0}' || c == '\U{1680}'
    || '\U{2000}' <= c <= '\U{200A}' || c == '\U{2028}' || c == '\U{2029}'
    || c == '\U{202F}' || c == '\U{205F}' || c == '\U{3000}'
  }

  /** Drops leading conversion whitespace. */
  function TrimStart(s: string): string
    decreases |s|
  {
    if s != [] && IsConversionSpace(s[0]) then TrimStart(s[1..]) else s
  }

  /** Drops trailing conversion whitespace. */
  function TrimEnd(s: string): string
    decreases |s|
  {
    if s != [] && IsConversionSpace(s[|s| - 1]) then TrimEnd(s[..|s| - 1]) else s
  }

  /** The whitespace int() and float() skip around a number (IsConversionSpace), removed from both ends.
      It is not str.strip(), whose whitespace set also holds '\x1c' to '\x1f'. */
  function Strip(s: string): string
  {
    TrimEnd(TrimStart(s))
  }

  /** TrimStart keeps a suffix: what it drops is whitespace, and what it keeps does not start with whitespace. */
  lemma {:induction false} TrimStartKeepsSuffix(s: string)
    ensures IsSuffix(TrimStart(s), s)
    ensures forall k :: 0 <= k < |s| - |TrimStart(s)| ==> IsConversionSpace(s[k])
    ensures TrimStart(s) == [] || !IsConversionSpace(TrimStart(s)[0])
    decreases |s|
  {
    if s != [] && IsConversionSpace(s[0]) {
      TrimStartKeepsSuffix(s[1..]);
      var r := TrimStart(s);
      assert s[1..][|s| - 1 - |r|..] == s[|s| - |r|..];
      assert forall k :: 1 <= k < |s| - |r| ==> s[k] == s[1..][k - 1];
    } else {
      assert s[|s| - |s|..] == s;
    }
  }

  /** TrimEnd keeps a prefix: what it drops is whitespace, and what it keeps does not end with whitespace. */
  lemma {:induction false} TrimEndKeepsPrefix(s: string)
    ensures IsPrefix(TrimEnd(s), s)
    ensures forall k :: |TrimEnd(s)| <= k < |s| ==> IsConversionSpace(s[k])
    ensures TrimEnd(s) == [] || !IsConversionSpace(TrimEnd(s)[|TrimEnd(s)| - 1])
    decreases |s|
  {
    if s != [] && IsConversionSpace(s[|s| - 1]) {
      TrimEndKeepsPrefix(s[..|s| - 1]);
      var r := TrimEnd(s);
      assert s[..|s| - 1][..|r|] == s[..|r|];
      assert forall k :: |r| <= k < |s| - 1 ==> s[k] == s[..|s| - 1][k];
    }
  }

  /** Text that neither begins nor ends with whitespace is left alone by Strip. */
  lemma StripUnpadded(s: string)
    requires s != [] && !IsConversionSpace(s[0]) && !IsConversionSpace(s[|s| - 1])
    ensures Strip(s) == s
  {
    assert TrimStart(s) == s;
  }

  predicate IsPrefix(head: string, full: string)
  {
    |head| <= |full| && full[..|head|] == head
  }

  /** tail is the last |tail| characters of full. */
  predicate IsSuffix(tail: string, full: string)
  {
    |tail| <= |full| && full[|full| - |tail|..] == tail
  }

  /** A suffix of a suffix is a suffix. */
  lemma SuffixOfDrop(s: string, k: nat, tail: string)
    requires k <= |s| && IsSuffix(tail, s[k..])
    ensures IsSuffix(tail, s)
  {
    assert s[k..][|s| - k - |tail|..] == s[|s| - |tail|..];
  }

  lemma SuffixTransitive(a: string, b: string, c: string)
    requires IsSuffix(a, b) && IsSuffix(b, c)
    ensures IsSuffix(a, c)
  {
    SuffixOfDrop(c, |c| - |b|, a);
  }

  /** A suffix of a text, followed by more, is a suffix of the text followed by the same. */
  lemma SuffixAppend(a: string, b: string, s: string)
    requires IsSuffix(a, b)
    ensures IsSuffix(a + s, b + s)
  {
    assert (b + s)[|b + s| - |a + s|..] == b[|b| - |a|..] + s;
  }

  /** str.startswith(c) / str.endswith(c) for a one-character argument. */
  predicate StartsWith(s: string, c: char)
  {
    |s| > 0 && s[0] == c
  }

  predicate EndsWith(s: string, c: char)
  {
    |s| > 0 && s[|s| - 1] == c
  }

  /** The pieces in order with nothing between them (''.join); a reference definition for the proofs. */
  function Concat(pieces: seq<string>): string
  {
    if pieces == [] then "" else Concat(pieces[..|pieces| - 1]) + pieces[|pieces| - 1]
  }

  /** The first piece, then the rest joined. */
  lemma {:induction false} ConcatCons(head: string, tail: seq<string>)
    ensures Concat([head] + tail) == head + Concat(tail)
    decreases |tail|
  {
    if tail == [] {
      assert [head] + tail == [head];
      assert [head][..0] == [];
    } else {
      var whole := [head] + tail;
      var init, last := tail[..|tail| - 1], tail[|tail| - 1];
      assert whole[..|whole| - 1] == [head] + init && whole[|whole| - 1] == last;
      assert Concat(whole) == Concat([head] + init) + last;
      ConcatCons(head, init);
      assert Concat(tail) == Concat(init) + last;
    }
  }
}
