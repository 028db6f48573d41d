/** The C library string routines the web server relies on, stated over
    character buffers: a buffer holds a C string up to its first NUL. */
module CString {

  const NUL: char := '\0'

  function Min(a: int, b: int): int { if a <= b then a else b }

  /** A C string's content never holds its terminator. */
  predicate NoNul(s: string) { forall i :: 0 <= i < |s| ==> s[i] != NUL }

  /** `strnlen(buf, |buf|)`: the index of the first NUL, or `|buf|` when there is none. */
  function StrLen(buf: seq<char>): (n: nat)
    ensures n <= |buf|
    ensures NoNul(buf[..n])
    ensures n < |buf| ==> buf[n] == NUL
  {
    if buf == [] || buf[0] == NUL then 0
    else
      var m := StrLen(buf[1..]);
      assert buf[..m + 1] == [buf[0]] + buf[1..][..m];
      m + 1
  }

  /** The first NUL is unique: any index with no NUL before it and a NUL (or the end) at it is StrLen. */
  lemma {:induction false} StrLenUnique(buf: seq<char>, n: nat)
    requires n <= |buf| && NoNul(buf[..n]) && (n < |buf| ==> buf[n] == NUL)
    ensures StrLen(buf) == n
    decreases n
  {
    if n > 0 {
      assert buf[0] == buf[..n][0];
      assert buf[1..][..n - 1] == buf[..n][1..];
      StrLenUnique(buf[1..], n - 1);
    }
  }

  /** The C string a buffer holds. */
  function CStr(buf: seq<char>): (s: string)
    ensures NoNul(s) && s <= buf
  {
    buf[..StrLen(buf)]
  }

  /** A buffer holding no NUL reads back whole. */
  lemma CStrOfNoNul(s: string)
    requires NoNul(s)
    ensures CStr(s) == s
  {
    assert s[..|s|] == s;
    StrLenUnique(s, |s|);
  }

  /** Terminating a text with a NUL keeps the C string it holds, whatever follows. */
  lemma CStrOfTerminated(p: seq<char>, rest: seq<char>)
    ensures CStr(p + [NUL] + rest) == CStr(p)
  {
    var buf := p + [NUL] + rest;
    var n := StrLen(p);
    assert buf[..n] == p[..n];
    StrLenUnique(buf, n);
  }

  /** `strnlen(buf, maxlen)`. */
  function StrNLen(buf: seq<char>, maxlen: nat): (n: nat)
    ensures n <= maxlen && n <= |buf|
    ensures NoNul(buf[..n])
    ensures n < maxlen && n < |buf| ==> buf[n] == NUL
  {
    var m := StrLen(buf);
    if m <= maxlen then m else (assert buf[..maxlen] == buf[..m][..maxlen]; maxlen)
  }

  /** The longest prefix of `s` that has at most `n` characters. */
  function Prefix(s: string, n: nat): (p: string)
    ensures |p| == Min(|s|, n) && p <= s
  {
    s[..Min(|s|, n)]
  }

  /** Reading the C string of a cut buffer is cutting the C string it holds. */
  lemma PrefixOfCStr(buf: seq<char>, n: nat)
    ensures CStr(Prefix(buf, n)) == Prefix(CStr(buf), n)
  {
    var p := Prefix(buf, n);
    var m := Min(StrLen(buf), n);
    assert p[..m] == buf[..m] == CStr(buf)[..m];
    assert NoNul(p[..m]) by {
      forall i | 0 <= i < m ensures p[..m][i] != NUL { assert p[..m][i] == CStr(buf)[i]; }
    }
    StrLenUnique(p, m);
  }

  lemma PrefixOfPrefixedAppend(a: string, b: string, n: nat)
    ensures Prefix(Prefix(a, n) + b, n) == Prefix(a + b, n)
  {
    if |a| >= n {
      assert Prefix(a, n) + b == a[..n] + b;
      assert (a[..n] + b)[..n] == a[..n] == (a + b)[..n];
    } else {
      assert Prefix(a, n) == a;
    }
  }

  /** The 26 ASCII letters in alphabet order, in each case. */
  const UPPER_LETTERS: string := "ABCDEFGHIJKLMNOPQRSTUVWXYZ"
  const LOWER_LETTERS: string := "abcdefghijklmnopqrstuvwxyz"

  /** The letter at position `k` of the alphabet is `'A' + k` upper-case and `'a' + k` lower-case. */
  lemma LettersInOrder()
    ensures |UPPER_LETTERS| == |LOWER_LETTERS| == 26
    ensures forall k :: 0 <= k < 26 ==> UPPER_LETTERS[k] as int == 'A' as int + k
    ensures forall k :: 0 <= k < 26 ==> LOWER_LETTERS[k] as int == 'a' as int + k
  {
  }

  /** Two characters `strcasecmp` does not tell apart: equal, or one letter in its two cases. */
  predicate SameIgnoringCase(x: char, y: char)
  {
    x == y
    || exists k :: 0 <= k < |UPPER_LETTERS|
         && ((x == UPPER_LETTERS[k] && y == LOWER_LETTERS[k]) || (x == LOWER_LETTERS[k] && y == UPPER_LETTERS[k]))
  }

  /** ASCII `tolower`, as `strcasecmp` applies it in the C locale: an upper-case
      letter becomes the same letter in lower case, and every other character stays. */
  function ToLower(c: char): (d: char)
    ensures !('A' <= d <= 'Z')
    ensures 'A' <= c <= 'Z' ==> d == LOWER_LETTERS[c as int - 'A' as int] && c == UPPER_LETTERS[c as int - 'A' as int]
    ensures !('A' <= c <= 'Z') ==> d == c
  {
    LettersInOrder();
    if 'A' <= c <= 'Z' then (c as int + 32) as char else c
  }

  lemma FoldedAlikeAreSame(x: char, y: char)
    requires ToLower(x) == ToLower(y)
    ensures SameIgnoringCase(x, y)
  {
    if x != y && 'A' <= x <= 'Z' && !('A' <= y <= 'Z') {
      var k := x as int - 'A' as int;
      assert y == ToLower(x) == LOWER_LETTERS[k];
      assert x == UPPER_LETTERS[k];
    } else if x != y && 'A' <= y <= 'Z' && !('A' <= x <= 'Z') {
      var k := y as int - 'A' as int;
      assert x == ToLower(y) == LOWER_LETTERS[k];
      assert y == UPPER_LETTERS[k];
    }
  }

  lemma SameFoldAlike(x: char, y: char)
    requires SameIgnoringCase(x, y)
    ensures ToLower(x) == ToLower(y)
  {
    if x != y {
      LettersInOrder();
      var k :| 0 <= k < |UPPER_LETTERS|
         && ((x == UPPER_LETTERS[k] && y == LOWER_LETTERS[k]) || (x == LOWER_LETTERS[k] && y == UPPER_LETTERS[k]));
      assert ToLower(UPPER_LETTERS[k]) == LOWER_LETTERS[k];
      assert ToLower(LOWER_LETTERS[k]) == LOWER_LETTERS[k];
    }
  }

  /** Two characters fold to the same character exactly when they are the same up to case. */
  lemma ToLowerSame(x: char, y: char)
    ensures ToLower(x) == ToLower(y) <==> SameIgnoringCase(x, y)
  {
    if ToLower(x) == ToLower(y) { FoldedAlikeAreSame(x, y); }
    if SameIgnoringCase(x, y) { SameFoldAlike(x, y); }
  }

  /** A string folded character by character. */
  function Lower(s: string): (r: string)
    ensures |r| == |s|
    ensures forall i :: 0 <= i < |s| ==> r[i] == ToLower(s[i])
    ensures forall i :: 0 <= i < |r| ==> !('A' <= r[i] <= 'Z')
    ensures forall i {:trigger r[i]} :: 0 <= i < |s| && !('A' <= s[i] <= 'Z') ==> r[i] == s[i]
  {
    seq(|s|, i requires 0 <= i < |s| => ToLower(s[i]))
  }

  /** Two strings fold to the same string exactly when they have the same
      length and agree character by character up to case. */
  lemma LowerSame(a: string, b: string)
    ensures Lower(a) == Lower(b) <==> |a| == |b| && forall i :: 0 <= i < |a| ==> SameIgnoringCase(a[i], b[i])
  {
    if |a| == |b| {
      forall i | 0 <= i < |a| ensures Lower(a)[i] == Lower(b)[i] <==> SameIgnoringCase(a[i], b[i]) {
        ToLowerSame(a[i], b[i]);
      }
      if forall i :: 0 <= i < |a| ==> SameIgnoringCase(a[i], b[i]) {
        assert forall i :: 0 <= i < |a| ==> Lower(a)[i] == Lower(b)[i];
      }
    }
  }

  /** `strcasecmp(a, b) == 0` on two C strings: same length, and each pair of
      characters equal up to ASCII case. */
  predicate EqualIgnoringCase(a: string, b: string)
    ensures a == b ==> EqualIgnoringCase(a, b)
    ensures EqualIgnoringCase(a, b) <==> |a| == |b| && forall i :: 0 <= i < |a| ==> SameIgnoringCase(a[i], b[i])
  {
    LowerSame(a, b);
    Lower(a) == Lower(b)
  }

  /** Case folding does not change how a string compares. */
  lemma LowerIdempotent(s: string)
    ensures Lower(Lower(s)) == Lower(s)
  {
    forall i | 0 <= i < |s| ensures Lower(Lower(s))[i] == Lower(s)[i] {
      var c := s[i];
      if 'A' <= c <= 'Z' {
        assert !('A' <= ToLower(c) <= 'Z');
      }
    }
  }

  /** Writes as much of `src` as fits after position `at`, then a NUL: the copy
      shared by `strlcpy`, `strlcat` and `vsnprintf`. Returns the count copied. */
  method CopyTerminated(dst: array<char>, at: nat, src: string) returns (n: nat)
    requires at < dst.Length
    modifies dst
    ensures n == Min(|src|, dst.Length - 1 - at)
    ensures dst[..] == old(dst[..at]) + src[..n] + [NUL] + old(dst[..])[at + n + 1..]
  {
    n := 0;
    var limit := Min(|src|, dst.Length - 1 - at);
    while n < limit
      invariant 0 <= n <= limit
      invariant forall k :: 0 <= k < at ==> dst[k] == old(dst[k])
      invariant forall k :: 0 <= k < n ==> dst[at + k] == src[k]
      invariant forall k :: at + n <= k < dst.Length ==> dst[k] == old(dst[k])
    {
      dst[at + n] := src[n];
      n := n + 1;
    }
    dst[at + n] := NUL;
    ghost var expected := old(dst[..at]) + src[..n] + [NUL] + old(dst[..])[at + n + 1..];
    forall k | 0 <= k < dst.Length ensures dst[k] == expected[k] {
      if k < at {
      } else if k < at + n {
        assert expected[k] == src[k - at];
      } else if k == at + n {
      } else {
        assert expected[k] == old(dst[..])[k];
      }
    }
    assert dst[..] == expected;
  }

  /** `strlen` over a buffer. */
  method StrLenOf(buf: array<char>) returns (n: nat)
    ensures n == StrLen(buf[..])
  {
    n := 0;
    while n < buf.Length && buf[n] != NUL
      invariant n <= buf.Length
      invariant NoNul(buf[..n])
    {
      assert buf[..n + 1] == buf[..n] + [buf[n]];
      n := n + 1;
    }
    StrLenUnique(buf[..], n);
  }

  /** `strlcpy(dst, src, dst.Length)`: copies what fits and always terminates. */
  method StrLCpy(dst: array<char>, src: string) returns (ret: nat)
    requires dst.Length > 0 && NoNul(src)
    modifies dst
    ensures ret == |src|
    ensures dst[..] == Prefix(src, dst.Length - 1) + [NUL] + old(dst[..])[Min(|src|, dst.Length - 1) + 1..]
    ensures CStr(dst[..]) == Prefix(src, dst.Length - 1)
  {
    var n := CopyTerminated(dst, 0, src);
    CStrOfTerminated(src[..n], old(dst[..])[n + 1..]);
    CStrOfNoNul(src[..n]);
    ret := |src|;
  }

  /** `strlcat(dst, src, dst.Length)` on a buffer that already holds a
      terminated string: appends what fits and always terminates. */
  method StrLCat(dst: array<char>, src: string) returns (ret: nat)
    requires NoNul(src) && StrLen(dst[..]) < dst.Length
    modifies dst
    ensures ret == old(StrLen(dst[..])) + |src|
    ensures dst[..] == old(CStr(dst[..])) + Prefix(src, dst.Length - 1 - old(StrLen(dst[..]))) + [NUL]
      + old(dst[..])[old(StrLen(dst[..])) + Min(|src|, dst.Length - 1 - old(StrLen(dst[..]))) + 1..]
    ensures CStr(dst[..]) == Prefix(old(CStr(dst[..])) + src, dst.Length - 1)
  {
    var d := StrLenOf(dst);
    ghost var head := dst[..d];
    var n := CopyTerminated(dst, d, src);
    ghost var rest := old(dst[..])[d + n + 1..];
    assert dst[..] == head + src[..n] + [NUL] + rest;
    assert NoNul(head + src[..n]) by {
      forall i | 0 <= i < |head + src[..n]| ensures (head + src[..n])[i] != NUL {
        if i >= |head| { assert (head + src[..n])[i] == src[i - |head|]; }
      }
    }
    assert dst[..] == (head + src[..n]) + [NUL] + rest;
    CStrOfTerminated(head + src[..n], rest);
    CStrOfNoNul(head + src[..n]);
    assert (head + src)[..d + n] == head + src[..n];
    ret := d + |src|;
  }
}
