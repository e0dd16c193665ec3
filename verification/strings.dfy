/** The handful of Go `strings`, `strconv` and `path` operations the build service relies on,
    written as total functions on `seq<char>`. */
module Strings {

  /** Go's `unicode.IsSpace`, the predicate behind `strings.TrimSpace`. */
  predicate IsSpace(c: char)
  {
    || c == ' ' || c == '\t' || c == '\n' || c == '\r'
    || c == '\U{000B}' || c == '\U{000C}' || c == '\U{0085}' || c == '\U{00A0}'
    || c == '\U{1680}' || ('\U{2000}' <= c <= '\U{200A}')
    || c == '\U{2028}' || c == '\U{2029}' || c == '\U{202F}' || c == '\U{205F}' || c == '\U{3000}'
  }

  predicate IsDigit(c: char)
  {
    '0' <= c <= '9'
  }

  predicate AllDigits(s: string)
  {
    forall k :: 0 <= k < |s| ==> IsDigit(s[k])
  }

  /** `strings.Index` for a single character: the first position of `c`, or -1. */
  function IndexOf(s: string, c: char): (i: int)
    ensures -1 <= i < |s|
    ensures i < 0 <==> c !in s
    ensures 0 <= i ==> s[i] == c && (forall k :: 0 <= k < i ==> s[k] != c)
  {
    IndexFrom(s, c, 0)
  }

  /** The first position at or after `from` holding `c`, or -1. */
  function IndexFrom(s: string, c: char, from: nat): (i: int)
    requires from <= |s|
    ensures -1 <= i < |s|
    ensures i < 0 <==> (forall k :: from <= k < |s| ==> s[k] != c)
    ensures 0 <= i ==> from <= i && s[i] == c && (forall k :: from <= k < i ==> s[k] != c)
    decreases |s| - from
  {
    if from == |s| then -1
    else if s[from] == c then from
    else IndexFrom(s, c, from + 1)
  }

  /** `strings.LastIndex` for a single character: the last position of `c`, or -1. */
  function LastIndexOf(s: string, c: char): (i: int)
    ensures -1 <= i < |s|
    ensures i < 0 <==> c !in s
    ensures 0 <= i ==> s[i] == c && (forall k :: i < k < |s| ==> s[k] != c)
  {
    LastIndexBelow(s, c, |s|)
  }

  /** The last position before `n` holding `c`, or -1. */
  function LastIndexBelow(s: string, c: char, n: nat): (i: int)
    requires n <= |s|
    ensures -1 <= i < n
    ensures i < 0 <==> (forall k :: 0 <= k < n ==> s[k] != c)
    ensures 0 <= i ==> s[i] == c && (forall k :: i < k < n ==> s[k] != c)
    decreases n
  {
    if n == 0 then -1
    else if s[n - 1] == c then n - 1
    else LastIndexBelow(s, c, n - 1)
  }

  /** `strings.Split(s, string(c))`: always at least one part, and `Split("", c) == [""]`. */
  function Split(s: string, c: char): (parts: seq<string>)
    ensures 1 <= |parts|
    ensures forall k :: 0 <= k < |parts| ==> c !in parts[k]
    decreases |s|
  {
    var i := IndexOf(s, c);
    if i < 0 then [s]
    else
      var head, rest := s[..i], Split(s[i + 1..], c);
      assert c !in head;
      var parts := [head] + rest;
      assert forall k :: 0 <= k < |parts| ==> c !in parts[k] by {
        forall k | 0 <= k < |parts| ensures c !in parts[k] {
          if k > 0 {
            assert parts[k] == rest[k - 1];
          }
        }
      }
      parts
  }

  /** `strings.Join(parts, string(c))`. */
  function JoinWith(parts: seq<string>, c: char): string
  {
    if |parts| == 0 then ""
    else if |parts| == 1 then parts[0]
    else parts[0] + [c] + JoinWith(parts[1..], c)
  }

  /** `strings.Join(parts, "")`. */
  function Concat(parts: seq<string>): string
  {
    if |parts| == 0 then "" else parts[0] + Concat(parts[1..])
  }

  /** `s` with every occurrence of `c` deleted. */
  function Without(s: string, c: char): (r: string)
    ensures c !in r
    ensures |r| <= |s|
  {
    if |s| == 0 then ""
    else if s[0] == c then Without(s[1..], c)
    else [s[0]] + Without(s[1..], c)
  }

  /** Joining the parts of a split with the separator gives the input back. */
  lemma {:induction false} JoinSplit(s: string, c: char)
    ensures JoinWith(Split(s, c), c) == s
    decreases |s|
  {
    var i := IndexOf(s, c);
    if i >= 0 {
      var head, tail := s[..i], s[i + 1..];
      JoinSplit(tail, c);
      SplitAt(s, c, i);
      JoinCons(head, Split(tail, c), c);
    } else {
      assert Split(s, c) == [s];
    }
  }

  /** Splitting at the first separator. */
  lemma SplitAt(s: string, c: char, i: int)
    requires i == IndexOf(s, c) && 0 <= i
    ensures Split(s, c) == [s[..i]] + Split(s[i + 1..], c)
    ensures s == s[..i] + [c] + s[i + 1..]
  {
  }

  lemma SplitFirstPart(s: string, c: char)
    ensures Split(s, c)[0] == if IndexOf(s, c) < 0 then s else s[..IndexOf(s, c)]
  {
  }

  /** `s[k]` is the last occurrence of `c`. */
  lemma LastIndexOfAt(s: string, c: char, k: int)
    requires 0 <= k < |s| && s[k] == c && c !in s[k + 1..]
    ensures LastIndexOf(s, c) == k
  {
    assert s[k] in s;
  }

  /** The last occurrence of `c` after an occurrence at `i`, counted in the whole string. */
  lemma LastIndexOfSuffix(s: string, c: char, i: int)
    requires 0 <= i < |s| && s[i] == c
    ensures LastIndexOf(s, c) == i + 1 + LastIndexOf(s[i + 1..], c)
  {
    var rest := s[i + 1..];
    var j := LastIndexOf(rest, c);
    if j < 0 {
      LastIndexOfAt(s, c, i);
    } else {
      assert s[i + 1 + j] == rest[j];
      assert s[i + 2 + j..] == rest[j + 1..];
      LastIndexOfAt(s, c, i + 1 + j);
    }
  }

  /** The last part of a split is what follows the last separator. */
  lemma {:induction false} SplitLastPart(s: string, c: char)
    ensures Last(Split(s, c)) == AfterLast(s, c)
    decreases |s|
  {
    var i := IndexOf(s, c);
    if i >= 0 {
      var rest := s[i + 1..];
      SplitLastStep(s, c, i);
      SplitLastPart(rest, c);
      AfterLastSuffix(s, c, i);
    } else {
      assert Split(s, c) == [s];
      assert LastIndexOf(s, c) == -1;
      assert s[0..] == s;
    }
  }

  /** Past the first separator, the split's last part is that of the rest. */
  lemma SplitLastStep(s: string, c: char, i: int)
    requires i == IndexOf(s, c) && 0 <= i
    ensures Last(Split(s, c)) == Last(Split(s[i + 1..], c))
  {
    SplitAt(s, c, i);
    LastOfCons(s[..i], Split(s[i + 1..], c));
  }

  /** The last element of a non-empty sequence. */
  function Last<T>(xs: seq<T>): T
    requires |xs| > 0
  {
    xs[|xs| - 1]
  }

  lemma LastOfCons<T>(head: T, tail: seq<T>)
    requires |tail| > 0
    ensures Last([head] + tail) == Last(tail)
  {
  }

  /** What follows the last separator is the same whether counted in `s` or past its
      separator at `i`. */
  lemma AfterLastSuffix(s: string, c: char, i: int)
    requires 0 <= i < |s| && s[i] == c
    ensures AfterLast(s, c) == AfterLast(s[i + 1..], c)
  {
    var rest := s[i + 1..];
    var j := LastIndexOf(rest, c);
    calc {
      AfterLast(s, c);
      s[LastIndexOf(s, c) + 1..];
      { LastIndexOfSuffix(s, c, i); }
      s[(i + 1) + (j + 1)..];
      { DropDrop(s, i + 1, j + 1); }
      rest[j + 1..];
      AfterLast(rest, c);
    }
  }

  /** What follows the last `c` of `s` (all of `s` when there is none). */
  function AfterLast(s: string, c: char): string
  {
    s[LastIndexOf(s, c) + 1..]
  }

  /** What follows a separator that is the last one. */
  lemma AfterLastSeparator(dir: string, name: string, c: char)
    requires c !in name
    ensures AfterLast(dir + [c] + name, c) == name
  {
    var s := dir + [c] + name;
    assert s[|dir|] == c;
    assert s[|dir| + 1..] == name;
    LastIndexOfAt(s, c, |dir|);
  }

  lemma DropDrop<T>(s: seq<T>, i: nat, j: nat)
    requires i + j <= |s|
    ensures s[i..][j..] == s[i + j..]
  {
  }

  lemma JoinCons(head: string, rest: seq<string>, c: char)
    requires |rest| >= 1
    ensures JoinWith([head] + rest, c) == head + [c] + JoinWith(rest, c)
  {
    assert ([head] + rest)[1..] == rest;
  }

  /** Splitting a join of separator-free parts gives the parts back. */
  lemma {:induction false} SplitJoin(parts: seq<string>, c: char)
    requires 1 <= |parts|
    requires forall k :: 0 <= k < |parts| ==> c !in parts[k]
    ensures Split(JoinWith(parts, c), c) == parts
    decreases |parts|
  {
    if |parts| > 1 {
      var p := parts[0];
      var rest := JoinWith(parts[1..], c);
      var s := p + [c] + rest;
      assert JoinWith(parts, c) == s;
      var i := IndexOf(s, c);
      assert s[|p|] == c;
      assert s[..|p|] == p;
      assert i == |p|;
      assert s[i + 1..] == rest;
      SplitJoin(parts[1..], c);
      assert parts == [p] + parts[1..];
    }
  }

  /** Concatenating the split parts is the input with every separator deleted. */
  lemma {:induction false} ConcatSplit(s: string, c: char)
    ensures Concat(Split(s, c)) == Without(s, c)
    decreases |s|
  {
    var i := IndexOf(s, c);
    if i < 0 {
      WithoutAbsent(s, c);
    } else {
      ConcatSplit(s[i + 1..], c);
      WithoutAbsent(s[..i], c);
      WithoutAppend(s[..i], [c] + s[i + 1..], c);
      assert s == s[..i] + ([c] + s[i + 1..]);
      assert Without([c] + s[i + 1..], c) == Without(s[i + 1..], c);
    }
  }

  lemma {:induction false} WithoutAbsent(s: string, c: char)
    requires c !in s
    ensures Without(s, c) == s
    decreases |s|
  {
    if |s| > 0 {
      assert s[0] != c;
      WithoutAbsent(s[1..], c);
      assert s == [s[0]] + s[1..];
    }
  }

  lemma {:induction false} WithoutAppend(a: string, b: string, c: char)
    ensures Without(a + b, c) == Without(a, c) + Without(b, c)
    decreases |a|
  {
    if |a| > 0 {
      assert (a + b)[1..] == a[1..] + b;
      WithoutAppend(a[1..], b, c);
    } else {
      assert a + b == b;
    }
  }

  /** Number of leading white-space characters. */
  function LeadingSpaces(s: string): (n: nat)
    ensures n <= |s|
    ensures forall k :: 0 <= k < n ==> IsSpace(s[k])
    ensures n < |s| ==> !IsSpace(s[n])
  {
    if |s| == 0 || !IsSpace(s[0]) then 0 else 1 + LeadingSpaces(s[1..])
  }

  /** Number of trailing white-space characters. */
  function TrailingSpaces(s: string): (n: nat)
    ensures n <= |s|
    ensures forall k :: |s| - n <= k < |s| ==> IsSpace(s[k])
    ensures n < |s| ==> !IsSpace(s[|s| - n - 1])
  {
    if |s| == 0 || !IsSpace(s[|s| - 1]) then 0 else 1 + TrailingSpaces(s[..|s| - 1])
  }

  /** `strings.TrimSpace`: the infix of `s` that neither starts nor ends with white space. */
  function TrimSpace(s: string): (r: string)
    ensures |r| <= |s|
    ensures r == "" || (!IsSpace(r[0]) && !IsSpace(r[|r| - 1]))
    ensures LeadingSpaces(s) + |r| <= |s| && r == s[LeadingSpaces(s)..LeadingSpaces(s) + |r|]
    ensures r == "" <==> forall k :: 0 <= k < |s| ==> IsSpace(s[k])
  {
    var a := LeadingSpaces(s);
    var t := s[a..];
    var r := t[..|t| - TrailingSpaces(t)];
    assert r != "" ==> r[0] == s[a];
    r
  }

  function DigitChar(d: nat): (c: char)
    requires d < 10
    ensures IsDigit(c)
  {
    (48 + d) as char
  }

  function DigitValue(c: char): (d: nat)
    requires IsDigit(c)
    ensures d < 10
  {
    (c as int) - 48
  }

  /** Decimal formatting of a natural number, as `strconv.Itoa` and `fmt`'s `%d` print it. */
  function NatToString(n: nat): (s: string)
    ensures 1 <= |s| && AllDigits(s)
    ensures s[0] == '0' <==> n == 0
    decreases n
  {
    if n < 10 then [DigitChar(n)] else NatToString(n / 10) + [DigitChar(n % 10)]
  }

  /** Reading a digit string back as a number (`strconv.Atoi` on digits). */
  function ParseNat(s: string): nat
    requires AllDigits(s)
    decreases |s|
  {
    if |s| == 0 then 0 else 10 * ParseNat(s[..|s| - 1]) + DigitValue(s[|s| - 1])
  }

  /** Decimal formatting loses nothing: reading it back gives the number. */
  lemma {:induction false} ParseNatToString(n: nat)
    ensures ParseNat(NatToString(n)) == n
    decreases n
  {
    if n >= 10 {
      var s := NatToString(n);
      assert s[..|s| - 1] == NatToString(n / 10);
      ParseNatToString(n / 10);
    }
  }

  /** Decimal formatting of a signed integer, with a leading '-' for negatives. */
  function IntToString(i: int): (s: string)
    ensures 1 <= |s|
    ensures i < 0 <==> s[0] == '-'
    ensures 0 <= i ==> AllDigits(s)
  {
    if i < 0 then "-" + NatToString(-i) else NatToString(i)
  }

  /** Two integers print alike only when they are equal. */
  lemma IntToStringInjective(a: int, b: int)
    requires IntToString(a) == IntToString(b)
    ensures a == b
  {
    if a < 0 {
      assert IntToString(a)[1..] == NatToString(-a);
      assert IntToString(b)[1..] == NatToString(-b);
      NatToStringInjective(-a, -b);
    } else {
      NatToStringInjective(a, b);
    }
  }

  lemma NatToStringInjective(m: nat, n: nat)
    requires NatToString(m) == NatToString(n)
    ensures m == n
  {
    ParseNatToString(m);
    ParseNatToString(n);
  }

  /** Go's `a <= b` on strings. Ordering by code point agrees with Go's ordering of the UTF-8 bytes. */
  predicate LessEq(a: string, b: string)
    decreases |a|
  {
    |a| == 0 || (|b| > 0 && (a[0] < b[0] || (a[0] == b[0] && LessEq(a[1..], b[1..]))))
  }

  lemma {:induction false} LessEqTotal(a: string, b: string)
    ensures LessEq(a, b) || LessEq(b, a)
    decreases |a|
  {
    if |a| > 0 && |b| > 0 && a[0] == b[0] {
      LessEqTotal(a[1..], b[1..]);
    }
  }

  lemma {:induction false} LessEqTrans(a: string, b: string, c: string)
    requires LessEq(a, b) && LessEq(b, c)
    ensures LessEq(a, c)
    decreases |a|
  {
    if |a| > 0 && a[0] == b[0] && b[0] == c[0] {
      LessEqTrans(a[1..], b[1..], c[1..]);
    }
  }

  lemma {:induction false} LessEqAntisym(a: string, b: string)
    requires LessEq(a, b) && LessEq(b, a)
    ensures a == b
    decreases |a|
  {
    if |a| > 0 {
      LessEqAntisym(a[1..], b[1..]);
      assert a == [a[0]] + a[1..];
      assert b == [b[0]] + b[1..];
    }
  }

  /** ASCII lower-casing of one character. */
  function LowerChar(c: char): char
  {
    if 'A' <= c <= 'Z' then (c as int + 32) as char else c
  }

  /** `strings.ToLower`, restricted to ASCII letters. */
  function ToLower(s: string): (r: string)
    ensures |r| == |s|
    ensures forall k :: 0 <= k < |s| ==> r[k] == LowerChar(s[k])
  {
    seq(|s|, k requires 0 <= k < |s| => LowerChar(s[k]))
  }

  /** `path.Join(a, b)` without the lexical clean-up: empty elements are dropped and the rest
      are joined with '/'. */
  function PathJoin(a: string, b: string): (r: string)
  {
    if a == "" then b else if b == "" then a else a + "/" + b
  }
}
