/** Python string operations the scraper relies on: str.strip, str.replace with an empty
    replacement, str.split('::') and str(int). */
module Strings {

  /** Python's str.isspace for a single character. */
  predicate IsSpace(c: char) {
    c == ' ' || ('\t' <= c <= '\r') || ('\U{1C}' <= c <= '\U{1F}') ||
    c == '\U{85}' || c == '\U{A0}' || c == '\U{1680}' || ('\U{2000}' <= c <= '\U{200A}') ||
    c == '\U{2028}' || c == '\U{2029}' || c == '\U{202F}' || c == '\U{205F}' || c == '\U{3000}'
  }

  predicate AllSpace(s: string) {
    forall i :: 0 <= i < |s| ==> IsSpace(s[i])
  }

  /** s.lstrip(): the suffix of s that begins at its first non-whitespace character. */
  function StripLeft(s: string): (r: string)
    ensures |r| <= |s|
    ensures r == [] || !IsSpace(r[0])
  {
    if s != [] && IsSpace(s[0]) then StripLeft(s[1..]) else s
  }

  /** What lstrip removes is whitespace, and what it keeps is the rest of s. */
  lemma {:induction false} StripLeftSplits(s: string)
    ensures var r := StripLeft(s); r == s[|s| - |r|..] && AllSpace(s[..|s| - |r|])
  {
    if s != [] && IsSpace(s[0]) {
      StripLeftSplits(s[1..]);
      var r := StripLeft(s);
      assert s[|s| - |r|..] == s[1..][|s| - 1 - |r|..];
      forall i | 0 <= i < |s| - |r| ensures IsSpace(s[i]) {
        if i > 0 { assert s[i] == s[1..][..|s| - 1 - |r|][i - 1]; }
      }
    }
  }

  /** s.rstrip(): the prefix of s that ends at its last non-whitespace character. */
  function StripRight(s: string): (r: string)
    ensures |r| <= |s|
    ensures r == [] || !IsSpace(r[|r| - 1])
  {
    if s != [] && IsSpace(s[|s| - 1]) then StripRight(s[..|s| - 1]) else s
  }

  /** What rstrip keeps is the front of s, and what it removes is whitespace. */
  lemma {:induction false} StripRightSplits(s: string)
    ensures var r := StripRight(s); r == s[..|r|] && AllSpace(s[|r|..])
  {
    if s != [] && IsSpace(s[|s| - 1]) {
      var q := s[..|s| - 1];
      StripRightSplits(q);
      var r := StripRight(s);
      assert s[..|r|] == q[..|r|];
      forall i | |r| <= i < |s| ensures IsSpace(s[i]) {
        if i < |s| - 1 { assert s[i] == q[|r|..][i - |r|]; }
      }
    }
  }

  /** s.strip() */
  function Strip(s: string): string {
    StripRight(StripLeft(s))
  }

  /** Stripping is idempotent and leaves no whitespace at either end. */
  lemma StripIsClean(s: string)
    ensures var r := Strip(s);
      (r == [] || (!IsSpace(r[0]) && !IsSpace(r[|r| - 1]))) && Strip(r) == r
  {
    var l := StripLeft(s);
    var r := StripRight(l);
    StripRightSplits(l);
    assert r == [] || r[0] == l[0];
  }

  /** Surrounding whitespace never changes the stripped text. */
  lemma {:induction false} StripPadded(pre: string, s: string, post: string)
    requires AllSpace(pre) && AllSpace(post)
    ensures Strip(pre + s + post) == Strip(s)
  {
    assert pre + s + post == pre + (s + post);
    StripLeftPadded(pre, s + post);
    if AllSpace(s) {
      assert AllSpace(s + post);
      StripLeftOfAllSpace(s + post);
      StripLeftOfAllSpace(s);
    } else {
      StripLeftAppend(s, post);
      StripRightPadded(StripLeft(s), post);
    }
  }

  lemma {:induction false} StripLeftPadded(pre: string, s: string)
    requires AllSpace(pre)
    ensures StripLeft(pre + s) == StripLeft(s)
  {
    if pre != [] {
      assert (pre + s)[0] == pre[0] && (pre + s)[1..] == pre[1..] + s;
      assert AllSpace(pre[1..]);
      StripLeftPadded(pre[1..], s);
    } else {
      assert pre + s == s;
    }
  }

  lemma {:induction false} StripLeftAppend(s: string, t: string)
    requires !AllSpace(s)
    ensures StripLeft(s + t) == StripLeft(s) + t
  {
    if IsSpace(s[0]) {
      assert (s + t)[1..] == s[1..] + t;
      StripLeftAppend(s[1..], t);
    }
  }

  lemma {:induction false} StripLeftOfAllSpace(s: string)
    requires AllSpace(s)
    ensures StripLeft(s) == []
  {
    if s != [] {
      StripLeftOfAllSpace(s[1..]);
    }
  }

  /** One space on either side of stripped text is stripped off again. */
  lemma StripSpaced(t: string)
    requires Strip(t) == t
    ensures Strip(t + " ") == t && Strip(" " + t) == t
  {
    StripSpaceAfter(t);
    StripSpaceBefore(t);
  }

  lemma StripSpaceAfter(t: string)
    ensures Strip(t + " ") == Strip(t)
  {
    var e: string := [];
    assert e + t + " " == t + " ";
    StripPadded(e, t, " ");
  }

  lemma StripSpaceBefore(t: string)
    ensures Strip(" " + t) == Strip(t)
  {
    var e: string := [];
    assert " " + t + e == " " + t;
    StripPadded(" ", t, e);
  }

  lemma {:induction false} StripRightPadded(s: string, post: string)
    requires AllSpace(post)
    ensures StripRight(s + post) == StripRight(s)
  {
    if post != [] {
      var x := s + post;
      assert x[|x| - 1] == post[|post| - 1];
      assert x[..|x| - 1] == s + post[..|post| - 1];
      assert AllSpace(post[..|post| - 1]);
      StripRightPadded(s, post[..|post| - 1]);
    } else {
      assert s + post == s;
    }
  }

  /** s.replace(c, '') for a one-character c. */
  function RemoveChar(s: string, c: char): (r: string)
    ensures |r| <= |s|
  {
    if s == [] then [] else (if s[0] == c then [] else [s[0]]) + RemoveChar(s[1..], c)
  }

  /** No c is left, and no character is added. */
  lemma {:induction false} RemoveCharRemoves(s: string, c: char)
    ensures c !in RemoveChar(s, c)
    ensures forall x :: x in RemoveChar(s, c) ==> x in s
  {
    if s != [] {
      RemoveCharRemoves(s[1..], c);
      assert s == [s[0]] + s[1..];
    }
  }

  /** Text without c is left as it is. */
  lemma {:induction false} RemoveCharAbsent(s: string, c: char)
    requires c !in s
    ensures RemoveChar(s, c) == s
  {
    if s != [] {
      assert s == [s[0]] + s[1..];
      RemoveCharAbsent(s[1..], c);
    }
  }

  lemma {:induction false} RemoveCharAppend(s: string, t: string, c: char)
    ensures RemoveChar(s + t, c) == RemoveChar(s, c) + RemoveChar(t, c)
  {
    if s != [] {
      assert (s + t)[0] == s[0] && (s + t)[1..] == s[1..] + t;
      RemoveCharAppend(s[1..], t, c);
      var h := if s[0] == c then [] else [s[0]];
      assert RemoveChar(s + t, c) == h + RemoveChar(s[1..] + t, c);
      assert h + (RemoveChar(s[1..], c) + RemoveChar(t, c)) == (h + RemoveChar(s[1..], c)) + RemoveChar(t, c);
    } else {
      assert s + t == t;
    }
  }

  /** Removing c from text around a part without c leaves that part in place. */
  lemma RemoveCharAround(pre: string, d: string, post: string, c: char)
    requires c !in d
    ensures RemoveChar(pre + d + post, c) == RemoveChar(pre, c) + d + RemoveChar(post, c)
  {
    RemoveCharAppend(pre + d, post, c);
    RemoveCharAppend(pre, d, c);
    RemoveCharAbsent(d, c);
  }

  /** Removing two characters commutes, and removing one twice is removing it once. */
  lemma {:induction false} RemoveCharCommutes(s: string, c: char, d: char)
    ensures RemoveChar(RemoveChar(s, c), d) == RemoveChar(RemoveChar(s, d), c)
  {
    if s != [] {
      RemoveCharCommutes(s[1..], c, d);
      var h := if s[0] == c then [] else [s[0]];
      RemoveCharAppend(h, RemoveChar(s[1..], c), d);
      var k := if s[0] == d then [] else [s[0]];
      RemoveCharAppend(k, RemoveChar(s[1..], d), c);
    }
  }

  predicate PairAt(s: string, i: int, c: char)
    requires 0 <= i
  {
    i + 1 < |s| && s[i] == c && s[i + 1] == c
  }

  /** True when no two adjacent characters of s are both c. */
  predicate NoPair(s: string, c: char) {
    forall i :: 0 <= i < |s| - 1 ==> !PairAt(s, i, c)
  }

  /** s.replace(cc, '') for the two-character string cc: occurrences are found left to right and
      do not overlap, so a run of three c leaves one c behind. */
  function RemovePairs(s: string, c: char): (r: string)
    ensures |r| <= |s|
  {
    if |s| >= 2 && s[0] == c && s[1] == c then RemovePairs(s[2..], c)
    else if s == [] then []
    else [s[0]] + RemovePairs(s[1..], c)
  }

  /** What is left has no pair of c, and text that does not begin with a pair keeps its first
      character. */
  lemma {:induction false} RemovePairsLeavesNoPair(s: string, c: char)
    ensures NoPair(RemovePairs(s, c), c)
    ensures |s| > 0 && !PairAt(s, 0, c) ==> |RemovePairs(s, c)| > 0 && RemovePairs(s, c)[0] == s[0]
  {
    if |s| >= 2 && s[0] == c && s[1] == c {
      RemovePairsLeavesNoPair(s[2..], c);
    } else if s != [] {
      RemovePairsLeavesNoPair(s[1..], c);
      var t := RemovePairs(s[1..], c);
      var r := [s[0]] + t;
      assert RemovePairs(s, c) == r;
      forall i | 0 <= i < |r| - 1 ensures !PairAt(r, i, c) {
        if i > 0 { assert PairAt(r, i, c) == PairAt(t, i - 1, c); }
      }
    }
  }

  /** RemovePairs drops only copies of c ... */
  lemma {:induction false} RemovePairsDropsOnlyC(s: string, c: char)
    ensures RemoveChar(RemovePairs(s, c), c) == RemoveChar(s, c)
  {
    if |s| >= 2 && s[0] == c && s[1] == c {
      var rest := s[2..];
      RemovePairsDropsOnlyC(rest, c);
      assert RemoveChar(s, c) == RemoveChar(s[1..], c);
      assert s[1..][1..] == rest;
    } else if s != [] {
      var rest := s[1..];
      RemovePairsDropsOnlyC(rest, c);
      var t := RemovePairs(rest, c);
      RemoveCharAppend([s[0]], t, c);
    }
  }

  /** ... and an even number of them. */
  lemma {:induction false} RemovePairsDropsEvenly(s: string, c: char)
    ensures (|s| - |RemovePairs(s, c)|) % 2 == 0
  {
    if |s| >= 2 && s[0] == c && s[1] == c {
      RemovePairsDropsEvenly(s[2..], c);
    } else if s != [] {
      RemovePairsDropsEvenly(s[1..], c);
    }
  }

  /** Text without any pair of c is left as it is; in particular a lone c survives. */
  lemma {:induction false} RemovePairsKeepsSingles(s: string, c: char)
    requires NoPair(s, c)
    ensures RemovePairs(s, c) == s
  {
    if s != [] {
      assert !PairAt(s, 0, c);
      assert NoPair(s[1..], c) by {
        forall i | 0 <= i < |s[1..]| - 1 ensures !PairAt(s[1..], i, c) {
          assert PairAt(s[1..], i, c) == PairAt(s, i + 1, c);
        }
      }
      RemovePairsKeepsSingles(s[1..], c);
    }
  }

  /** True when "::" occurs in s at index i. */
  predicate SepAt(s: string, i: int)
    requires 0 <= i
  {
    i + 1 < |s| && s[i] == ':' && s[i + 1] == ':'
  }

  predicate NoSep(s: string) {
    forall i :: 0 <= i < |s| ==> !SepAt(s, i)
  }

  /** Index of the first "::" in s, or |s| when there is none. */
  function FindSep(s: string): (i: nat)
    ensures i <= |s|
    ensures i < |s| ==> SepAt(s, i)
  {
    if |s| < 2 then |s|
    else if s[0] == ':' && s[1] == ':' then 0
    else 1 + FindSep(s[1..])
  }

  /** No "::" starts before the index FindSep reports. */
  lemma {:induction false} FindSepFirst(s: string)
    ensures forall k :: 0 <= k < FindSep(s) ==> !SepAt(s, k)
  {
    if |s| >= 2 && !(s[0] == ':' && s[1] == ':') {
      FindSepFirst(s[1..]);
      forall k | 1 <= k < FindSep(s) ensures !SepAt(s, k) {
        assert SepAt(s, k) == SepAt(s[1..], k - 1);
      }
    }
  }

  /** The text before the first "::" has none, and neither has a text where none is found. */
  lemma FindSepBefore(s: string)
    ensures NoSep(s[..FindSep(s)])
    ensures FindSep(s) == |s| ==> NoSep(s)
  {
    FindSepFirst(s);
    var p := s[..FindSep(s)];
    forall k | 0 <= k < |p| ensures !SepAt(p, k) {
      assert SepAt(p, k) ==> SepAt(s, k);
    }
  }

  /** The parts joined back with "::" in between: the inverse of Split. */
  function JoinOnSep(parts: seq<string>): string {
    if parts == [] then []
    else if |parts| == 1 then parts[0]
    else parts[0] + "::" + JoinOnSep(parts[1..])
  }

  /** s.split('::'): the text between successive occurrences of "::", at least one part. */
  function Split(s: string): (parts: seq<string>)
    ensures |parts| >= 1
    decreases |s|
  {
    var i := FindSep(s);
    if i == |s| then [s] else [s[..i]] + Split(s[i + 2..])
  }

  /** No part contains "::", and joining the parts with "::" gives back s. */
  lemma {:induction false} SplitSound(s: string)
    ensures forall k :: 0 <= k < |Split(s)| ==> NoSep(Split(s)[k])
    ensures JoinOnSep(Split(s)) == s
    decreases |s|
  {
    var i := FindSep(s);
    FindSepBefore(s);
    if i < |s| {
      var rest := s[i + 2..];
      SplitSound(rest);
      SplitStep(s, i, rest);
    }
  }

  lemma SplitStep(s: string, i: nat, rest: string)
    requires i == FindSep(s) && i < |s| && rest == s[i + 2..]
    requires NoSep(s[..i])
    requires forall k :: 0 <= k < |Split(rest)| ==> NoSep(Split(rest)[k])
    requires JoinOnSep(Split(rest)) == rest
    ensures forall k :: 0 <= k < |Split(s)| ==> NoSep(Split(s)[k])
    ensures JoinOnSep(Split(s)) == s
  {
    var tail := Split(rest);
    var parts := Split(s);
    assert parts == [s[..i]] + tail;
    assert parts[1..] == tail;
    assert JoinOnSep(parts) == s[..i] + "::" + JoinOnSep(tail);
    assert s == s[..i] + "::" + rest;
    forall k | 0 <= k < |parts| ensures NoSep(parts[k]) {
      if k > 0 { assert parts[k] == tail[k - 1]; }
    }
  }

  /** The first "::" is the one FindSep reports. */
  lemma FindSepIs(s: string, i: nat)
    requires i < |s| && SepAt(s, i)
    requires forall k :: 0 <= k < i ==> !SepAt(s, k)
    ensures FindSep(s) == i
  {
    FindSepFirst(s);
  }

  /** The text after a part without "::" and a separator, when the part does not end in ':'. */
  lemma FirstSepAfter(a: string, b: string)
    requires NoSep(a)
    requires a == [] || a[|a| - 1] != ':'
    ensures var s := a + "::" + b; FindSep(s) == |a| && s[|a| + 2..] == b && s[..|a|] == a
  {
    var s := a + "::" + b;
    assert SepAt(s, |a|);
    forall k | 0 <= k < |a| ensures !SepAt(s, k) {
      if k < |a| - 1 { assert SepAt(s, k) == SepAt(a, k); }
    }
    FindSepIs(s, |a|);
  }

  /** Two parts without "::" are split back apart, provided the first does not end in ':'. */
  lemma SplitTwo(a: string, b: string)
    requires NoSep(a) && NoSep(b)
    requires a == [] || a[|a| - 1] != ':'
    ensures Split(a + "::" + b) == [a, b]
  {
    FirstSepAfter(a, b);
    assert FindSep(b) == |b| by {
      FindSepFirst(b);
    }
  }

  /** Two texts without "::" meet without forming one unless a ':' ends the first and another
      begins the second. */
  lemma NoSepConcat(x: string, y: string)
    requires NoSep(x) && NoSep(y)
    requires x == [] || y == [] || x[|x| - 1] != ':' || y[0] != ':'
    ensures NoSep(x + y)
  {
    var s := x + y;
    forall i | 0 <= i < |s| ensures !SepAt(s, i) {
      if i + 1 < |x| { assert SepAt(s, i) == SepAt(x, i); }
      else if i >= |x| { assert SepAt(s, i) == SepAt(y, i - |x|); }
    }
  }

  /** An extra "::" after the first one gives three or more parts. */
  lemma SplitMore(a: string, b: string)
    requires NoSep(a) && !NoSep(b)
    requires a == [] || a[|a| - 1] != ':'
    ensures |Split(a + "::" + b)| > 2
  {
    FirstSepAfter(a, b);
    FindSepFirst(b);
    assert FindSep(b) < |b|;
  }

  predicate IsDigit(c: char) {
    '0' <= c <= '9'
  }

  predicate AllDigits(s: string) {
    forall i :: 0 <= i < |s| ==> IsDigit(s[i])
  }

  function DigitChar(d: nat): (c: char)
    requires d < 10
    ensures IsDigit(c)
  {
    ['0', '1', '2', '3', '4', '5', '6', '7', '8', '9'][d]
  }

  function DigitValue(c: char): nat
    requires IsDigit(c)
  {
    (c as int - '0' as int) as nat
  }

  /** The decimal digits of n, most significant first, with no leading zero. */
  function NatDigits(n: nat): (s: string)
    ensures |s| >= 1
  {
    if n < 10 then [DigitChar(n)] else NatDigits(n / 10) + [DigitChar(n % 10)]
  }

  /** Only digits, and no leading zero. */
  lemma {:induction false} NatDigitsShape(n: nat)
    ensures AllDigits(NatDigits(n))
    ensures |NatDigits(n)| > 1 ==> NatDigits(n)[0] != '0'
  {
    if n >= 10 {
      NatDigitsShape(n / 10);
      var p := NatDigits(n / 10);
      assert NatDigits(n) == p + [DigitChar(n % 10)];
      if n / 10 < 10 {
        assert p == [DigitChar(n / 10)];
        assert n / 10 != 0;
      }
    }
  }

  /** The value of a string of decimal digits (Python's int() on such a string). */
  function ParseNat(s: string): nat
    requires AllDigits(s)
  {
    if s == [] then 0 else 10 * ParseNat(s[..|s| - 1]) + DigitValue(s[|s| - 1])
  }

  /** str(n) for a Python int: a minus sign before the digits of a negative number. */
  function Decimal(n: int): string {
    if n < 0 then "-" + NatDigits(-n) else NatDigits(n)
  }

  /** int(s) for the strings Decimal produces. */
  function ParseInt(s: string): int {
    if |s| > 0 && s[0] == '-' && AllDigits(s[1..]) then -(ParseNat(s[1..]) as int)
    else if AllDigits(s) then ParseNat(s)
    else 0
  }

  lemma {:induction false} ParseNatDigits(n: nat)
    ensures AllDigits(NatDigits(n)) && ParseNat(NatDigits(n)) == n
  {
    NatDigitsShape(n);
    if n >= 10 {
      var s := NatDigits(n);
      assert s[..|s| - 1] == NatDigits(n / 10);
      ParseNatDigits(n / 10);
      assert DigitValue(DigitChar(n % 10)) == n % 10;
    } else {
      assert DigitValue(DigitChar(n)) == n;
    }
  }

  /** Reading back a decimal gives the number, so distinct numbers have distinct decimals. */
  lemma ParseDecimal(n: int)
    ensures ParseInt(Decimal(n)) == n
    ensures forall i :: 0 <= i < |Decimal(n)| ==> IsDigit(Decimal(n)[i]) || Decimal(n)[i] == '-'
    ensures '.' !in Decimal(n) && '/' !in Decimal(n) && ' ' !in Decimal(n) && 'b' !in Decimal(n)
  {
    var d := NatDigits(if n < 0 then -n else n);
    ParseNatDigits(if n < 0 then -n else n);
    if n < 0 {
      assert Decimal(n)[1..] == d;
    } else {
      assert !(d[0] == '-');
    }
    assert forall c :: c in Decimal(n) ==> IsDigit(c) || c == '-';
  }

  lemma DecimalInjective(m: int, n: int)
    requires Decimal(m) == Decimal(n)
    ensures m == n
  {
    ParseDecimal(m);
    ParseDecimal(n);
  }
}
