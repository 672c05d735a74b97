/** ASCII models of the Python string and integer built-ins the cipher engine
    relies on: `str.isalpha`, `str.isspace`, `str.upper`, `str.strip`,
    `str.split`, `str.join`, `str.replace`, `int()`, `str()` of an integer,
    `set()` of a string and the stable `sorted`. */
module Builtins {

  datatype Option<T> = None | Some(value: T)

  // ---------------------------------------------------------------------------
  // Characters

  predicate IsUpperLetter(c: char) { 'A' <= c <= 'Z' }

  predicate IsLowerLetter(c: char) { 'a' <= c <= 'z' }

  /** `c.isalpha()` on ASCII characters. */
  predicate IsAlpha(c: char) { IsUpperLetter(c) || IsLowerLetter(c) }

  /** `c.isspace()` on ASCII characters: tab, line feed, vertical tab, form feed,
      carriage return, the four information separators 0x1C..0x1F and space. */
  predicate IsSpace(c: char) { c == ' ' || 9 <= c as int <= 13 || 28 <= c as int <= 31 }

  predicate IsDigit(c: char) { '0' <= c <= '9' }

  /** `c.upper()` on ASCII characters. */
  function ToUpper(c: char): (u: char)
    ensures IsAlpha(c) ==> IsUpperLetter(u)
    ensures !IsLowerLetter(c) ==> u == c
  {
    if IsLowerLetter(c) then (c as int - 32) as char else c
  }

  predicate IsUpperText(s: string) { forall i :: 0 <= i < |s| ==> IsUpperLetter(s[i]) }

  /** `s.upper()`: ASCII letters are upper-cased, everything else is kept. */
  function Upper(s: string): (u: string)
    ensures |u| == |s|
    ensures forall i :: 0 <= i < |s| ==> u[i] == ToUpper(s[i])
  {
    seq(|s|, i requires 0 <= i < |s| => ToUpper(s[i]))
  }

  /** `s.replace(old, new)` for one-character `old` and `new`. */
  function ReplaceChar(s: string, from: char, to: char): (r: string)
    ensures |r| == |s|
    ensures forall i :: 0 <= i < |s| ==> r[i] == if s[i] == from then to else s[i]
  {
    seq(|s|, i requires 0 <= i < |s| => if s[i] == from then to else s[i])
  }

  /** `s.replace(c, '')`: every occurrence of `c` is removed. */
  function RemoveChar(s: string, c: char): (r: string)
    ensures c !in r
    ensures |r| <= |s|
  {
    if |s| == 0 then ""
    else if s[|s| - 1] == c then RemoveChar(s[..|s| - 1], c)
    else RemoveChar(s[..|s| - 1], c) + [s[|s| - 1]]
  }

  lemma {:induction false} RemoveCharAppend(a: string, b: string, c: char)
    ensures RemoveChar(a + b, c) == RemoveChar(a, c) + RemoveChar(b, c)
    decreases |b|
  {
    if |b| == 0 {
      assert a + b == a;
    } else {
      var b' := b[..|b| - 1];
      assert (a + b)[..|a + b| - 1] == a + b';
      RemoveCharAppend(a, b', c);
    }
  }

  lemma {:induction false} RemoveCharAbsent(s: string, c: char)
    requires c !in s
    ensures RemoveChar(s, c) == s
  {
    if |s| > 0 {
      RemoveCharAbsent(s[..|s| - 1], c);
    }
  }

  /** `s.isalpha()`: true exactly for a non-empty string of letters. */
  predicate IsAlphaString(s: string) { |s| > 0 && forall i :: 0 <= i < |s| ==> IsAlpha(s[i]) }

  // ---------------------------------------------------------------------------
  // int() and str() for integers

  predicate IsDigits(s: string) { |s| > 0 && forall i :: 0 <= i < |s| ==> IsDigit(s[i]) }

  /** The value of a string of decimal digits, most significant first. */
  function DigitsValue(s: string): nat
    requires forall i :: 0 <= i < |s| ==> IsDigit(s[i])
  {
    if |s| == 0 then 0
    else
      assert IsDigit(s[|s| - 1]);
      DigitsValue(s[..|s| - 1]) * 10 + (s[|s| - 1] as int - '0' as int)
  }

  function ParseSigned(t: string): Option<int> {
    if |t| > 0 && (t[0] == '-' || t[0] == '+') then
      if IsDigits(t[1..]) then
        var v: int := DigitsValue(t[1..]);
        Some(if t[0] == '-' then -v else v)
      else None
    else if IsDigits(t) then Some(DigitsValue(t))
    else None
  }

  /** `int(s)`: whitespace at either end is ignored, and what remains is an
      optional sign followed by at least one decimal digit. `None` stands for
      the `ValueError` whose message begins "invalid literal for int() with
      base 10". Because whitespace is ignored, this is also `int(s.strip())`. */
  function ParseInt(s: string): Option<int> {
    if |s| > 0 && IsSpace(s[0]) then ParseInt(s[1..])
    else if |s| > 0 && IsSpace(s[|s| - 1]) then ParseInt(s[..|s| - 1])
    else ParseSigned(s)
  }

  function DigitChar(d: nat): (c: char)
    requires d < 10
    ensures IsDigit(c) && c as int - '0' as int == d
  {
    ('0' as int + d) as char
  }

  function NatToString(n: nat): (s: string)
    ensures IsDigits(s)
  {
    if n < 10 then [DigitChar(n)] else NatToString(n / 10) + [DigitChar(n % 10)]
  }

  /** `str(n)` for an integer `n`. */
  function IntToString(n: int): (s: string)
    ensures |s| > 0
    ensures forall i :: 0 <= i < |s| ==> IsDigit(s[i]) || s[i] == '-'
  {
    if n < 0 then "-" + NatToString(-n) else NatToString(n)
  }

  lemma {:induction false} NatToStringValue(n: nat)
    ensures DigitsValue(NatToString(n)) == n
  {
    if n >= 10 {
      var s := NatToString(n);
      assert s[..|s| - 1] == NatToString(n / 10);
      NatToStringValue(n / 10);
    }
  }

  /** `int(str(n)) == n`. */
  lemma ParseIntToString(n: int)
    ensures ParseInt(IntToString(n)) == Some(n)
  {
    var s := IntToString(n);
    NoSpaceInIntToString(n);
    assert !IsSpace(s[0]) && !IsSpace(s[|s| - 1]);
    ParseSignedIntToString(n);
  }

  lemma ParseSignedIntToString(n: int)
    ensures ParseSigned(IntToString(n)) == Some(n)
  {
    if n < 0 {
      ParseNegative(-n);
    } else {
      ParsePositive(n);
    }
  }

  lemma NoSpaceInIntToString(n: int)
    ensures forall i :: 0 <= i < |IntToString(n)| ==> !IsSpace(IntToString(n)[i])
  {
    var s := IntToString(n);
    forall i | 0 <= i < |s| ensures !IsSpace(s[i]) {
      assert IsDigit(s[i]) || s[i] == '-';
    }
  }

  lemma ParsePositive(m: nat)
    ensures ParseSigned(NatToString(m)) == Some(m)
  {
    NatToStringValue(m);
    assert IsDigit(NatToString(m)[0]);
  }

  lemma ParseNegative(m: nat)
    requires m > 0
    ensures ParseSigned("-" + NatToString(m)) == Some(-(m as int))
  {
    var s := "-" + NatToString(m);
    assert s[1..] == NatToString(m);
    NatToStringValue(m);
  }

  // ---------------------------------------------------------------------------
  // str.split(sep) and sep.join(parts)

  /** `s.split(sep)` for a one-character separator: the pieces between
      separators, so there is always at least one piece. */
  function Split(s: string, sep: char): (parts: seq<string>)
    ensures |parts| >= 1
    ensures forall i :: 0 <= i < |parts| ==> sep !in parts[i]
  {
    if |s| == 0 then [""]
    else
      var rest := Split(s[1..], sep);
      if s[0] == sep then [""] + rest else [[s[0]] + rest[0]] + rest[1..]
  }

  /** `sep.join(parts)`. */
  function Join(parts: seq<string>, sep: string): string {
    if |parts| == 0 then ""
    else if |parts| == 1 then parts[0]
    else parts[0] + sep + Join(parts[1..], sep)
  }

  lemma {:induction false} SplitPrefix(a: string, b: string, sep: char)
    requires sep !in a
    ensures Split(a + [sep] + b, sep) == [a] + Split(b, sep)
    decreases |a|
  {
    if |a| == 0 {
      assert a + [sep] + b == [sep] + b;
      assert ([sep] + b)[1..] == b;
    } else {
      assert (a + [sep] + b)[1..] == a[1..] + [sep] + b;
      SplitPrefix(a[1..], b, sep);
      assert [a[0]] + a[1..] == a;
    }
  }

  lemma {:induction false} SplitNoSep(a: string, sep: char)
    requires sep !in a
    ensures Split(a, sep) == [a]
    decreases |a|
  {
    if |a| > 0 {
      SplitNoSep(a[1..], sep);
      assert [a[0]] + a[1..] == a;
    }
  }

  /** Splitting a joined list of separator-free pieces gives the pieces back. */
  lemma {:induction false} SplitJoin(parts: seq<string>, sep: char)
    requires |parts| >= 1
    requires forall i :: 0 <= i < |parts| ==> sep !in parts[i]
    ensures Split(Join(parts, [sep]), sep) == parts
    decreases |parts|
  {
    if |parts| == 1 {
      SplitNoSep(parts[0], sep);
    } else {
      SplitJoin(parts[1..], sep);
      SplitPrefix(parts[0], Join(parts[1..], [sep]), sep);
      assert [parts[0]] + parts[1..] == parts;
    }
  }

  // ---------------------------------------------------------------------------
  // set(s) and repeated elements

  predicate NoRepeats<T(==)>(s: seq<T>) {
    forall i, j :: 0 <= i < j < |s| ==> s[i] != s[j]
  }

  /** `set(s)`. */
  function Elems<T(==)>(s: seq<T>): set<T> { set x | x in s }

  /** `len(set(s)) == len(s)` exactly when `s` has no repeated element. */
  lemma {:induction false} ElemsCard<T>(s: seq<T>)
    ensures |Elems(s)| <= |s|
    ensures |Elems(s)| == |s| <==> NoRepeats(s)
  {
    if |s| > 0 {
      var p, x := s[..|s| - 1], s[|s| - 1];
      ElemsCard(p);
      assert s == p + [x];
      assert Elems(s) == Elems(p) + {x};
      if x in Elems(p) {
        var k :| 0 <= k < |p| && p[k] == x;
        assert s[k] == s[|s| - 1];
        assert Elems(s) == Elems(p);
      } else {
        assert NoRepeats(s) <==> NoRepeats(p);
      }
    }
  }

  // ---------------------------------------------------------------------------
  // The stable `sorted`

  function Range(n: nat): (r: seq<nat>)
    ensures |r| == n && forall i :: 0 <= i < n ==> r[i] == i
  {
    seq(n, i => i)
  }

  /** Position `i` goes before position `j` when its key is smaller, or the
      keys are equal and `i` comes first: the order a stable sort produces. */
  predicate Before(keys: seq<int>, i: nat, j: nat)
    requires i < |keys| && j < |keys|
  {
    keys[i] < keys[j] || (keys[i] == keys[j] && i < j)
  }

  predicate StablySorted(keys: seq<int>, order: seq<nat>)
    requires forall k :: 0 <= k < |order| ==> order[k] < |keys|
  {
    forall a, b :: 0 <= a < b < |order| ==> Before(keys, order[a], order[b])
  }

  function Insert(keys: seq<int>, x: nat, order: seq<nat>): (r: seq<nat>)
    requires x < |keys|
    requires forall k :: 0 <= k < |order| ==> order[k] < |keys|
    requires StablySorted(keys, order)
    requires forall k :: 0 <= k < |order| ==> order[k] != x
    ensures |r| == |order| + 1
    ensures forall k :: 0 <= k < |r| ==> r[k] < |keys|
    ensures multiset(r) == multiset(order) + multiset{x}
    ensures StablySorted(keys, r)
  {
    if |order| == 0 then [x]
    else if Before(keys, x, order[0]) then [x] + order
    else
      var rest := Insert(keys, x, order[1..]);
      assert multiset(order) == multiset{order[0]} + multiset(order[1..]) by {
        assert order == [order[0]] + order[1..];
      }
      HeadBeforeInserted(keys, x, order, rest);
      [order[0]] + rest
  }

  /** The head of a stably sorted order goes before everything in the rest
      with `x` inserted, when it goes before `x`. */
  lemma HeadBeforeInserted(keys: seq<int>, x: nat, order: seq<nat>, rest: seq<nat>)
    requires x < |keys| && |order| > 0
    requires forall k :: 0 <= k < |order| ==> order[k] < |keys|
    requires forall k :: 0 <= k < |rest| ==> rest[k] < |keys|
    requires StablySorted(keys, order) && !Before(keys, x, order[0]) && order[0] != x
    requires multiset(rest) == multiset(order[1..]) + multiset{x}
    ensures forall k :: 0 <= k < |rest| ==> Before(keys, order[0], rest[k])
  {
    forall k | 0 <= k < |rest| ensures Before(keys, order[0], rest[k]) {
      assert rest[k] in multiset(rest);
      if rest[k] != x {
        assert rest[k] in multiset(order[1..]);
        var m :| 0 <= m < |order[1..]| && order[1..][m] == rest[k];
        assert order[1 + m] == rest[k];
      }
    }
  }

  function SortFrom(keys: seq<int>, n: nat): (r: seq<nat>)
    requires n <= |keys|
    ensures |r| == n
    ensures multiset(r) == multiset(Range(n))
    ensures forall k :: 0 <= k < |r| ==> r[k] < n
    ensures StablySorted(keys, r)
  {
    if n == 0 then []
    else
      var prev := SortFrom(keys, n - 1);
      assert Range(n) == Range(n - 1) + [n - 1];
      forall k | 0 <= k < |prev| ensures prev[k] != n - 1 {
        assert prev[k] in multiset(Range(n - 1));
      }
      var r := Insert(keys, n - 1, prev);
      forall k | 0 <= k < |r| ensures r[k] < n {
        assert r[k] in multiset(r);
      }
      r
  }

  /** `[i for i, _ in sorted(enumerate(keys), key=...)]`: the positions of
      `keys` in stable ascending order of their keys. */
  function ArgSort(keys: seq<int>): (order: seq<nat>)
    ensures |order| == |keys|
    ensures multiset(order) == multiset(Range(|keys|))
    ensures forall k :: 0 <= k < |order| ==> order[k] < |keys|
    ensures StablySorted(keys, order)
  {
    SortFrom(keys, |keys|)
  }

  /** The stable order is a permutation: every position occurs once. */
  lemma ArgSortPermutation(keys: seq<int>)
    ensures NoRepeats(ArgSort(keys))
    ensures forall j :: 0 <= j < |keys| ==> j in ArgSort(keys)
  {
    var order := ArgSort(keys);
    forall j | 0 <= j < |keys| ensures j in order {
      assert Range(|keys|)[j] == j;
      assert j in multiset(Range(|keys|));
    }
  }

  /** The position of `x` in a sequence that contains it. */
  function IndexOf<T(==)>(s: seq<T>, x: T): (k: nat)
    requires x in s
    ensures k < |s| && s[k] == x
    ensures forall j :: 0 <= j < k ==> s[j] != x
  {
    if s[0] == x then 0 else 1 + IndexOf(s[1..], x)
  }
}
