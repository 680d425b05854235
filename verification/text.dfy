/** The pieces of Go's `strings` and `strconv` packages the program relies on,
    on strings modelled as `seq<char>`. */
module Text {
  import opened Errors

  /** strings.HasPrefix */
  predicate HasPrefix(s: string, prefix: string) {
    |prefix| <= |s| && s[..|prefix|] == prefix
  }

  /** `sub` occurs in `s` starting at position `i`. */
  predicate OccursAt(s: string, sub: string, i: nat) {
    i + |sub| <= |s| && s[i..i + |sub|] == sub
  }

  /** strings.Index, searching from position `from` onwards. */
  function IndexFrom(s: string, sub: string, from: nat): (r: Option<nat>)
    requires from <= |s| + 1
    ensures r.Some? ==> from <= r.value && OccursAt(s, sub, r.value)
    ensures r.Some? ==> forall i :: from <= i < r.value ==> !OccursAt(s, sub, i)
    ensures r.None? ==> forall i :: from <= i ==> !OccursAt(s, sub, i)
    decreases |s| + 1 - from
  {
    if from + |sub| > |s| then None
    else if s[from..from + |sub|] == sub then Some(from)
    else IndexFrom(s, sub, from + 1)
  }

  /** strings.Index: the first position at which `sub` occurs in `s`, if any. */
  function Index(s: string, sub: string): (r: Option<nat>)
    ensures r.Some? ==> OccursAt(s, sub, r.value)
    ensures r.Some? ==> forall i :: 0 <= i < r.value ==> !OccursAt(s, sub, i)
    ensures r.None? ==> forall i :: 0 <= i ==> !OccursAt(s, sub, i)
  {
    IndexFrom(s, sub, 0)
  }

  /** strings.Replace(s, pattern, replacement, 1): replace the first occurrence
      only. Go returns `s` untouched when the two are equal, and with an empty
      `pattern` it inserts `replacement` once at the front. */
  function ReplaceOnce(s: string, pattern: string, replacement: string): string {
    if pattern == replacement then s
    else if pattern == [] then replacement + s
    else match Index(s, pattern)
      case None => s
      case Some(i) => s[..i] + replacement + s[i + |pattern|..]
  }

  /** Removing the first occurrence of a non-empty prefix strips exactly that prefix. */
  lemma ReplaceOncePrefix(s: string, prefix: string)
    requires prefix != [] && HasPrefix(s, prefix)
    ensures ReplaceOnce(s, prefix, []) == s[|prefix|..]
  {
    assert OccursAt(s, prefix, 0);
    var r := Index(s, prefix);
    assert r == Some(0);
  }

  /** strings.Join */
  function Join(parts: seq<string>, sep: string): string {
    if |parts| == 0 then []
    else if |parts| == 1 then parts[0]
    else parts[0] + sep + Join(parts[1..], sep)
  }

  /** Length of the longest prefix of `s` free of the character `c`. */
  function Until(s: string, c: char): (n: nat)
    ensures n <= |s|
  {
    if s == [] || s[0] == c then 0 else 1 + Until(s[1..], c)
  }

  lemma {:induction false} UntilAfterFreePrefix(x: string, rest: string, c: char)
    requires c !in x
    ensures Until(x + rest, c) == |x| + Until(rest, c)
  {
    if x == [] {
      assert x + rest == rest;
    } else {
      assert (x + rest)[1..] == x[1..] + rest;
      UntilAfterFreePrefix(x[1..], rest, c);
    }
  }

  /** Every part is non-empty and free of the separator character. */
  predicate Separable(parts: seq<string>, c: char) {
    forall i :: 0 <= i < |parts| ==> parts[i] != [] && c !in parts[i]
  }

  /** The shape of a join whose parts are non-empty and separator-free: it is
      empty only for no parts, its first separator ends the first part, and it
      holds a separator exactly when there are at least two parts. */
  lemma {:induction false} JoinShape(parts: seq<string>, c: char)
    requires Separable(parts, c)
    ensures Join(parts, [c]) == [] <==> |parts| == 0
    ensures |parts| > 0 ==> Until(Join(parts, [c]), c) == |parts[0]|
    ensures |parts| > 0 ==>
              |parts[0]| <= |Join(parts, [c])| && Join(parts, [c])[..|parts[0]|] == parts[0]
    ensures c in Join(parts, [c]) <==> |parts| > 1
    ensures |parts| > 1 ==> Join(parts, [c])[|parts[0]| + 1..] == Join(parts[1..], [c])
  {
    if |parts| == 1 {
      UntilAfterFreePrefix(parts[0], [], c);
      assert parts[0] + [] == parts[0];
    } else if |parts| > 1 {
      var x, rest := parts[0], Join(parts[1..], [c]);
      var j := Join(parts, [c]);
      assert j == x + ([c] + rest);
      UntilAfterFreePrefix(x, [c] + rest, c);
      assert j[|x|] == c;
      assert j[|x| + 1..] == rest;
    }
  }

  /** Joining with a one-character separator that no part contains, and no
      part empty, loses no information: the parts can be recovered. */
  lemma {:induction false} JoinInjective(a: seq<string>, b: seq<string>, c: char)
    requires Separable(a, c) && Separable(b, c)
    requires Join(a, [c]) == Join(b, [c])
    ensures a == b
  {
    JoinShape(a, c);
    JoinShape(b, c);
    if |a| > 0 {
      var j := Join(a, [c]);
      var x, y := a[0], b[0];
      assert |x| == |y|;
      assert x == j[..|x|] == y;
      if |a| == 1 {
        assert a == [x];
        assert b == [y];
      } else {
        assert Separable(a[1..], c) by {
          forall i | 0 <= i < |a[1..]| ensures a[1..][i] != [] && c !in a[1..][i] {
            assert a[1..][i] == a[i + 1];
          }
        }
        assert Separable(b[1..], c) by {
          forall i | 0 <= i < |b[1..]| ensures b[1..][i] != [] && c !in b[1..][i] {
            assert b[1..][i] == b[i + 1];
          }
        }
        JoinInjective(a[1..], b[1..], c);
        assert a == [x] + a[1..];
        assert b == [y] + b[1..];
      }
    }
  }

  /** strings.Compare: -1, 0 or +1 as `a` sorts before, equal to or after `b`,
      comparing character by character. Go compares UTF-8 bytes; byte order and
      code-point order agree, so comparing characters gives the same answer. */
  function Compare(a: string, b: string): (r: int)
    ensures -1 <= r <= 1
  {
    if a == [] && b == [] then 0
    else if a == [] then -1
    else if b == [] then 1
    else if a[0] < b[0] then -1
    else if a[0] > b[0] then 1
    else Compare(a[1..], b[1..])
  }

  lemma {:induction false} CompareZeroIsEquality(a: string, b: string)
    ensures Compare(a, b) == 0 <==> a == b
  {
    if a != [] && b != [] && a[0] == b[0] {
      CompareZeroIsEquality(a[1..], b[1..]);
      assert a == [a[0]] + a[1..];
      assert b == [b[0]] + b[1..];
    }
  }

  lemma {:induction false} CompareAntisymmetric(a: string, b: string)
    ensures Compare(a, b) == -Compare(b, a)
  {
    if a != [] && b != [] && a[0] == b[0] {
      CompareAntisymmetric(a[1..], b[1..]);
    }
  }

  lemma {:induction false} CompareTransitive(a: string, b: string, c: string)
    requires Compare(a, b) <= 0 && Compare(b, c) <= 0
    ensures Compare(a, c) <= 0
  {
    if a != [] && b != [] && c != [] && a[0] == b[0] == c[0] {
      CompareTransitive(a[1..], b[1..], c[1..]);
    }
  }

  /** `a` sorts strictly before `b` in dictionary order: after a common prefix
      of length `i`, either `a` ends while `b` goes on, or `a`'s next character
      is smaller. */
  ghost predicate Before(a: string, b: string) {
    exists i :: 0 <= i <= |a| && i <= |b| && a[..i] == b[..i]
                && (i == |a| < |b| || (i < |a| && i < |b| && a[i] < b[i]))
  }

  /** strings.Compare is negative exactly when its first argument sorts before
      its second in dictionary order. */
  lemma {:induction false} CompareNegativeIsBefore(a: string, b: string)
    ensures Compare(a, b) < 0 <==> Before(a, b)
    decreases |a|
  {
    if a == [] && b == [] {
    } else if a == [] {
      assert a[..0] == b[..0];
    } else if b == [] {
    } else if a[0] < b[0] {
      assert a[..0] == b[..0];
    } else if a[0] > b[0] {
    } else {
      CompareNegativeIsBefore(a[1..], b[1..]);
      BeforeAfterCommonHead(a, b);
    }
  }

  /** Two strings with the same first character sort as their tails do. */
  lemma BeforeAfterCommonHead(a: string, b: string)
    requires a != [] && b != [] && a[0] == b[0]
    ensures Before(a, b) <==> Before(a[1..], b[1..])
  {
    if Before(a, b) {
      BeforeDropsHead(a, b);
    }
    if Before(a[1..], b[1..]) {
      BeforeKeepsHead(a, b);
    }
  }

  lemma BeforeDropsHead(a: string, b: string)
    requires a != [] && b != [] && a[0] == b[0] && Before(a, b)
    ensures Before(a[1..], b[1..])
  {
    var i :| 0 <= i <= |a| && i <= |b| && a[..i] == b[..i]
             && (i == |a| < |b| || (i < |a| && i < |b| && a[i] < b[i]));
    var a', b' := a[1..], b[1..];
    assert i > 0;
    assert a'[..i - 1] == a[..i][1..] && b'[..i - 1] == b[..i][1..];
    if i == |a| {
      assert i - 1 == |a'| < |b'|;
    } else {
      assert a'[i - 1] == a[i] && b'[i - 1] == b[i];
    }
  }

  lemma BeforeKeepsHead(a: string, b: string)
    requires a != [] && b != [] && a[0] == b[0] && Before(a[1..], b[1..])
    ensures Before(a, b)
  {
    var a', b' := a[1..], b[1..];
    var i :| 0 <= i <= |a'| && i <= |b'| && a'[..i] == b'[..i]
             && (i == |a'| < |b'| || (i < |a'| && i < |b'| && a'[i] < b'[i]));
    assert a[..i + 1] == [a[0]] + a'[..i];
    assert b[..i + 1] == [b[0]] + b'[..i];
    if i == |a'| {
      assert i + 1 == |a| < |b|;
    } else {
      assert a[i + 1] == a'[i] && b[i + 1] == b'[i];
    }
  }

  /** The character for a decimal digit. */
  function DigitChar(d: nat): char
    requires d < 10
  {
    (48 + d) as char
  }

  /** Decimal digits of a natural number, most significant first, no leading zero. */
  function Digits(n: nat): (s: string)
    ensures |s| > 0
    ensures forall i :: 0 <= i < |s| ==> '0' <= s[i] <= '9'
    ensures n > 0 ==> s[0] != '0'
  {
    if n < 10 then [DigitChar(n)] else Digits(n / 10) + [DigitChar(n % 10)]
  }

  /** A three-digit number is written as its hundreds, tens and units digits. */
  lemma ThreeDigits(n: nat)
    requires 100 <= n <= 999
    ensures Digits(n) == [DigitChar(n / 100), DigitChar(n / 10 % 10), DigitChar(n % 10)]
  {
    assert n / 10 / 10 == n / 100;
    assert Digits(n / 10) == [DigitChar(n / 100), DigitChar(n / 10 % 10)];
  }

  /** The number a string of decimal digits denotes. */
  function DigitsValue(s: string): nat
    requires forall i :: 0 <= i < |s| ==> '0' <= s[i] <= '9'
  {
    if s == [] then 0
    else DigitsValue(s[..|s| - 1]) * 10 + (s[|s| - 1] as int - 48)
  }

  /** strconv.Itoa: decimal form, with a leading '-' for negative numbers. */
  function Itoa(n: int): string {
    if n < 0 then "-" + Digits(-n) else Digits(n)
  }

  /** The number a string produced by Itoa denotes (what strconv.Atoi reads back). */
  function ItoaValue(s: string): int
    requires |s| > 0
    requires s[0] == '-' ==> forall i :: 1 <= i < |s| ==> '0' <= s[i] <= '9'
    requires s[0] != '-' ==> forall i :: 0 <= i < |s| ==> '0' <= s[i] <= '9'
  {
    if s[0] == '-' then -(DigitsValue(s[1..]) as int) else DigitsValue(s)
  }

  lemma {:induction false} DigitsRoundTrip(n: nat)
    ensures DigitsValue(Digits(n)) == n
  {
    var s := Digits(n);
    if n >= 10 {
      DigitsRoundTrip(n / 10);
      assert s[..|s| - 1] == Digits(n / 10);
    }
  }

  /** Itoa loses nothing: the decimal string reads back as the same number. */
  lemma ItoaRoundTrip(n: int)
    ensures ItoaValue(Itoa(n)) == n
  {
    if n < 0 {
      DigitsRoundTrip(-n);
      assert Itoa(n)[1..] == Digits(-n);
    } else {
      DigitsRoundTrip(n);
    }
  }

  /** Different numbers have different decimal strings. */
  lemma ItoaInjective(m: int, n: int)
    requires Itoa(m) == Itoa(n)
    ensures m == n
  {
    ItoaRoundTrip(m);
    ItoaRoundTrip(n);
  }
}
