/**
 * String utilities the serializer relies on: Java's `String.compareTo`
 * order, `Integer.toString`, and sorting the keys of a map by the strings
 * they are displayed as (what `Collections.sort` with a `toString`
 * comparator computes when no two displays coincide).
 */
module Strings {

  /** `a.compareTo(b) <= 0`: lexicographic order by character, a proper prefix first. */
  predicate Le(a: string, b: string)
    decreases |a|
  {
    a == [] || (b != [] && (a[0] < b[0] || (a[0] == b[0] && Le(a[1..], b[1..]))))
  }

  /** `a.compareTo(b) < 0`. */
  predicate Lt(a: string, b: string) {
    Le(a, b) && a != b
  }

  lemma {:induction false} LeReflexive(a: string)
    ensures Le(a, a)
    decreases |a|
  {
    if a != [] {
      LeReflexive(a[1..]);
    }
  }

  lemma {:induction false} LeAntisymmetric(a: string, b: string)
    requires Le(a, b) && Le(b, a)
    ensures a == b
    decreases |a|
  {
    if a != [] && b != [] {
      LeAntisymmetric(a[1..], b[1..]);
      assert a == [a[0]] + a[1..] && b == [b[0]] + b[1..];
    }
  }

  lemma {:induction false} LeTotal(a: string, b: string)
    ensures Le(a, b) || Le(b, a)
    decreases |a|
  {
    if a != [] && b != [] && a[0] == b[0] {
      LeTotal(a[1..], b[1..]);
    }
  }

  lemma {:induction false} LeTransitive(a: string, b: string, c: string)
    requires Le(a, b) && Le(b, c)
    ensures Le(a, c)
    decreases |a|
  {
    if a != [] && b != [] && c != [] && a[0] == b[0] && b[0] == c[0] {
      LeTransitive(a[1..], b[1..], c[1..]);
    }
  }

  /** Two strings whose first characters differ are ordered by those characters alone. */
  lemma FirstCharDecides(a: string, b: string)
    requires a != [] && b != [] && a[0] < b[0]
    ensures Lt(a, b) && !Le(b, a)
  {
  }

  lemma AntisymmetricAll()
    ensures forall a, b :: Le(a, b) && Le(b, a) ==> a == b
  {
    forall a, b | Le(a, b) && Le(b, a)
      ensures a == b
    {
      LeAntisymmetric(a, b);
    }
  }

  /** No two keys are displayed alike. */
  ghost predicate Injective(m: map<string, string>) {
    forall u, v :: u in m && v in m && m[u] == m[v] ==> u == v
  }

  /** A key whose display is least among all displays of `m`. */
  predicate IsLeast(m: map<string, string>, u: string) {
    u in m && forall v :: v in m ==> Le(m[u], m[v])
  }

  lemma {:induction false} LeastExists(m: map<string, string>)
    requires m != map[]
    ensures exists u :: IsLeast(m, u)
    decreases |m|
  {
    var x :| x in m;
    if m.Keys == {x} {
      LeReflexive(m[x]);
      assert IsLeast(m, x);
    } else {
      var m' := m - {x};
      assert m'.Keys == m.Keys - {x};
      LeastExists(m');
      var u :| IsLeast(m', u);
      LeTotal(m[u], m[x]);
      if Le(m[u], m[x]) {
        forall v | v in m
          ensures Le(m[u], m[v])
        {
          if v != x {
            assert v in m' && m'[v] == m[v];
          }
        }
        assert IsLeast(m, u);
      } else {
        forall v | v in m
          ensures Le(m[x], m[v])
        {
          if v != x {
            assert v in m' && m'[v] == m[v];
            LeTransitive(m[x], m[u], m[v]);
          } else {
            LeReflexive(m[x]);
          }
        }
        assert IsLeast(m, x);
      }
    }
  }

  /**
   * The keys of `m` ordered by their displays: repeatedly take the key
   * with the least display. The least key is unique because no two keys
   * share a display.
   */
  function SortedKeys(m: map<string, string>): seq<string>
    requires Injective(m)
    decreases |m|
  {
    if m == map[] then []
    else
      LeastExists(m);
      AntisymmetricAll();
      var u :| IsLeast(m, u);
      assert |m - {u}| < |m| by { assert (m - {u}).Keys == m.Keys - {u}; }
      [u] + SortedKeys(m - {u})
  }

  /** Strictly increasing displays. */
  ghost predicate StrictlySortedBy(m: map<string, string>, order: seq<string>) {
    (forall i :: 0 <= i < |order| ==> order[i] in m) &&
    forall i, j :: 0 <= i < j < |order| ==> Lt(m[order[i]], m[order[j]])
  }

  /**
   * Sorting lists every key exactly once, and in strictly increasing order
   * of display.
   */
  lemma {:induction false} SortedKeysSpec(m: map<string, string>)
    requires Injective(m)
    ensures |SortedKeys(m)| == |m|
    ensures forall u :: u in m <==> u in SortedKeys(m)
    ensures StrictlySortedBy(m, SortedKeys(m))
    decreases |m|
  {
    if m != map[] {
      var u := SortedKeysUnfold(m);
      var m' := m - {u};
      SortedKeysSpec(m');
      PrependLeast(m, u, SortedKeys(m'));
    }
  }

  /** A non-empty sort starts with a least key, followed by the sort of the rest. */
  lemma SortedKeysUnfold(m: map<string, string>) returns (u: string)
    requires Injective(m) && m != map[]
    ensures IsLeast(m, u) && (m - {u}).Keys == m.Keys - {u} && |m - {u}| == |m| - 1
    ensures Injective(m - {u}) && SortedKeys(m) == [u] + SortedKeys(m - {u})
  {
    u := SortedKeys(m)[0];
    assert (m - {u}).Keys == m.Keys - {u};
  }

  /** A least key in front of a sort of the other keys gives a sort of all of them. */
  lemma PrependLeast(m: map<string, string>, u: string, rest: seq<string>)
    requires Injective(m) && IsLeast(m, u)
    requires StrictlySortedBy(m - {u}, rest)
    ensures StrictlySortedBy(m, [u] + rest)
  {
    var r := [u] + rest;
    forall i | 0 <= i < |r|
      ensures r[i] in m
    {
      if i > 0 {
        assert r[i] == rest[i - 1] && rest[i - 1] in m - {u};
      }
    }
    forall i, j | 0 <= i < j < |r|
      ensures Lt(m[r[i]], m[r[j]])
    {
      assert r[j] == rest[j - 1] && r[j] in m - {u} && (m - {u})[r[j]] == m[r[j]];
      if i == 0 {
        if m[u] == m[r[j]] {
          assert false;
        }
      } else {
        assert r[i] == rest[i - 1] && r[i] in m - {u} && (m - {u})[r[i]] == m[r[i]];
      }
    }
  }

  /** The character of a decimal digit. */
  function DigitChar(d: nat): (c: char)
    requires d < 10
    ensures IsDigit(c)
  {
    (('0' as int) + d) as char
  }

  predicate IsDigit(c: char) {
    '0' <= c <= '9'
  }

  function DigitValue(c: char): (d: nat)
    requires IsDigit(c)
    ensures d < 10 && DigitChar(d) == c
  {
    (c as int) - ('0' as int)
  }

  /** Decimal notation of a natural number, most significant digit first. */
  function NatToString(n: nat): string
    decreases n
  {
    if n < 10 then [DigitChar(n)] else NatToString(n / 10) + [DigitChar(n % 10)]
  }

  /** `Integer.toString(n)`: a minus sign before the digits of a negative number. */
  function IntToString(n: int): string {
    if n < 0 then "-" + NatToString(-n) else NatToString(n)
  }

  predicate AllDigits(s: string) {
    forall i :: 0 <= i < |s| ==> IsDigit(s[i])
  }

  /** The number a string of decimal digits denotes. */
  function ParseNat(s: string): nat
    requires AllDigits(s)
    decreases |s|
  {
    if s == [] then 0 else ParseNat(s[..|s| - 1]) * 10 + DigitValue(s[|s| - 1])
  }

  /** Reading back a decimal string gives the number. */
  lemma {:induction false} NatToStringRoundTrip(n: nat)
    ensures NatToString(n) != [] && AllDigits(NatToString(n))
    ensures ParseNat(NatToString(n)) == n
    decreases n
  {
    if n >= 10 {
      NatToStringRoundTrip(n / 10);
      var s := NatToString(n);
      assert s[..|s| - 1] == NatToString(n / 10);
    }
  }

  /** An optionally signed decimal numeral, with at least one digit. */
  predicate IsIntLiteral(s: string) {
    s != [] && (s[0] == '-' ==> |s| >= 2 && AllDigits(s[1..])) && (s[0] != '-' ==> AllDigits(s))
  }

  /** Digits without a leading zero, except for `0` itself. */
  predicate CanonicalDigits(s: string) {
    s != [] && AllDigits(s) && (s[0] == '0' ==> s == "0")
  }

  /** The numeral `Integer.toString` prints: canonical digits, and no `-0`. */
  predicate CanonicalInt(s: string) {
    s != [] && (s[0] == '-' ==> CanonicalDigits(s[1..]) && s[1..] != "0") && (s[0] != '-' ==> CanonicalDigits(s))
  }

  /** A numeral that does not start with `0` denotes a positive number. */
  lemma {:induction false} LeadingNonZeroPositive(s: string)
    requires s != [] && AllDigits(s) && s[0] != '0'
    ensures ParseNat(s) >= 1
    decreases |s|
  {
    if |s| > 1 {
      LeadingNonZeroPositive(s[..|s| - 1]);
    }
  }

  /** The decimal form of a natural number has no leading zero. */
  lemma {:induction false} NatToStringCanonical(n: nat)
    ensures CanonicalDigits(NatToString(n))
    decreases n
  {
    NatToStringRoundTrip(n);
    if n >= 10 {
      NatToStringCanonical(n / 10);
      NatToStringRoundTrip(n / 10);
      assert NatToString(n / 10) != "0";
      assert NatToString(n)[0] == NatToString(n / 10)[0];
    }
  }

  /** A canonical numeral is the decimal form of the number it denotes: the text is unique. */
  lemma {:induction false} CanonicalDigitsUnique(s: string)
    requires CanonicalDigits(s)
    ensures s == NatToString(ParseNat(s))
    decreases |s|
  {
    if |s| == 1 {
      assert s == [DigitChar(DigitValue(s[0]))];
    } else {
      var init := s[..|s| - 1];
      assert init[0] == s[0] != '0';
      LeadingNonZeroPositive(init);
      CanonicalDigitsUnique(init);
      var m := ParseNat(s);
      assert m / 10 == ParseNat(init) && m % 10 == DigitValue(s[|s| - 1]);
      assert s == init + [s[|s| - 1]];
    }
  }

  /** The number an optionally signed decimal string denotes. */
  function ParseInt(s: string): int
    requires IsIntLiteral(s)
  {
    if s[0] == '-' then 0 - ParseNat(s[1..]) as int else ParseNat(s)
  }

  /** `Integer.parseInt(Integer.toString(n)) == n`. */
  lemma IntToStringRoundTrip(n: int)
    ensures IsIntLiteral(IntToString(n)) && ParseInt(IntToString(n)) == n
  {
    if n < 0 {
      NatToStringRoundTrip(-n);
      assert IntToString(n)[1..] == NatToString(-n);
    } else {
      NatToStringRoundTrip(n);
    }
  }

  /** `Integer.toString` prints the canonical numeral. */
  lemma IntToStringCanonical(n: int)
    ensures CanonicalInt(IntToString(n))
  {
    if n < 0 {
      var digits := NatToString(-n);
      NatToStringCanonical(-n);
      NatToStringRoundTrip(-n);
      assert ParseNat("0") == 0;
      var s := "-" + digits;
      assert s[0] == '-' && s[1..] == digits;
    } else {
      NatToStringCanonical(n);
    }
  }

  /** A canonical numeral is the one `Integer.toString` prints for the number it denotes. */
  lemma CanonicalIntUnique(s: string)
    requires CanonicalInt(s)
    ensures IsIntLiteral(s) && s == IntToString(ParseInt(s))
  {
    if s[0] == '-' {
      CanonicalDigitsUnique(s[1..]);
      LeadingNonZeroPositive(s[1..]);
      assert s == "-" + s[1..];
    } else {
      CanonicalDigitsUnique(s);
    }
  }

  /** Distinct numbers are written differently. */
  lemma NatToStringInjective(a: nat, b: nat)
    requires NatToString(a) == NatToString(b)
    ensures a == b
  {
    NatToStringRoundTrip(a);
    NatToStringRoundTrip(b);
  }
}
