/** Small shared vocabulary: optional values, sequence filtering, the
    number-to-text conversions that JavaScript's `toString`, `padStart` and
    template literals perform, `Array.prototype.join` and
    `String.prototype.includes`. */
module Common {

  datatype Option<T> = None | Some(value: T)

  function Min(a: int, b: int): int { if a <= b then a else b }
  function Max(a: int, b: int): int { if a >= b then a else b }
  function MinReal(a: real, b: real): real { if a <= b then a else b }
  function MaxReal(a: real, b: real): real { if a >= b then a else b }

  /** `Math.round`: the nearest integer, halves rounded up. */
  function Round(x: real): (r: int)
    ensures x - 0.5 < r as real <= x + 0.5
  {
    (x + 0.5).Floor
  }

  /** Rounding a value between two integers stays between them. */
  lemma RoundBetween(x: real, lo: int, hi: int)
    ensures lo as real <= x <= hi as real ==> lo <= Round(x) <= hi
  {
  }

  // ---------------------------------------------------------------------
  // Array.prototype.filter

  /** The elements of `s` that satisfy `p`, in their original order. */
  function Filter<T>(s: seq<T>, p: T -> bool): (r: seq<T>)
    ensures |r| <= |s|
    ensures forall i :: 0 <= i < |r| ==> p(r[i])
  {
    if s == [] then [] else (if p(s[0]) then [s[0]] else []) + Filter(s[1..], p)
  }

  /** Filtering keeps every occurrence of each element that satisfies `p`
      and none of the others. */
  lemma {:induction false} FilterCount<T>(s: seq<T>, p: T -> bool, x: T)
    ensures multiset(Filter(s, p))[x] == if p(x) then multiset(s)[x] else 0
  {
    if s != [] {
      assert s == [s[0]] + s[1..];
      FilterCount(s[1..], p, x);
    }
  }

  /** Filtering one more element at the end extends the result by that element
      or by nothing: the step of a left-to-right `forEach`. */
  lemma {:induction false} FilterSnoc<T>(s: seq<T>, x: T, p: T -> bool)
    ensures Filter(s + [x], p) == Filter(s, p) + (if p(x) then [x] else [])
  {
    if s == [] {
      assert s + [x] == [x];
    } else {
      assert (s + [x])[1..] == s[1..] + [x];
      FilterSnoc(s[1..], x, p);
    }
  }

  /** Filtering distributes over concatenation. */
  lemma {:induction false} FilterAppend<T>(a: seq<T>, b: seq<T>, p: T -> bool)
    ensures Filter(a + b, p) == Filter(a, p) + Filter(b, p)
  {
    if a != [] {
      assert (a + b)[1..] == a[1..] + b;
      FilterAppend(a[1..], b, p);
    } else {
      assert a + b == b;
    }
  }

  /** Filtering with a predicate every element satisfies changes nothing. */
  lemma {:induction false} FilterAll<T>(s: seq<T>, p: T -> bool)
    requires forall i :: 0 <= i < |s| ==> p(s[i])
    ensures Filter(s, p) == s
  {
    if s != [] {
      FilterAll(s[1..], p);
    }
  }

  /** No element occurs twice. */
  predicate Distinct<T(==)>(s: seq<T>)
  {
    forall i, j :: 0 <= i < j < |s| ==> s[i] != s[j]
  }

  // ---------------------------------------------------------------------
  // Number.prototype.toString(base) for non-negative integers, and its inverse

  const DigitAlphabet: string := "0123456789abcdef"

  predicate ValidBase(base: int) { 2 <= base <= 16 }

  function DigitChar(d: nat): char
    requires d < 16
  {
    DigitAlphabet[d]
  }

  /** Value of a lower-case digit character; -1 for anything else. */
  function DigitValue(c: char): (v: int)
    ensures -1 <= v < 16
    ensures 0 <= v ==> DigitChar(v) == c
  {
    if '0' <= c <= '9' then c as int - '0' as int
    else if 'a' <= c <= 'f' then c as int - 'a' as int + 10
    else -1
  }

  lemma DigitValueOfChar(d: nat)
    requires d < 16
    ensures DigitValue(DigitChar(d)) == d
  {
  }

  predicate IsDigitString(s: string, base: int)
  {
    forall i :: 0 <= i < |s| ==> 0 <= DigitValue(s[i]) < base
  }

  /** The digits of `n` in `base`, most significant first, without leading
      zeros ("0" for zero), as `n.toString(base)` prints them. */
  function NatToString(n: nat, base: nat): (s: string)
    requires ValidBase(base)
    ensures |s| >= 1
    ensures IsDigitString(s, base)
    ensures n > 0 ==> s[0] != '0'
    ensures |s| > 1 ==> s[0] != '0'
  {
    if n < base then
      DigitValueOfChar(n);
      [DigitChar(n)]
    else
      var q, d := n / base, n % base;
      assert 0 <= d < base && 1 <= q < n by { DivModFacts(n, base); }
      var prefix := NatToString(q, base);
      AppendDigit(prefix, d, base);
      prefix + [DigitChar(d)]
  }

  /** Appending a digit keeps a digit string and its first character. */
  lemma AppendDigit(prefix: string, d: nat, base: nat)
    requires ValidBase(base) && d < base && IsDigitString(prefix, base)
    ensures IsDigitString(prefix + [DigitChar(d)], base)
    ensures |prefix| >= 1 ==> (prefix + [DigitChar(d)])[0] == prefix[0]
  {
    DigitValueOfChar(d);
    var s := prefix + [DigitChar(d)];
    forall i | 0 <= i < |s| ensures 0 <= DigitValue(s[i]) < base {
      if i < |prefix| {
        assert s[i] == prefix[i];
      }
    }
  }

  lemma DivModFacts(n: nat, base: nat)
    requires ValidBase(base) && n >= base
    ensures 0 <= n % base < base && 1 <= n / base < n
    ensures n == (n / base) * base + n % base
  {
  }

  /** The number a string of digits denotes in `base`. */
  function DigitsValue(s: string, base: nat): int
    requires ValidBase(base)
  {
    if s == [] then 0
    else DigitsValue(s[..|s| - 1], base) * base + DigitValue(s[|s| - 1])
  }

  lemma DigitsValueLast(s: string, base: nat)
    requires ValidBase(base) && |s| >= 1
    ensures DigitsValue(s, base) == DigitsValue(s[..|s| - 1], base) * base + DigitValue(s[|s| - 1])
  {
  }

  function Pow(base: nat, k: nat): (r: nat)
    ensures base > 0 ==> r > 0
  {
    if k == 0 then 1 else base * Pow(base, k - 1)
  }

  /** Printing and then reading back a number gives the number. */
  lemma {:induction false} NatToStringRoundTrip(n: nat, base: nat)
    requires ValidBase(base)
    ensures DigitsValue(NatToString(n, base), base) == n
  {
    var s := NatToString(n, base);
    if n < base {
      DigitValueOfChar(n);
      assert s[..|s| - 1] == [];
    } else {
      var q, d := n / base, n % base;
      DivModFacts(n, base);
      NatToStringRoundTrip(q, base);
      DigitValueOfChar(d);
      assert s == NatToString(q, base) + [DigitChar(d)];
      assert s[..|s| - 1] == NatToString(q, base);
      assert DigitsValue(s, base) == q * base + d;
    }
  }

  lemma DigitStepBound(v: int, d: int, p: int, base: int)
    requires 0 <= v < p && 0 <= d < base
    ensures 0 <= v * base + d < p * base
  {
    assert v * base <= (p - 1) * base == p * base - base;
  }

  lemma ShiftDistributes(va: int, vb: int, p: int, base: int)
    ensures (va * p + vb) * base == va * (base * p) + vb * base
  {
  }

  /** A digit string of length k denotes a value below base^k. */
  lemma {:induction false} DigitsValueBound(s: string, base: nat)
    requires ValidBase(base) && IsDigitString(s, base)
    ensures 0 <= DigitsValue(s, base) < Pow(base, |s|)
  {
    if s != [] {
      var init := s[..|s| - 1];
      assert IsDigitString(init, base) by {
        forall i | 0 <= i < |init| ensures 0 <= DigitValue(init[i]) < base {
          assert init[i] == s[i];
        }
      }
      DigitsValueBound(init, base);
      var v, d, p := DigitsValue(init, base), DigitValue(s[|s| - 1]), Pow(base, |init|);
      DigitStepBound(v, d, p, base);
      assert DigitsValue(s, base) == v * base + d;
      assert Pow(base, |s|) == base * p;
    }
  }

  /** Reading a concatenation: the prefix is shifted by the length of the suffix. */
  lemma {:induction false} DigitsValueAppend(a: string, b: string, base: nat)
    requires ValidBase(base)
    ensures DigitsValue(a + b, base) == DigitsValue(a, base) * Pow(base, |b|) + DigitsValue(b, base)
  {
    if b == [] {
      assert a + b == a;
    } else {
      var b' := b[..|b| - 1];
      var last := DigitValue(b[|b| - 1]);
      assert (a + b)[..|a + b| - 1] == a + b';
      assert (a + b)[|a + b| - 1] == b[|b| - 1];
      DigitsValueAppend(a, b', base);
      var va, vb, p := DigitsValue(a, base), DigitsValue(b', base), Pow(base, |b'|);
      assert DigitsValue(a + b, base) == (va * p + vb) * base + last;
      assert DigitsValue(b, base) == vb * base + last;
      assert Pow(base, |b|) == base * p;
      ShiftDistributes(va, vb, p, base);
    }
  }

  /** Two digit strings of one length that denote the same number are the
      same string. */
  lemma {:induction false} DigitsValueInjective(a: string, b: string, base: nat)
    requires ValidBase(base) && IsDigitString(a, base) && IsDigitString(b, base)
    requires |a| == |b| && DigitsValue(a, base) == DigitsValue(b, base)
    ensures a == b
  {
    if a != [] {
      var a', b' := a[..|a| - 1], b[..|b| - 1];
      DigitStringInit(a, base);
      DigitStringInit(b, base);
      DigitsValueBound(a', base);
      DigitsValueBound(b', base);
      var da, db := DigitValue(a[|a| - 1]), DigitValue(b[|b| - 1]);
      DigitSplitUnique(DigitsValue(a', base), da, DigitsValue(b', base), db, base);
      DigitsValueInjective(a', b', base);
      assert a[|a| - 1] == DigitChar(da) == b[|b| - 1];
      assert a == a' + [a[|a| - 1]] && b == b' + [b[|b| - 1]];
    }
  }

  lemma DigitStringInit(s: string, base: nat)
    requires IsDigitString(s, base) && |s| >= 1
    ensures IsDigitString(s[..|s| - 1], base)
  {
    var init := s[..|s| - 1];
    forall i | 0 <= i < |init| ensures 0 <= DigitValue(init[i]) < base {
      assert init[i] == s[i];
    }
  }

  /** The last digit and the rest of a number are determined by the number. */
  lemma DigitSplitUnique(va: int, da: int, vb: int, db: int, base: int)
    requires 0 <= da < base && 0 <= db < base && va * base + da == vb * base + db
    ensures va == vb && da == db
  {
    var k := vb - va;
    assert k * base == da - db by { ShiftDifference(va, vb, base); }
    if k != 0 {
      MulAtLeast(k, base);
      assert false;
    }
  }

  lemma ShiftDifference(va: int, vb: int, base: int)
    ensures (vb - va) * base == vb * base - va * base
  {
  }

  /** A non-zero multiple of `base` is at least `base` away from zero. */
  lemma MulAtLeast(k: int, base: int)
    requires k != 0 && base > 0
    ensures k * base >= base || k * base <= -base
  {
    if k > 0 {
      PositiveMultiple(k, base);
    } else {
      PositiveMultiple(-k, base);
      assert (-k) * base == -(k * base);
    }
  }

  lemma {:induction false} PositiveMultiple(k: nat, base: int)
    requires k >= 1 && base > 0
    ensures k * base >= base
  {
    if k > 1 {
      PositiveMultiple(k - 1, base);
      assert k * base == (k - 1) * base + base;
    }
  }

  /** A number's decimal text, with a leading '-' for negatives, as a
      template literal `${n}` prints an integer. */
  function IntToDecimal(i: int): (s: string)
    ensures |s| >= 1
  {
    if i < 0 then "-" + NatToString(-i, 10) else NatToString(i, 10)
  }

  /** `s.padStart(2, "0")`. */
  function PadStart2(s: string): (r: string)
    ensures |r| == if |s| >= 2 then |s| else 2
  {
    if |s| >= 2 then s else seq(2 - |s|, _ => '0') + s
  }

  /** Leading zeros change neither the number a digit string denotes nor
      its being a digit string. */
  lemma PadStart2Value(s: string, base: nat)
    requires ValidBase(base)
    ensures DigitsValue(PadStart2(s), base) == DigitsValue(s, base)
    ensures IsDigitString(s, base) ==> IsDigitString(PadStart2(s), base)
  {
    if |s| < 2 {
      var zeros := seq(2 - |s|, _ => '0');
      DigitsValueAppend(zeros, s, base);
      assert DigitsValue(zeros, base) == 0 by {
        if |zeros| == 2 {
          assert zeros[..1] == "0";
        }
        assert zeros[..|zeros| - 1][..0] == [];
      }
    }
  }

  // ---------------------------------------------------------------------
  // Array.prototype.join and String.prototype.includes

  function Join(parts: seq<string>, sep: string): string
  {
    if parts == [] then ""
    else if |parts| == 1 then parts[0]
    else parts[0] + sep + Join(parts[1..], sep)
  }

  function CountChar(s: string, c: char): nat
  {
    if s == [] then 0 else (if s[0] == c then 1 else 0) + CountChar(s[1..], c)
  }

  lemma {:induction false} CountCharAppend(a: string, b: string, c: char)
    ensures CountChar(a + b, c) == CountChar(a, c) + CountChar(b, c)
  {
    if a != [] {
      assert (a + b)[1..] == a[1..] + b;
      CountCharAppend(a[1..], b, c);
    } else {
      assert a + b == b;
    }
  }

  predicate IsPrefix(p: string, s: string)
  {
    |p| <= |s| && s[..|p|] == p
  }

  /** `hay.includes(needle)`: `needle` occurs at some position of `hay`.
      The empty string occurs in every string. */
  predicate Contains(hay: string, needle: string)
    decreases |hay|
  {
    IsPrefix(needle, hay) || (hay != [] && Contains(hay[1..], needle))
  }

  /** `Contains` means occurring at some offset. */
  lemma {:induction false} ContainsAt(hay: string, needle: string, k: nat)
    requires k + |needle| <= |hay| && hay[k..k + |needle|] == needle
    ensures Contains(hay, needle)
    decreases k
  {
    if k > 0 {
      assert hay[1..][k - 1..k - 1 + |needle|] == hay[k..k + |needle|];
      ContainsAt(hay[1..], needle, k - 1);
    }
  }

  /** `needle` sits in `hay` starting at offset `k`. */
  predicate OccursAt(hay: string, needle: string, k: int)
  {
    0 <= k && k + |needle| <= |hay| && hay[k..k + |needle|] == needle
  }

  /** The converse of `ContainsAt`: `Contains` gives an offset. */
  lemma {:induction false} ContainsOffset(hay: string, needle: string)
    requires Contains(hay, needle)
    ensures exists k :: OccursAt(hay, needle, k)
    decreases |hay|
  {
    if IsPrefix(needle, hay) {
      assert OccursAt(hay, needle, 0);
    } else {
      ContainsOffset(hay[1..], needle);
      var k :| OccursAt(hay[1..], needle, k);
      assert hay[1..][k..k + |needle|] == hay[k + 1..k + 1 + |needle|];
      assert OccursAt(hay, needle, k + 1);
    }
  }
}
