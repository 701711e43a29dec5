/** The range argument parser of randcat: parse_range accepts `N` or `N:M`
    and accumulates decimal digits into the caller's `min` and `max`. */
module Range {
  import opened Options

  predicate IsDigit(c: char) { '0' <= c <= '9' }

  /** The characters parse_range does not reject outright. */
  predicate IsRangeChar(c: char) { IsDigit(c) || c == ':' }

  predicate AllDigits(s: string) { forall i :: 0 <= i < |s| ==> IsDigit(s[i]) }

  function DigitValue(c: char): int { c as int - '0' as int }

  /** Number of ':' characters in s. */
  function Colons(s: string): nat
  {
    if s == [] then 0
    else Colons(s[..|s| - 1]) + (if s[|s| - 1] == ':' then 1 else 0)
  }

  /** The strings parse_range accepts: digits with at most one ':' among them. */
  predicate WellFormed(s: string)
  {
    (forall i :: 0 <= i < |s| ==> IsRangeChar(s[i])) && Colons(s) <= 1
  }

  /** The value `*cur = *cur * 10 + digit` reaches from v after the characters d. */
  function Accumulate(v: int, d: string): int
  {
    if d == [] then v
    else Accumulate(v, d[..|d| - 1]) * 10 + DigitValue(d[|d| - 1])
  }

  /** Position of the first ':' of s, or |s| when s has none. */
  function ColonIndex(s: string): (k: nat)
    ensures k <= |s|
    ensures k < |s| ==> s[k] == ':'
    ensures forall i :: 0 <= i < k ==> s[i] != ':'
  {
    if s == [] || s[0] == ':' then 0 else 1 + ColonIndex(s[1..])
  }

  /** The (min, max) pair a successful parse of s leaves, starting from (min0, max0):
      the digits before the first ':' go to min, those after it to max. */
  function RangeValue(s: string, min0: int, max0: int): (int, int)
  {
    var k := ColonIndex(s);
    if k == |s| then (Accumulate(min0, s), max0)
    else (Accumulate(min0, s[..k]), Accumulate(max0, s[k + 1..]))
  }

  /** parse_range as its callers in main use it, from zeroed outputs: the
      values it accepts are never negative. */
  function ParseOutcome(s: string): (r: Option<(int, int)>)
    ensures r.Some? ==> r.value.0 >= 0 && r.value.1 >= 0
  {
    if WellFormed(s) then
      AcceptedRangeNonNegative(s);
      Some(RangeValue(s, 0, 0))
    else None
  }

  lemma {:induction false} ColonsOfPrefix(s: string, i: nat)
    requires i <= |s|
    ensures Colons(s[..i]) <= Colons(s)
    decreases |s|
  {
    if i < |s| {
      assert s[..|s| - 1][..i] == s[..i];
      ColonsOfPrefix(s[..|s| - 1], i);
    } else {
      assert s[..i] == s;
    }
  }

  /** parse_range: rc is 0 exactly for well-formed input, and then the outputs
      hold the decimal values of the two sides, accumulated onto min0 and max0. */
  method ParseRange(s: string, min0: int, max0: int) returns (rc: int, min: int, max: int)
    ensures rc == 0 || rc == -1
    ensures rc == 0 <==> WellFormed(s)
    ensures rc == 0 ==> (min, max) == RangeValue(s, min0, max0)
  {
    min, max := min0, max0;
    var onMax := false;  // cur == max
    var i := 0;
    while i < |s|
      invariant 0 <= i <= |s|
      invariant forall j :: 0 <= j < i ==> IsRangeChar(s[j])
      invariant Colons(s[..i]) == (if onMax then 1 else 0)
      invariant !onMax ==> ColonIndex(s) >= i && min == Accumulate(min0, s[..i]) && max == max0
      invariant onMax ==> ColonIndex(s) < i
                          && min == Accumulate(min0, s[..ColonIndex(s)])
                          && max == Accumulate(max0, s[ColonIndex(s) + 1..i])
    {
      var c := s[i];
      assert s[..i + 1][..i] == s[..i];
      if c == ':' {
        if onMax {
          ColonsOfPrefix(s, i + 1);
          return -1, min, max;
        }
        onMax := true;
        assert s[..i] == s[..ColonIndex(s)];
        assert s[ColonIndex(s) + 1..i + 1] == [];
      } else if IsDigit(c) {
        if onMax {
          var k := ColonIndex(s);
          assert s[k + 1..i + 1][..i - k - 1] == s[k + 1..i];
          max := max * 10 + DigitValue(c);
        } else {
          min := min * 10 + DigitValue(c);
        }
      } else {
        return -1, min, max;
      }
      i := i + 1;
    }
    assert s[..i] == s;
    rc := 0;
  }

  /** The decimal numeral of n, without leading zeros. */
  function Show(n: nat): (s: string)
    ensures |s| >= 1
  {
    if n < 10 then [('0' as int + n) as char]
    else Show(n / 10) + [('0' as int + n % 10) as char]
  }

  lemma {:induction false} ShowIsNumeral(n: nat)
    ensures AllDigits(Show(n))
    ensures Accumulate(0, Show(n)) == n
  {
    var s := Show(n);
    if n >= 10 {
      ShowIsNumeral(n / 10);
      assert s[..|s| - 1] == Show(n / 10);
    }
  }

  function Pow10(k: nat): nat { if k == 0 then 1 else 10 * Pow10(k - 1) }

  /** Digits accumulated onto a non-zero start shift it left: the result
      depends on the caller having zeroed the outputs. */
  lemma {:induction false} AccumulateShifts(v: int, d: string)
    ensures Accumulate(v, d) == v * Pow10(|d|) + Accumulate(0, d)
  {
    if d != [] {
      AccumulateShifts(v, d[..|d| - 1]);
      assert Pow10(|d|) == 10 * Pow10(|d| - 1);
    }
  }

  lemma {:induction false} ColonsAppend(a: string, b: string)
    ensures Colons(a + b) == Colons(a) + Colons(b)
    decreases |b|
  {
    if b == [] {
      assert a + b == a;
    } else {
      assert (a + b)[..|a + b| - 1] == a + b[..|b| - 1];
      ColonsAppend(a, b[..|b| - 1]);
    }
  }

  lemma {:induction false} DigitsHaveNoColon(d: string)
    requires AllDigits(d)
    ensures Colons(d) == 0
    decreases |d|
  {
    if d != [] {
      DigitsHaveNoColon(d[..|d| - 1]);
    }
  }

  /** A string of digits alone is accepted and sets only the min. */
  lemma DigitsOnly(a: string)
    requires AllDigits(a)
    ensures WellFormed(a) && RangeValue(a, 0, 0) == (Accumulate(0, a), 0)
  {
    DigitsHaveNoColon(a);
  }

  /** Digits, one ':', digits: accepted, each side going to its output. */
  lemma DigitsAroundColon(a: string, b: string)
    requires AllDigits(a) && AllDigits(b)
    ensures WellFormed(a + ":" + b)
    ensures RangeValue(a + ":" + b, 0, 0) == (Accumulate(0, a), Accumulate(0, b))
  {
    var s := a + ":" + b;
    DigitsHaveNoColon(a);
    DigitsHaveNoColon(b);
    ColonsAppend(a, ":");
    ColonsAppend(a + ":", b);
    assert Colons(":") == 1;
    forall i | 0 <= i < |s| ensures IsRangeChar(s[i]) {
      if i < |a| { assert s[i] == a[i]; }
      else if i > |a| { assert s[i] == b[i - |a| - 1]; }
    }
    var k := ColonIndex(s);
    assert s[|a|] == ':';
    assert forall i :: 0 <= i < |a| ==> s[i] == a[i];
    assert k == |a|;
    assert s[..k] == a;
    assert s[k + 1..] == b;
  }

  /** "N" sets only the min: max keeps its zeroed value. */
  lemma SingleNumber(n: nat)
    ensures ParseOutcome(Show(n)) == Some((n as int, 0))
  {
    ShowIsNumeral(n);
    DigitsOnly(Show(n));
  }

  /** "N:M" round-trips to (N, M). */
  lemma NumberPair(n: nat, m: nat)
    ensures ParseOutcome(Show(n) + ":" + Show(m)) == Some((n as int, m as int))
  {
    ShowIsNumeral(n);
    ShowIsNumeral(m);
    DigitsAroundColon(Show(n), Show(m));
  }

  /** An empty side contributes 0; "" and ":" are accepted as (0, 0). */
  lemma EmptySides(n: nat, m: nat)
    ensures ParseOutcome(":" + Show(m)) == Some((0, m as int))
    ensures ParseOutcome(Show(n) + ":") == Some((n as int, 0))
    ensures ParseOutcome("") == Some((0, 0))
    ensures ParseOutcome(":") == Some((0, 0))
  {
    EmptyMin(m);
    EmptyMax(n);
    DigitsAroundColon("", "");
    assert "" + ":" + "" == ":";
    DigitsOnly("");
  }

  lemma EmptyMin(m: nat)
    ensures ParseOutcome(":" + Show(m)) == Some((0, m as int))
  {
    ShowIsNumeral(m);
    DigitsAroundColon("", Show(m));
    assert "" + ":" + Show(m) == ":" + Show(m);
  }

  lemma EmptyMax(n: nat)
    ensures ParseOutcome(Show(n) + ":") == Some((n as int, 0))
  {
    ShowIsNumeral(n);
    DigitsAroundColon(Show(n), "");
    assert Show(n) + ":" + "" == Show(n) + ":";
  }

  /** A second ':' anywhere makes parse_range fail. */
  lemma SecondColonRejected(a: string, b: string, c: string)
    ensures ParseOutcome(a + ":" + b + ":" + c) == None
  {
    ColonsAppend(a, ":");
    ColonsAppend(a + ":", b);
    ColonsAppend(a + ":" + b, ":");
    ColonsAppend(a + ":" + b + ":", c);
    assert Colons(":") == 1;
  }

  /** Any character other than a digit or ':' makes parse_range fail. */
  lemma ForeignCharRejected(a: string, c: char, b: string)
    requires !IsRangeChar(c)
    ensures ParseOutcome(a + [c] + b) == None
  {
    assert (a + [c] + b)[|a|] == c;
  }

  lemma {:induction false} ColonFreeHasNoColon(d: string)
    requires Colons(d) == 0
    ensures forall i :: 0 <= i < |d| ==> d[i] != ':'
    decreases |d|
  {
    if d != [] {
      ColonFreeHasNoColon(d[..|d| - 1]);
      assert forall i :: 0 <= i < |d| - 1 ==> d[i] == d[..|d| - 1][i];
    }
  }

  lemma {:induction false} DigitsAccumulateNonNegative(v: int, d: string)
    requires v >= 0 && (forall i :: 0 <= i < |d| ==> IsRangeChar(d[i]) && d[i] != ':')
    ensures Accumulate(v, d) >= 0
    decreases |d|
  {
    if d != [] {
      DigitsAccumulateNonNegative(v, d[..|d| - 1]);
    }
  }

  /** Every value parse_range accepts is a pair of non-negative numbers. */
  lemma AcceptedRangeNonNegative(v: string)
    requires WellFormed(v)
    ensures RangeValue(v, 0, 0).0 >= 0 && RangeValue(v, 0, 0).1 >= 0
  {
    var k := ColonIndex(v);
    DigitsAccumulateNonNegative(0, v[..k]);
    if k < |v| {
      var rest := v[k + 1..];
      assert v == v[..k] + [':'] + rest;
      ColonsAppend(v[..k], [':']);
      ColonsAppend(v[..k] + [':'], rest);
      assert Colons([':']) == 1;
      ColonFreeHasNoColon(rest);
      DigitsAccumulateNonNegative(0, rest);
    } else {
      assert v[..k] == v;
    }
  }
}
