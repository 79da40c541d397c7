/** Go's `strconv.ParseInt(s, 10, 64)` and `strconv.FormatInt(x, 10)`: the
    archive loop takes a tweet id from the first CSV field with the former, and
    the timeline walker writes its `max_id` request parameter with the latter. */
module GoStrconv {
  import opened GoTypes

  const MaxUint64: int := 0xffff_ffff_ffff_ffff
  /** `1 << 63`, ParseInt's cutoff for a 64-bit result. */
  const Cutoff63: int := 0x8000_0000_0000_0000

  datatype NumError = ErrSyntax | ErrRange
  /** The pair `(i int64, err error)` that ParseInt returns. */
  datatype Parsed = Parsed(value: int64, err: Option<NumError>)

  predicate IsDigit(c: char) { '0' <= c <= '9' }

  function DigitValue(c: char): (d: nat)
    requires IsDigit(c)
    ensures d < 10
  {
    c as int - '0' as int
  }

  function DigitChar(d: nat): (c: char)
    requires d < 10
    ensures IsDigit(c) && DigitValue(c) == d
  {
    ('0' as int + d) as char
  }

  predicate AllDigits(s: string) { forall i :: 0 <= i < |s| ==> IsDigit(s[i]) }

  function Pow10(k: nat): (p: nat)
    ensures p >= 1
  {
    if k == 0 then 1 else 10 * Pow10(k - 1)
  }

  /** The value of a string of decimal digits, most significant first. */
  function DecValue(s: string): nat
    requires AllDigits(s)
  {
    if s == [] then 0 else DigitValue(s[0]) * Pow10(|s| - 1) + DecValue(s[1..])
  }

  /** ParseUint's digit loop in base 10 with 64-bit result, continuing from the
      accumulated value `n`: a non-digit is a syntax error with value 0; the first
      step whose exact value would exceed MaxUint64 is a range error with value
      MaxUint64, whatever follows it. */
  function DigitLoop(s: string, n: nat): (r: (nat, Option<NumError>))
    requires n <= MaxUint64
    ensures r.1 == Some(ErrSyntax) ==> r.0 == 0
    ensures r.1 == Some(ErrRange) ==> r.0 == MaxUint64
    decreases |s|
  {
    if s == [] then (n, None)
    else if !IsDigit(s[0]) then (0, Some(ErrSyntax))
    else
      var n1 := n * 10 + DigitValue(s[0]);
      if n1 > MaxUint64 then (MaxUint64, Some(ErrRange))
      else DigitLoop(s[1..], n1)
  }

  function ParseUint(s: string): (nat, Option<NumError>)
  {
    if s == [] then (0, Some(ErrSyntax)) else DigitLoop(s, 0)
  }

  /** A decimal numeral as ParseInt accepts it: an optional sign, then one or more digits. */
  predicate IsNumeral(s: string)
  {
    |s| > 0 &&
    var body := if s[0] == '+' || s[0] == '-' then s[1..] else s;
    |body| > 0 && AllDigits(body)
  }

  /** The exact (unbounded) value of a numeral. */
  function NumeralValue(s: string): int
    requires IsNumeral(s)
  {
    if s[0] == '-' then -(DecValue(s[1..]) as int)
    else if s[0] == '+' then DecValue(s[1..])
    else DecValue(s)
  }

  /** strconv.ParseInt(s, 10, 64): the sign is taken off, the rest goes through
      ParseUint, a syntax error yields 0 and an out-of-range value is clamped. */
  function ParseInt(s: string): (r: Parsed)
    ensures r.err == Some(ErrSyntax) ==> r.value == 0
    ensures r.err == Some(ErrRange) ==> s != [] && r.value == (if s[0] == '-' then MinInt64 else MaxInt64)
  {
    if s == [] then Parsed(0, Some(ErrSyntax))
    else
      var neg := s[0] == '-';
      var body := if s[0] == '+' || s[0] == '-' then s[1..] else s;
      var (un, err) := ParseUint(body);
      if err == Some(ErrSyntax) then Parsed(0, err)
      else if !neg && un >= Cutoff63 then Parsed(MaxInt64, Some(ErrRange))
      else if neg && un > Cutoff63 then Parsed(MinInt64, Some(ErrRange))
      else Parsed(if neg then -(un as int) else un, None)
  }

  /** strconv.FormatUint(n, 10): decimal digits with no leading zero. */
  function FormatUint(n: nat): (s: string)
    ensures |s| > 0 && AllDigits(s)
    ensures |s| > 1 ==> s[0] != '0'
  {
    if n < 10 then [DigitChar(n)] else FormatUint(n / 10) + [DigitChar(n % 10)]
  }

  /** strconv.FormatInt(x, 10). */
  function FormatInt(x: int64): (s: string)
    ensures IsNumeral(s) && s[0] != '+'
  {
    if x < 0 then "-" + FormatUint(-(x as int)) else FormatUint(x)
  }

  lemma {:induction false} DecValueAppend(s: string, c: char)
    requires AllDigits(s) && IsDigit(c)
    ensures AllDigits(s + [c]) && DecValue(s + [c]) == DecValue(s) * 10 + DigitValue(c)
  {
    if s != [] {
      var t := s + [c];
      assert t[0] == s[0] && t[1..] == s[1..] + [c];
      DecValueAppend(s[1..], c);
      var d, p, v := DigitValue(s[0]), Pow10(|s| - 1), DecValue(s[1..]);
      assert Pow10(|t| - 1) == 10 * p;
      assert DecValue(t) == d * (10 * p) + (v * 10 + DigitValue(c));
      assert DecValue(s) == d * p + v;
      MulShift(d, p);
    }
  }

  lemma MulShift(d: int, p: int)
    ensures d * (10 * p) == (d * p) * 10
  {
  }

  lemma {:induction false} FormatUintValue(n: nat)
    ensures DecValue(FormatUint(n)) == n
  {
    if n >= 10 {
      FormatUintValue(n / 10);
      DecValueAppend(FormatUint(n / 10), DigitChar(n % 10));
    }
  }

  lemma {:induction false} DecValueBound(s: string)
    requires AllDigits(s)
    ensures DecValue(s) < Pow10(|s|)
  {
    if s != [] {
      DecValueBound(s[1..]);
      var p := Pow10(|s| - 1);
      assert DecValue(s) == DigitValue(s[0]) * p + DecValue(s[1..]);
      LeadingDigitBound(DigitValue(s[0]), p, DecValue(s[1..]));
      assert Pow10(|s|) == 10 * p;
    }
  }

  lemma LeadingDigitBound(d: int, p: int, v: int)
    requires 0 <= d <= 9 && 0 <= v < p
    ensures d * p + v < 10 * p
  {
    assert d * p <= 9 * p;
  }

  /** The digit loop computes the exact value of an all-digit string whenever
      that value fits in 64 bits, and reports success only for such strings. */
  lemma {:induction false} DigitLoopExact(s: string, n: nat)
    requires n <= MaxUint64
    ensures AllDigits(s) && n * Pow10(|s|) + DecValue(s) <= MaxUint64 ==>
              DigitLoop(s, n) == (n * Pow10(|s|) + DecValue(s), None)
    ensures DigitLoop(s, n).1 == None ==>
              AllDigits(s) && DigitLoop(s, n).0 == n * Pow10(|s|) + DecValue(s) <= MaxUint64
    decreases |s|
  {
    if s != [] && IsDigit(s[0]) {
      var d := DigitValue(s[0]);
      var n1 := n * 10 + d;
      var rest := s[1..];
      if AllDigits(s) {
        assert AllDigits(rest);
        StepValue(n, d, Pow10(|rest|), DecValue(rest));
        assert n * Pow10(|s|) + DecValue(s) == n1 * Pow10(|rest|) + DecValue(rest);
      }
      if n1 <= MaxUint64 {
        DigitLoopExact(rest, n1);
        if DigitLoop(s, n).1 == None {
          assert AllDigits(rest);
          assert forall i :: 0 <= i < |s| ==> IsDigit(s[i]) by {
            forall i | 0 <= i < |s| ensures IsDigit(s[i]) {
              if i > 0 { assert s[i] == rest[i - 1]; }
            }
          }
          StepValue(n, d, Pow10(|rest|), DecValue(rest));
        }
      }
    }
  }

  /** One step of the digit loop, as arithmetic: shifting the accumulator in
      front of the remaining digits. */
  lemma StepValue(n: nat, d: nat, p: nat, v: nat)
    requires p >= 1
    ensures n * (10 * p) + (d * p + v) == (n * 10 + d) * p + v
    ensures n * 10 + d <= (n * 10 + d) * p + v
  {
  }

  /** ParseInt succeeds exactly on the numerals whose value fits in int64,
      and then returns that value. */
  lemma ParseIntSucceedsIff(s: string)
    ensures ParseInt(s).err == None <==> IsNumeral(s) && MinInt64 <= NumeralValue(s) <= MaxInt64
    ensures ParseInt(s).err == None ==> ParseInt(s).value == NumeralValue(s)
  {
    if s != [] {
      var body := if s[0] == '+' || s[0] == '-' then s[1..] else s;
      DigitLoopExact(body, 0);
      assert 0 * Pow10(|body|) == 0;
      assert body != [] ==> ParseUint(body) == DigitLoop(body, 0);
      if body != [] && AllDigits(body) {
        assert IsNumeral(s);
        var v := DecValue(body);
        assert NumeralValue(s) == if s[0] == '-' then -v else v;
        if v <= MaxUint64 {
          assert ParseUint(body) == (v, None);
        } else {
          DigitLoopNoSyntaxError(body, 0);
          var e := DigitLoop(body, 0).1;
          assert e.Some? && e.value != ErrSyntax;
          assert e.value == ErrRange;
          assert e == Some(ErrRange);
        }
      } else if body != [] {
        var e := DigitLoop(body, 0).1;
        assert e.Some?;
        assert e.value == ErrSyntax || ParseUint(body).0 == MaxUint64;
      }
    }
  }

  /** On an all-digit string the digit loop can only succeed or overflow. */
  lemma {:induction false} DigitLoopNoSyntaxError(s: string, n: nat)
    requires n <= MaxUint64 && AllDigits(s)
    ensures DigitLoop(s, n).1 != Some(ErrSyntax)
    decreases |s|
  {
    if s != [] {
      var n1 := n * 10 + DigitValue(s[0]);
      if n1 <= MaxUint64 {
        assert AllDigits(s[1..]);
        DigitLoopNoSyntaxError(s[1..], n1);
      }
    }
  }

  /** The decimal string written by FormatInt is read back by ParseInt as the
      same number, with no error. */
  lemma RoundTrip(x: int64)
    ensures ParseInt(FormatInt(x)) == Parsed(x, None)
  {
    var s := FormatInt(x);
    var n: nat := if x < 0 then -(x as int) else x;
    FormatUintValue(n);
    var body := FormatUint(n);
    if x < 0 {
      assert s[1..] == body;
    } else {
      assert IsDigit(s[0]);
    }
    DigitLoopExact(body, 0);
  }

  /** The text after an optional sign, which ParseInt hands to ParseUint. */
  function Unsigned(s: string): string
  {
    if s != [] && (s[0] == '+' || s[0] == '-') then s[1..] else s
  }

  /** The number of digits before the first non-digit of `t`: the longest
      all-digit prefix. */
  function LeadingDigits(t: string): (k: nat)
    ensures k <= |t| && AllDigits(t[..k])
    ensures k < |t| ==> !IsDigit(t[k])
  {
    if t == [] || !IsDigit(t[0]) then 0
    else
      var k' := LeadingDigits(t[1..]);
      assert t[..k' + 1] == [t[0]] + t[1..][..k'];
      k' + 1
  }

  /** A first CSV field that is not a numeral is read as id 0 with a syntax
      error, provided at most 19 digits follow its sign before the first
      non-digit, so that the digit loop reaches that character before it can
      overflow. */
  lemma NonNumeralReadsAsZero(s: string)
    requires !IsNumeral(s)
    requires LeadingDigits(Unsigned(s)) <= 19
    ensures ParseInt(s) == Parsed(0, Some(ErrSyntax))
  {
    if s != [] {
      var body := Unsigned(s);
      if body != [] {
        assert !AllDigits(body);
        var j := LeadingDigits(body);
        assert j < |body| && !IsDigit(body[j]) && AllDigits(body[..j]);
        DecValueBound(body[..j]);
        Pow10Le(j, 19);
        Pow10Nineteen();
        assert 0 * Pow10(j) == 0;
        DigitLoopStopsAtNonDigit(body, 0, j);
      }
    }
  }

  /** A numeral whose value lies outside int64 is a range error, clamped
      towards its sign: `math.MaxInt64` above the range, `math.MinInt64`
      below it. */
  lemma ParseIntOutOfRange(s: string)
    requires IsNumeral(s) && !(MinInt64 <= NumeralValue(s) <= MaxInt64)
    ensures ParseInt(s) == Parsed(if NumeralValue(s) > MaxInt64 then MaxInt64 else MinInt64, Some(ErrRange))
  {
    ParseIntSucceedsIff(s);
    var body := Unsigned(s);
    DigitLoopNoSyntaxError(body, 0);
    assert ParseUint(body) == DigitLoop(body, 0);
    assert s[0] == '-' <==> NumeralValue(s) < MinInt64;
  }

  lemma Pow10Nineteen()
    ensures Pow10(19) == 10_000_000_000_000_000_000
  {
    assert Pow10(1) == 10;
    assert Pow10(2) == 100;
    assert Pow10(3) == 1000;
    assert Pow10(4) == 10000;
    assert Pow10(5) == 100000;
    assert Pow10(6) == 1000000;
    assert Pow10(7) == 10000000;
    assert Pow10(8) == 100000000;
    assert Pow10(9) == 1000000000;
    assert Pow10(10) == 10000000000;
    assert Pow10(11) == 100000000000;
    assert Pow10(12) == 1000000000000;
    assert Pow10(13) == 10000000000000;
    assert Pow10(14) == 100000000000000;
    assert Pow10(15) == 1000000000000000;
    assert Pow10(16) == 10000000000000000;
    assert Pow10(17) == 100000000000000000;
    assert Pow10(18) == 1000000000000000000;
    assert Pow10(19) == 10000000000000000000;
  }

  lemma {:induction false} Pow10Le(j: nat, k: nat)
    requires j <= k
    ensures Pow10(j) <= Pow10(k)
    decreases k
  {
    if j < k { Pow10Le(j, k - 1); }
  }

  /** The digit loop reports a syntax error at the first non-digit, unless it
      has overflowed before reaching it. */
  lemma {:induction false} DigitLoopStopsAtNonDigit(s: string, n: nat, j: nat)
    requires n <= MaxUint64
    requires j < |s| && !IsDigit(s[j]) && AllDigits(s[..j])
    requires n * Pow10(j) + DecValue(s[..j]) <= MaxUint64
    ensures DigitLoop(s, n) == (0, Some(ErrSyntax))
    decreases j
  {
    if j > 0 {
      var d := DigitValue(s[0]);
      var n1 := n * 10 + d;
      var rest := s[1..];
      var pre := s[..j];
      assert pre[0] == s[0] && pre[1..] == rest[..j - 1];
      assert AllDigits(rest[..j - 1]);
      assert DecValue(pre) == d * Pow10(j - 1) + DecValue(rest[..j - 1]);
      StepValue(n, d, Pow10(j - 1), DecValue(rest[..j - 1]));
      DigitLoopStopsAtNonDigit(rest, n1, j - 1);
    }
  }
}
