/** Document numbers as text: `f"{prefix}-{str(sequence).zfill(padding)}"`. */
module Rendering {
  function Digit(d: nat): char
    requires d < 10
  {
    '0' + d as char
  }

  function Value(c: char): nat
    requires '0' <= c <= '9'
  {
    (c - '0') as nat
  }

  /** `str(n)` for a natural number. */
  function Decimal(n: nat): string {
    if n < 10 then [Digit(n)] else Decimal(n / 10) + [Digit(n % 10)]
  }

  function Zeros(n: nat): string {
    seq(n, _ => '0')
  }

  /** `s.zfill(width)` for a string of digits. */
  function ZFill(s: string, width: nat): string {
    if |s| >= width then s else Zeros(width - |s|) + s
  }

  function Render(prefix: string, sequence: nat, padding: nat): string {
    prefix + "-" + ZFill(Decimal(sequence), padding)
  }

  predicate Digits(s: string) {
    forall i :: 0 <= i < |s| ==> '0' <= s[i] <= '9'
  }

  /** The number a string of digits spells. */
  function Parse(s: string): nat
    requires Digits(s)
  {
    if s == [] then 0 else Parse(s[..|s| - 1]) * 10 + Value(s[|s| - 1])
  }

  function Pow10(n: nat): nat {
    if n == 0 then 1 else 10 * Pow10(n - 1)
  }

  /** Character-by-character order on strings, a proper prefix coming first. */
  predicate Less(s: string, t: string) {
    t != [] && (s == [] || s[0] < t[0] || (s[0] == t[0] && Less(s[1..], t[1..])))
  }

  lemma {:induction false} ParseDecimal(n: nat)
    ensures Decimal(n) != [] && Digits(Decimal(n)) && Parse(Decimal(n)) == n
  {
    if n >= 10 {
      ParseDecimal(n / 10);
      assert Decimal(n)[..|Decimal(n)| - 1] == Decimal(n / 10);
    } else {
      assert Decimal(n)[..0] == [];
    }
  }

  lemma {:induction false} ParseZeros(k: nat, s: string)
    requires Digits(s)
    ensures Digits(Zeros(k) + s) && Parse(Zeros(k) + s) == Parse(s)
  {
    if s != [] {
      var n := |s| - 1;
      assert (Zeros(k) + s)[..k + n] == Zeros(k) + s[..n];
      ParseZeros(k, s[..n]);
    } else if k > 0 {
      assert (Zeros(k) + s)[..k - 1] == Zeros(k - 1) + s;
      ParseZeros(k - 1, s);
    } else {
      assert Zeros(k) + s == s;
    }
  }

  lemma ParseZFill(n: nat, width: nat)
    ensures Digits(ZFill(Decimal(n), width)) && Parse(ZFill(Decimal(n), width)) == n
  {
    ParseDecimal(n);
    if |Decimal(n)| < width {
      ParseZeros(width - |Decimal(n)|, Decimal(n));
    }
  }

  /** The position of the last hyphen. */
  function LastHyphen(s: string): (i: int)
    ensures -1 <= i < |s|
    ensures i >= 0 ==> s[i] == '-'
    ensures forall j :: i < j < |s| ==> s[j] != '-'
  {
    if s == [] then -1
    else if s[|s| - 1] == '-' then |s| - 1
    else LastHyphen(s[..|s| - 1])
  }

  /** Splitting at the last hyphen and parsing the rest recovers what was rendered, at any padding. */
  lemma SplitRecovers(prefix: string, sequence: nat, padding: nat)
    ensures var s := Render(prefix, sequence, padding);
            var h := LastHyphen(s);
            && h == |prefix|
            && s[..h] == prefix
            && Digits(s[h + 1..]) && Parse(s[h + 1..]) == sequence
  {
    ParseZFill(sequence, padding);
    var s := Render(prefix, sequence, padding);
    assert s[|prefix| + 1..] == ZFill(Decimal(sequence), padding);
    assert s[|prefix|] == '-';
    forall j | |prefix| < j < |s|
      ensures s[j] != '-'
    {
      assert s[j] == s[|prefix| + 1..][j - |prefix| - 1];
    }
  }

  /** Rendering is injective on prefix and sequence, across all paddings and whatever hyphens the prefix holds. */
  lemma RenderInjective(prefix: string, sequence: nat, padding: nat, prefix': string, sequence': nat, padding': nat)
    requires Render(prefix, sequence, padding) == Render(prefix', sequence', padding')
    ensures prefix == prefix' && sequence == sequence'
  {
    SplitRecovers(prefix, sequence, padding);
    SplitRecovers(prefix', sequence', padding');
  }

  /* ---------- Order ---------- */

  lemma TimesTen(a: nat, p: nat, b: nat)
    ensures (a * p + b) * 10 == a * (10 * p) + b * 10
  {
  }

  lemma {:induction false} ParseCons(s: string)
    requires s != [] && Digits(s)
    ensures Digits(s[1..]) && Parse(s) == Value(s[0]) * Pow10(|s| - 1) + Parse(s[1..])
    ensures Parse(s[1..]) < Pow10(|s| - 1)
  {
    var n := |s| - 1;
    if n == 0 {
      assert s[..0] == [];
    } else {
      var init, tail := s[..n], s[1..];
      ParseCons(init);
      assert init[1..] == tail[..n - 1];
      assert tail[n - 1] == s[n];
      TimesTen(Value(s[0]), Pow10(n - 1), Parse(tail[..n - 1]));
    }
  }

  /** On digit strings of one length, string order is numeric order. */
  lemma {:induction false} SameLengthOrder(s: string, t: string)
    requires |s| == |t| && Digits(s) && Digits(t)
    ensures Less(s, t) <==> Parse(s) < Parse(t)
  {
    if s == [] {
    } else {
      ParseCons(s);
      ParseCons(t);
      SameLengthOrder(s[1..], t[1..]);
      if s[0] != t[0] {
        var p := Pow10(|s| - 1);
        if s[0] < t[0] {
          LeadingDigit(Value(s[0]), Parse(s[1..]), Value(t[0]), Parse(t[1..]), p);
        } else {
          LeadingDigit(Value(t[0]), Parse(t[1..]), Value(s[0]), Parse(s[1..]), p);
        }
      }
    }
  }

  lemma LeadingDigit(a: nat, r: nat, b: nat, r': nat, p: nat)
    requires a < b && r < p
    ensures a * p + r < b * p + r'
  {
    Scale(a + 1, b, p);
  }

  lemma Scale(a: nat, b: nat, p: nat)
    requires a <= b
    ensures a * p <= b * p
  {
  }

  lemma {:induction false} DecimalLength(n: nat, w: nat)
    requires w > 0
    ensures |Decimal(n)| <= w <==> n < Pow10(w)
  {
    if n >= 10 && w > 1 {
      DecimalLength(n / 10, w - 1);
    } else if n >= 10 {
      assert Pow10(1) == 10 * Pow10(0);
      assert |Decimal(n / 10)| >= 1;
    } else {
      Pow10AtLeast10(w);
    }
  }

  lemma {:induction false} Pow10AtLeast10(w: nat)
    requires w > 0
    ensures Pow10(w) >= 10
  {
    if w > 1 {
      Pow10AtLeast10(w - 1);
    }
  }

  lemma {:induction false} CommonHead(head: string, s: string, t: string)
    ensures Less(head + s, head + t) <==> Less(s, t)
  {
    if head == [] {
      assert head + s == s && head + t == t;
    } else {
      assert (head + s)[1..] == head[1..] + s && (head + t)[1..] == head[1..] + t;
      CommonHead(head[1..], s, t);
    }
  }

  /** The first digit of 10^w and of its predecessor. */
  lemma {:induction false} AtThePower(w: nat)
    requires w > 0
    ensures Pow10(w) >= 10
    ensures Decimal(Pow10(w))[0] == '1' && Decimal(Pow10(w) - 1)[0] == '9'
  {
    if w == 1 {
      assert Pow10(1) == 10 * Pow10(0);
      assert Decimal(10) == Decimal(1) + [Digit(0)];
    } else {
      AtThePower(w - 1);
      assert Pow10(w) / 10 == Pow10(w - 1);
      assert (Pow10(w) - 1) / 10 == Pow10(w - 1) - 1;
      assert |Decimal(Pow10(w - 1))| > 0 && |Decimal(Pow10(w - 1) - 1)| > 0;
    }
  }

  predicate OrderAgrees(prefix: string, padding: nat, m: nat, n: nat) {
    Less(Render(prefix, m, padding), Render(prefix, n, padding)) <==> m < n
  }

  /** For one prefix and padding, numbers below a bound sort as text the way they sort as numbers exactly when the
      bound is at most 10^padding (a padding of 0 renders like one of 1). */
  lemma TextOrderIsNumericIff(prefix: string, padding: nat, bound: nat)
    ensures (forall m: nat, n: nat | m < bound && n < bound :: OrderAgrees(prefix, padding, m, n))
            <==> bound <= Pow10(if padding == 0 then 1 else padding)
  {
    if padding == 0 {
      forall n: nat
        ensures Render(prefix, n, 0) == Render(prefix, n, 1)
      {
        ParseDecimal(n);
      }
      forall m: nat, n: nat
        ensures OrderAgrees(prefix, 0, m, n) == OrderAgrees(prefix, 1, m, n)
      {
        assert Render(prefix, m, 0) == Render(prefix, m, 1);
      }
      PaddedTextOrderIff(prefix, 1, bound);
    } else {
      PaddedTextOrderIff(prefix, padding, bound);
    }
  }

  lemma PaddedTextOrderIff(prefix: string, padding: nat, bound: nat)
    requires padding > 0
    ensures (forall m: nat, n: nat | m < bound && n < bound :: OrderAgrees(prefix, padding, m, n))
            <==> bound <= Pow10(padding)
  {
    if bound <= Pow10(padding) {
      forall m: nat, n: nat | m < bound && n < bound
        ensures OrderAgrees(prefix, padding, m, n)
      {
        BelowThePower(prefix, padding, m, n);
      }
    } else {
      AtThePower(padding);
      DecimalLength(Pow10(padding), padding);
      DecimalLength(Pow10(padding) - 1, padding);
      BelowIsFull(padding);
      var m, n := Pow10(padding) - 1, Pow10(padding);
      CommonHead(prefix + "-", ZFill(Decimal(m), padding), ZFill(Decimal(n), padding));
      assert !OrderAgrees(prefix, padding, m, n);
    }
  }

  lemma BelowThePower(prefix: string, padding: nat, m: nat, n: nat)
    requires padding > 0 && m < Pow10(padding) && n < Pow10(padding)
    ensures OrderAgrees(prefix, padding, m, n)
  {
    DecimalLength(m, padding);
    DecimalLength(n, padding);
    ParseZFill(m, padding);
    ParseZFill(n, padding);
    SameLengthOrder(ZFill(Decimal(m), padding), ZFill(Decimal(n), padding));
    CommonHead(prefix + "-", ZFill(Decimal(m), padding), ZFill(Decimal(n), padding));
  }

  /** 10^w - 1 fills all w places. */
  lemma {:induction false} BelowIsFull(w: nat)
    requires w > 0
    ensures Pow10(w) > 0 && |Decimal(Pow10(w) - 1)| == w
  {
    if w == 1 {
      assert Pow10(1) == 10 * Pow10(0);
    } else {
      BelowIsFull(w - 1);
      assert (Pow10(w) - 1) / 10 == Pow10(w - 1) - 1;
      Pow10AtLeast10(w);
    }
  }
}
