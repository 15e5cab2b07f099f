/** Integer and string helpers: the multiplicative binomial coefficient, the
    decimal digit count, and the compile-time string joins used to build file paths. */
module Util {
  import opened Arith

  /** Pascal's rule: the reference definition of the binomial coefficient. */
  function Binomial(n: nat, k: nat): nat
  {
    if k == 0 then 1 else if n == 0 then 0 else Binomial(n - 1, k - 1) + Binomial(n - 1, k)
  }

  lemma {:induction false} BinomialAbove(n: nat, k: nat)
    requires k > n
    ensures Binomial(n, k) == 0
  {
    if n > 0 {
      BinomialAbove(n - 1, k - 1);
      BinomialAbove(n - 1, k);
    }
  }

  lemma {:induction false} BinomialDiagonal(n: nat)
    ensures Binomial(n, n) == 1
  {
    if n > 0 {
      BinomialDiagonal(n - 1);
      BinomialAbove(n - 1, n);
    }
  }

  /** C(n, k) == C(n, n - k). */
  lemma {:induction false} BinomialSymmetric(n: nat, k: nat)
    requires k <= n
    ensures Binomial(n, k) == Binomial(n, n - k)
  {
    if k == 0 {
      BinomialDiagonal(n);
    } else if k == n {
      BinomialDiagonal(n);
    } else {
      BinomialSymmetric(n - 1, k - 1);
      BinomialSymmetric(n - 1, k);
      assert n - k == (n - 1) - (k - 1);
    }
  }

  /** The absorption identity k C(n, k) == n C(n - 1, k - 1): it is what makes every
      division in the multiplicative product exact. */
  lemma {:induction false} BinomialAbsorb(n: nat, k: nat)
    requires 1 <= k && 1 <= n
    ensures k * Binomial(n, k) == n * Binomial(n - 1, k - 1)
  {
    if n == 1 {
      if k > 1 { BinomialAbove(0, k - 1); BinomialAbove(0, k); BinomialAbove(1, k); }
    } else if k == 1 {
      BinomialDiagonal(0);
      assert Binomial(n, 1) == n by { BinomialCountsOne(n); }
    } else {
      // k C(n,k) = k C(n-1,k-1) + k C(n-1,k)
      //          = C(n-1,k-1) + (k-1) C(n-1,k-1) + k C(n-1,k)
      //          = C(n-1,k-1) + (n-1) C(n-2,k-2) + (n-1) C(n-2,k-1)
      //          = n C(n-1,k-1)
      var a, b := Binomial(n - 1, k - 1), Binomial(n - 1, k);
      var a0, a1 := Binomial(n - 2, k - 2), Binomial(n - 2, k - 1);
      assert Binomial(n, k) == a + b;
      assert a == a0 + a1;
      BinomialAbsorb(n - 1, k - 1);
      assert (k - 1) * a == (n - 1) * a0;
      BinomialAbsorb(n - 1, k);
      assert k * b == (n - 1) * a1;
      AbsorbArithmetic(n, k, a, b, a0, a1);
    }
  }

  lemma AbsorbArithmetic(n: int, k: int, a: int, b: int, a0: int, a1: int)
    requires a == a0 + a1
    requires (k - 1) * a == (n - 1) * a0 && k * b == (n - 1) * a1
    ensures k * (a + b) == n * a
  {
    Distribute(k, a, b);
    Distribute(n - 1, a0, a1);
    assert k * a == a + (k - 1) * a;
    assert a + (n - 1) * a == n * a;
  }

  lemma {:induction false} BinomialCountsOne(n: nat)
    ensures Binomial(n, 1) == n
  {
    if n > 0 { BinomialCountsOne(n - 1); }
  }

  /** C(a + i, i) grows with i. */
  lemma {:induction false} BinomialGrows(a: nat, i: nat, j: nat)
    requires i <= j
    ensures Binomial(a + i, i) <= Binomial(a + j, j)
    decreases j - i
  {
    if i < j {
      BinomialGrows(a, i + 1, j);
      assert Binomial(a + i + 1, i + 1) == Binomial(a + i, i) + Binomial(a + i, i + 1);
    }
  }

  /** The largest intermediate product of `nCr(n, r)` fits in 32 bits. That product
      is min(r, n - r) C(n, min(r, n - r)). */
  predicate NoOverflow(n: nat, r: nat)
    requires r <= n
  {
    var m := if r < n - r then r else n - r;
    m * Binomial(n, m) < 0x1_0000_0000
  }

  /** `nCr(n, r)`: the multiplicative product over the smaller of r and n - r,
      accumulated in 32-bit unsigned arithmetic. When r > n the loop is empty and the
      result is 1. Without overflow the result is the binomial coefficient, which is
      symmetric in r and n - r. */
  method NCr(n: nat, r: nat) returns (x: nat)
    requires n < 0x1_0000 && r < 0x1_0000
    ensures x < 0x1_0000_0000
    ensures r > n ==> x == 1
    ensures r <= n && NoOverflow(n, r) ==> x == Binomial(n, r) && x == Binomial(n, n - r)
  {
    x := 1;
    var big := if n - r > r then n - r else r;
    ghost var m := n - big;
    var ix := 1;
    while ix <= n - big
      invariant ix == 1 || 1 <= ix <= m + 1
      invariant ix == 1 ==> x == 1
      invariant x < 0x1_0000_0000
      invariant r <= n && NoOverflow(n, r) ==> x == Binomial(big + ix - 1, ix - 1)
    {
      if r <= n && NoOverflow(n, r) {
        ExactStep(big, ix, m, x);
      }
      x := WrappingStep(x, big + ix, ix);
      ix := ix + 1;
    }
    if r <= n {
      BinomialSymmetric(n, r);
    }
  }

  /** One step of the product in 32-bit unsigned arithmetic: `x *= f` wraps modulo
      2^32, then `x /= ix` truncates. */
  function WrappingStep(x: nat, f: nat, ix: nat): (y: nat)
    requires ix >= 1
    ensures y < 0x1_0000_0000
    ensures x * f < 0x1_0000_0000 && x * f % ix == 0 ==> y * ix == x * f
  {
    var p := (x * f) % 0x1_0000_0000;
    StepBounds(p, ix);
    p / ix
  }

  lemma StepBounds(p: nat, ix: nat)
    requires ix >= 1 && p < 0x1_0000_0000
    ensures p / ix <= p
    ensures p % ix == 0 ==> (p / ix) * ix == p
  {
  }

  /** One step of the product: multiplying C(big + ix - 1, ix - 1) by big + ix does not
      overflow and is exactly ix C(big + ix, ix). */
  lemma ExactStep(big: nat, ix: nat, m: nat, x: nat)
    requires 1 <= ix <= m
    requires m * Binomial(big + m, m) < 0x1_0000_0000
    requires x == Binomial(big + ix - 1, ix - 1)
    ensures x * (big + ix) < 0x1_0000_0000
    ensures WrappingStep(x, big + ix, ix) == Binomial(big + ix, ix)
  {
    BinomialAbsorb(big + ix, ix);
    var c := Binomial(big + ix, ix);
    assert x * (big + ix) == ix * c;
    BinomialGrows(big, ix, m);
    var cm := Binomial(big + m, m);
    MulMonotone(ix, m, c);
    MulMonotone(c, cm, m);
    assert ix * c <= m * cm;
    assert (ix * c) % 0x1_0000_0000 == ix * c;
    DivCancel(ix, c);
  }

  function Pow10(e: nat): (p: nat)
    ensures p >= 1
  {
    if e == 0 then 1 else 10 * Pow10(e - 1)
  }

  /** `nchar<T>()`: the number of decimal digits of t; none for 0. */
  function NChar(t: nat): (l: nat)
    ensures l == 0 <==> t == 0
    ensures t > 0 ==> Pow10(l - 1) <= t < Pow10(l)
  {
    if t == 0 then 0 else 1 + NChar(t / 10)
  }

  const Digits: string := "0123456789"

  predicate IsDigit(c: char)
  {
    '0' <= c <= '9'
  }

  function DigitValue(c: char): nat
    requires IsDigit(c)
  {
    c as int - '0' as int
  }

  /** The value of a string of decimal digits, most significant first. */
  function ParseDecimal(s: string): nat
    requires forall i :: 0 <= i < |s| ==> IsDigit(s[i])
  {
    if |s| == 0 then 0 else 10 * ParseDecimal(s[..|s| - 1]) + DigitValue(s[|s| - 1])
  }

  /** The digits of t as the path join writes them: most significant first, none
      for 0, no leading zero. */
  function Decimal(t: nat): (s: string)
    ensures |s| == NChar(t)
    ensures forall i :: 0 <= i < |s| ==> IsDigit(s[i])
    ensures t > 0 ==> s[0] != '0'
    ensures ParseDecimal(s) == t
  {
    if t == 0 then []
    else
      var prev := Decimal(t / 10);
      AppendDigit(t, prev);
      prev + [Digits[t % 10]]
  }

  /** Appending the lowest digit of t to the digits of t / 10 gives the digits of t. */
  lemma AppendDigit(t: nat, prev: string)
    requires t > 0
    requires |prev| == NChar(t / 10)
    requires forall i :: 0 <= i < |prev| ==> IsDigit(prev[i])
    requires t / 10 > 0 ==> prev[0] != '0'
    requires ParseDecimal(prev) == t / 10
    ensures var s := prev + [Digits[t % 10]];
      && |s| == NChar(t)
      && (forall i :: 0 <= i < |s| ==> IsDigit(s[i]))
      && s[0] != '0'
      && ParseDecimal(s) == t
  {
    var d := Digits[t % 10];
    var s := prev + [d];
    assert s[..|s| - 1] == prev;
    assert DigitValue(d) == t % 10;
    assert forall i :: 0 <= i < |s| ==> IsDigit(s[i]) by {
      forall i | 0 <= i < |s|
        ensures IsDigit(s[i])
      {
        if i < |prev| { assert s[i] == prev[i]; }
      }
    }
    if t / 10 == 0 {
      assert t % 10 == t;
    } else {
      assert s[0] == prev[0];
    }
  }

  /** The sum of the array sizes of a list of NUL-terminated strings. */
  function TotalLength(strings: seq<string>): nat
  {
    if |strings| == 0 then 0 else |strings[0]| + TotalLength(strings[1..])
  }

  predicate AllTerminated(strings: seq<string>)
  {
    forall k :: 0 <= k < |strings| ==> |strings[k]| >= 1
  }

  /** Every string without its last (terminating) character, in order. */
  function Stripped(strings: seq<string>): (s: string)
    requires AllTerminated(strings)
    ensures |s| == TotalLength(strings) - |strings|
  {
    if |strings| == 0 then [] else strings[0][..|strings[0]| - 1] + Stripped(strings[1..])
  }

  /** The variadic `join`: the inputs without their trailing NULs, concatenated, then
      one NUL. */
  function Join(strings: seq<string>): (r: string)
    requires AllTerminated(strings)
    ensures |r| == TotalLength(strings) - |strings| + 1
    ensures |r| >= 1 && r[|r| - 1] == '\0'
  {
    Stripped(strings) + ['\0']
  }

  lemma {:induction false} StrippedAppend(a: seq<string>, b: seq<string>)
    requires AllTerminated(a) && AllTerminated(b)
    ensures AllTerminated(a + b)
    ensures Stripped(a + b) == Stripped(a) + Stripped(b)
  {
    if |a| == 0 {
      assert a + b == b;
    } else {
      assert (a + b)[0] == a[0];
      assert (a + b)[1..] == a[1..] + b;
      StrippedAppend(a[1..], b);
    }
  }

  /** Character i of input k lands after the stripped inputs 0..k-1: the inputs
      appear whole and in order. */
  lemma JoinPlacesEachInput(strings: seq<string>, k: nat, i: nat)
    requires AllTerminated(strings)
    requires k < |strings| && i < |strings[k]| - 1
    ensures |Stripped(strings[..k])| == TotalLength(strings[..k]) - k
    ensures |Stripped(strings[..k])| + i < |Join(strings)|
    ensures Join(strings)[|Stripped(strings[..k])| + i] == strings[k][i]
  {
    assert strings == strings[..k] + strings[k..];
    StrippedAppend(strings[..k], strings[k..]);
    assert Stripped(strings[k..]) == strings[k][..|strings[k]| - 1] + Stripped(strings[k + 1..]) by {
      assert strings[k..][0] == strings[k];
      assert strings[k..][1..] == strings[k + 1..];
    }
  }

  /** Joining a concatenated list is joining the parts. */
  lemma JoinAppend(a: seq<string>, b: seq<string>)
    requires AllTerminated(a) && AllTerminated(b)
    ensures AllTerminated(a + b)
    ensures Join(a + b) == Stripped(a) + Join(b)
  {
    StrippedAppend(a, b);
  }

  /** The path `join<T>(prefix, postfix)`: the prefix without its NUL, the decimal
      digits of t, the postfix without its NUL, then a NUL. */
  method JoinPath(t: nat, prefix: string, postfix: string) returns (joined: string)
    requires |prefix| >= 1 && |postfix| >= 1
    ensures |joined| == |prefix| + |postfix| + NChar(t) - 1
    ensures joined == prefix[..|prefix| - 1] + Decimal(t) + postfix[..|postfix| - 1] + ['\0']
    ensures joined == Join([prefix, Decimal(t) + ['\0'], postfix])
  {
    var l, u := |prefix|, |postfix|;
    var m := NChar(t);
    var size := l + u + m - 1;
    joined := seq(size, _ => '\0');
    joined := joined[size - 1 := '\0'];
    var it := 0;
    joined := prefix[..l - 1] + joined[l - 1..];
    it := it + (l - 1);
    ghost var blank := joined;
    joined := WriteDigits(joined, it, t);
    SliceSplit(joined, it, it + m);
    assert joined[..it + m] == prefix[..l - 1] + Decimal(t);
    assert joined[it + m + u - 1..] == blank[size - 1..] == ['\0'];
    joined := joined[..it + m] + postfix[..u - 1] + joined[it + m + u - 1..];
    JoinOfPathParts(prefix, Decimal(t), postfix);
  }

  lemma SliceSplit(s: string, a: nat, b: nat)
    requires a <= b <= |s|
    ensures s[..b] == s[..a] + s[a..b]
  {
  }

  /** The digit loop of the path join: the iterator starts just past the digit slot
      and each step writes the lowest remaining digit one place further left. */
  method WriteDigits(buf: string, start: nat, t: nat) returns (r: string)
    requires start + NChar(t) <= |buf|
    ensures |r| == |buf|
    ensures r[start..start + NChar(t)] == Decimal(t)
    ensures r[..start] == buf[..start] && r[start + NChar(t)..] == buf[start + NChar(t)..]
  {
    var m := NChar(t);
    r := buf;
    var it := start + m;
    var k := t;
    while k != 0
      invariant start <= it <= start + m
      invariant |r| == |buf|
      invariant |Decimal(k)| == it - start
      invariant Decimal(k) + r[it..start + m] == Decimal(t)
      invariant r[..start] == buf[..start] && r[start + m..] == buf[start + m..]
      decreases k
    {
      var d := Digits[k % 10];
      ghost var written := r[it..start + m];
      PlaceDigit(r, start, it - 1, start + m, d);
      it := it - 1;
      r := r[it := d];
      DigitsSoFar(k, written, Decimal(t));
      k := k / 10;
    }
  }

  /** Writing one character just left of the written tail extends the tail and leaves
      everything outside the digit slot alone. */
  lemma PlaceDigit(r: string, start: nat, it: nat, end: nat, d: char)
    requires start <= it < end <= |r|
    ensures r[it := d][..start] == r[..start] && r[it := d][end..] == r[end..]
    ensures r[it := d][it..end] == [d] + r[it + 1..end]
  {
  }

  /** The loop invariant of the digit loop survives peeling off the lowest digit of k. */
  lemma DigitsSoFar(k: nat, written: string, all: string)
    requires k != 0 && Decimal(k) + written == all
    ensures Decimal(k / 10) + ([Digits[k % 10]] + written) == all
  {
    var head, c := Decimal(k / 10), [Digits[k % 10]];
    assert Decimal(k) == head + c;
    SeqAssociative(head, c, written);
  }

  lemma SeqAssociative(a: string, b: string, c: string)
    ensures (a + b) + c == a + (b + c)
  {
  }

  /** Joining prefix, digits and postfix as three NUL-terminated strings gives the
      path layout. */
  lemma JoinOfPathParts(prefix: string, digits: string, postfix: string)
    requires |prefix| >= 1 && |postfix| >= 1
    ensures Join([prefix, digits + ['\0'], postfix])
      == prefix[..|prefix| - 1] + digits + postfix[..|postfix| - 1] + ['\0']
  {
    var d := digits + ['\0'];
    var parts := [prefix, d, postfix];
    calc {
      Stripped(parts);
      prefix[..|prefix| - 1] + Stripped(parts[1..]);
      { assert parts[1..][0] == d && parts[1..][1..] == [postfix]; }
      prefix[..|prefix| - 1] + (d[..|d| - 1] + Stripped([postfix]));
      { assert d[..|d| - 1] == digits; assert [postfix][1..] == []; }
      prefix[..|prefix| - 1] + (digits + postfix[..|postfix| - 1]);
    }
  }
}
