/**
 * Positional notation: the arithmetic behind the base-58 codec.
 *
 * A digit array is read either little-endian (element 0 is the least
 * significant digit, as in the codec's working arrays) or big-endian (as in
 * the codec's inputs and outputs). `Canon` gives the one little-endian digit
 * array of a number that has at least one digit and no zero on top, which is
 * the form the codec's carry loops keep their arrays in.
 */
module Positional {

  /** `n` copies of `x`. */
  function Repeat<T>(x: T, n: nat): (r: seq<T>)
    ensures |r| == n
    ensures forall i :: 0 <= i < n ==> r[i] == x
  {
    if n == 0 then [] else Repeat(x, n - 1) + [x]
  }

  /** The elements of `s` in the opposite order. */
  function Reverse<T>(s: seq<T>): (r: seq<T>)
    ensures |r| == |s|
    ensures forall i :: 0 <= i < |s| ==> r[i] == s[|s| - 1 - i]
  {
    if s == [] then [] else Reverse(s[1..]) + [s[0]]
  }

  /** No element occurs twice. */
  predicate Distinct<T(==)>(s: seq<T>)
  {
    forall i, j :: 0 <= i < j < |s| ==> s[i] != s[j]
  }

  /**
   * The number of leading elements of `s` equal to `x`, never counting the
   * last element of `s`: the count both leading-zero loops of the codec make.
   */
  function LeadingRun<T(==)>(s: seq<T>, x: T): (k: nat)
    ensures s == [] ==> k == 0
    ensures s != [] ==> k < |s|
    ensures forall i :: 0 <= i < k ==> s[i] == x
    ensures k + 1 < |s| ==> s[k] != x
  {
    if |s| <= 1 || s[0] != x then 0 else 1 + LeadingRun(s[1..], x)
  }

  function Pow(b: nat, n: nat): nat
  {
    if n == 0 then 1 else b * Pow(b, n - 1)
  }

  /** Every element of `s` is a digit of base `b`. */
  predicate IsDigits(s: seq<int>, b: nat)
  {
    forall i :: 0 <= i < |s| ==> 0 <= s[i] < b
  }

  /** At least one digit and, unless there is only one, a nonzero top (last) digit. */
  predicate Trimmed(s: seq<int>)
  {
    |s| == 1 || (|s| > 1 && s[|s| - 1] != 0)
  }

  /** The value of `s` read little-endian in base `b`. */
  function LeValue(s: seq<int>, b: nat): int
  {
    if s == [] then 0 else s[0] + b * LeValue(s[1..], b)
  }

  /** The value of `s` read big-endian in base `b`, one digit at a time from the front. */
  function BeValue(s: seq<int>, b: nat): int
  {
    if s == [] then 0 else BeValue(s[..|s| - 1], b) * b + s[|s| - 1]
  }

  /** The canonical little-endian digits of `v` in base `b`. */
  function Canon(v: nat, b: nat): (r: seq<int>)
    requires b >= 2
    ensures IsDigits(r, b) && Trimmed(r)
    ensures LeValue(r, b) == v
    ensures v > 0 ==> r[|r| - 1] != 0
    decreases v
  {
    if v < b then [v]
    else
      DivShrinks(v, b);
      var r := [v % b] + Canon(v / b, b);
      assert r[1..] == Canon(v / b, b);
      r
  }

  lemma MulLe(a: int, x: int, y: int)
    requires a >= 0 && x <= y
    ensures a * x <= a * y
  {
    assert a * y - a * x == a * (y - x);
  }

  lemma MulNonneg(a: int, x: int)
    requires a >= 0 && x >= 0
    ensures a * x >= 0
  {
  }

  lemma SmallMultiple(b: int, x: int)
    requires b > 0 && -b < b * x < b
    ensures x == 0
  {
  }

  lemma DivModSum(n: int, b: int)
    requires b > 0
    ensures n % b + b * (n / b) == n
  {
  }

  lemma DivShrinks(n: int, b: int)
    requires b >= 2 && n >= b
    ensures 0 <= n % b < b && n % b + b * (n / b) == n
    ensures 1 <= n / b < n
  {
    var q := n / b;
    DivModSum(n, b);
    if q <= 0 {
      MulLe(b, q, 0);
    }
    MulLe(q, 2, b);
  }

  lemma DivModOf(q: int, r: int, b: int)
    requires b > 0 && 0 <= r < b
    ensures (r + b * q) / b == q && (r + b * q) % b == r
  {
    var n := r + b * q;
    var q', r' := n / b, n % b;
    assert n == b * q' + r' && 0 <= r' < b;
    assert b * (q - q') == r' - r;
    SmallMultiple(b, q - q');
  }

  lemma {:induction false} ReverseAppend<T>(s: seq<T>, t: seq<T>)
    ensures Reverse(s + t) == Reverse(t) + Reverse(s)
  {
    var l, r := Reverse(s + t), Reverse(t) + Reverse(s);
    assert |l| == |r|;
    forall i | 0 <= i < |l| ensures l[i] == r[i] {
      if i < |t| {
        assert l[i] == (s + t)[|s| + |t| - 1 - i] == t[|t| - 1 - i];
      } else {
        assert l[i] == (s + t)[|s| + |t| - 1 - i] == s[|s| + |t| - 1 - i];
      }
    }
  }

  lemma ReverseReverse<T>(s: seq<T>)
    ensures Reverse(Reverse(s)) == s
  {
    var r := Reverse(Reverse(s));
    forall i | 0 <= i < |s| ensures r[i] == s[i] {
      assert r[i] == Reverse(s)[|s| - 1 - i];
    }
  }

  lemma ReverseRepeat<T>(x: T, n: nat)
    ensures Reverse(Repeat(x, n)) == Repeat(x, n)
  {
  }

  lemma ConcatAssoc<T>(a: seq<T>, b: seq<T>, c: seq<T>)
    ensures a + (b + c) == a + b + c
  {
  }

  /** A nonempty sequence is its first element followed by the rest. */
  lemma FirstAndRest<T>(s: seq<T>)
    requires s != []
    ensures [s[0]] + s[1..] == s
  {
  }

  /** One more `x` appended to a padded sequence is one more in the padding. */
  lemma PadStep<T>(s: seq<T>, x: T, n: nat)
    ensures s + Repeat(x, n) + [x] == s + Repeat(x, n + 1)
  {
    ConcatAssoc(s, Repeat(x, n), [x]);
  }

  /** The big-endian value of a longer prefix takes in one more digit. */
  lemma BeValuePrefix(s: seq<int>, i: nat, b: nat)
    requires i < |s|
    ensures BeValue(s[..i + 1], b) == BeValue(s[..i], b) * b + s[i]
  {
    assert s[..i + 1][..i] == s[..i];
  }

  /** A count inside the leading run that meets one more countable `x` is still inside it. */
  lemma LeadingRunGrows<T>(s: seq<T>, x: T, i: nat)
    requires i <= LeadingRun(s, x) && i < |s| - 1 && s[i] == x
    ensures i + 1 <= LeadingRun(s, x)
  {
  }

  /** A count inside the leading run that meets no countable `x` is the leading run. */
  lemma LeadingRunStops<T>(s: seq<T>, x: T, i: nat)
    requires i <= LeadingRun(s, x) && (i >= |s| - 1 || s[i] != x)
    ensures i == LeadingRun(s, x)
  {
  }

  /** The leading run is the one count that stops at the first non-`x` element or at the last element. */
  lemma LeadingRunUnique<T>(s: seq<T>, x: T, k: nat)
    requires k < |s|
    requires forall i :: 0 <= i < k ==> s[i] == x
    requires s[k] != x || k == |s| - 1
    ensures LeadingRun(s, x) == k
  {
  }

  /** A run of `x` in front of a sequence that does not itself start with a countable `x`. */
  lemma LeadingRunOfRepeat<T>(x: T, k: nat, t: seq<T>)
    requires t != []
    requires |t| == 1 || t[0] != x
    ensures LeadingRun(Repeat(x, k) + t, x) == k
  {
    LeadingRunUnique(Repeat(x, k) + t, x, k);
  }

  /** A sequence is its leading run followed by the rest. */
  lemma SplitLeadingRun<T>(s: seq<T>, x: T)
    ensures s == Repeat(x, LeadingRun(s, x)) + s[LeadingRun(s, x)..]
  {
    var k := LeadingRun(s, x);
    assert s[..k] == Repeat(x, k);
    assert s == s[..k] + s[k..];
  }

  lemma {:induction false} LeValueAppend(s: seq<int>, t: seq<int>, b: nat)
    ensures LeValue(s + t, b) == LeValue(s, b) + Pow(b, |s|) * LeValue(t, b)
  {
    if s != [] {
      assert (s + t)[1..] == s[1..] + t;
      LeValueAppend(s[1..], t, b);
      AppendArith(s[0], b, LeValue(s[1..], b), Pow(b, |s| - 1), LeValue(t, b));
    } else {
      assert s + t == t;
    }
  }

  lemma AppendArith(d: int, b: int, x: int, p: int, v: int)
    ensures d + b * (x + p * v) == (d + b * x) + (b * p) * v
  {
    assert b * (x + p * v) == b * x + b * (p * v);
    assert b * (p * v) == (b * p) * v;
  }


  lemma {:induction false} LeValueZeros(n: nat, b: nat)
    ensures LeValue(Repeat(0, n), b) == 0
  {
    if n > 0 {
      LeValueZeros(n - 1, b);
      LeValueAppend(Repeat(0, n - 1), [0], b);
    }
  }

  /** Zeros on top of a little-endian number do not change its value. */
  lemma TrailingZeros(s: seq<int>, n: nat, b: nat)
    ensures LeValue(s + Repeat(0, n), b) == LeValue(s, b)
  {
    LeValueAppend(s, Repeat(0, n), b);
    LeValueZeros(n, b);
  }

  lemma {:induction false} LeValueBounds(s: seq<int>, b: nat)
    requires b >= 1 && IsDigits(s, b)
    ensures 0 <= LeValue(s, b) < Pow(b, |s|)
  {
    if s != [] {
      LeValueBounds(s[1..], b);
      BoundsArith(s[0], b, LeValue(s[1..], b), Pow(b, |s| - 1));
    }
  }

  lemma BoundsArith(d: int, b: int, x: int, p: int)
    requires 0 <= d < b && 0 <= x < p
    ensures 0 <= d + b * x < b * p
  {
    MulLe(b, x, p - 1);
    MulNonneg(b, x);
    assert b * (p - 1) == b * p - b;
  }


  /** The value of a trimmed number with more than one digit needs all of its digits. */
  lemma TrimmedLowerBound(s: seq<int>, b: nat)
    requires b >= 2 && IsDigits(s, b) && Trimmed(s) && |s| > 1
    ensures LeValue(s, b) >= Pow(b, |s| - 1)
  {
    var n := |s|;
    assert s == s[..n - 1] + [s[n - 1]];
    LeValueAppend(s[..n - 1], [s[n - 1]], b);
    LeValueBounds(s[..n - 1], b);
    MulLe(Pow(b, n - 1), 1, s[n - 1]);
  }

  /** A number at least as large as its top position's weight has a nonzero top digit. */
  lemma TrimmedWhenLarge(s: seq<int>, b: nat)
    requires b >= 2 && IsDigits(s, b) && |s| > 1
    requires LeValue(s, b) >= Pow(b, |s| - 1)
    ensures Trimmed(s)
  {
    var n := |s|;
    assert s == s[..n - 1] + [s[n - 1]];
    LeValueAppend(s[..n - 1], [s[n - 1]], b);
    LeValueBounds(s[..n - 1], b);
  }

  lemma PowPositive(b: nat, n: nat)
    requires b >= 1
    ensures Pow(b, n) >= 1
  {
    if n > 0 {
      PowPositive(b, n - 1);
      MulLe(Pow(b, n - 1), 1, b);
    }
  }

  /** Above one digit, the canonical digits are the low digit and then the rest. */
  lemma CanonStep(v: nat, b: nat)
    requires b >= 2 && v >= b
    ensures Canon(v, b) == [v % b] + Canon(v / b, b)
  {
  }

  /** Canonical digits are unique: a trimmed digit array is the canonical form of its own value. */
  lemma {:induction false} CanonUnique(s: seq<int>, b: nat)
    requires b >= 2 && IsDigits(s, b) && Trimmed(s)
    ensures LeValue(s, b) >= 0
    ensures Canon(LeValue(s, b), b) == s
  {
    LeValueBounds(s, b);
    if |s| > 1 {
      var t := s[1..];
      assert IsDigits(t, b) && Trimmed(t);
      var x := LeValue(t, b);
      assert x >= 1 by {
        if |t| > 1 {
          TrimmedLowerBound(t, b);
          PowPositive(b, |t| - 1);
        } else {
          assert x == t[0] + b * LeValue(t[1..], b) == t[0];
        }
      }
      var v := s[0] + b * x;
      assert v == LeValue(s, b) && v >= b by {
        MulLe(b, 1, x);
      }
      assert v / b == x && v % b == s[0] by {
        DivModOf(x, s[0], b);
      }
      CanonUnique(t, b);
      CanonStep(v, b);
      assert s == [s[0]] + t;
    }
  }


  lemma {:induction false} BeValueIsReversedLeValue(s: seq<int>, b: nat)
    ensures BeValue(s, b) == LeValue(Reverse(s), b)
  {
    if s != [] {
      var n := |s|;
      assert s == s[..n - 1] + [s[n - 1]];
      ReverseAppend(s[..n - 1], [s[n - 1]]);
      assert Reverse(s) == [s[n - 1]] + Reverse(s[..n - 1]);
      assert Reverse(s)[1..] == Reverse(s[..n - 1]);
      BeValueIsReversedLeValue(s[..n - 1], b);
    }
  }

  /** Leading zeros do not change a big-endian number. */
  lemma LeadingZeros(n: nat, t: seq<int>, b: nat)
    ensures BeValue(Repeat(0, n) + t, b) == BeValue(t, b)
  {
    BeValueIsReversedLeValue(Repeat(0, n) + t, b);
    BeValueIsReversedLeValue(t, b);
    ReverseAppend(Repeat(0, n), t);
    ReverseRepeat(0, n);
    TrailingZeros(Reverse(t), n, b);
  }

  /** Multiplying every digit by `m` multiplies the number by `m`. */
  lemma {:induction false} LeValueScaled(s: seq<int>, t: seq<int>, m: int, b: nat)
    requires |t| == |s|
    requires forall k :: 0 <= k < |s| ==> t[k] == s[k] * m
    ensures LeValue(t, b) == LeValue(s, b) * m
  {
    if s != [] {
      LeValueScaled(s[1..], t[1..], m, b);
      ScaleArith(s[0], b, LeValue(s[1..], b), m);
    }
  }

  lemma ScaleArith(d: int, b: int, x: int, m: int)
    ensures d * m + b * (x * m) == (d + b * x) * m
  {
    assert (d + b * x) * m == d * m + (b * x) * m;
  }


  /**
   * The number a carry loop is working on when it stands at position `j`:
   * the digits below `j`, already reduced, and the carry still to be added
   * to the digits from `j` on.
   */
  ghost function Pending(s: seq<int>, j: nat, carry: int, b: nat): int
    requires j <= |s|
  {
    LeValue(s[..j], b) + Pow(b, j) * (carry + LeValue(s[j..], b))
  }

  /**
   * One step of a carry loop at position `j`: the digit absorbs the carry,
   * keeps its remainder modulo `b` and passes the quotient on, and the
   * pending number stays the same.
   */
  lemma CarryStep(s: seq<int>, s': seq<int>, j: nat, carry: int, y: int, b: nat)
    requires j < |s| && b >= 1
    requires y == s[j] + carry && s' == s[j := y % b]
    ensures Pending(s', j + 1, y / b, b) == Pending(s, j, carry, b)
  {
    assert s'[..j + 1] == s[..j] + [y % b];
    assert s'[j + 1..] == s[j + 1..];
    assert s[j..][1..] == s[j + 1..];
    LeValueAppend(s[..j], [y % b], b);
    assert LeValue([y % b], b) == y % b;
    DivModSum(y, b);
    CarryArith(LeValue(s[..j], b), Pow(b, j), y % b, y / b, LeValue(s[j + 1..], b), y, b);
  }

  /** Before a carry loop nothing is reduced. */
  lemma PendingStart(s: seq<int>, carry: int, b: nat)
    ensures Pending(s, 0, carry, b) == carry + LeValue(s, b)
  {
    assert s[..0] == [] && s[0..] == s;
    assert Pow(b, 0) == 1 && LeValue([], b) == 0;
  }

  /** After a carry loop only the carry is left over the top. */
  lemma PendingEnds(s: seq<int>, carry: int, b: nat)
    ensures Pending(s, |s|, carry, b) == LeValue(s, b) + Pow(b, |s|) * carry
  {
    assert s[..|s|] == s && s[|s|..] == [];
    assert LeValue([], b) == 0;
  }

  lemma CarryArith(a: int, p: int, lo: int, hi: int, h: int, y: int, b: int)
    requires lo + b * hi == y
    ensures a + p * lo + (b * p) * (hi + h) == a + p * (y + b * h)
  {
    assert (b * p) * (hi + h) == p * (b * hi) + p * (b * h);
  }

  /** Pushing the low digit of the carry on top and keeping the quotient. */
  lemma PushArith(v: int, v': int, p: int, p': int, lo: int, hi: int, carry: int, b: int)
    requires v' == v + p * lo && p' == b * p && lo + b * hi == carry
    ensures v' + p' * hi == v + p * carry
  {
    assert (b * p) * hi == p * (b * hi);
  }

  lemma PushStep(s: seq<int>, carry: int, b: nat)
    requires b >= 1
    ensures LeValue(s + [carry % b], b) + Pow(b, |s| + 1) * (carry / b)
      == LeValue(s, b) + Pow(b, |s|) * carry
  {
    var p, lo, hi := Pow(b, |s|), carry % b, carry / b;
    LeValueAppend(s, [lo], b);
    assert LeValue([lo], b) == lo;
    DivModSum(carry, b);
    PushArith(LeValue(s, b), LeValue(s + [lo], b), p, Pow(b, |s| + 1), lo, hi, carry, b);
  }

  /**
   * After one multiply-add-carry round the digit array is again canonical:
   * either it kept its length (and the value did not shrink), or it grew and
   * its new top digit is nonzero.
   */
  lemma RoundIsCanonical(prev: seq<int>, digits: seq<int>, v: nat, m: nat, d: nat, b: nat)
    requires b >= 2 && m >= 1
    requires prev == Canon(v, b)
    requires IsDigits(digits, b) && |digits| >= |prev|
    requires LeValue(digits, b) == v * m + d
    requires |digits| > |prev| ==> digits[|digits| - 1] != 0
    ensures digits == Canon(v * m + d, b)
  {
    assert Trimmed(digits) by {
      if |digits| == |prev| && |prev| > 1 {
        TrimmedLowerBound(prev, b);
        MulLe(v, 1, m);
        TrimmedWhenLarge(digits, b);
      }
    }
    CanonUnique(digits, b);
  }

  lemma BeValueBounds(s: seq<int>, b: nat)
    requires b >= 1 && IsDigits(s, b)
    ensures 0 <= BeValue(s, b) < Pow(b, |s|)
  {
    BeValueIsReversedLeValue(s, b);
    LeValueBounds(Reverse(s), b);
  }

  /**
   * A run of zeros followed by the canonical digits of `v`, written
   * big-endian, has exactly that run as its leading run and `v` as its value.
   */
  lemma ZerosThenCanon(k: nat, v: nat, b: nat)
    requires b >= 2
    ensures LeadingRun(Repeat(0, k) + Reverse(Canon(v, b)), 0) == k
    ensures BeValue(Repeat(0, k) + Reverse(Canon(v, b)), b) == v
  {
    var c := Canon(v, b);
    LeadingRunOfRepeat(0, k, Reverse(c));
    LeadingZeros(k, Reverse(c), b);
    BeValueIsReversedLeValue(Reverse(c), b);
    ReverseReverse(c);
  }

  /**
   * Every nonempty big-endian digit array is its leading run of zeros
   * followed by the canonical digits of its value.
   */
  lemma SplitCanonical(d: seq<int>, b: nat)
    requires b >= 2 && IsDigits(d, b) && |d| >= 1
    ensures BeValue(d, b) >= 0
    ensures d == Repeat(0, LeadingRun(d, 0)) + Reverse(Canon(BeValue(d, b), b))
  {
    var k := LeadingRun(d, 0);
    var rest := d[k..];
    SplitLeadingRun(d, 0);
    LeadingZeros(k, rest, b);
    var r := Reverse(rest);
    assert IsDigits(r, b) && Trimmed(r) by {
      if |rest| > 1 {
        assert r[|r| - 1] == rest[0] == d[k] != 0;
      }
    }
    BeValueIsReversedLeValue(rest, b);
    CanonUnique(r, b);
    ReverseReverse(rest);
  }

  lemma DivMono(x: int, y: int, b: int)
    requires b > 0 && 0 <= x <= y
    ensures x / b <= y / b
  {
    DivModSum(x, b);
    DivModSum(y, b);
    if x / b > y / b {
      MulLe(b, y / b + 1, x / b);
    }
  }

  /** A value no larger than `top + cap` leaves a digit and a carry no larger than `cap`. */
  lemma CarryBounds(y: int, b: nat, top: nat, cap: nat)
    requires b >= 2 && 0 <= y <= top + cap && (top + cap) / b <= cap
    ensures 0 <= y % b < b && 0 <= y / b <= cap
  {
    DivMono(y, top + cap, b);
  }

  /** A carry that has nothing left to pass on is pushed as it is; a larger one shrinks. */
  lemma LastPush(c: int, b: int)
    requires b >= 2 && c > 0
    ensures 0 <= c % b < b && c / b >= 0
    ensures c / b == 0 ==> c % b == c
    ensures c / b < c
  {
    DivModSum(c, b);
    if c >= b {
      DivShrinks(c, b);
    }
  }

  /** Adding to the bottom digit adds to the number. */
  lemma AddAtBottom(s: seq<int>, x: int, b: nat)
    requires |s| >= 1
    ensures LeValue(s[0 := s[0] + x], b) == LeValue(s, b) + x
  {
    assert s[0 := s[0] + x][1..] == s[1..];
  }

  // The loops of a multiply-add-carry round, shared by decoding and encoding

  /** Every digit multiplied by `m`, which multiplies the number by `m`. */
  method ScaleDigits(s: seq<int>, m: int, ghost b: nat) returns (r: seq<int>)
    ensures |r| == |s| && forall k :: 0 <= k < |s| ==> r[k] == s[k] * m
    ensures LeValue(r, b) == LeValue(s, b) * m
  {
    r := s;
    var j := 0;
    while j < |r|
      invariant 0 <= j <= |r| == |s|
      invariant forall k :: 0 <= k < j ==> r[k] == s[k] * m
      invariant forall k :: j <= k < |r| ==> r[k] == s[k]
    {
      r := r[j := r[j] * m];
      j := j + 1;
    }
    LeValueScaled(s, r, m, b);
  }

  /**
   * The carry loop: from the bottom up, each digit absorbs the carry, keeps
   * its remainder modulo `b` and passes the quotient on. With every digit at
   * most `top` and `(top + cap) / b <= cap`, the carry never exceeds `cap`,
   * so no value the loop computes exceeds `top + cap`.
   */
  method PropagateCarry(s: seq<int>, b: nat, ghost top: nat, ghost cap: nat) returns (r: seq<int>, carry: int)
    requires b >= 2 && (top + cap) / b <= cap
    requires forall k :: 0 <= k < |s| ==> 0 <= s[k] <= top
    ensures |r| == |s| && IsDigits(r, b) && 0 <= carry <= cap
    ensures LeValue(r, b) + Pow(b, |s|) * carry == LeValue(s, b)
  {
    r, carry := s, 0;
    PendingStart(r, 0, b);
    var j := 0;
    while j < |r|
      invariant 0 <= j <= |r| == |s|
      invariant 0 <= carry <= cap
      invariant forall k :: 0 <= k < j ==> 0 <= r[k] < b
      invariant forall k :: j <= k < |r| ==> r[k] == s[k]
      invariant Pending(r, j, carry, b) == LeValue(s, b)
    {
      ghost var before, carried := r, carry;
      var y := r[j] + carry;
      CarryBounds(y, b, top, cap);
      carry := y / b;
      r := r[j := y % b];
      CarryStep(before, r, j, carried, y, b);
      j := j + 1;
    }
    PendingEnds(r, carry, b);
  }

  /**
   * The loop that pushes what is left of the carry on top, one digit at a
   * time, until it is zero; a pushed top digit is never zero.
   */
  method PushCarry(s: seq<int>, carry: int, b: nat) returns (r: seq<int>)
    requires b >= 2 && carry >= 0 && IsDigits(s, b)
    ensures IsDigits(r, b) && |r| >= |s| && r[..|s|] == s
    ensures LeValue(r, b) == LeValue(s, b) + Pow(b, |s|) * carry
    ensures |r| > |s| ==> r[|r| - 1] != 0
  {
    r := s;
    var c := carry;
    ghost var total := LeValue(s, b) + Pow(b, |s|) * carry;
    while c != 0
      invariant IsDigits(r, b) && |r| >= |s| && r[..|s|] == s
      invariant c >= 0
      invariant LeValue(r, b) + Pow(b, |r|) * c == total
      invariant c == 0 && |r| > |s| ==> r[|r| - 1] != 0
      decreases c
    {
      PushStep(r, c, b);
      LastPush(c, b);
      ghost var before := r;
      r := r + [c % b];
      assert r[..|s|] == before[..|s|];
      assert r[|r| - 1] == c % b;
      c := c / b;
    }
  }

  /**
   * The carry loop and then the push loop: the same number, every element
   * a digit, the array grown only by nonzero top digits.
   */
  method Normalize(s: seq<int>, b: nat, ghost top: nat, ghost cap: nat) returns (r: seq<int>)
    requires b >= 2 && (top + cap) / b <= cap
    requires forall k :: 0 <= k < |s| ==> 0 <= s[k] <= top
    ensures IsDigits(r, b) && |r| >= |s|
    ensures LeValue(r, b) == LeValue(s, b)
    ensures |r| > |s| ==> r[|r| - 1] != 0
  {
    var carry;
    r, carry := PropagateCarry(s, b, top, cap);
    r := PushCarry(r, carry, b);
  }

  /** Every digit of `s` multiplied by `m`, plus `d` at the bottom, is at most `top`. */
  lemma ScaledBounds(s: seq<int>, r: seq<int>, t: seq<int>, m: nat, d: nat, b: nat, top: nat)
    requires IsDigits(s, b) && |s| >= 1 && b >= 1 && (b - 1) * m + d <= top
    requires |r| == |s| && forall k :: 0 <= k < |s| ==> r[k] == s[k] * m
    requires t == r[0 := r[0] + d]
    ensures forall k :: 0 <= k < |t| ==> 0 <= t[k] <= top
  {
    forall k | 0 <= k < |s|
      ensures 0 <= r[k] <= (b - 1) * m
    {
      MulLe(m, s[k], b - 1);
      MulNonneg(m, s[k]);
    }
  }

  /**
   * One multiply-add-carry round on canonical little-endian digits: every
   * digit times `m`, `d` added at the bottom, the carries propagated and
   * what is left of the carry pushed on top. No value the round computes
   * exceeds `top + cap`.
   */
  method MultiplyAdd(s: seq<int>, m: nat, d: nat, b: nat, ghost top: nat, ghost cap: nat) returns (r: seq<int>)
    requires b >= 2 && m >= 1 && IsDigits(s, b) && Trimmed(s)
    requires (b - 1) * m + d <= top && (top + cap) / b <= cap
    ensures LeValue(s, b) >= 0
    ensures r == Canon(LeValue(s, b) * m + d, b)
  {
    LeValueBounds(s, b);
    CanonUnique(s, b);
    r := ScaleDigits(s, m, b);
    AddAtBottom(r, d, b);
    ScaledBounds(s, r, r[0 := r[0] + d], m, d, b, top);
    r := r[0 := r[0] + d];
    r := Normalize(r, b, top, cap);
    RoundIsCanonical(s, r, LeValue(s, b), m, d, b);
  }
}
