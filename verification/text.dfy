/**
  Text primitives of the wire protocol: decimal numbers written with and
  without zero padding, the integer parsing both sides rely on, and splitting
  and joining on a one-character delimiter. Every character stands for one
  ASCII byte on the wire.
 */
module Text {
  import opened Wrappers

  type String = seq<char>

  predicate IsDigit(c: char) {
    '0' <= c <= '9'
  }

  predicate IsDigits(s: String) {
    forall i :: 0 <= i < |s| ==> IsDigit(s[i])
  }

  function Pow10(k: nat): (p: nat)
    ensures p >= 1
  {
    if k == 0 then 1 else 10 * Pow10(k - 1)
  }

  function DigitChar(d: nat): (c: char)
    requires d < 10
    ensures IsDigit(c)
  {
    ('0' as int + d) as char
  }

  function DigitValue(c: char): (d: nat)
    requires IsDigit(c)
    ensures d < 10
  {
    c as int - '0' as int
  }

  /** The decimal digits of `n`, most significant first, without leading zeros. */
  function Digits(n: nat): (s: String)
    ensures 1 <= |s| && IsDigits(s)
  {
    if n < 10 then [DigitChar(n)] else Digits(n / 10) + [DigitChar(n % 10)]
  }

  /** The value of a string of digits; leading zeros are allowed. */
  function DigitsValue(s: String): nat
    requires IsDigits(s)
  {
    if |s| == 0 then 0 else 10 * DigitsValue(s[..|s| - 1]) + DigitValue(s[|s| - 1])
  }

  function Zeros(k: nat): (s: String)
    ensures |s| == k && IsDigits(s)
  {
    seq(k, _ => '0')
  }

  /** Left-pads `s` with '0' up to `width` characters; a longer `s` is kept whole. */
  function ZeroPad(s: String, width: nat): (r: String)
    ensures IsDigits(s) ==> IsDigits(r)
  {
    if |s| < width then Zeros(width - |s|) + s else s
  }

  /** Python's `str(n)` and `f'{n}'`, and Go's `%d`. */
  function Decimal(n: int): (s: String)
    ensures forall i :: 0 <= i < |s| ==> s[i] == '-' || IsDigit(s[i])
  {
    if n < 0 then "-" + Digits(-n) else Digits(n)
  }

  /**
    Python's `f"{n:0Wd}"` and Go's `%0Wd`: at least `width` characters, the sign
    counted in the width and the zeros placed after it; never truncated.
   */
  function Padded(n: int, width: nat): (s: String)
    ensures forall i :: 0 <= i < |s| ==> s[i] == '-' || IsDigit(s[i])
  {
    if n < 0 then "-" + ZeroPad(Digits(-n), if width > 0 then width - 1 else 0)
    else ZeroPad(Digits(n), width)
  }

  /**
    Integer parsing of an optional sign followed by ASCII digits: Go's
    `strconv.Atoi`, and Python's `int` on the same inputs.
   */
  function ParseInt(s: String): Option<int>
  {
    if |s| > 0 && (s[0] == '-' || s[0] == '+') then
      if |s| > 1 && IsDigits(s[1..]) then
        Some(if s[0] == '-' then -(DigitsValue(s[1..]) as int) else DigitsValue(s[1..]))
      else None
    else if |s| > 0 && IsDigits(s) then Some(DigitsValue(s))
    else None
  }

  /** Python's slice `s[lo:hi]` for non-negative bounds: clamped to the string. */
  function Slice(s: String, lo: nat, hi: nat): (r: String)
    requires lo <= hi
    ensures hi <= |s| ==> r == s[lo..hi]
    ensures |r| <= hi - lo
  {
    if |s| <= lo then [] else if |s| <= hi then s[lo..] else s[lo..hi]
  }

  /** Python's `s[:-1]`: drops the last character, if there is one. */
  function DropLast(s: String): (r: String)
    ensures |s| > 0 ==> r + [s[|s| - 1]] == s
    ensures |s| == 0 ==> r == []
  {
    if |s| == 0 then s else s[..|s| - 1]
  }

  /**
    Python's `s.split(d)` and Go's `strings.Split(s, d)` for a one-character
    delimiter: the pieces between delimiters, empty ones included.
   */
  function Split(s: String, d: char): (parts: seq<String>)
    ensures |parts| >= 1
    ensures forall i :: 0 <= i < |parts| ==> d !in parts[i]
  {
    if |s| == 0 then [[]]
    else if s[0] == d then [[]] + Split(s[1..], d)
    else
      var rest := Split(s[1..], d);
      [[s[0]] + rest[0]] + rest[1..]
  }

  /** Python's `d.join(parts)`: the pieces with one delimiter between neighbours. */
  function Join(parts: seq<String>, d: char): String
  {
    if |parts| == 0 then []
    else if |parts| == 1 then parts[0]
    else parts[0] + [d] + Join(parts[1..], d)
  }

  predicate Free(s: String, d: char) {
    d !in s
  }

  predicate AllFree(parts: seq<String>, d: char) {
    forall i :: 0 <= i < |parts| ==> Free(parts[i], d)
  }

  // ---------------------------------------------------------------------------
  // Numbers

  lemma {:induction false} DigitsValueOfDigits(n: nat)
    ensures DigitsValue(Digits(n)) == n
  {
    if n >= 10 {
      var s := Digits(n);
      assert s[..|s| - 1] == Digits(n / 10);
      DigitsValueOfDigits(n / 10);
    }
  }

  lemma {:induction false} ZerosValue(k: nat)
    ensures DigitsValue(Zeros(k)) == 0
  {
    if k > 0 {
      assert Zeros(k)[..k - 1] == Zeros(k - 1);
      ZerosValue(k - 1);
    }
  }

  /** Leading zeros do not change the value of a digit string. */
  lemma {:induction false} LeadingZeros(k: nat, s: String)
    requires IsDigits(s)
    ensures IsDigits(Zeros(k) + s)
    ensures DigitsValue(Zeros(k) + s) == DigitsValue(s)
  {
    var t := Zeros(k) + s;
    assert forall i :: 0 <= i < |t| ==> IsDigit(t[i]) by {
      forall i | 0 <= i < |t| ensures IsDigit(t[i]) {
        if i < k { assert t[i] == Zeros(k)[i]; } else { assert t[i] == s[i - k]; }
      }
    }
    if |s| == 0 {
      assert t == Zeros(k);
      ZerosValue(k);
    } else {
      assert t[..|t| - 1] == Zeros(k) + s[..|s| - 1];
      LeadingZeros(k, s[..|s| - 1]);
    }
  }

  /** Parsing undoes `Decimal`. */
  lemma ParseDecimal(n: int)
    ensures ParseInt(Decimal(n)) == Some(n)
  {
    if n < 0 {
      assert Decimal(n)[1..] == Digits(-n);
      DigitsValueOfDigits(-n);
    } else {
      DigitsValueOfDigits(n);
    }
  }

  /** Parsing undoes `Padded` whatever the width: the zeros are skipped. */
  lemma ParsePadded(n: int, width: nat)
    ensures ParseInt(Padded(n, width)) == Some(n)
  {
    var m := if n < 0 then -n else n;
    var w := if n < 0 then (if width > 0 then width - 1 else 0) else width;
    var p := ZeroPad(Digits(m), w);
    DigitsValueOfDigits(m);
    if |Digits(m)| < w {
      LeadingZeros(w - |Digits(m)|, Digits(m));
    }
    assert IsDigits(p) && DigitsValue(p) == m;
    if n < 0 {
      assert Padded(n, width)[1..] == p;
    }
  }

  /** Different numbers are written differently. */
  lemma DecimalInjective(a: int, b: int)
    ensures Decimal(a) == Decimal(b) <==> a == b
  {
    ParseDecimal(a);
    ParseDecimal(b);
  }

  /** `n` has at most `k` digits exactly when it is below 10^k. */
  lemma {:induction false} DigitsWidth(n: nat, k: nat)
    requires k >= 1
    ensures |Digits(n)| <= k <==> n < Pow10(k)
  {
    if n >= 10 {
      if k == 1 {
        assert |Digits(n)| == |Digits(n / 10)| + 1 >= 2;
      } else {
        DigitsWidth(n / 10, k - 1);
        assert n / 10 < Pow10(k - 1) <==> n < Pow10(k);
      }
    } else {
      assert Pow10(k) == 10 * Pow10(k - 1);
    }
  }

  /**
    A zero-padded field keeps its width exactly when the number fits in it;
    otherwise it grows and shifts every later field of a fixed-width header.
   */
  lemma PaddedWidth(n: int, width: nat)
    requires width >= 2
    ensures |Padded(n, width)| >= width
    ensures |Padded(n, width)| == width <==> -(Pow10(width - 1) as int) < n < Pow10(width)
  {
    if n < 0 {
      DigitsWidth(-n, width - 1);
    } else {
      DigitsWidth(n, width);
    }
  }

  // ---------------------------------------------------------------------------
  // Splitting and joining

  lemma {:induction false} SplitFree(s: String, d: char)
    requires Free(s, d)
    ensures Split(s, d) == [s]
  {
    if |s| > 0 {
      assert s[0] != d;
      SplitFree(s[1..], d);
      assert [s[0]] + s[1..] == s;
    }
  }

  lemma {:induction false} SplitAfterFree(x: String, d: char, y: String)
    requires Free(x, d)
    ensures Split(x + [d] + y, d) == [x] + Split(y, d)
  {
    if |x| == 0 {
      assert x + [d] + y == [d] + y;
      assert ([d] + y)[1..] == y;
    } else {
      var s := x + [d] + y;
      assert s[0] == x[0] && s[0] != d;
      assert s[1..] == x[1..] + [d] + y;
      SplitAfterFree(x[1..], d, y);
      assert [x[0]] + x[1..] == x;
    }
  }

  /** Splitting recovers the pieces that were joined, if none holds the delimiter. */
  lemma {:induction false} SplitJoin(parts: seq<String>, d: char)
    requires |parts| >= 1
    requires AllFree(parts, d)
    ensures Split(Join(parts, d), d) == parts
  {
    if |parts| == 1 {
      SplitFree(parts[0], d);
    } else {
      assert Free(parts[0], d);
      SplitAfterFree(parts[0], d, Join(parts[1..], d));
      SplitJoin(parts[1..], d);
      assert [parts[0]] + parts[1..] == parts;
    }
  }

  /** Joining the pieces of a split gives back the string. */
  lemma {:induction false} JoinSplit(s: String, d: char)
    ensures Join(Split(s, d), d) == s
  {
    if |s| > 0 {
      var rest := Split(s[1..], d);
      JoinSplit(s[1..], d);
      if s[0] == d {
        assert Join([[]] + rest, d) == [] + [d] + Join(rest, d);
      } else {
        var parts := [[s[0]] + rest[0]] + rest[1..];
        if |rest| == 1 {
          assert Join(parts, d) == [s[0]] + rest[0];
        } else {
          assert parts[1..] == rest[1..];
          assert Join(parts, d) == [s[0]] + rest[0] + [d] + Join(rest[1..], d);
        }
      }
    }
  }

  /** Joining pieces free of a character other than the delimiter leaves the result free of it. */
  lemma {:induction false} JoinFree(parts: seq<String>, d: char, x: char)
    requires x != d
    requires AllFree(parts, x)
    ensures Free(Join(parts, d), x)
  {
    if |parts| > 1 {
      assert Free(parts[0], x);
      JoinFree(parts[1..], d, x);
      assert Join(parts, d) == parts[0] + [d] + Join(parts[1..], d);
    }
  }

  /** In `a + [d] + x` with `x` free of `d`, the delimiter at |a| is the last one. */
  lemma LastDelimiterAt(a: String, x: String, d: char)
    requires Free(x, d)
    ensures (a + [d] + x)[|a|] == d
    ensures forall k :: |a| < k < |a + [d] + x| ==> (a + [d] + x)[k] != d
  {
    var s := a + [d] + x;
    forall k | |a| < k < |s| ensures s[k] != d {
      assert s[k] == x[k - |a| - 1];
    }
  }

  /**
    When the parts after the last delimiter are free of it, that delimiter
    fixes where the part before it ends, whatever the part before contains.
   */
  lemma LastDelimiter(a: String, x: String, b: String, y: String, d: char)
    requires Free(x, d) && Free(y, d)
    requires a + [d] + x == b + [d] + y
    ensures a == b && x == y
  {
    var s := a + [d] + x;
    LastDelimiterAt(a, x, d);
    LastDelimiterAt(b, y, d);
    assert |a| == |b|;
    assert x == s[|a| + 1..] == y;
    assert a == s[..|a|] == b;
  }

  /** Appending one more piece adds one delimiter and the piece. */
  lemma {:induction false} JoinSnoc(parts: seq<String>, x: String, d: char)
    requires |parts| >= 1
    ensures Join(parts + [x], d) == Join(parts, d) + [d] + x
  {
    if |parts| == 1 {
      assert Join(parts + [x], d) == parts[0] + [d] + Join([x], d);
    } else {
      assert (parts + [x])[1..] == parts[1..] + [x];
      JoinSnoc(parts[1..], x, d);
    }
  }
}
