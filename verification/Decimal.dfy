/** Decimal numbers as Rust prints them (plain and zero-padded) and reads them
    back (`str::parse` of the unsigned and signed integer types). */
module Decimal {
  import opened Options
  import opened StringOrder

  predicate IsDigit(c: char) {
    '0' <= c <= '9'
  }

  predicate AllDigits(s: string) {
    forall i :: 0 <= i < |s| ==> IsDigit(s[i])
  }

  function Digit(n: nat): char
    requires n < 10
  {
    ('0' as int + n) as char
  }

  function DigitValue(c: char): nat
    requires IsDigit(c)
  {
    c as int - '0' as int
  }

  function Pow10(w: nat): nat {
    if w == 0 then 1 else 10 * Pow10(w - 1)
  }

  /** `{n}` */
  function Print(n: nat): string {
    if n < 10 then [Digit(n)] else Print(n / 10) + [Digit(n % 10)]
  }

  /** `{n:0w}` */
  function Padded(n: nat, w: nat): string {
    var s := Print(n);
    if |s| >= w then s else seq(w - |s|, i => '0') + s
  }

  function Value(s: string): nat
    requires AllDigits(s)
  {
    if s == "" then 0 else 10 * Value(s[..|s| - 1]) + DigitValue(s[|s| - 1])
  }

  /** Reading an unsigned type whose largest value is `max`: digits, after an optional `+`. */
  function ParseUnsigned(s: string, max: nat): Option<nat> {
    var t := if |s| > 1 && s[0] == '+' then s[1..] else s;
    if t != "" && AllDigits(t) && Value(t) <= max then Some(Value(t)) else None
  }

  /** Reading a signed type that holds `-max - 1 ..= max`. */
  function ParseSigned(s: string, max: nat): Option<int> {
    if |s| > 1 && s[0] == '-' then
      var t := s[1..];
      if AllDigits(t) && Value(t) <= max + 1 then (var n: int := Value(t); Some(0 - n)) else None
    else
      match ParseUnsigned(s, max)
      case Some(v) => Some(v)
      case None => None
  }

  // ---- lemmas ---------------------------------------------------------------

  lemma {:induction false} PrintValue(n: nat)
    ensures AllDigits(Print(n)) && Print(n) != "" && Value(Print(n)) == n
  {
    if n >= 10 {
      PrintValue(n / 10);
      assert Print(n)[..|Print(n)| - 1] == Print(n / 10);
    }
  }

  lemma {:induction false} ZerosValue(k: nat, s: string)
    requires AllDigits(s)
    ensures AllDigits(seq(k, i => '0') + s) && Value(seq(k, i => '0') + s) == Value(s)
    decreases k + |s|
  {
    var z := seq(k, i => '0');
    if s != "" {
      ZerosValue(k, s[..|s| - 1]);
      assert (z + s)[..|z + s| - 1] == z + s[..|s| - 1];
    } else if k > 0 {
      ZerosValue(k - 1, "");
      assert (z + s)[..k - 1] == seq(k - 1, i => '0') + "";
    }
  }

  lemma PaddedValue(n: nat, w: nat)
    ensures AllDigits(Padded(n, w)) && Value(Padded(n, w)) == n && |Padded(n, w)| >= 1
    ensures n < Pow10(w) && w > 0 ==> |Padded(n, w)| == w
    ensures n >= Pow10(w) ==> |Padded(n, w)| > w
  {
    PrintValue(n);
    if |Print(n)| < w { ZerosValue(w - |Print(n)|, Print(n)); }
    if w > 0 { PrintLength(n, w); }
  }

  lemma {:induction false} PrintLength(n: nat, w: nat)
    requires w > 0
    ensures |Print(n)| <= w <==> n < Pow10(w)
  {
    if n < 10 {
      PowPositive(w - 1);
    } else if w > 1 {
      PrintLength(n / 10, w - 1);
    }
  }

  lemma {:induction false} PowPositive(w: nat)
    ensures Pow10(w) >= 1
  {
    if w > 0 { PowPositive(w - 1); }
  }

  lemma {:induction false} ValueBound(s: string)
    requires AllDigits(s)
    ensures Value(s) < Pow10(|s|)
  {
    if s != "" { ValueBound(s[..|s| - 1]); }
  }

  /** Numbers of one width are ordered as their digits are. */
  lemma {:induction false} ValueOrder(s: string, t: string)
    requires AllDigits(s) && AllDigits(t) && |s| == |t|
    ensures Less(s, t) <==> Value(s) < Value(t)
    ensures s == t <==> Value(s) == Value(t)
  {
    if s != "" {
      var n := |s| - 1;
      ValueOrder(s[..n], t[..n]);
      assert s == s[..n] + [s[n]] && t == t[..n] + [t[n]];
      if s[..n] == t[..n] {
        LessAfterPrefix(s[..n], [s[n]], [t[n]]);
      } else {
        LessTotal(s[..n], t[..n]);
        if Less(s[..n], t[..n]) {
          LessByPrefix(s[..n], t[..n], [s[n]], [t[n]]);
        } else {
          LessByPrefix(t[..n], s[..n], [t[n]], [s[n]]);
          LessAsymmetric(t, s);
        }
      }
    }
  }

  lemma PaddedOrder(m: nat, n: nat, w: nat)
    requires w > 0 && m < Pow10(w) && n < Pow10(w)
    ensures Less(Padded(m, w), Padded(n, w)) <==> m < n
    ensures Padded(m, w) == Padded(n, w) <==> m == n
  {
    PaddedValue(m, w);
    PaddedValue(n, w);
    ValueOrder(Padded(m, w), Padded(n, w));
  }

  /** What is printed, padded or not, is read back. */
  lemma ParsePadded(n: nat, w: nat, max: nat)
    requires n <= max
    ensures ParseUnsigned(Padded(n, w), max) == Some(n)
    ensures ParseSigned(Padded(n, w), max) == Some(n)
  {
    PaddedValue(n, w);
  }

  /** Digits are the padded print of their value. */
  lemma PaddedDigits(s: string)
    requires AllDigits(s) && s != ""
    ensures Padded(Value(s), |s|) == s
  {
    ValueBound(s);
    PaddedValue(Value(s), |s|);
    ValueOrder(Padded(Value(s), |s|), s);
  }

  /** A printed number is read exactly when it fits the type; so is one after a `+`. */
  lemma ReadsPrinted(n: nat, max: nat)
    ensures ParseUnsigned(Print(n), max) == if n <= max then Some(n) else None
    ensures ParseUnsigned("+" + Print(n), max) == if n <= max then Some(n) else None
    ensures ParseSigned("-" + Print(n), max) == if n <= max + 1 then Some(0 - n) else None
  {
    hide Print, Value;
    PrintValue(n);
    assert ("+" + Print(n))[1..] == Print(n) && ("-" + Print(n))[1..] == Print(n);
    assert Print(n)[0] != '+';
  }

  /** Anything else is not a number. */
  lemma RejectsOthers(s: string, max: nat)
    requires s == "" || s == "+" || s == "-" || exists i :: 0 < i < |s| && !IsDigit(s[i])
    ensures ParseUnsigned(s, max) == None && ParseSigned(s, max) == None
  {
    if exists i :: 0 < i < |s| && !IsDigit(s[i]) {
      var i :| 0 < i < |s| && !IsDigit(s[i]);
      assert s[1..][i - 1] == s[i];
    }
  }

  /** The digits of a number, by value. */
  lemma DigitsPrinted(n: nat)
    ensures n < 10 ==> Print(n) == ["0123456789"[n]]
    ensures n >= 10 ==> Print(n) == Print(n / 10) + ["0123456789"[n % 10]]
  {
  }
}
