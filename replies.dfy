/** The reply a socket server sends back: `sprintf(response, "%d", res)`,
    then a NUL written at a fixed position, which keeps at most that many
    characters. */
module Replies {
  import opened Commands

  function DigitChar(d: int): (c: char)
    requires 0 <= d < 10
    ensures '0' <= c <= '9'
  {
    "0123456789"[d]
  }

  /** The decimal digits of a natural number, most significant first, with no leading zero. */
  function Digits(n: nat): (s: string)
    ensures |s| >= 1 && forall k :: 0 <= k < |s| ==> '0' <= s[k] <= '9'
    ensures n >= 10 <==> |s| >= 2
    ensures |s| >= 2 ==> s[0] != '0'
  {
    if n < 10 then [DigitChar(n)] else Digits(n / 10) + [DigitChar(n % 10)]
  }

  /** What "%d" prints: a '-' sign for a negative number, then its digits. */
  function DecimalText(n: int): (s: string)
    ensures |s| >= 1
    ensures n < 0 <==> s[0] == '-'
  {
    if n < 0 then "-" + Digits(-n) else Digits(n)
  }

  /** The value of a string of digits, read left to right; None when it is
      empty or holds a non-digit. */
  function DigitsValue(s: string): (r: Option<nat>)
    ensures r.Some? ==> |s| >= 1
  {
    if |s| == 0 then None
    else if !('0' <= s[|s| - 1] <= '9') then None
    else
      var d := (s[|s| - 1] as int) - ('0' as int);
      if |s| == 1 then Some(d)
      else match DigitsValue(s[..|s| - 1])
        case None => None
        case Some(v) => Some(v * 10 + d)
  }

  /** The value of a decimal number with an optional '-' sign. */
  function DecimalValue(s: string): Option<int> {
    if |s| > 0 && s[0] == '-' then
      match DigitsValue(s[1..])
      case None => None
      case Some(v) => var w: int := v; Some(-w)
    else match DigitsValue(s)
      case None => None
      case Some(v) => Some(v as int)
  }

  lemma DigitValue(d: int)
    requires 0 <= d < 10
    ensures (DigitChar(d) as int) - ('0' as int) == d
  {
  }

  /** Reading back the digits of n gives n. */
  lemma {:induction false} DigitsRoundTrip(n: nat)
    ensures DigitsValue(Digits(n)) == Some(n)
  {
    if n < 10 {
      DigitValue(n);
      assert Digits(n) == [DigitChar(n)];
    } else {
      var q, d := n / 10, n % 10;
      DigitsRoundTrip(q);
      DigitValue(d);
      DigitsValueAppend(Digits(q), DigitChar(d), q);
      assert Digits(n) == Digits(q) + [DigitChar(d)];
      assert q * 10 + d == n;
    }
  }

  /** One more digit on the right multiplies the value by ten and adds it. */
  lemma DigitsValueAppend(p: string, c: char, v: nat)
    requires DigitsValue(p) == Some(v) && '0' <= c <= '9'
    ensures DigitsValue(p + [c]) == Some(v * 10 + ((c as int) - ('0' as int)))
  {
    var s := p + [c];
    assert s[..|s| - 1] == p;
    assert s[|s| - 1] == c;
  }

  /** A '-' before a string of digits negates its value. */
  lemma SignedValue(d: string, v: nat)
    requires DigitsValue(d) == Some(v)
    ensures DecimalValue("-" + d) == Some(-(v as int))
  {
    var s := "-" + d;
    assert s[0] == '-' && s[1..] == d;
  }

  /** A string of digits reads as its value when it does not start with '-'. */
  lemma UnsignedValue(d: string, v: nat)
    requires DigitsValue(d) == Some(v) && d[0] != '-'
    ensures DecimalValue(d) == Some(v as int)
  {
  }

  /** Reading back "-" and the digits of m gives -m. */
  lemma SignedRoundTrip(m: nat)
    ensures DecimalValue("-" + Digits(m)) == Some(-(m as int))
  {
    var d := Digits(m);
    DigitsRoundTrip(m);
    SignedValue(d, m);
  }

  /** Reading back the digits of m, unsigned, gives m. */
  lemma UnsignedRoundTrip(m: nat)
    ensures DecimalValue(Digits(m)) == Some(m as int)
  {
    var d := Digits(m);
    DigitsRoundTrip(m);
    assert '0' <= d[0] <= '9';
    UnsignedValue(d, m);
  }

  /** Reading back what "%d" prints gives the number. */
  lemma DecimalRoundTrip(n: int)
    ensures DecimalValue(DecimalText(n)) == Some(n)
  {
    var s := DecimalText(n);
    if n < 0 {
      var m: nat := -n;
      SignedRoundTrip(m);
      assert s == "-" + Digits(m);
      assert DecimalValue(s) == Some(n);
    } else {
      var m: nat := n;
      UnsignedRoundTrip(m);
      assert s == Digits(m);
      assert DecimalValue(s) == Some(n);
    }
  }

  /** The string as strlen sees it after `response[k] = '\0'`. */
  function Truncated(s: string, k: nat): (r: string)
    ensures |r| <= k && |r| <= |s|
    ensures r == s[..|r|]
    ensures |s| <= k ==> r == s
    ensures |s| > k ==> r == s[..k]
  {
    if |s| <= k then s else s[..k]
  }

  /** Numbers of at most two printed characters lose nothing when cut to two. */
  lemma ShortText(n: int)
    requires -9 <= n <= 99
    ensures |DecimalText(n)| <= 2
  {
    if n < 0 {
      assert |Digits(-n)| == 1;
    }
  }
}
