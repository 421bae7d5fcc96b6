/** `strconv.ParseInt(s, 10, 64)`, the phone-number check of the row validation. */
module GoStrconv {
  import opened Wrappers

  const MinInt64: int := -0x8000_0000_0000_0000
  const MaxInt64: int := 0x7fff_ffff_ffff_ffff

  predicate IsDigit(c: char) { '0' <= c <= '9' }

  predicate AllDigits(s: string) { forall k :: 0 <= k < |s| ==> IsDigit(s[k]) }

  /** The value of a string of decimal digits, most significant first. */
  function DecimalValue(ds: string): nat
    requires AllDigits(ds)
  {
    if ds == [] then 0
    else DecimalValue(ds[..|ds| - 1]) * 10 + (ds[|ds| - 1] as int - '0' as int)
  }

  /**
   * `strconv.ParseInt(s, 10, 64)`: an optional `+` or `-`, then one or more
   * decimal digits (no underscores in base 10), whose value must lie in the
   * 64-bit signed range; `None` stands for the returned error (syntax or range).
   */
  function ParseInt64(s: string): (r: Option<int>)
    ensures r.Some? ==> MinInt64 <= r.value <= MaxInt64
    ensures r.Some? ==> |s| > 0 && (forall k :: 0 < k < |s| ==> IsDigit(s[k]))
    ensures r.Some? ==> IsDigit(s[0]) || (|s| > 1 && (s[0] == '+' || s[0] == '-'))
    ensures r.Some? && s[0] == '-' ==> r.value <= 0
    ensures r.Some? && s[0] != '-' ==> r.value >= 0
  {
    if s == [] then None
    else
      var negative := s[0] == '-';
      var digits := if s[0] == '+' || s[0] == '-' then s[1..] else s;
      if digits == [] || !AllDigits(digits) then None
      else
        var u: int := DecimalValue(digits);
        if negative then (if u <= -MinInt64 then Some(-u) else None)
        else (if u <= MaxInt64 then Some(u) else None)
  }

  /** The canonical decimal rendering of `n` (as `strconv.FormatInt(n, 10)`), the reference for the round trip. */
  function FormatInt(n: int): (r: string)
  {
    if n < 0 then "-" + NatDigits(-n) else NatDigits(n)
  }

  function NatDigits(n: nat): string
    decreases n
  {
    if n < 10 then [(n + '0' as int) as char] else NatDigits(n / 10) + [(n % 10 + '0' as int) as char]
  }

  lemma {:induction false} NatDigitsValue(n: nat)
    ensures |NatDigits(n)| > 0 && AllDigits(NatDigits(n)) && DecimalValue(NatDigits(n)) == n
    decreases n
  {
    if n >= 10 {
      NatDigitsValue(n / 10);
      var s := NatDigits(n / 10);
      var t := s + [(n % 10 + '0' as int) as char];
      assert t[..|t| - 1] == s;
    }
  }

  /**
   * Parsing the decimal rendering of any integer gives it back exactly when it
   * lies in the 64-bit range, and is an error otherwise.
   */
  lemma ParseFormatRoundTrip(n: int)
    ensures ParseInt64(FormatInt(n)) == if MinInt64 <= n <= MaxInt64 then Some(n) else None
  {
    if n < 0 {
      NatDigitsValue(-n);
      assert ("-" + NatDigits(-n))[1..] == NatDigits(-n);
    } else {
      NatDigitsValue(n);
    }
  }

  /**
   * Any optional sign followed by one or more digits is accepted, leading zeros
   * included, exactly when its value lies in the 64-bit range, and then with that value.
   */
  lemma ParseSignedDigits(sign: string, ds: string)
    requires sign == "" || sign == "+" || sign == "-"
    requires |ds| > 0 && AllDigits(ds)
    ensures var u: int := DecimalValue(ds); var v := if sign == "-" then -u else u;
      ParseInt64(sign + ds) == if MinInt64 <= v <= MaxInt64 then Some(v) else None
  {
    var s := sign + ds;
    if sign == "" {
      assert s == ds;
    } else {
      assert s[0] == sign[0] && s[1..] == ds;
    }
  }

  /** A string with a character that is neither a digit nor a leading sign is rejected. */
  lemma ParseRejectsNonDigit(s: string, k: nat)
    requires k < |s| && !IsDigit(s[k]) && !(k == 0 && (s[k] == '+' || s[k] == '-'))
    ensures ParseInt64(s) == None
  {
  }
}
