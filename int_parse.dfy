/**
 * Parsing the port number: a model of `int.TryParse(string, out int)` with
 * the default `NumberStyles.Integer` — optional leading and trailing white
 * space, an optional leading sign, then one or more decimal digits, and a
 * value that must fit in a 32-bit signed integer.
 */
module IntParse {
  import opened Options

  const MinInt32: int := -0x8000_0000
  const MaxInt32: int := 0x7FFF_FFFF

  predicate InInt32(n: int) {
    MinInt32 <= n <= MaxInt32
  }

  /** The white-space characters `NumberStyles.AllowLeadingWhite` and `AllowTrailingWhite` skip. */
  predicate IsWhite(c: char) {
    c == ' ' || '\t' <= c <= '\r'
  }

  predicate IsDigit(c: char) {
    '0' <= c <= '9'
  }

  predicate AllWhite(s: string) {
    forall i :: 0 <= i < |s| ==> IsWhite(s[i])
  }

  predicate AllDigits(s: string) {
    forall i :: 0 <= i < |s| ==> IsDigit(s[i])
  }

  /** `s` without its leading white space. */
  function TrimStart(s: string): string
    decreases |s|
  {
    if s != [] && IsWhite(s[0]) then TrimStart(s[1..]) else s
  }

  /** `s` without its trailing white space. */
  function TrimEnd(s: string): string
    decreases |s|
  {
    if s != [] && IsWhite(s[|s| - 1]) then TrimEnd(s[..|s| - 1]) else s
  }

  /** TrimStart removes a prefix that is all white space, and all of it. */
  lemma {:induction false} TrimStartSpec(s: string)
    ensures |TrimStart(s)| <= |s| && TrimStart(s) == s[|s| - |TrimStart(s)|..]
    ensures AllWhite(s[..|s| - |TrimStart(s)|])
    ensures TrimStart(s) == [] || !IsWhite(TrimStart(s)[0])
    decreases |s|
  {
    if s != [] && IsWhite(s[0]) {
      TrimStartSpec(s[1..]);
      var k := |s| - |TrimStart(s)|;
      assert s[..k] == [s[0]] + s[1..][..k - 1];
    }
  }

  /** TrimEnd removes a suffix that is all white space, and all of it. */
  lemma {:induction false} TrimEndSpec(s: string)
    ensures |TrimEnd(s)| <= |s| && TrimEnd(s) == s[..|TrimEnd(s)|]
    ensures AllWhite(s[|TrimEnd(s)|..])
    ensures TrimEnd(s) == [] || !IsWhite(TrimEnd(s)[|TrimEnd(s)| - 1])
    decreases |s|
  {
    if s != [] && IsWhite(s[|s| - 1]) {
      TrimEndSpec(s[..|s| - 1]);
      var k := |TrimEnd(s)|;
      assert s[k..] == s[..|s| - 1][k..] + [s[|s| - 1]];
    }
  }

  function DigitValue(c: char): nat
    requires IsDigit(c)
  {
    c as int - '0' as int
  }

  function DigitChar(d: nat): (c: char)
    requires d < 10
    ensures IsDigit(c) && DigitValue(c) == d
  {
    (d + '0' as int) as char
  }

  /** The value of a string of decimal digits, most significant first. */
  function DigitsValue(d: string): nat
    requires AllDigits(d)
    decreases |d|
  {
    if d == [] then 0 else DigitsValue(d[..|d| - 1]) * 10 + DigitValue(d[|d| - 1])
  }

  /**
   * `int.TryParse(s, out v)`: `Some(v)` when it returns true, `None` when it
   * returns false.
   */
  function TryParseInt(s: string): (r: Option<int>)
    ensures r.Some? ==> InInt32(r.value)
  {
    ParseSigned(TrimEnd(TrimStart(s)))
  }

  /** An optional sign followed by one or more digits, the whole worth a 32-bit value. */
  function ParseSigned(t: string): (r: Option<int>)
    ensures r.Some? ==> InInt32(r.value)
  {
    var signed := |t| > 0 && (t[0] == '-' || t[0] == '+');
    var digits := if signed then t[1..] else t;
    if digits == [] || !AllDigits(digits) then None
    else
      var v: int := if signed && t[0] == '-' then -(DigitsValue(digits) as int) else DigitsValue(digits);
      if InInt32(v) then Some(v) else None
  }

  /** The shortest decimal rendering of a natural number. */
  function ShowNat(n: nat): (r: string)
    ensures r != [] && AllDigits(r)
    ensures r[0] != '0' || n == 0
  {
    if n < 10 then [DigitChar(n)] else ShowNat(n / 10) + [DigitChar(n % 10)]
  }

  /** The decimal rendering of an integer, with a '-' sign when it is negative. */
  function ShowInt(n: int): (r: string)
    ensures r != [] && (n < 0 <==> r[0] == '-')
  {
    if n < 0 then "-" + ShowNat(-n) else ShowNat(n)
  }

  lemma {:induction false} DigitsValueShowNat(n: nat)
    ensures DigitsValue(ShowNat(n)) == n
  {
    var s := ShowNat(n);
    if n >= 10 {
      assert s[..|s| - 1] == ShowNat(n / 10);
      DigitsValueShowNat(n / 10);
    }
  }

  /** A rendered integer has no surrounding white space to trim. */
  lemma ShowIntTrimmed(n: int)
    ensures TrimEnd(TrimStart(ShowInt(n))) == ShowInt(n)
  {
  }

  /**
   * Every integer's rendering parses back to it exactly when it fits in 32
   * bits; outside that range the parse fails (overflow is rejected).
   */
  lemma ParseShowInt(n: int)
    ensures TryParseInt(ShowInt(n)) == if InInt32(n) then Some(n) else None
  {
    ShowIntTrimmed(n);
    if n < 0 {
      assert ShowInt(n)[1..] == ShowNat(-n);
      DigitsValueShowNat(-n);
    } else {
      DigitsValueShowNat(n);
    }
  }

  lemma {:induction false} TrimStartWhite(w: string, t: string)
    requires AllWhite(w)
    requires t == [] || !IsWhite(t[0])
    ensures TrimStart(w + t) == t
    decreases |w|
  {
    if w != [] {
      assert (w + t)[1..] == w[1..] + t;
      TrimStartWhite(w[1..], t);
    }
  }

  lemma {:induction false} TrimEndWhite(t: string, w: string)
    requires AllWhite(w)
    requires t == [] || !IsWhite(t[|t| - 1])
    ensures TrimEnd(t + w) == t
    decreases |w|
  {
    if w != [] {
      assert (t + w)[..|t + w| - 1] == t + w[..|w| - 1];
      TrimEndWhite(t, w[..|w| - 1]);
    }
  }

  /** Trimming removes exactly the white space around a text that has none at its ends. */
  lemma TrimAround(lead: string, s: string, trail: string)
    requires AllWhite(lead) && AllWhite(trail)
    requires s == [] || (!IsWhite(s[0]) && !IsWhite(s[|s| - 1]))
    ensures TrimEnd(TrimStart(lead + s + trail)) == s
  {
    if s == [] {
      assert lead + s + trail == (lead + trail) + [];
      assert AllWhite(lead + trail);
      TrimStartWhite(lead + trail, []);
    } else {
      assert lead + s + trail == lead + (s + trail);
      assert (s + trail)[0] == s[0];
      TrimStartWhite(lead, s + trail);
      TrimEndWhite(s, trail);
    }
  }

  /** White space around a number does not change what it parses to. */
  lemma ParseIgnoresWhite(lead: string, s: string, trail: string)
    requires AllWhite(lead) && AllWhite(trail)
    requires s == [] || (!IsWhite(s[0]) && !IsWhite(s[|s| - 1]))
    ensures TryParseInt(lead + s + trail) == TryParseInt(s)
  {
    TrimAround(lead, s, trail);
    TrimAround([], s, []);
    assert [] + s + [] == s;
  }

  /**
   * A character that is neither white space, a digit nor a sign anywhere in
   * the text makes the parse fail.
   */
  lemma ParseRejectsForeign(s: string, i: nat)
    requires i < |s|
    requires !IsWhite(s[i]) && !IsDigit(s[i]) && s[i] != '-' && s[i] != '+'
    ensures TryParseInt(s) == None
  {
    var u := TrimStart(s);
    var t := TrimEnd(u);
    TrimStartSpec(s);
    TrimEndSpec(u);
    var k := |s| - |u|;
    assert k <= i;
    var j := i - k;
    assert u[j] == s[i];
    assert j < |t|;
    assert t[j] == s[i];
    var signed := |t| > 0 && (t[0] == '-' || t[0] == '+');
    var digits := if signed then t[1..] else t;
    if signed {
      assert j > 0 && digits[j - 1] == s[i];
    } else {
      assert digits[j] == s[i];
    }
  }
  /** The sign `NumberStyles.AllowLeadingSign` lets stand before the digits: none, '+' or '-'. */
  predicate IsSign(sign: string) {
    sign == "" || sign == "+" || sign == "-"
  }

  /** The value a sign and a string of digits denote. */
  function SignedValue(sign: string, d: string): int
    requires AllDigits(d)
  {
    if sign == "-" then -(DigitsValue(d) as int) else DigitsValue(d)
  }

  /** The sign-and-digits core parses to its value when that fits in 32 bits. */
  lemma ParseSignedAccepts(sign: string, d: string)
    requires IsSign(sign) && d != [] && AllDigits(d)
    ensures ParseSigned(sign + d) == if InInt32(SignedValue(sign, d)) then Some(SignedValue(sign, d)) else None
  {
    var t := sign + d;
    if sign == "" {
      assert t == d;
      assert IsDigit(t[0]);
    } else {
      assert t[0] == sign[0] && t[1..] == d;
    }
  }

  /**
   * Every text of the form white space, optional sign, one or more digits,
   * white space parses: to its value when that fits in 32 bits, and to
   * nothing otherwise. Leading zeros and a '+' sign are accepted.
   */
  lemma ParseAccepts(lead: string, sign: string, d: string, trail: string)
    requires AllWhite(lead) && AllWhite(trail)
    requires IsSign(sign) && d != [] && AllDigits(d)
    ensures TryParseInt(lead + sign + d + trail)
         == if InInt32(SignedValue(sign, d)) then Some(SignedValue(sign, d)) else None
  {
    var t := sign + d;
    assert lead + sign + d + trail == lead + t + trail;
    assert t[0] == if sign == "" then d[0] else sign[0];
    assert t[|t| - 1] == d[|d| - 1];
    TrimAround(lead, t, trail);
    ParseSignedAccepts(sign, d);
  }

  /**
   * Only texts of that form parse: a successful parse splits its input into
   * white space, an optional sign, one or more digits and white space, and
   * its value is what the sign and digits denote.
   */
  lemma ParseAcceptsOnly(s: string) returns (lead: string, sign: string, d: string, trail: string)
    requires TryParseInt(s).Some?
    ensures s == lead + sign + d + trail
    ensures AllWhite(lead) && AllWhite(trail)
    ensures IsSign(sign) && d != [] && AllDigits(d)
    ensures TryParseInt(s).value == SignedValue(sign, d)
  {
    var t;
    lead, t, trail := SplitWhite(s);
    sign, d := SplitSign(t);
    assert s == lead + (sign + d) + trail;
  }

  /** A text is its leading white space, its trimmed core and its trailing white space. */
  lemma SplitWhite(s: string) returns (lead: string, t: string, trail: string)
    ensures s == lead + t + trail && t == TrimEnd(TrimStart(s))
    ensures AllWhite(lead) && AllWhite(trail)
  {
    var u := TrimStart(s);
    t := TrimEnd(u);
    TrimStartSpec(s);
    TrimEndSpec(u);
    lead := s[..|s| - |u|];
    trail := u[|t|..];
    assert s == s[..|s| - |u|] + s[|s| - |u|..];
    assert u == u[..|t|] + u[|t|..];
  }

  /** The sign and the digits of a text that ParseSigned accepts. */
  lemma SplitSign(t: string) returns (sign: string, d: string)
    requires ParseSigned(t).Some?
    ensures t == sign + d
    ensures IsSign(sign) && d != [] && AllDigits(d)
    ensures ParseSigned(t).value == SignedValue(sign, d)
  {
    if |t| > 0 && (t[0] == '-' || t[0] == '+') {
      sign, d := t[..1], t[1..];
      assert sign == [t[0]];
    } else {
      sign, d := "", t;
    }
  }

  /** A '+' sign and leading zeros are accepted. */
  lemma ParseExamplesAccepted()
    ensures TryParseInt("+80") == Some(80)
    ensures TryParseInt(" 0080\t") == Some(80)
    ensures TryParseInt("-0") == Some(0)
  {
    ParseAccepts("", "+", "80", "");
    assert "+80" == "" + "+" + "80" + "";
    assert DigitsValue("0080") == 80 by {
      assert "0080"[..3] == "008" && "008"[..2] == "00" && "00"[..1] == "0" && "0"[..0] == "";
    }
    ParseAccepts(" ", "", "0080", "\t");
    assert " 0080\t" == " " + "" + "0080" + "\t";
    ParseAccepts("", "-", "0", "");
    assert "-0" == "" + "-" + "0" + "";
  }

  /** Texts without the white/sign/digits/white form are rejected. */
  lemma ParseExamplesRejected()
    ensures TryParseInt("") == None && TryParseInt("+") == None
    ensures TryParseInt("5-") == None && TryParseInt("--5") == None
    ensures TryParseInt("1 2") == None
  {
    assert TrimEnd(TrimStart("")) == "";
    TrimAround("", "+", "");
    assert "" + "+" + "" == "+" && "+"[1..] == "";
    TrimAround("", "5-", "");
    assert "" + "5-" + "" == "5-" && !IsDigit("5-"[1]);
    TrimAround("", "--5", "");
    assert "" + "--5" + "" == "--5" && !IsDigit("--5"[1..][0]);
    TrimAround("", "1 2", "");
    assert "" + "1 2" + "" == "1 2" && !IsDigit("1 2"[1]);
  }
}
