/** 32-bit integers as the configuration reads and prints them:
    `int.TryParse` with the default `NumberStyles.Integer` and an invariant
    culture, and the decimal text `{port}` interpolates into the address. */
module Numbers {
  import opened Wrappers

  const MinInt32: int := -0x8000_0000
  const MaxInt32: int := 0x7FFF_FFFF

  /** The C# `int`. */
  type Int32 = x: int | MinInt32 <= x <= MaxInt32

  /** The white space `NumberStyles.AllowLeadingWhite`/`AllowTrailingWhite`
      accept: U+0009 to U+000D and U+0020. */
  predicate IsWhite(c: char) {
    c == ' ' || '\t' <= c <= '\r'
  }

  predicate IsDigit(c: char) {
    '0' <= c <= '9'
  }

  predicate AllDigits(s: string) {
    forall i :: 0 <= i < |s| ==> IsDigit(s[i])
  }

  function TrimStart(s: string): (r: string)
    ensures |r| <= |s| && r == s[|s| - |r|..]
    ensures r == [] || !IsWhite(r[0])
    ensures AllWhite(s[..|s| - |r|])
  {
    if s != [] && IsWhite(s[0]) then TrimStart(s[1..]) else s
  }

  function TrimEnd(s: string): (r: string)
    ensures |r| <= |s| && r == s[..|r|]
    ensures r == [] || !IsWhite(r[|r| - 1])
    ensures AllWhite(s[|r|..])
  {
    if s != [] && IsWhite(s[|s| - 1]) then TrimEnd(s[..|s| - 1]) else s
  }

  /** The text left once surrounding white space is ignored. */
  function Trim(s: string): string {
    TrimEnd(TrimStart(s))
  }

  function DigitValue(c: char): nat
    requires IsDigit(c)
  {
    c as int - '0' as int
  }

  /** The value of a run of decimal digits, most significant first. */
  function DigitsValue(ds: string): nat
    requires AllDigits(ds)
  {
    if ds == [] then 0 else DigitsValue(ds[..|ds| - 1]) * 10 + DigitValue(ds[|ds| - 1])
  }

  /** `int.TryParse(s, out v)` when `s` is not null: `Some(v)` when it
      returns true. Surrounding white space is ignored; what remains must be
      an optional sign and at least one digit, with a value that fits 32
      bits. Anything else fails. */
  function ParseInt32(s: string): (r: Option<Int32>)
    ensures (forall i :: 0 <= i < |s| ==> !IsDigit(s[i])) ==> r.None?
  {
    var t := Trim(s);
    assert forall i :: 0 <= i < |t| ==> t[i] == s[|s| - |TrimStart(s)| + i];
    ParseSigned(t)
  }

  /** The number in `t`, which has no surrounding white space. */
  function ParseSigned(t: string): (r: Option<Int32>)
    ensures (forall i :: 0 <= i < |t| ==> !IsDigit(t[i])) ==> r.None?
  {
    var signed := |t| > 0 && (t[0] == '-' || t[0] == '+');
    var digits := if signed then t[1..] else t;
    if |digits| == 0 || !AllDigits(digits) then
      None
    else
      assert t[|t| - |digits|] == digits[0];
      var magnitude: int := DigitsValue(digits);
      var v: int := if signed && t[0] == '-' then -magnitude else magnitude;
      if MinInt32 <= v <= MaxInt32 then Some(v) else None
  }

  /** The value `int.TryParse` leaves in its out argument: the parsed number,
      or 0 when parsing fails, including for a null string. */
  function TryParseOut(s: Option<string>): (v: Int32)
    ensures s.None? ==> v == 0
    ensures s.Some? && ParseInt32(s.value).None? ==> v == 0
    ensures s.Some? && ParseInt32(s.value).Some? ==> v == ParseInt32(s.value).value
  {
    match s
    case None => 0
    case Some(text) => ParseInt32(text).GetOr(0)
  }

  /** Decimal digits of a natural number, without leading zeros. */
  function NatDigits(n: nat): (r: string)
    ensures |r| > 0 && AllDigits(r)
    ensures DigitsValue(r) == n
    ensures |r| > 1 ==> r[0] != '0'
  {
    if n < 10 then [('0' as int + n) as char]
    else
      var r := NatDigits(n / 10) + [('0' as int + n % 10) as char];
      assert r[..|r| - 1] == NatDigits(n / 10);
      r
  }

  /** `n.ToString()` in the invariant culture. */
  function FormatInt(n: int): (r: string)
    ensures |r| > 0 && ':' !in r
    ensures (r[0] == '-') <==> n < 0
    ensures n < 0 ==> |r| >= 2
    ensures forall i :: 0 <= i < |r| ==> IsDigit(r[i]) || (i == 0 && r[i] == '-')
  {
    if n < 0 then "-" + NatDigits(-n) else NatDigits(n)
  }

  /** Formatting a 32-bit value and parsing the text back gives the value. */
  lemma FormatParseRoundTrip(n: Int32)
    ensures ParseInt32(FormatInt(n)) == Some(n)
  {
    var s := FormatInt(n);
    assert !IsWhite(s[0]);
    assert TrimStart(s) == s;
    assert !IsWhite(s[|s| - 1]);
    assert Trim(s) == s;
    if n < 0 {
      assert s[1..] == NatDigits(-(n as int));
    }
  }

  predicate AllWhite(w: string) {
    forall i :: 0 <= i < |w| ==> IsWhite(w[i])
  }

  /** A sign `int.TryParse` accepts in front of the digits: none, '+' or '-'. */
  predicate IsSign(sign: string) {
    sign == "" || sign == "+" || sign == "-"
  }

  /** The number a sign and a magnitude denote. */
  function Signed(sign: string, magnitude: nat): int {
    if sign == "-" then -(magnitude as int) else magnitude
  }

  /** White space around a setting, of any length, does not change what it
      parses to. */
  lemma ParseIgnoresPadding(p: string, s: string, w: string)
    requires AllWhite(p) && AllWhite(w)
    ensures ParseInt32(p + s + w) == ParseInt32(s)
  {
    TrimPadding(p, s, w);
  }

  lemma TrimPadding(p: string, s: string, w: string)
    requires AllWhite(p) && AllWhite(w)
    ensures Trim(p + s + w) == Trim(s)
  {
    var q := s + w;
    assert p + s + w == p + q;
    TrimStartWhitePrefix(p, q);
    assert TrimStart(p + s + w) == TrimStart(q);
    TrimStartAppendWhite(s, w);
    if TrimStart(q) == TrimStart(s) + w {
      TrimEndWhite(TrimStart(s), w);
    } else {
      assert TrimStart(s) == [] && TrimStart(q) == [];
    }
  }

  lemma {:induction false} TrimStartWhitePrefix(p: string, s: string)
    requires AllWhite(p)
    ensures TrimStart(p + s) == TrimStart(s)
  {
    if p == [] {
      assert p + s == s;
    } else {
      assert (p + s)[1..] == p[1..] + s;
      TrimStartWhitePrefix(p[1..], s);
    }
  }

  /** Text without surrounding white space is its own trimmed form. */
  lemma TrimUnpadded(t: string)
    requires t != [] && !IsWhite(t[0]) && !IsWhite(t[|t| - 1])
    ensures Trim(t) == t
  {
  }

  /** What `int.TryParse` accepts: optional white space, an optional sign,
      one or more digits (leading zeros allowed) and optional white space;
      the result is the signed magnitude when it fits 32 bits and a failure
      when it does not. */
  lemma ParseWellFormed(p: string, sign: string, ds: string, w: string)
    requires AllWhite(p) && AllWhite(w) && IsSign(sign) && ds != [] && AllDigits(ds)
    ensures ParseInt32(p + (sign + ds) + w)
         == if MinInt32 <= Signed(sign, DigitsValue(ds)) <= MaxInt32
            then Some(Signed(sign, DigitsValue(ds))) else None
  {
    ParseIgnoresPadding(p, sign + ds, w);
    ParseUnpadded(sign, ds);
  }

  lemma ParseUnpadded(sign: string, ds: string)
    requires IsSign(sign) && ds != [] && AllDigits(ds)
    ensures ParseInt32(sign + ds)
         == if MinInt32 <= Signed(sign, DigitsValue(ds)) <= MaxInt32
            then Some(Signed(sign, DigitsValue(ds))) else None
  {
    SignedDigitsTrimmed(sign, ds);
    ParseSignedDigits(sign, ds);
  }

  lemma SignedDigitsTrimmed(sign: string, ds: string)
    requires IsSign(sign) && ds != [] && AllDigits(ds)
    ensures Trim(sign + ds) == sign + ds
  {
    var t := sign + ds;
    assert t[|t| - 1] == ds[|ds| - 1];
    assert t[0] == if sign == "" then ds[0] else sign[0];
    TrimUnpadded(t);
  }

  lemma ParseSignedDigits(sign: string, ds: string)
    requires IsSign(sign) && ds != [] && AllDigits(ds)
    ensures ParseSigned(sign + ds)
         == if MinInt32 <= Signed(sign, DigitsValue(ds)) <= MaxInt32
            then Some(Signed(sign, DigitsValue(ds))) else None
  {
    var t := sign + ds;
    if sign == "" {
      assert t == ds;
      assert !(t[0] == '-' || t[0] == '+');
    } else {
      assert t[0] == sign[0];
      assert t[1..] == ds;
    }
  }

  /** Whatever parses is, once trimmed, an optional sign followed by digits
      whose signed value is the result: nothing else is accepted. */
  lemma ParseSound(s: string)
    requires ParseInt32(s).Some?
    ensures exists sign, ds :: ParsesAs(Trim(s), sign, ds, ParseInt32(s).value)
  {
    SignedSound(Trim(s));
  }

  lemma SignedSound(t: string)
    requires ParseSigned(t).Some?
    ensures exists sign, ds :: ParsesAs(t, sign, ds, ParseSigned(t).value)
  {
    var signed := |t| > 0 && (t[0] == '-' || t[0] == '+');
    var sign := if signed then t[..1] else "";
    var ds := if signed then t[1..] else t;
    assert t == sign + ds;
    assert ParsesAs(t, sign, ds, ParseSigned(t).value);
  }

  /** `t` is the sign `sign` followed by the digits `ds`, denoting `v`. */
  predicate ParsesAs(t: string, sign: string, ds: string, v: int) {
    IsSign(sign) && ds != [] && AllDigits(ds) && t == sign + ds && v == Signed(sign, DigitsValue(ds))
  }

  /** The text of a number outside the 32-bit range does not parse. */
  lemma FormatParseOutOfRange(n: int)
    requires n < MinInt32 || MaxInt32 < n
    ensures ParseInt32(FormatInt(n)) == None
  {
    if n < 0 {
      ParseUnpadded("-", NatDigits(-n));
    } else {
      ParseUnpadded("", NatDigits(n));
      assert "" + NatDigits(n) == FormatInt(n);
    }
  }

  /** A character that is neither a digit nor white space after the first
      digit makes the whole text fail, "80a" for one. */
  lemma ParseRejectsEmbedded()
    ensures ParseInt32("80a") == None
  {
    assert Trim("80a") == "80a" by { TrimUnpadded("80a"); }
    assert !AllDigits("80a") by { assert !IsDigit("80a"[2]); }
  }

  lemma {:induction false} TrimStartAppendWhite(s: string, w: string)
    requires AllWhite(w)
    ensures TrimStart(s + w) == TrimStart(s) + w || (TrimStart(s) == [] && TrimStart(s + w) == [])
  {
    if s == [] {
      assert s + w == w;
      AllWhiteTrims(w);
    } else if IsWhite(s[0]) {
      assert (s + w)[1..] == s[1..] + w;
      TrimStartAppendWhite(s[1..], w);
    } else {
    }
  }

  lemma {:induction false} AllWhiteTrims(w: string)
    requires AllWhite(w)
    ensures TrimStart(w) == [] && TrimEnd(w) == []
  {
    if w != [] {
      AllWhiteTrims(w[1..]);
      AllWhiteTrims(w[..|w| - 1]);
    }
  }

  lemma {:induction false} TrimEndWhite(s: string, w: string)
    requires AllWhite(w)
    ensures TrimEnd(s + w) == TrimEnd(s)
    decreases |w|
  {
    if w == [] {
      assert s + w == s;
    } else {
      assert (s + w)[..|s + w| - 1] == s + w[..|w| - 1];
      TrimEndWhite(s, w[..|w| - 1]);
    }
  }
}
