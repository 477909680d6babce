/** Python's `int(text)` and `str(number)` for decimal integers. */
module Numbers {
  import opened Wrappers
  import opened Strings

  predicate IsDigit(c: char) {
    '0' <= c <= '9'
  }

  predicate AllDigits(s: string) {
    forall j :: 0 <= j < |s| ==> IsDigit(s[j])
  }

  function DigitValue(c: char): nat
    requires IsDigit(c)
  {
    (c as int) - ('0' as int)
  }

  function DigitChar(d: nat): (c: char)
    requires d < 10
    ensures IsDigit(c) && DigitValue(c) == d
  {
    (('0' as int) + d) as char
  }

  /** The value of a run of decimal digits, most significant first. */
  function DigitsValue(ds: string): nat
    requires AllDigits(ds)
  {
    if ds == [] then 0 else DigitsValue(ds[..|ds| - 1]) * 10 + DigitValue(ds[|ds| - 1])
  }

  /** `str(n)` for a natural number: its shortest decimal spelling. */
  function NatToString(n: nat): (s: string)
    ensures s != [] && AllDigits(s)
    ensures DigitsValue(s) == n
    ensures |s| > 1 ==> s[0] != '0'
  {
    if n < 10 then [DigitChar(n)]
    else
      var prefix := NatToString(n / 10);
      assert (prefix + [DigitChar(n % 10)])[..|prefix|] == prefix;
      prefix + [DigitChar(n % 10)]
  }

  /** `str(n)` for any integer. */
  function IntToString(n: int): (s: string)
  {
    if n < 0 then "-" + NatToString(-n) else NatToString(n)
  }

  predicate DigitsOrUnderscores(b: string) {
    forall j :: 0 <= j < |b| ==> IsDigit(b[j]) || b[j] == '_'
  }

  predicate NoDoubleUnderscore(b: string) {
    |b| < 2 || ((b[0] != '_' || b[1] != '_') && NoDoubleUnderscore(b[1..]))
  }

  /** A digit group `int()` accepts: digits, with single underscores between digits. */
  predicate IsDigitGroup(b: string) {
    && b != [] && IsDigit(b[0]) && IsDigit(b[|b| - 1])
    && DigitsOrUnderscores(b) && NoDoubleUnderscore(b)
  }

  lemma DigitsAreGroup(b: string)
    requires b != [] && AllDigits(b)
    ensures IsDigitGroup(b)
  {
    var k := |b|;
    while k > 0
      invariant 0 <= k <= |b|
      invariant NoDoubleUnderscore(b[k..])
    {
      k := k - 1;
      assert b[k..][1..] == b[k + 1..];
    }
  }

  function RemoveUnderscores(b: string): (ds: string)
    requires DigitsOrUnderscores(b)
    ensures AllDigits(ds)
    ensures AllDigits(b) ==> ds == b
  {
    if b == [] then []
    else (if b[0] == '_' then [] else [b[0]]) + RemoveUnderscores(b[1..])
  }

  /** The value of a digit group, or `None` for text that is not one. */
  function GroupValue(b: string): Option<nat>
  {
    if !IsDigitGroup(b) then None
    else Some(DigitsValue(RemoveUnderscores(b)))
  }

  /** Only digits and underscores make a digit group. */
  lemma GroupValueChars(b: string)
    requires GroupValue(b).Some?
    ensures DigitsOrUnderscores(b)
  {
  }

  /** A plain run of digits is a group worth its value. */
  lemma GroupValueDigits(b: string)
    requires b != [] && AllDigits(b)
    ensures GroupValue(b) == Some(DigitsValue(b))
  {
    DigitsAreGroup(b);
  }

  /** Python's `int(s)` in base 10: surrounding whitespace, an optional sign, then a
      digit group; any other text raises ValueError (here `None`). */
  function ParseInt(s: string): (r: Option<int>)
  {
    var t := Strip(s, Whitespace);
    var signed := t != [] && (t[0] == '-' || t[0] == '+');
    var body := if signed then t[1..] else t;
    match GroupValue(body)
    case None => None
    case Some(v) =>
      var n: int := v;
      Some(if signed && t[0] == '-' then -n else n)
  }

  /** Text no whitespace surrounds is not changed by `strip()`. */
  lemma StripUnspaced(s: string)
    requires s != [] && !IsSpace(s[0]) && !IsSpace(s[|s| - 1])
    ensures Strip(s, Whitespace) == s
  {
    assert LStrip(s, Whitespace) == s;
  }

  /** Empty text is not an integer. */
  lemma ParseEmpty()
    ensures ParseInt("") == None
  {
    assert Strip("", Whitespace) == "";
    assert !IsDigitGroup("");
  }

  /** A plain run of digits parses to its value. */
  lemma ParseDigits(ds: string)
    requires ds != [] && AllDigits(ds)
    ensures ParseInt(ds) == Some(DigitsValue(ds))
  {
    StripUnspaced(ds);
    GroupValueDigits(ds);
  }

  /** `int(str(n)) == n`. */
  lemma ParseIntToString(n: int)
    ensures ParseInt(IntToString(n)) == Some(n)
  {
    if n < 0 {
      var s := IntToString(n);
      var ds := NatToString(-n);
      assert s == "-" + ds && s[1..] == ds;
      assert s[|s| - 1] == ds[|ds| - 1];
      StripUnspaced(s);
      GroupValueDigits(ds);
    } else {
      ParseDigits(NatToString(n));
    }
  }

  /** Stripping whitespace keeps every character that is not whitespace. */
  lemma StripKeeps(s: string, c: char)
    requires c in s && !IsSpace(c)
    ensures c in Strip(s, Whitespace)
  {
    var l := LStrip(s, Whitespace);
    var j :| 0 <= j < |s| && s[j] == c;
    assert j >= |s| - |l|;
    assert l[j - (|s| - |l|)] == c;
    var t := RStrip(l, Whitespace);
    assert j - (|s| - |l|) < |t|;
    assert t[j - (|s| - |l|)] == c;
  }

  /** Text `int()` accepts holds no `.`: a dotted release is never an integer. */
  lemma ParsedHasNoDot(s: string)
    requires ParseInt(s).Some?
    ensures '.' !in s
  {
    var t := Strip(s, Whitespace);
    var signed := t != [] && (t[0] == '-' || t[0] == '+');
    var body := if signed then t[1..] else t;
    assert GroupValue(body).Some?;
    GroupValueChars(body);
    NoDotAfterSign(t, body, signed);
    if '.' in s {
      StripKeeps(s, '.');
    }
  }

  lemma NoDotAfterSign(t: string, body: string, signed: bool)
    requires signed ==> t != [] && t[0] != '.' && body == t[1..]
    requires !signed ==> body == t
    requires DigitsOrUnderscores(body)
    ensures '.' !in t
  {
    forall k | 0 <= k < |t| ensures t[k] != '.' {
      if signed && k > 0 {
        assert body[k - 1] == t[k];
      } else if !signed {
        assert body[k] == t[k];
      }
    }
  }
}
