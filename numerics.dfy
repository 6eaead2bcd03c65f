/** C# `int` (System.Int32) arithmetic, decimal formatting of an `int`
    and `int.TryParse` with its default number style. */
module Numerics {
  import opened Wrappers

  const Int32Min: int := -0x8000_0000
  const Int32Max: int := 0x7FFF_FFFF

  predicate InInt32(n: int) {
    Int32Min <= n <= Int32Max
  }

  /** Reduces an integer into the Int32 range the way unchecked C#
      arithmetic does (two's complement wrap-around). */
  function Wrap32(n: int): (r: int)
    ensures InInt32(r)
    ensures (n - r) % 0x1_0000_0000 == 0
    ensures InInt32(n) ==> r == n
  {
    var u := n % 0x1_0000_0000;
    if u <= Int32Max then u else u - 0x1_0000_0000
  }

  /** `++n` on a C# `int` (unchecked): Int32.MaxValue steps to
      Int32.MinValue. */
  function Increment(n: int): int
  {
    if n < Int32Max then n + 1 else Int32Min
  }

  /** The value after `k` unchecked increments of `n`. */
  function Advance(n: int, k: nat): int
  {
    if k == 0 then n else Increment(Advance(n, k - 1))
  }

  /** On an Int32, `++` is the two's complement wrap of the successor. */
  lemma IncrementIsWrap(n: int)
    requires InInt32(n)
    ensures Increment(n) == Wrap32(n + 1)
  {
  }

  lemma WrapOfWrapSuccessor(n: int)
    ensures Wrap32(Wrap32(n) + 1) == Wrap32(n + 1)
  {
    var M := 0x1_0000_0000;
    var w := Wrap32(n);
    var q := (n - w) / M;
    assert n - w == q * M;
    assert (w + 1) % M == (n + 1 - q * M) % M == (n + 1) % M;
  }

  /** k increments of an Int32 wrap its sum with k. */
  lemma {:induction false} AdvanceIsWrap(n: int, k: nat)
    requires InInt32(n)
    ensures Advance(n, k) == Wrap32(n + k)
  {
    if k > 0 {
      AdvanceIsWrap(n, k - 1);
      IncrementIsWrap(Advance(n, k - 1));
      WrapOfWrapSuccessor(n + k - 1);
    }
  }

  /** Fewer than 2^32 increments apart, the counter never repeats a
      value, even across the wrap from Int32.MaxValue to Int32.MinValue. */
  lemma AdvanceDistinct(n: int, i: nat, j: nat)
    requires InInt32(n) && i < j && j - i < 0x1_0000_0000
    ensures Advance(n, i) != Advance(n, j)
  {
    AdvanceIsWrap(n, i);
    AdvanceIsWrap(n, j);
  }

  /** Without reaching Int32.MaxValue, k increments add k. */
  lemma {:induction false} AdvanceWithoutOverflow(n: int, k: nat)
    requires InInt32(n) && n + k <= Int32Max
    ensures Advance(n, k) == n + k
  {
    if k > 0 {
      AdvanceWithoutOverflow(n, k - 1);
    }
  }

  // ---------------------------------------------------------------------
  // Decimal digits

  predicate IsDigit(c: char) {
    '0' <= c <= '9'
  }

  predicate AllDigits(s: string) {
    forall i :: 0 <= i < |s| ==> IsDigit(s[i])
  }

  function DigitValue(c: char): (d: nat)
    requires IsDigit(c)
    ensures d < 10
  {
    c as int - '0' as int
  }

  function DigitChar(d: nat): (c: char)
    requires d < 10
    ensures IsDigit(c) && DigitValue(c) == d
  {
    ('0' as int + d) as char
  }

  /** The value of a string of decimal digits, most significant first. */
  function DigitsValue(s: string): nat
    requires AllDigits(s)
  {
    if s == [] then 0
    else DigitsValue(s[..|s| - 1]) * 10 + DigitValue(s[|s| - 1])
  }

  /** The shortest decimal representation of a natural number. */
  function NatToString(n: nat): (s: string)
    ensures |s| >= 1 && AllDigits(s)
    ensures (|s| == 1) == (n < 10)
  {
    if n < 10 then [DigitChar(n)]
    else NatToString(n / 10) + [DigitChar(n % 10)]
  }

  /** `n.ToString()` for a C# `int`: a minus sign before the digits of a
      negative number. */
  function IntToString(n: int): (s: string)
    ensures |s| >= 1 && '/' !in s && '.' !in s
    ensures IsDigit(s[|s| - 1])
    ensures (s[0] == '-') == (n < 0) && (n >= 0 ==> IsDigit(s[0]))
  {
    var digits := NatToString(if n < 0 then -n else n);
    assert IsDigit(digits[0]) && IsDigit(digits[|digits| - 1]);
    if n < 0 then "-" + digits else digits
  }

  // ---------------------------------------------------------------------
  // int.TryParse with NumberStyles.Integer

  /** The white space NumberStyles.AllowLeadingWhite and AllowTrailingWhite
      accept: U+0009 to U+000D and U+0020. */
  predicate IsWhite(c: char) {
    c == ' ' || '\t' <= c <= '\r'
  }

  predicate AllWhite(s: string) {
    forall i :: 0 <= i < |s| ==> IsWhite(s[i])
  }

  function TrimStartWhite(s: string): (r: string)
    ensures r == [] || !IsWhite(r[0])
    ensures |r| <= |s| && r == s[|s| - |r|..]
    ensures AllWhite(s[..|s| - |r|])
  {
    if s != [] && IsWhite(s[0]) then TrimStartWhite(s[1..]) else s
  }

  function TrimEndWhite(s: string): (r: string)
    ensures r == [] || !IsWhite(r[|r| - 1])
    ensures |r| <= |s| && r == s[..|r|]
    ensures AllWhite(s[|r|..])
  {
    if s != [] && IsWhite(s[|s| - 1]) then TrimEndWhite(s[..|s| - 1]) else s
  }

  predicate AllNul(s: string) {
    forall i :: 0 <= i < |s| ==> s[i] == '\0'
  }

  /** Drops the run of U+0000 characters at the end of the text, which
      .NET's integer parser accepts after the trailing white space. */
  function TrimEndNul(s: string): (r: string)
    ensures r == [] || r[|r| - 1] != '\0'
    ensures |r| <= |s| && r == s[..|r|]
    ensures AllNul(s[|r|..])
  {
    if s != [] && s[|s| - 1] == '\0' then TrimEndNul(s[..|s| - 1]) else s
  }

  /** `int.TryParse(s, out n)`: optional white space, an optional sign,
      at least one decimal digit, optional white space and optional
      trailing U+0000 characters; fails when the value lies outside the
      Int32 range. */
  function TryParseInt32(s: string): (r: Option<int>)
    ensures r.Some? ==> InInt32(r.value)
  {
    ParseToken(TrimEndWhite(TrimStartWhite(TrimEndNul(s))))
  }

  /** The parse of what is left once the white space is trimmed. */
  function ParseToken(t: string): (r: Option<int>)
    ensures r.Some? ==> InInt32(r.value)
  {
    if t == [] then None
    else
      var negative := t[0] == '-';
      var digits := if t[0] == '-' || t[0] == '+' then t[1..] else t;
      if digits == [] || !AllDigits(digits) then None
      else
        var magnitude: int := DigitsValue(digits);
        var n: int := if negative then -magnitude else magnitude;
        if InInt32(n) then Some(n) else None
  }

  // ---------------------------------------------------------------------
  // Properties

  lemma {:induction false} DigitsOfNatToString(n: nat)
    ensures DigitsValue(NatToString(n)) == n
  {
    if n >= 10 {
      var s := NatToString(n);
      DigitsOfNatToString(n / 10);
      assert s[..|s| - 1] == NatToString(n / 10);
    }
  }

  /** Leading white space is skipped up to the first other character. */
  lemma {:induction false} TrimStartPrefix(ws: string, rest: string)
    requires AllWhite(ws) && (rest == [] || !IsWhite(rest[0]))
    ensures TrimStartWhite(ws + rest) == rest
  {
    if ws == [] {
      assert ws + rest == rest;
    } else {
      assert (ws + rest)[1..] == ws[1..] + rest;
      TrimStartPrefix(ws[1..], rest);
    }
  }

  /** Trailing white space is dropped back to the last other character. */
  lemma {:induction false} TrimEndSuffix(body: string, ws: string)
    requires AllWhite(ws) && (body == [] || !IsWhite(body[|body| - 1]))
    ensures TrimEndWhite(body + ws) == body
  {
    if ws == [] {
      assert body + ws == body;
    } else {
      assert (body + ws)[..|body + ws| - 1] == body + ws[..|ws| - 1];
      TrimEndSuffix(body, ws[..|ws| - 1]);
    }
  }

  /** A run of U+0000 characters is dropped back to the last other
      character. */
  lemma {:induction false} TrimEndNulSuffix(body: string, nuls: string)
    requires AllNul(nuls) && (body == [] || body[|body| - 1] != '\0')
    ensures TrimEndNul(body + nuls) == body
  {
    if nuls == [] {
      assert body + nuls == body;
    } else {
      assert (body + nuls)[..|body + nuls| - 1] == body + nuls[..|nuls| - 1];
      TrimEndNulSuffix(body, nuls[..|nuls| - 1]);
    }
  }

  /** Trimming white space around a token that neither starts nor ends
      with white space gives the token. */
  lemma TrimmedToken(ws1: string, t: string, ws2: string)
    requires AllWhite(ws1) && AllWhite(ws2)
    requires t != [] && !IsWhite(t[0]) && !IsWhite(t[|t| - 1])
    ensures TrimEndWhite(TrimStartWhite(ws1 + t + ws2)) == t
  {
    assert ws1 + t + ws2 == ws1 + (t + ws2);
    TrimStartPrefix(ws1, t + ws2);
    TrimEndSuffix(t, ws2);
  }

  /** A sign, if any, and digits: the signed value of the digits when it
      is an Int32, failure when it is not. */
  lemma ParseSignedDigits(sign: string, digits: string)
    requires sign == "" || sign == "+" || sign == "-"
    requires digits != [] && AllDigits(digits)
    ensures var m: int := DigitsValue(digits);
      var n := if sign == "-" then -m else m;
      ParseToken(sign + digits) == if InInt32(n) then Some(n) else None
  {
    var t := sign + digits;
    if sign == "" {
      assert t == digits;
      assert t[0] != '-' && t[0] != '+';
    } else {
      assert t[0] == sign[0];
      assert t[1..] == digits;
    }
  }

  /** White space, an optional sign, one or more digits (leading zeros
      allowed), white space and a run of U+0000 characters parse to the
      signed value of the digits when that is an Int32, and fail when it
      is not. */
  lemma PaddedSignedParse(ws1: string, sign: string, digits: string, ws2: string, nuls: string)
    requires AllWhite(ws1) && AllWhite(ws2) && AllNul(nuls)
    requires sign == "" || sign == "+" || sign == "-"
    requires digits != [] && AllDigits(digits)
    ensures var m: int := DigitsValue(digits);
      var n := if sign == "-" then -m else m;
      TryParseInt32(ws1 + sign + digits + ws2 + nuls) == if InInt32(n) then Some(n) else None
  {
    var t := sign + digits;
    var body := ws1 + t + ws2;
    assert ws1 + sign + digits + ws2 + nuls == body + nuls;
    assert IsDigit(digits[0]) && IsDigit(digits[|digits| - 1]);
    assert t[|t| - 1] == digits[|digits| - 1];
    assert body[|body| - 1] != '\0' by {
      if ws2 == [] {
        assert body[|body| - 1] == t[|t| - 1];
      } else {
        assert body[|body| - 1] == ws2[|ws2| - 1];
      }
    }
    TrimEndNulSuffix(body, nuls);
    TrimmedToken(ws1, t, ws2);
    assert TryParseInt32(body + nuls) == ParseToken(t);
    ParseSignedDigits(sign, digits);
  }

  /** The same without surrounding white space or U+0000 characters. */
  lemma UnpaddedParse(sign: string, digits: string)
    requires sign == "" || sign == "+" || sign == "-"
    requires digits != [] && AllDigits(digits)
    ensures var m: int := DigitsValue(digits);
      var n := if sign == "-" then -m else m;
      TryParseInt32(sign + digits) == if InInt32(n) then Some(n) else None
  {
    assert [] + sign + digits + [] + [] == sign + digits;
    PaddedSignedParse([], sign, digits, [], []);
  }

  /** `int.TryParse(" +007 ")` is 7. */
  lemma PaddedPlusSeven()
    ensures TryParseInt32(" +007 ") == Some(7)
  {
    assert " +007 " == " " + "+" + "007" + " " + "";
    assert AllDigits("007");
    assert DigitsValue("007") == 7 by {
      assert "007"[..2] == "00" && "00"[..1] == "0" && "0"[..0] == "";
    }
    PaddedSignedParse(" ", "+", "007", " ", "");
  }

  /** U+0000 characters are accepted at the very end: "7\0" gives 7. */
  lemma TrailingNulAccepted()
    ensures TryParseInt32("7\0") == Some(7)
  {
    assert DigitsValue("7") == 7;
    assert "7\0" == "" + "" + "7" + "" + "\0";
    PaddedSignedParse("", "", "7", "", "\0");
  }

  /** They may follow the trailing white space: "7 \0\0" gives 7. */
  lemma NulsAfterWhiteAccepted()
    ensures TryParseInt32("7 \0\0") == Some(7)
  {
    assert DigitsValue("7") == 7;
    assert "7 \0\0" == "" + "" + "7" + " " + "\0\0";
    PaddedSignedParse("", "", "7", " ", "\0\0");
  }

  /** A U+0000 character followed by white space is not accepted:
      "7\0 " fails. */
  lemma NulBeforeWhiteFails()
    ensures TryParseInt32("7\0 ") == None
  {
    assert TrimEndNul("7\0 ") == "7\0 ";
    NonNumericFails("7\0 ", 1);
  }

  /** One character other than white space, a sign or a digit, anywhere
      before the trailing run of U+0000 characters, makes the parse fail
      ("abc", "1 2", "7x", "7\0 "). */
  lemma NonNumericFails(s: string, i: nat)
    requires i < |TrimEndNul(s)|
    requires !IsWhite(s[i]) && !IsDigit(s[i]) && s[i] != '+' && s[i] != '-'
    ensures TryParseInt32(s) == None
  {
    var z := TrimEndNul(s);
    assert z[i] == s[i];
    ForeignCharFails(z, i);
  }

  lemma ForeignCharFails(z: string, i: nat)
    requires i < |z| && !IsWhite(z[i]) && !IsDigit(z[i]) && z[i] != '+' && z[i] != '-'
    ensures ParseToken(TrimEndWhite(TrimStartWhite(z))) == None
  {
    var a := TrimStartWhite(z);
    var start := |z| - |a|;
    TrimStartKeeps(z, i);
    assert a[i - start] == z[i];
    TrimEndKeeps(a, i - start);
    var t := TrimEndWhite(a);
    assert t[i - start] == a[i - start];
    ForeignTokenFails(t, i - start);
  }

  /** Trimming leading white space keeps every other character. */
  lemma {:induction false} TrimStartKeeps(s: string, i: nat)
    requires i < |s| && !IsWhite(s[i])
    ensures |s| - |TrimStartWhite(s)| <= i
  {
    if s != [] && IsWhite(s[0]) {
      assert i > 0;
      assert s[1..][i - 1] == s[i];
      TrimStartKeeps(s[1..], i - 1);
    }
  }

  /** Trimming trailing white space keeps every other character. */
  lemma {:induction false} TrimEndKeeps(s: string, i: nat)
    requires i < |s| && !IsWhite(s[i])
    ensures i < |TrimEndWhite(s)|
  {
    if s != [] && IsWhite(s[|s| - 1]) {
      assert i < |s| - 1;
      assert s[..|s| - 1][i] == s[i];
      TrimEndKeeps(s[..|s| - 1], i);
    }
  }

  /** A token holding a character other than a sign or a digit does not
      parse. */
  lemma ForeignTokenFails(t: string, k: nat)
    requires k < |t| && !IsDigit(t[k]) && t[k] != '+' && t[k] != '-'
    ensures ParseToken(t) == None
  {
    if k > 0 && (t[0] == '-' || t[0] == '+') {
      assert t[1..][k - 1] == t[k];
    }
  }

  /** Formatting an Int32 and parsing it back gives the same number: the
      names the pipeline writes are read back by the sequence scan. */
  lemma ParseOfIntToString(n: int)
    requires InInt32(n)
    ensures TryParseInt32(IntToString(n)) == Some(n)
  {
    var m: nat := if n < 0 then -n else n;
    var digits := NatToString(m);
    DigitsOfNatToString(m);
    var sign := if n < 0 then "-" else "";
    assert IntToString(n) == sign + digits;
    UnpaddedParse(sign, digits);
  }

  lemma {:induction false} NatToStringInjective(a: nat, b: nat)
    requires NatToString(a) == NatToString(b)
    ensures a == b
  {
    if a >= 10 && b >= 10 {
      var sa, sb := NatToString(a), NatToString(b);
      assert sa[..|sa| - 1] == NatToString(a / 10);
      assert sb[..|sb| - 1] == NatToString(b / 10);
      NatToStringInjective(a / 10, b / 10);
      assert DigitValue(sa[|sa| - 1]) == a % 10;
    }
  }

  /** Distinct numbers get distinct names. */
  lemma IntToStringInjective(a: int, b: int)
    requires IntToString(a) == IntToString(b)
    ensures a == b
  {
    var s := IntToString(a);
    if a < 0 {
      assert s[1..] == NatToString(-a) && s[1..] == NatToString(-b);
      NatToStringInjective(-a, -b);
    } else {
      assert s == NatToString(a) && s == NatToString(b);
      NatToStringInjective(a, b);
    }
  }
}
