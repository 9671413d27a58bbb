/**
 * Python's `int(text)` in base 10, as the salary criterion uses it: surrounding
 * whitespace, an optional sign, then decimal digits with single underscores
 * allowed between digits. Anything else raises `ValueError`, modelled as `None`.
 */
module PyInt {
  import opened Wrappers

  /** The ASCII characters `int()` skips around the number: space, \t, \n, \v, \f, \r. */
  predicate IsSpace(c: char)
  {
    c == ' ' || c == '\t' || c == '\n' || c == '\r' || c as int == 11 || c as int == 12
  }

  predicate IsDigit(c: char)
  {
    '0' <= c <= '9'
  }

  /** `s` without its leading whitespace. */
  function StripLeft(s: string): (r: string)
    ensures |r| <= |s| && r == s[|s| - |r|..]
    ensures r != [] ==> !IsSpace(r[0])
    ensures forall i :: 0 <= i < |s| - |r| ==> IsSpace(s[i])
  {
    if s != [] && IsSpace(s[0]) then StripLeft(s[1..]) else s
  }

  /** `s` without its trailing whitespace. */
  function StripRight(s: string): (r: string)
    ensures |r| <= |s| && r == s[..|r|]
    ensures r != [] ==> !IsSpace(r[|r| - 1])
    ensures forall i :: |r| <= i < |s| ==> IsSpace(s[i])
  {
    if s != [] && IsSpace(s[|s| - 1]) then StripRight(s[..|s| - 1]) else s
  }

  /** Only digits and underscores. */
  predicate DigitsOrUnderscores(s: string)
  {
    forall i :: 0 <= i < |s| ==> IsDigit(s[i]) || s[i] == '_'
  }

  /** A digit string `int()` accepts: it starts and ends with a digit and has no two underscores in a row. */
  predicate WellFormedDigits(s: string)
  {
    && |s| > 0
    && IsDigit(s[0])
    && IsDigit(s[|s| - 1])
    && DigitsOrUnderscores(s)
    && forall i :: 0 < i < |s| ==> !(s[i - 1] == '_' && s[i] == '_')
  }

  /** The number the digits of `s` spell, underscores ignored. */
  function DigitsValue(s: string): nat
    requires DigitsOrUnderscores(s)
  {
    if s == [] then 0
    else if s[|s| - 1] == '_' then DigitsValue(s[..|s| - 1])
    else 10 * DigitsValue(s[..|s| - 1]) + (s[|s| - 1] as int - '0' as int)
  }

  /** A character `int()` can accept: whitespace, a digit, an underscore or a sign. */
  predicate NumeralChar(c: char)
  {
    IsSpace(c) || IsDigit(c) || c == '_' || c == '+' || c == '-'
  }

  /**
   * `int(s)`; `None` where Python raises `ValueError`. Text it accepts holds a digit and
   * nothing but whitespace, digits, underscores and signs.
   */
  function ParseInt(s: string): (r: Option<int>)
    ensures r.Some? ==> exists i :: 0 <= i < |s| && IsDigit(s[i])
    ensures r.Some? ==> forall i :: 0 <= i < |s| ==> NumeralChar(s[i])
  {
    var t := StripRight(StripLeft(s));
    var r := ParseSigned(t);
    StrippedWithin(s, StripLeft(s), t);
    assert r.Some? ==> IsDigit(s[|s| - |StripLeft(s)| + |t| - 1]);
    r
  }

  /**
   * Cutting whitespace from both ends leaves a slice of `s` starting at `off`: every
   * character of `s` is whitespace or the matching character of that slice.
   */
  lemma StrippedWithin(s: string, left: string, t: string)
    requires |left| <= |s| && left == s[|s| - |left|..]
    requires |t| <= |left| && t == left[..|t|]
    requires forall k :: 0 <= k < |s| - |left| ==> IsSpace(s[k])
    requires forall k :: |t| <= k < |left| ==> IsSpace(left[k])
    ensures var off := |s| - |left|;
            forall k :: 0 <= k < |s| ==> IsSpace(s[k]) || (off <= k < off + |t| && s[k] == t[k - off])
  {
    var off := |s| - |left|;
    forall k | 0 <= k < |s|
      ensures IsSpace(s[k]) || (off <= k < off + |t| && s[k] == t[k - off])
    {
      if k >= off {
        assert s[k] == left[k - off];
      }
    }
  }

  /**
   * Whitespace between two other characters makes `int()` fail, as in `"50 000"`:
   * only the ends of the text are stripped.
   */
  lemma InnerSpaceRejected(s: string, j: nat, i: nat, k: nat)
    requires j < i < k < |s|
    requires !IsSpace(s[j]) && IsSpace(s[i]) && !IsSpace(s[k])
    ensures ParseInt(s) == None
  {
    var left := StripLeft(s);
    var t := StripRight(left);
    var off := |s| - |left|;
    assert off <= i - 1 && i + 1 < off + |t| && t[i - off] == s[i] by {
      StrippedWithin(s, left, t);
      assert s[j] == t[j - off] && s[k] == t[k - off];
    }
    SignedChars(t);
  }

  /** The text `"50 000"` is not a number. */
  lemma SpacedThousandsRejected()
    ensures ParseInt("50 000") == None
  {
    InnerSpaceRejected("50 000", 1, 2, 3);
  }

  /** Text `ParseSigned` accepts has no whitespace in it. */
  lemma SignedChars(t: string)
    ensures ParseSigned(t).Some? ==> forall i :: 0 <= i < |t| ==> !IsSpace(t[i])
  {
  }

  /** An optional sign followed by a well-formed digit string; `t` is already stripped. */
  function ParseSigned(t: string): (r: Option<int>)
    ensures r.Some? ==> |t| > 0 && IsDigit(t[|t| - 1])
    ensures r.Some? ==> forall i :: 0 <= i < |t| ==>
      IsDigit(t[i]) || t[i] == '_' || (i == 0 && (t[i] == '+' || t[i] == '-'))
  {
    if t == [] then None
    else
      var body := if t[0] == '-' || t[0] == '+' then t[1..] else t;
      if !WellFormedDigits(body) then None
      else
        var magnitude: int := DigitsValue(body);
        Some(if t[0] == '-' then -magnitude else magnitude)
  }

  function DigitChar(d: nat): (c: char)
    requires d < 10
    ensures IsDigit(c)
  {
    ('0' as int + d) as char
  }

  /** The decimal digits of `n`, most significant first, without leading zeros. */
  function Digits(n: nat): (r: string)
    ensures |r| > 0 && DigitsOrUnderscores(r)
    ensures forall i :: 0 <= i < |r| ==> IsDigit(r[i])
  {
    if n < 10 then [DigitChar(n)] else Digits(n / 10) + [DigitChar(n % 10)]
  }

  /** `str(n)`: the decimal spelling of `n`, with a leading `-` when it is negative. */
  function Show(n: int): string
  {
    if n < 0 then "-" + Digits(-n) else Digits(n)
  }

  /** Reading back the digits of `n` gives `n`. */
  lemma {:induction false} DigitsValueOfDigits(n: nat)
    ensures DigitsValue(Digits(n)) == n
  {
    if n >= 10 {
      var r := Digits(n);
      assert r[..|r| - 1] == Digits(n / 10);
      DigitsValueOfDigits(n / 10);
    }
  }

  /** `int(str(n)) == n` for every integer `n`. */
  lemma ParseShow(n: int)
    ensures ParseInt(Show(n)) == Some(n)
  {
    ShowEnds(n);
    Unpadded(Show(n));
    ParseSignedShow(n);
  }

  /** Text that neither starts nor ends with whitespace has nothing to strip, so
      `int()` reads its sign and digits directly. */
  lemma Unpadded(s: string)
    requires s != [] && !IsSpace(s[0]) && !IsSpace(s[|s| - 1])
    ensures StripRight(StripLeft(s)) == s
    ensures ParseInt(s) == ParseSigned(s)
  {
    assert StripRight(StripLeft(s)) == s;
  }

  /** `str(n)` starts with `-` or a digit and ends with a digit. */
  lemma ShowEnds(n: int)
    ensures |Show(n)| > 0
    ensures Show(n)[0] == '-' || IsDigit(Show(n)[0])
    ensures IsDigit(Show(n)[|Show(n)| - 1])
  {
  }

  lemma ParseSignedShow(n: int)
    ensures ParseSigned(Show(n)) == Some(n)
  {
    var m: nat := if n < 0 then -n else n;
    var d := Digits(m);
    DigitsValueOfDigits(m);
    DigitsWellFormed(m);
    assert IsDigit(d[0]);
    if n < 0 {
      var s := "-" + d;
      assert s == Show(n);
      assert s[0] == '-' && s[1..] == d;
    } else {
      assert d == Show(n);
      assert d[0] != '-' && d[0] != '+';
    }
  }

  lemma DigitsWellFormed(n: nat)
    ensures WellFormedDigits(Digits(n))
  {
  }

  /** Whitespace around the number does not change what `int()` reads. */
  lemma {:induction false} ParsePadded(pre: string, n: int, post: string)
    requires forall i :: 0 <= i < |pre| ==> IsSpace(pre[i])
    requires forall i :: 0 <= i < |post| ==> IsSpace(post[i])
    ensures ParseInt(pre + Show(n) + post) == Some(n)
  {
    var s := Show(n);
    StripLeftSpaces(pre, s + post);
    assert pre + s + post == pre + (s + post);
    StripRightSpaces(s, post);
    assert StripLeft(s) == s;
    ParseShow(n);
  }

  lemma {:induction false} StripLeftSpaces(pre: string, s: string)
    requires forall i :: 0 <= i < |pre| ==> IsSpace(pre[i])
    requires s != [] && !IsSpace(s[0])
    ensures StripLeft(pre + s) == s
  {
    if pre == [] {
      assert pre + s == s;
    } else {
      assert (pre + s)[1..] == pre[1..] + s;
      StripLeftSpaces(pre[1..], s);
    }
  }

  lemma {:induction false} StripRightSpaces(s: string, post: string)
    requires forall i :: 0 <= i < |post| ==> IsSpace(post[i])
    requires s != [] && !IsSpace(s[|s| - 1])
    ensures StripRight(s + post) == s
  {
    if post == [] {
      assert s + post == s;
    } else {
      var p := post[..|post| - 1];
      assert (s + post)[..|s + post| - 1] == s + p;
      StripRightSpaces(s, p);
    }
  }
}
