/** Python's `int(text)` on a `str` in base 10, and `str(n)` for an `int`,
    as far as `async_handle_delete_alarm_service`
    (`custom_components/wake_up_alarm/__init__.py`) relies on them to read an
    alarm number back out of an entity's unique id.

    `int` accepts surrounding whitespace, one optional sign, and decimal digits
    with single underscores between them; anything else raises `ValueError`,
    here `None`. */
module PyInt {
  import opened Wrappers

  /** The ASCII characters `str.isspace` accepts; `int` strips these. */
  predicate IsSpace(c: char)
  {
    c == ' ' || c == '\t' || c == '\n' || c == '\r'
    || c == '\U{000B}' || c == '\U{000C}'
    || ('\U{001C}' <= c <= '\U{001F}')
  }

  predicate IsDigit(c: char)
  {
    '0' <= c <= '9'
  }

  function DigitValue(c: char): (r: nat)
    requires IsDigit(c)
    ensures r < 10
  {
    c as int - '0' as int
  }

  function DigitChar(d: nat): (c: char)
    requires d < 10
    ensures IsDigit(c) && DigitValue(c) == d
  {
    ('0' as int + d) as char
  }

  function StripLeft(s: string): string
  {
    if s != [] && IsSpace(s[0]) then StripLeft(s[1..]) else s
  }

  function StripRight(s: string): string
  {
    if s != [] && IsSpace(s[|s| - 1]) then StripRight(s[..|s| - 1]) else s
  }

  /** `str.strip()` restricted to ASCII whitespace. */
  function Strip(s: string): string
  {
    StripRight(StripLeft(s))
  }

  /** The digit grammar of an integer literal: `digit (["_"] digit)*`. */
  predicate DigitPart(s: string)
  {
    && s != []
    && IsDigit(s[0]) && IsDigit(s[|s| - 1])
    && (forall i :: 0 <= i < |s| ==> IsDigit(s[i]) || s[i] == '_')
    && (forall i, j :: 0 <= i && j == i + 1 < |s| && s[i] == '_' ==> s[j] != '_')
  }

  /** The value of a digit part, underscores ignored. */
  function DigitsValue(s: string): nat
    requires forall i :: 0 <= i < |s| ==> IsDigit(s[i]) || s[i] == '_'
  {
    if s == [] then 0
    else
      var last := s[|s| - 1];
      var init := s[..|s| - 1];
      assert forall i :: 0 <= i < |init| ==> init[i] == s[i];
      if last == '_' then DigitsValue(init) else 10 * DigitsValue(init) + DigitValue(last)
  }

  /** What follows one optional leading sign. */
  function Unsigned(t: string): string
  {
    if t != [] && (t[0] == '-' || t[0] == '+') then t[1..] else t
  }

  /** `int(text)`: `None` where Python raises `ValueError`. */
  function ParseInt(text: string): Option<int>
  {
    var t := Strip(text);
    if t == [] then None
    else
      var negative := t[0] == '-';
      var body := Unsigned(t);
      if !DigitPart(body) then None
      else
        var v: int := DigitsValue(body);
        Some(if negative then -v else v)
  }

  /** The decimal digits of `n`, most significant first, without leading zeros. */
  function Digits(n: nat): (r: string)
    ensures r != [] && IsDigit(r[0]) && IsDigit(r[|r| - 1])
    ensures forall i :: 0 <= i < |r| ==> IsDigit(r[i])
    ensures |r| > 1 ==> r[0] != '0'
  {
    if n < 10 then [DigitChar(n)] else Digits(n / 10) + [DigitChar(n % 10)]
  }

  /** `str(n)`. */
  function ToDecimal(n: int): (r: string)
    ensures r != [] && (r[0] == '-' || IsDigit(r[0])) && IsDigit(r[|r| - 1])
  {
    if n < 0 then "-" + Digits(-n) else Digits(n)
  }

  lemma {:induction false} DigitsValueOfDigits(n: nat)
    ensures DigitPart(Digits(n))
    ensures DigitsValue(Digits(n)) == n
  {
    var r := Digits(n);
    if n >= 10 {
      DigitsValueOfDigits(n / 10);
      assert r[..|r| - 1] == Digits(n / 10);
    }
  }

  /** A string that neither starts nor ends with whitespace is its own strip. */
  lemma StripUnspaced(s: string)
    requires s != [] && !IsSpace(s[0]) && !IsSpace(s[|s| - 1])
    ensures Strip(s) == s
  {
  }

  /** `int(str(n)) == n`. */
  lemma ParseToDecimal(n: int)
    ensures ParseInt(ToDecimal(n)) == Some(n)
  {
    var d := if n < 0 then Digits(-n) else Digits(n);
    DigitsValueOfDigits(if n < 0 then -n else n);
    if n < 0 {
      ParseMinus(d);
    } else {
      ParseUnsigned(d);
    }
  }

  /** `int` of a bare digit part is its value. */
  lemma ParseUnsigned(body: string)
    requires DigitPart(body)
    ensures ParseInt(body) == Some(DigitsValue(body))
  {
    StripUnspaced(body);
  }

  /** `int` of a minus sign and a digit part is the negated value. */
  lemma ParseMinus(body: string)
    requires DigitPart(body)
    ensures var v: int := DigitsValue(body); ParseInt("-" + body) == Some(-v)
  {
    var t := "-" + body;
    assert t[0] == '-' && t[|t| - 1] == body[|body| - 1] && t[1..] == body;
    StripUnspaced(t);
  }

  /** `int` of a plus sign and a digit part is the value. */
  lemma ParsePlus(body: string)
    requires DigitPart(body)
    ensures ParseInt("+" + body) == Some(DigitsValue(body))
  {
    var t := "+" + body;
    assert t[0] == '+' && t[|t| - 1] == body[|body| - 1] && t[1..] == body;
    StripUnspaced(t);
  }

  lemma {:induction false} StripLeftSpaces(w: string, u: string)
    requires forall i :: 0 <= i < |w| ==> IsSpace(w[i])
    ensures StripLeft(w + u) == StripLeft(u)
  {
    if w != [] {
      var v := w + u;
      assert v[0] == w[0] && v[1..] == w[1..] + u;
      StripLeftSpaces(w[1..], u);
    } else {
      assert w + u == u;
    }
  }

  lemma {:induction false} StripRightSpaces(u: string, w: string)
    requires forall i :: 0 <= i < |w| ==> IsSpace(w[i])
    ensures StripRight(u + w) == StripRight(u)
  {
    if w != [] {
      var v := u + w;
      var w' := w[..|w| - 1];
      assert v[|v| - 1] == w[|w| - 1] && v[..|v| - 1] == u + w';
      StripRightSpaces(u, w');
    } else {
      assert u + w == u;
    }
  }

  lemma {:induction false} StripLeftAppend(t: string, w: string)
    ensures StripLeft(t + w) == if StripLeft(t) == [] then StripLeft(w) else StripLeft(t) + w
  {
    if t == [] {
      assert t + w == w;
    } else {
      var v := t + w;
      assert v[0] == t[0] && v[1..] == t[1..] + w;
      if IsSpace(t[0]) {
        StripLeftAppend(t[1..], w);
      }
    }
  }

  /** `int` takes surrounding whitespace off: text between two runs of
      whitespace parses as the text alone. */
  lemma ParseIntStrips(w1: string, t: string, w2: string)
    requires forall i :: 0 <= i < |w1| ==> IsSpace(w1[i])
    requires forall i :: 0 <= i < |w2| ==> IsSpace(w2[i])
    ensures ParseInt(w1 + t + w2) == ParseInt(t)
  {
    assert w1 + t + w2 == w1 + (t + w2);
    StripLeftSpaces(w1, t + w2);
    StripLeftAppend(t, w2);
    if StripLeft(t) == [] {
      StripLeftSpaces(w2, []);
      assert w2 + [] == w2;
    } else {
      StripRightSpaces(StripLeft(t), w2);
    }
    assert Strip(w1 + t + w2) == Strip(t);
  }

  /** `int` raises for text that is empty, only whitespace, or a lone sign
      once stripped. */
  lemma ParseIntRejectsEmpty(text: string)
    ensures (forall i :: 0 <= i < |text| ==> IsSpace(text[i])) ==> ParseInt(text) == None
    ensures Strip(text) == "" || Strip(text) == "+" || Strip(text) == "-" ==> ParseInt(text) == None
  {
    if forall i :: 0 <= i < |text| ==> IsSpace(text[i]) {
      StripLeftSpaces(text, []);
      assert text + [] == text;
    }
  }

  /** `int` ignores a single underscore between two digit parts. */
  lemma ParseIntUnderscore(a: string, b: string)
    requires DigitPart(a) && DigitPart(b)
    ensures ParseInt(a + "_" + b) == ParseInt(a + b) == Some(DigitsValue(a + b))
  {
    var s, u := a + "_" + b, a + b;
    forall i, j | 0 <= i && j == i + 1 < |s| && s[i] == '_' ensures s[j] != '_' {
      if i < |a| - 1 { assert s[i] == a[i] && s[j] == a[j]; }
      else if i == |a| { assert s[j] == b[0]; }
      else if i > |a| { assert s[i] == b[i - |a| - 1] && s[j] == b[j - |a| - 1]; }
    }
    assert s[0] == a[0] && s[|s| - 1] == b[|b| - 1];
    assert forall i :: 0 <= i < |s| ==> IsDigit(s[i]) || s[i] == '_' by {
      forall i | 0 <= i < |s| ensures IsDigit(s[i]) || s[i] == '_' {
        if i < |a| { assert s[i] == a[i]; } else if i > |a| { assert s[i] == b[i - |a| - 1]; }
      }
    }
    forall i, j | 0 <= i && j == i + 1 < |u| && u[i] == '_' ensures u[j] != '_' {
      if i < |a| - 1 { assert u[i] == a[i] && u[j] == a[j]; }
      else if i >= |a| { assert u[i] == b[i - |a|] && u[j] == b[j - |a|]; }
    }
    assert u[0] == a[0] && u[|u| - 1] == b[|b| - 1];
    assert forall i :: 0 <= i < |u| ==> IsDigit(u[i]) || u[i] == '_' by {
      forall i | 0 <= i < |u| ensures IsDigit(u[i]) || u[i] == '_' {
        if i < |a| { assert u[i] == a[i]; } else { assert u[i] == b[i - |a|]; }
      }
    }
    UnderscoreIgnored(a, b);
    ParseUnsigned(s);
    ParseUnsigned(u);
  }

  /** The digit value skips an underscore wherever it stands. */
  lemma {:induction false} UnderscoreIgnored(a: string, b: string)
    requires forall i :: 0 <= i < |a| ==> IsDigit(a[i]) || a[i] == '_'
    requires forall i :: 0 <= i < |b| ==> IsDigit(b[i]) || b[i] == '_'
    ensures forall i :: 0 <= i < |a + "_" + b| ==> IsDigit((a + "_" + b)[i]) || (a + "_" + b)[i] == '_'
    ensures forall i :: 0 <= i < |a + b| ==> IsDigit((a + b)[i]) || (a + b)[i] == '_'
    ensures DigitsValue(a + "_" + b) == DigitsValue(a + b)
  {
    var s, u := a + "_" + b, a + b;
    assert forall i :: 0 <= i < |s| ==> s[i] == if i < |a| then a[i] else if i == |a| then '_' else b[i - |a| - 1];
    assert forall i :: 0 <= i < |u| ==> u[i] == if i < |a| then a[i] else b[i - |a|];
    if b == [] {
      assert s[..|s| - 1] == a && u == a;
    } else {
      var b' := b[..|b| - 1];
      UnderscoreIgnored(a, b');
      assert s[..|s| - 1] == a + "_" + b' && s[|s| - 1] == b[|b| - 1];
      assert u[..|u| - 1] == a + b' && u[|u| - 1] == b[|b| - 1];
    }
  }

  /** `int` raises for a leading or trailing underscore after the sign, and
      for two underscores in a row. */
  lemma ParseIntRejectsUnderscores(text: string)
    ensures var b := Unsigned(Strip(text));
            b != [] && (b[0] == '_' || b[|b| - 1] == '_') ==> ParseInt(text) == None
    ensures var b := Unsigned(Strip(text));
            (exists i :: 0 <= i && i + 1 < |b| && b[i] == '_' && b[i + 1] == '_') ==> ParseInt(text) == None
  {
  }

  /** `int` raises when the sign is followed by another sign or by whitespace. */
  lemma ParseIntRejectsSigns(text: string)
    ensures var t := Strip(text);
            |t| >= 2 && (t[0] == '-' || t[0] == '+') && (t[1] == '-' || t[1] == '+' || IsSpace(t[1]))
            ==> ParseInt(text) == None
  {
    var t := Strip(text);
    if |t| >= 2 && (t[0] == '-' || t[0] == '+') {
      assert Unsigned(t)[0] == t[1];
    }
  }
}
