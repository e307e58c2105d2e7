/**
 Python's conversions between integers and decimal text, as the entry
 handlers (`int(entry.get())`) and the labels (`str(value)`, `'{:.0f}'.format`)
 use them. Only the ASCII part of Python's grammar is modelled.
 */
module PyText {
  import opened Base

  /** ASCII characters that `int()` skips before and after a numeral:
      space, tab, line feed, vertical tab, form feed and carriage return. */
  predicate IsSpace(c: char) {
    c == ' ' || ('\t' <= c <= '\r')
  }

  predicate IsDigit(c: char) {
    '0' <= c <= '9'
  }

  function DigitValue(c: char): nat
    requires IsDigit(c)
  {
    (c as int) - ('0' as int)
  }

  function DigitChar(d: nat): (c: char)
    requires d < 10
    ensures IsDigit(c) && DigitValue(c) == d
  {
    (('0' as int) + d) as char
  }

  /** Drops the leading whitespace of `s`. */
  function StripLeft(s: string): (r: string)
    ensures |r| <= |s|
  {
    if |s| > 0 && IsSpace(s[0]) then StripLeft(s[1..]) else s
  }

  /** Drops the trailing whitespace of `s`. */
  function StripRight(s: string): (r: string)
    ensures |r| <= |s|
  {
    if |s| > 0 && IsSpace(s[|s| - 1]) then StripRight(s[..|s| - 1]) else s
  }

  /** `StripLeft` removes a prefix of whitespace and nothing else. */
  lemma {:induction false} StripLeftSuffix(s: string)
    ensures var r := StripLeft(s);
            && r == s[|s| - |r|..]
            && (r == [] || !IsSpace(r[0]))
            && (forall i :: 0 <= i < |s| - |r| ==> IsSpace(s[i]))
  {
    if |s| > 0 && IsSpace(s[0]) {
      StripLeftSuffix(s[1..]);
    }
  }

  /** `StripRight` removes a suffix of whitespace and nothing else. */
  lemma {:induction false} StripRightPrefix(s: string)
    ensures var r := StripRight(s);
            && r == s[..|r|]
            && (r == [] || !IsSpace(r[|r| - 1]))
            && (forall i :: |r| <= i < |s| ==> IsSpace(s[i]))
  {
    if |s| > 0 && IsSpace(s[|s| - 1]) {
      StripRightPrefix(s[..|s| - 1]);
    }
  }

  function Strip(s: string): string {
    StripRight(StripLeft(s))
  }

  /** The characters an accepted entry text can contain: whitespace, a
      sign, digits and underscores. So "12.0" or "0x1F" is never accepted. */
  predicate NumeralChar(c: char) {
    IsSpace(c) || IsDigit(c) || c == '_' || c == '+' || c == '-'
  }

  /** The body of a base-10 literal that `int()` accepts after the sign:
      digits, where a single underscore may separate two digits. */
  predicate IsNumeral(s: string) {
    && |s| > 0
    && IsDigit(s[0])
    && IsDigit(s[|s| - 1])
    && (forall i :: 0 <= i < |s| ==> IsDigit(s[i]) || s[i] == '_')
    && NoDoubleUnderscore(s)
  }

  predicate NoDoubleUnderscore(s: string) {
    |s| < 2 || (!(s[0] == '_' && s[1] == '_') && NoDoubleUnderscore(s[1..]))
  }

  lemma {:induction false} DigitsHaveNoDoubleUnderscore(s: string)
    requires forall i :: 0 <= i < |s| ==> IsDigit(s[i])
    ensures NoDoubleUnderscore(s)
  {
    if |s| >= 2 {
      DigitsHaveNoDoubleUnderscore(s[1..]);
    }
  }

  /** The number a numeral denotes; underscores carry no value. */
  function NumeralValue(s: string): nat
  {
    if |s| == 0 then 0
    else if IsDigit(s[|s| - 1]) then 10 * NumeralValue(s[..|s| - 1]) + DigitValue(s[|s| - 1])
    else NumeralValue(s[..|s| - 1])
  }

  /** Python's `int(text)` with base 10: `None` where Python raises
      `ValueError`. Surrounding whitespace is ignored, one sign is allowed,
      leading zeros are allowed. */
  function ParseInt(text: string): (r: Option<int>)
    ensures (forall i :: 0 <= i < |text| ==> !IsDigit(text[i])) ==> r == None
    ensures r.Some? ==> forall i :: 0 <= i < |text| ==> NumeralChar(text[i])
  {
    var t := Strip(text);
    if |t| > 0 && (t[0] == '+' || t[0] == '-') then
      var body := t[1..];
      if IsNumeral(body) then
        AcceptedChars(text);
        AcceptedHasDigit(text);
        var magnitude: int := NumeralValue(body);
        Some(if t[0] == '-' then -magnitude else magnitude)
      else None
    else if IsNumeral(t) then
      AcceptedChars(text);
      AcceptedHasDigit(text);
      Some(NumeralValue(t))
    else None
  }

  /** The stripped text sits inside `text` at offset `|text| - |StripLeft(text)|`
      with only whitespace around it. */
  lemma StripWindow(text: string)
    ensures var t := Strip(text);
            var off := |text| - |StripLeft(text)|;
            && off + |t| <= |text|
            && (forall i :: off <= i < off + |t| ==> text[i] == t[i - off])
            && (forall i :: 0 <= i < off ==> IsSpace(text[i]))
            && (forall i :: off + |t| <= i < |text| ==> IsSpace(text[i]))
  {
    var l := StripLeft(text);
    var t := Strip(text);
    StripLeftSuffix(text);
    StripRightPrefix(l);
    assert t == l[..|t|] && l == text[|text| - |l|..];
  }

  /** The body `int()` accepts after stripping: an optional sign and a numeral. */
  predicate SignedNumeral(t: string) {
    IsNumeral(t) || (|t| > 0 && (t[0] == '+' || t[0] == '-') && IsNumeral(t[1..]))
  }

  lemma SignedNumeralChars(t: string)
    requires SignedNumeral(t)
    ensures forall j :: 0 <= j < |t| ==> NumeralChar(t[j])
  {
    if !IsNumeral(t) {
      forall j | 1 <= j < |t| ensures NumeralChar(t[j]) {
        assert t[j] == t[1..][j - 1];
      }
    }
  }

  /** Text that `int()` accepts is made of whitespace, one sign, digits and
      underscores. */
  lemma AcceptedChars(text: string)
    requires SignedNumeral(Strip(text))
    ensures forall i :: 0 <= i < |text| ==> NumeralChar(text[i])
  {
    var t := Strip(text);
    StripWindow(text);
    SignedNumeralChars(t);
    WindowChars(text, t, |text| - |StripLeft(text)|);
  }

  lemma WindowChars(text: string, t: string, off: nat)
    requires off + |t| <= |text|
    requires forall i :: off <= i < off + |t| ==> text[i] == t[i - off]
    requires forall i :: 0 <= i < off ==> IsSpace(text[i])
    requires forall i :: off + |t| <= i < |text| ==> IsSpace(text[i])
    requires forall j :: 0 <= j < |t| ==> NumeralChar(t[j])
    ensures forall i :: 0 <= i < |text| ==> NumeralChar(text[i])
  {
    forall i | 0 <= i < |text|
      ensures NumeralChar(text[i])
    {
      if off <= i < off + |t| {
        assert text[i] == t[i - off];
      }
    }
  }

  /** Text that `int()` accepts holds at least one digit. */
  lemma AcceptedHasDigit(text: string)
    requires SignedNumeral(Strip(text))
    ensures exists i :: 0 <= i < |text| && IsDigit(text[i])
  {
    var t := Strip(text);
    var off := |text| - |StripLeft(text)|;
    StripWindow(text);
    if IsNumeral(t) {
      assert text[off] == t[0];
    } else {
      assert text[off + 1] == t[1..][0];
    }
  }

  /** Python's `str(n)` for a non-negative integer. */
  function NatStr(n: nat): (r: string)
    ensures |r| > 0
    ensures forall i :: 0 <= i < |r| ==> IsDigit(r[i])
  {
    if n < 10 then [DigitChar(n)] else NatStr(n / 10) + [DigitChar(n % 10)]
  }

  /** Python's `str(n)`, and `'{:.0f}'.format(n)` for an integral float. */
  function Str(n: int): (r: string)
    ensures |r| > 0 && IsDigit(r[|r| - 1])
    ensures r[0] == '-' <==> n < 0
    ensures forall i :: 0 <= i < |r| ==> IsDigit(r[i]) || r[i] == '-'
  {
    if n < 0 then "-" + NatStr(-n) else NatStr(n)
  }

  lemma {:induction false} NatStrDenotes(n: nat)
    ensures IsNumeral(NatStr(n))
    ensures NumeralValue(NatStr(n)) == n
  {
    DigitsHaveNoDoubleUnderscore(NatStr(n));
    if n >= 10 {
      NatStrDenotes(n / 10);
      var s := NatStr(n);
      assert s[..|s| - 1] == NatStr(n / 10);
    }
  }

  lemma StripKeeps(s: string)
    requires |s| > 0 && !IsSpace(s[0]) && !IsSpace(s[|s| - 1])
    ensures Strip(s) == s
  {
  }

  /** Reading back a printed integer gives the integer: `int(str(n)) == n`. */
  lemma ParseStr(n: int)
    ensures ParseInt(Str(n)) == Some(n)
  {
    var s := Str(n);
    StripKeeps(s);
    if n < 0 {
      NatStrDenotes(-n);
      assert s[1..] == NatStr(-n);
    } else {
      NatStrDenotes(n);
    }
  }

  /** Whitespace around a printed integer is ignored, as `int(" 42\n")` is 42. */
  lemma {:induction false} StripSurrounded(pre: string, s: string, post: string)
    requires forall i :: 0 <= i < |pre| ==> IsSpace(pre[i])
    requires forall i :: 0 <= i < |post| ==> IsSpace(post[i])
    requires |s| > 0 && !IsSpace(s[0]) && !IsSpace(s[|s| - 1])
    ensures Strip(pre + s + post) == s
  {
    StripLeftSkips(pre, s + post);
    assert pre + s + post == pre + (s + post);
    StripRightSkips(s, post);
  }

  lemma {:induction false} StripLeftSkips(pre: string, rest: string)
    requires forall i :: 0 <= i < |pre| ==> IsSpace(pre[i])
    requires |rest| > 0 && !IsSpace(rest[0])
    ensures StripLeft(pre + rest) == rest
  {
    if |pre| > 0 {
      assert (pre + rest)[1..] == pre[1..] + rest;
      StripLeftSkips(pre[1..], rest);
    }
  }

  lemma {:induction false} StripRightSkips(rest: string, post: string)
    requires forall i :: 0 <= i < |post| ==> IsSpace(post[i])
    requires |rest| > 0 && !IsSpace(rest[|rest| - 1])
    ensures StripRight(rest + post) == rest
  {
    if |post| > 0 {
      var p := post[..|post| - 1];
      assert (rest + post)[..|rest + post| - 1] == rest + p;
      StripRightSkips(rest, p);
    } else {
      assert rest + post == rest;
    }
  }

  /** The information separators 0x1C-0x1F are not whitespace to `int()`:
      text holding one anywhere, such as "\x1c7", is rejected. */
  lemma SeparatorRejected(text: string, i: nat)
    requires i < |text| && '\U{1C}' <= text[i] <= '\U{1F}'
    ensures ParseInt(text) == None
  {
  }

  /** Typed text padded with whitespace is read as the integer it spells. */
  lemma ParsePadded(pre: string, n: int, post: string)
    requires forall i :: 0 <= i < |pre| ==> IsSpace(pre[i])
    requires forall i :: 0 <= i < |post| ==> IsSpace(post[i])
    ensures ParseInt(pre + Str(n) + post) == Some(n)
  {
    var s := Str(n);
    StripSurrounded(pre, s, post);
    StripKeeps(s);
    ParseStr(n);
  }
}
