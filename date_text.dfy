/**
 * The date pattern `%d.%m.%Y` used both to read birthdays (`datetime.strptime`) and to
 * write congratulation dates (`date.strftime`): a two-digit day, a dot, a two-digit
 * month, a dot and a four-digit year, read strictly.
 */
module DateText {
  import opened Results
  import opened Calendar

  predicate IsDigit(c: char)
  {
    '0' <= c <= '9'
  }

  /** True when every character of `s` is an ASCII decimal digit. */
  predicate AllDigits(s: string)
  {
    forall i :: 0 <= i < |s| ==> IsDigit(s[i])
  }

  function DigitChar(n: int): (c: char)
    requires 0 <= n < 10
    ensures IsDigit(c)
  {
    '0' + n as char
  }

  function Pow10(w: nat): (p: nat)
    ensures p >= 1
  {
    if w == 0 then 1 else 10 * Pow10(w - 1)
  }

  /** The number a string of decimal digits denotes, most significant digit first. */
  function DigitsValue(s: string): (n: nat)
    requires AllDigits(s)
    ensures n < Pow10(|s|)
    decreases |s|
  {
    if s == [] then 0
    else DigitsValue(s[..|s| - 1]) * 10 + (s[|s| - 1] - '0') as int
  }

  /** `n` written in exactly `width` decimal digits, with leading zeros. */
  function Padded(n: nat, width: nat): (s: string)
    ensures |s| == width && AllDigits(s)
    decreases width
  {
    if width == 0 then []
    else Padded(n / 10, width - 1) + [DigitChar(n % 10)]
  }

  /** The last two digits of `n`: tens, then units. */
  lemma PaddedTwo(n: nat)
    ensures Padded(n, 2) == [DigitChar(n / 10 % 10), DigitChar(n % 10)]
  {
    assert Padded(n / 10, 1) == Padded(n / 10 / 10, 0) + [DigitChar(n / 10 % 10)];
  }

  /** The last four digits of `n`, most significant first. */
  lemma PaddedFour(n: nat)
    ensures Padded(n, 4) ==
      [DigitChar(n / 10 / 10 / 10 % 10), DigitChar(n / 10 / 10 % 10), DigitChar(n / 10 % 10), DigitChar(n % 10)]
  {
    PaddedTwo(n / 10 / 10);
    assert Padded(n / 10, 3) == Padded(n / 10 / 10, 2) + [DigitChar(n / 10 % 10)];
  }

  /** Reading back a padded number gives the number, when it fits in the width. */
  lemma {:induction false} DigitsValueOfPadded(n: nat, width: nat)
    requires n < Pow10(width)
    ensures DigitsValue(Padded(n, width)) == n
    decreases width
  {
    if width > 0 {
      var s := Padded(n, width);
      assert s[..|s| - 1] == Padded(n / 10, width - 1);
      DigitsValueOfPadded(n / 10, width - 1);
    }
  }

  /** Padding the value of a digit string to its own length gives the string back. */
  lemma {:induction false} PaddedOfDigitsValue(s: string)
    requires AllDigits(s)
    ensures Padded(DigitsValue(s), |s|) == s
    decreases |s|
  {
    if s != [] {
      var init := s[..|s| - 1];
      PaddedOfDigitsValue(init);
      var n := DigitsValue(s);
      assert n / 10 == DigitsValue(init);
      assert s == init + [s[|s| - 1]];
    }
  }

  /** `n` in decimal with no leading zeros, as Python's `%i` writes it. */
  function DecimalText(n: int): (s: string)
    ensures n >= 0 ==> |s| > 0 && AllDigits(s) && DigitsValue(s) == n
    ensures n < 0 ==> |s| > 1 && s[0] == '-' && AllDigits(s[1..]) && DigitsValue(s[1..]) == -n
    decreases if n < 0 then 1 - n else n
  {
    if n < 0 then "-" + DecimalText(-n)
    else if n < 10 then [DigitChar(n)]
    else
      var s := DecimalText(n / 10) + [DigitChar(n % 10)];
      assert s[..|s| - 1] == DecimalText(n / 10);
      s
  }

  /** The shape of the pattern: `DD.MM.YYYY` with digits where the letters are. */
  predicate HasDateShape(s: string)
  {
    |s| == 10 && s[2] == '.' && s[5] == '.'
    && AllDigits(s[0..2]) && AllDigits(s[3..5]) && AllDigits(s[6..10])
  }

  /** `datetime.strptime(s, "%d.%m.%Y")`, read strictly: the date, or None when it is refused. */
  function ParseDate(s: string): (r: Option<Date>)
    ensures r.Some? ==> IsValidDate(r.value)
  {
    if HasDateShape(s) then
      var d := Date(DigitsValue(s[6..10]), DigitsValue(s[3..5]), DigitsValue(s[0..2]));
      if IsValidDate(d) then Some(d) else None
    else None
  }

  /** `d.strftime("%d.%m.%Y")`; every representable date is read back from its own text. */
  function FormatDate(d: Date): (s: string)
    requires IsValidDate(d)
    ensures HasDateShape(s)
    ensures ParseDate(s) == Some(d)
  {
    var s := Padded(d.day, 2) + "." + Padded(d.month, 2) + "." + Padded(d.year, 4);
    assert s[0..2] == Padded(d.day, 2);
    assert s[3..5] == Padded(d.month, 2);
    assert s[6..10] == Padded(d.year, 4);
    DigitsValueOfPadded(d.day, 2);
    DigitsValueOfPadded(d.month, 2);
    DigitsValueOfPadded(d.year, 4);
    s
  }

  /** A text the strict parser accepts is exactly the text of the date it denotes. */
  lemma FormatParse(s: string)
    requires ParseDate(s).Some?
    ensures FormatDate(ParseDate(s).value) == s
  {
    PaddedOfDigitsValue(s[0..2]);
    PaddedOfDigitsValue(s[3..5]);
    PaddedOfDigitsValue(s[6..10]);
    assert s == s[0..2] + "." + s[3..5] + "." + s[6..10];
  }
}
