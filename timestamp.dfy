/**
 * The local time stamp `time.strftime("%Y-%m-%d_%H-%M-%S")` that names a merged
 * file, with a parser that inverts it: distinct seconds give distinct names.
 */
module Timestamp {
  import opened Wrappers

  /** A broken-down local time, as `time.localtime()` supplies it to `strftime`. */
  datatype DateTime = DateTime(year: nat, month: nat, day: nat, hour: nat, minute: nat, second: nat)

  /** The ranges `strftime` accepts, with four-digit years (seconds 60 and 61 are leap seconds). */
  predicate Valid(t: DateTime)
  {
    && 1000 <= t.year <= 9999
    && 1 <= t.month <= 12
    && 1 <= t.day <= 31
    && t.hour < 24
    && t.minute < 60
    && t.second < 62
  }

  function Pow10(w: nat): (p: nat)
    ensures p >= 1
  {
    if w == 0 then 1 else 10 * Pow10(w - 1)
  }

  predicate IsDigit(c: char)
  {
    '0' <= c <= '9'
  }

  function DigitChar(d: nat): (c: char)
    requires d < 10
    ensures IsDigit(c)
  {
    ('0' as int + d) as char
  }

  /** `n` written in exactly `w` decimal digits, with leading zeros (`%02d`, `%04d`). */
  function Digits(n: nat, w: nat): (r: string)
    requires n < Pow10(w)
    ensures |r| == w && forall i :: 0 <= i < w ==> IsDigit(r[i])
  {
    if w == 0 then [] else Digits(n / 10, w - 1) + [DigitChar(n % 10)]
  }

  /** The value of a string of decimal digits, or `None` if some character is not a digit. */
  function ParseDigits(s: string): Option<nat>
  {
    if s == [] then Some(0)
    else
      var last := s[|s| - 1];
      match ParseDigits(s[..|s| - 1])
      case None => None
      case Some(v) => if IsDigit(last) then Some(10 * v + (last as int - '0' as int)) else None
  }

  lemma {:induction false} ParseDigitsOfDigits(n: nat, w: nat)
    requires n < Pow10(w)
    ensures ParseDigits(Digits(n, w)) == Some(n)
  {
    if w > 0 {
      var s := Digits(n, w);
      assert s[..|s| - 1] == Digits(n / 10, w - 1);
      ParseDigitsOfDigits(n / 10, w - 1);
    }
  }

  /** "YYYY-MM-DD_HH-MM-SS". */
  function Format(t: DateTime): (r: string)
    requires Valid(t)
    ensures |r| == 19
  {
    Digits(t.year, 4) + "-" + Digits(t.month, 2) + "-" + Digits(t.day, 2) + "_"
    + Digits(t.hour, 2) + "-" + Digits(t.minute, 2) + "-" + Digits(t.second, 2)
  }

  /** Reads back a time stamp in the layout of `Format`. */
  function Parse(s: string): Option<DateTime>
  {
    if |s| != 19 || s[4] != '-' || s[7] != '-' || s[10] != '_' || s[13] != '-' || s[16] != '-' then None
    else
      match (ParseDigits(s[0..4]), ParseDigits(s[5..7]), ParseDigits(s[8..10]),
             ParseDigits(s[11..13]), ParseDigits(s[14..16]), ParseDigits(s[17..19]))
      case (Some(y), Some(mo), Some(d), Some(h), Some(mi), Some(se)) =>
        var t := DateTime(y, mo, d, h, mi, se);
        if Valid(t) then Some(t) else None
      case _ => None
  }

  /** Round trip: a valid time is recovered from its formatted stamp. */
  lemma ParseFormat(t: DateTime)
    requires Valid(t)
    ensures Parse(Format(t)) == Some(t)
  {
    var s := Format(t);
    assert s[0..4] == Digits(t.year, 4);
    assert s[5..7] == Digits(t.month, 2);
    assert s[8..10] == Digits(t.day, 2);
    assert s[11..13] == Digits(t.hour, 2);
    assert s[14..16] == Digits(t.minute, 2);
    assert s[17..19] == Digits(t.second, 2);
    ParseDigitsOfDigits(t.year, 4);
    ParseDigitsOfDigits(t.month, 2);
    ParseDigitsOfDigits(t.day, 2);
    ParseDigitsOfDigits(t.hour, 2);
    ParseDigitsOfDigits(t.minute, 2);
    ParseDigitsOfDigits(t.second, 2);
  }

  /** Distinct times give distinct stamps. */
  lemma FormatInjective(t1: DateTime, t2: DateTime)
    requires Valid(t1) && Valid(t2)
    requires Format(t1) == Format(t2)
    ensures t1 == t2
  {
    ParseFormat(t1);
    ParseFormat(t2);
  }
}
