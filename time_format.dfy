/**
 * The two `strftime` layouts of the converter: "%Y%m%d_%H%M%S" in the output file name and
 * "%Y%m%d %H%M%S" in the time tags, with a parser that reads a stamp back.
 */
module TimeFormat {
  import opened Wrappers

  /** A decoded timestamp (what `num2date` yields), second resolution. */
  datatype DateTime = DateTime(year: nat, month: nat, day: nat, hour: nat, minute: nat, second: nat)

  /** The field ranges a calendar timestamp keeps (day-of-month limits are not needed here). */
  predicate Valid(t: DateTime) {
    && 1 <= t.year <= 9999
    && 1 <= t.month <= 12
    && 1 <= t.day <= 31
    && t.hour < 24
    && t.minute < 60
    && t.second < 60
  }

  function Pow10(k: nat): (p: nat)
    ensures p >= 1
  {
    if k == 0 then 1 else 10 * Pow10(k - 1)
  }

  predicate IsDigit(c: char) {
    '0' <= c <= '9'
  }

  function Digit(d: nat): (c: char)
    requires d < 10
    ensures IsDigit(c)
  {
    ('0' as int + d) as char
  }

  /** The last `width` decimal digits of `n`, zero-padded on the left (`%02d`, `%04d`). */
  function ZeroPadded(n: nat, width: nat): string {
    if width == 0 then [] else ZeroPadded(n / 10, width - 1) + [Digit(n % 10)]
  }

  /** The number a string of decimal digits denotes. */
  function DigitsValue(s: string): nat
    requires forall k :: 0 <= k < |s| ==> IsDigit(s[k])
  {
    if |s| == 0 then 0
    else
      assert IsDigit(s[|s| - 1]);
      DigitsValue(s[..|s| - 1]) * 10 + (s[|s| - 1] as int - '0' as int)
  }

  /** Three zero-padded fields side by side: "%Y%m%d" or "%H%M%S". */
  function Fields(a: nat, wa: nat, b: nat, c: nat): string {
    ZeroPadded(a, wa) + ZeroPadded(b, 2) + ZeroPadded(c, 2)
  }

  /** `strftime("%Y%m%d" + sep + "%H%M%S")`. */
  function Strftime(t: DateTime, sep: char): string {
    Fields(t.year, 4, t.month, t.day) + [sep] + Fields(t.hour, 2, t.minute, t.second)
  }

  /** The "%Y%m%d_%H%M%S" stamp of the output file name. */
  function FileStamp(t: DateTime): string {
    Strftime(t, '_')
  }

  /** The "%Y%m%d %H%M%S" layout of the `system:time_start` and `analysis_time` tags. */
  function TagStamp(t: DateTime): string {
    Strftime(t, ' ')
  }

  predicate AllDigits(s: string) {
    forall k :: 0 <= k < |s| ==> IsDigit(s[k])
  }

  /** Reads three fields of widths `wa`, 2 and 2 back from a run of digits. */
  function ParseFields(s: string, wa: nat): Option<(nat, nat, nat)> {
    if |s| == wa + 4 && AllDigits(s) then
      Some((DigitsValue(s[..wa]), DigitsValue(s[wa..wa + 2]), DigitsValue(s[wa + 2..])))
    else
      None
  }

  /** Reads a 15-character stamp back into its fields; the separator at position 8 is skipped. */
  function ParseStamp(s: string): Option<DateTime> {
    if |s| != 15 then None
    else
      match (ParseFields(s[..8], 4), ParseFields(s[9..], 2))
      case (Some((y, mo, d)), Some((h, mi, se))) => Some(DateTime(y, mo, d, h, mi, se))
      case _ => None
  }

  /** Zero-padding a number below 10^width gives exactly `width` digits that read back as it. */
  lemma {:induction false} ZeroPaddedRoundTrip(n: nat, width: nat)
    requires n < Pow10(width)
    ensures |ZeroPadded(n, width)| == width
    ensures forall k :: 0 <= k < width ==> IsDigit(ZeroPadded(n, width)[k])
    ensures DigitsValue(ZeroPadded(n, width)) == n
  {
    if width > 0 {
      ZeroPaddedRoundTrip(n / 10, width - 1);
      var s := ZeroPadded(n, width);
      assert s[..|s| - 1] == ZeroPadded(n / 10, width - 1);
    }
  }

  lemma FieldsRoundTrip(a: nat, wa: nat, b: nat, c: nat)
    requires a < Pow10(wa) && b < 100 && c < 100
    ensures |Fields(a, wa, b, c)| == wa + 4
    ensures ParseFields(Fields(a, wa, b, c), wa) == Some((a, b, c))
  {
    assert Pow10(2) == 100;
    ZeroPaddedRoundTrip(a, wa);
    ZeroPaddedRoundTrip(b, 2);
    ZeroPaddedRoundTrip(c, 2);
    var s := Fields(a, wa, b, c);
    assert s[..wa] == ZeroPadded(a, wa);
    assert s[wa..wa + 2] == ZeroPadded(b, 2);
    assert s[wa + 2..] == ZeroPadded(c, 2);
  }

  /**
   * Both stamp layouts are 15 characters long and read back as the timestamp they were made
   * from, so the file name and the tags determine the time exactly.
   */
  lemma StampRoundTrip(t: DateTime, sep: char)
    requires Valid(t)
    ensures |Strftime(t, sep)| == 15 && Strftime(t, sep)[8] == sep
    ensures ParseStamp(Strftime(t, sep)) == Some(t)
  {
    assert Pow10(4) == 10000;
    FieldsRoundTrip(t.year, 4, t.month, t.day);
    FieldsRoundTrip(t.hour, 2, t.minute, t.second);
    var s := Strftime(t, sep);
    assert s[..8] == Fields(t.year, 4, t.month, t.day);
    assert s[9..] == Fields(t.hour, 2, t.minute, t.second);
  }

  /** Distinct timestamps give distinct file stamps. */
  lemma FileStampInjective(t1: DateTime, t2: DateTime)
    requires Valid(t1) && Valid(t2)
    requires FileStamp(t1) == FileStamp(t2)
    ensures t1 == t2
  {
    StampRoundTrip(t1, '_');
    StampRoundTrip(t2, '_');
  }
}
