/**
 The `Timestamp` field of an M-PESA STK-push request, derived from the current
 instant by both push routes: take the ISO-8601 text of the instant, delete
 every `-`, `:`, `T`, `Z` and `.`, and keep the first fourteen characters,
 which leaves `YYYYMMDDHHMMSS`. The instant itself comes from the clock and is
 a parameter here.
 */
module Timestamp {

  /** The characters the regular expression `/[-:TZ.]/g` matches. */
  const Separators: set<char> := {'-', ':', 'T', 'Z', '.'}

  /** The number of characters `slice(0, 14)` keeps. */
  const TimestampLength: nat := 14

  /** `s.replace(/[-:TZ.]/g, "")`: the characters of `s` that are not
      separators, in their order. */
  function StripSeparators(s: string): (r: string)
    ensures |r| <= |s|
    ensures forall i :: 0 <= i < |r| ==> r[i] !in Separators
    decreases |s|
  {
    if |s| == 0 then ""
    else (if s[0] in Separators then "" else [s[0]]) + StripSeparators(s[1..])
  }

  /** `s.slice(0, n)`: at most the first `n` characters. */
  function Take(s: string, n: nat): (r: string)
    ensures |r| == if |s| <= n then |s| else n
    ensures r == s[..|r|]
  {
    if |s| <= n then s else s[..n]
  }

  /** The timestamp the push routes send for an instant whose ISO text is
      `iso`. */
  function MpesaTimestamp(iso: string): (r: string)
    ensures |r| <= TimestampLength
    ensures forall i :: 0 <= i < |r| ==> r[i] !in Separators
    ensures r <= StripSeparators(iso)
  {
    Take(StripSeparators(iso), TimestampLength)
  }

  lemma {:induction false} StripAppend(a: string, b: string)
    ensures StripSeparators(a + b) == StripSeparators(a) + StripSeparators(b)
    decreases |a|
  {
    if |a| > 0 {
      var head := if a[0] in Separators then "" else [a[0]];
      assert (a + b)[0] == a[0];
      assert (a + b)[1..] == a[1..] + b;
      StripAppend(a[1..], b);
      calc {
        StripSeparators(a + b);
        head + StripSeparators(a[1..] + b);
        head + (StripSeparators(a[1..]) + StripSeparators(b));
        (head + StripSeparators(a[1..])) + StripSeparators(b);
        StripSeparators(a) + StripSeparators(b);
      }
    } else {
      assert a + b == b;
    }
  }

  /** Text without separators passes through unchanged. */
  lemma {:induction false} StripPlain(s: string)
    requires forall i :: 0 <= i < |s| ==> s[i] !in Separators
    ensures StripSeparators(s) == s
    decreases |s|
  {
    if |s| > 0 {
      StripPlain(s[1..]);
    }
  }

  /** Stripping twice is stripping once. */
  lemma StripIdempotent(s: string)
    ensures StripSeparators(StripSeparators(s)) == StripSeparators(s)
  {
    StripPlain(StripSeparators(s));
  }

  predicate IsDigit(c: char) {
    '0' <= c <= '9'
  }

  predicate AllDigits(s: string) {
    forall i :: 0 <= i < |s| ==> IsDigit(s[i])
  }

  function DigitChar(d: nat): (c: char)
    requires d < 10
    ensures IsDigit(c)
  {
    ('0' as int + d) as char
  }

  function Pow10(w: nat): (p: nat)
    ensures p >= 1
  {
    if w == 0 then 1 else 10 * Pow10(w - 1)
  }

  /** `n` written with exactly `width` decimal digits, zero-padded on the left,
      as toISOString writes every field of a date. */
  function Digits(n: nat, width: nat): (r: string)
    ensures |r| == width
    ensures AllDigits(r)
  {
    if width == 0 then "" else Digits(n / 10, width - 1) + [DigitChar(n % 10)]
  }

  /** The number a string of decimal digits denotes. */
  function DigitsValue(s: string): nat
    requires AllDigits(s)
  {
    if |s| == 0 then 0
    else 10 * DigitsValue(s[..|s| - 1]) + ((s[|s| - 1] as int) - ('0' as int))
  }

  /** Reading back a zero-padded field gives the number written. */
  lemma {:induction false} DigitsRoundTrip(n: nat, width: nat)
    requires n < Pow10(width)
    ensures DigitsValue(Digits(n, width)) == n
    decreases width
  {
    if width > 0 {
      var s := Digits(n, width);
      assert s[..|s| - 1] == Digits(n / 10, width - 1);
      DigitsRoundTrip(n / 10, width - 1);
    }
  }

  /** Each field followed by its separator: `f0 s0 f1 s1 ...`. */
  function Interleave(fields: seq<string>, seps: string): string
    requires |fields| == |seps|
    decreases |fields|
  {
    if |fields| == 0 then ""
    else Interleave(fields[..|fields| - 1], seps[..|seps| - 1]) + fields[|fields| - 1] + [seps[|seps| - 1]]
  }

  /** The fields side by side. */
  function Concat(fields: seq<string>): string
    decreases |fields|
  {
    if |fields| == 0 then "" else Concat(fields[..|fields| - 1]) + fields[|fields| - 1]
  }

  /** Appending a field and the separator after it adds just the field. */
  lemma StripFieldThenSeparator(prefix: string, field: string, sep: char)
    requires AllDigits(field) && sep in Separators
    ensures StripSeparators(prefix + field + [sep]) == StripSeparators(prefix) + field
  {
    StripAppend(prefix + field, [sep]);
    StripAppend(prefix, field);
    StripPlain(field);
    assert StripSeparators([sep]) == "";
  }

  /** Digit fields interleaved with separators strip to the fields alone. */
  lemma {:induction false} StripInterleave(fields: seq<string>, seps: string)
    requires |fields| == |seps|
    requires forall i :: 0 <= i < |fields| ==> AllDigits(fields[i])
    requires forall i :: 0 <= i < |seps| ==> seps[i] in Separators
    ensures StripSeparators(Interleave(fields, seps)) == Concat(fields)
    decreases |fields|
  {
    if |fields| > 0 {
      var n := |fields| - 1;
      StripInterleave(fields[..n], seps[..n]);
      StripFieldThenSeparator(Interleave(fields[..n], seps[..n]), fields[n], seps[n]);
    }
  }

  /** A UTC calendar instant as Date.prototype.toISOString prints it. */
  datatype DateTime = DateTime(year: int, month: int, day: int,
                               hour: int, minute: int, second: int, millisecond: int)

  /** The field ranges of an instant whose year toISOString writes with four
      digits. */
  predicate InRange(t: DateTime) {
    && 0 <= t.year <= 9999 && 1 <= t.month <= 12 && 1 <= t.day <= 31
    && 0 <= t.hour <= 23 && 0 <= t.minute <= 59 && 0 <= t.second <= 59
    && 0 <= t.millisecond <= 999
  }

  /** The zero-padded fields of an instant, year first. */
  function IsoFields(t: DateTime): (fs: seq<string>)
    requires InRange(t)
    ensures |fs| == 7 && forall i :: 0 <= i < 7 ==> AllDigits(fs[i])
  {
    [Digits(t.year, 4), Digits(t.month, 2), Digits(t.day, 2),
     Digits(t.hour, 2), Digits(t.minute, 2), Digits(t.second, 2), Digits(t.millisecond, 3)]
  }

  /** What follows each field in `YYYY-MM-DDTHH:mm:ss.sssZ`. */
  const IsoSeparators: string := "--T::.Z"

  /** `YYYY-MM-DDTHH:mm:ss.sssZ` */
  function IsoString(t: DateTime): string
    requires InRange(t)
  {
    Interleave(IsoFields(t), IsoSeparators)
  }

  /** The date and time fields, to the second, each zero-padded. */
  function CompactFields(t: DateTime): (r: string)
    requires InRange(t)
    ensures |r| == TimestampLength && AllDigits(r)
  {
    Digits(t.year, 4) + Digits(t.month, 2) + Digits(t.day, 2)
      + Digits(t.hour, 2) + Digits(t.minute, 2) + Digits(t.second, 2)
  }

  /** Deleting the separators from an ISO text leaves its seven fields side by
      side. */
  lemma StripIso(t: DateTime)
    requires InRange(t)
    ensures StripSeparators(IsoString(t)) == CompactFields(t) + Digits(t.millisecond, 3)
  {
    var fs := IsoFields(t);
    StripInterleave(fs, IsoSeparators);
    assert fs[..1][..0] == [] && "" + fs[0] == fs[0];
    assert Concat(fs[..1]) == fs[0];
    assert fs[..2][..1] == fs[..1];
    assert Concat(fs[..2]) == fs[0] + fs[1];
    assert fs[..3][..2] == fs[..2];
    assert Concat(fs[..3]) == fs[0] + fs[1] + fs[2];
    assert fs[..4][..3] == fs[..3];
    assert Concat(fs[..4]) == fs[0] + fs[1] + fs[2] + fs[3];
    assert fs[..5][..4] == fs[..4];
    assert Concat(fs[..5]) == fs[0] + fs[1] + fs[2] + fs[3] + fs[4];
    assert fs[..6][..5] == fs[..5];
    assert Concat(fs[..6]) == CompactFields(t);
    assert fs[..6] == fs[..|fs| - 1];
  }

  /** For a well-formed ISO text the timestamp is `YYYYMMDDHHMMSS`: the
      separators go, and the slice cuts off exactly the milliseconds. */
  lemma IsoTimestamp(t: DateTime)
    requires InRange(t)
    ensures MpesaTimestamp(IsoString(t)) == CompactFields(t)
  {
    StripIso(t);
    var compact := CompactFields(t);
    assert (compact + Digits(t.millisecond, 3))[..TimestampLength] == compact;
  }

  /** Reads the six fields back out of a fourteen-digit timestamp; the
      milliseconds are not in it and read as zero. */
  function ParseTimestamp(ts: string): (t: DateTime)
    requires |ts| == TimestampLength && AllDigits(ts)
  {
    DateTime(DigitsValue(ts[0..4]), DigitsValue(ts[4..6]), DigitsValue(ts[6..8]),
             DigitsValue(ts[8..10]), DigitsValue(ts[10..12]), DigitsValue(ts[12..14]), 0)
  }

  /** Where each field sits in the fourteen digits. */
  lemma CompactFieldsSlices(t: DateTime)
    requires InRange(t)
    ensures var ts := CompactFields(t);
            && ts[0..4] == Digits(t.year, 4) && ts[4..6] == Digits(t.month, 2)
            && ts[6..8] == Digits(t.day, 2) && ts[8..10] == Digits(t.hour, 2)
            && ts[10..12] == Digits(t.minute, 2) && ts[12..14] == Digits(t.second, 2)
  {
    var y, mo, d := Digits(t.year, 4), Digits(t.month, 2), Digits(t.day, 2);
    var h, mi, se := Digits(t.hour, 2), Digits(t.minute, 2), Digits(t.second, 2);
    var ts := CompactFields(t);
    assert ts == y + mo + d + h + mi + se;
    assert ts[12..] == se && ts[..12] == y + mo + d + h + mi;
    var p5 := y + mo + d + h + mi;
    assert p5[10..] == mi && p5[..10] == y + mo + d + h;
    var p4 := y + mo + d + h;
    assert p4[8..] == h && p4[..8] == y + mo + d;
    var p3 := y + mo + d;
    assert p3[6..] == d && p3[..6] == y + mo;
    var p2 := y + mo;
    assert p2[4..] == mo && p2[..4] == y;
    assert ts[12..14] == se;
    assert ts[10..12] == p5[10..];
    assert ts[8..10] == p4[8..];
    assert ts[6..8] == p3[6..];
    assert ts[4..6] == p2[4..];
    assert ts[0..4] == p2[..4];
  }

  /** The timestamp of an instant determines the instant to the second. */
  lemma TimestampRoundTrip(t: DateTime)
    requires InRange(t)
    ensures var ts := MpesaTimestamp(IsoString(t));
            |ts| == TimestampLength && AllDigits(ts)
            && ParseTimestamp(ts) == t.(millisecond := 0)
  {
    IsoTimestamp(t);
    CompactFieldsSlices(t);
    DigitsRoundTrip(t.year, 4);
    DigitsRoundTrip(t.month, 2);
    DigitsRoundTrip(t.day, 2);
    DigitsRoundTrip(t.hour, 2);
    DigitsRoundTrip(t.minute, 2);
    DigitsRoundTrip(t.second, 2);
  }

  /** Two instants get the same timestamp exactly when they fall in the same
      second. */
  lemma SameTimestampSameSecond(t1: DateTime, t2: DateTime)
    requires InRange(t1) && InRange(t2)
    ensures MpesaTimestamp(IsoString(t1)) == MpesaTimestamp(IsoString(t2))
        <==> t1.(millisecond := 0) == t2.(millisecond := 0)
  {
    TimestampRoundTrip(t1);
    TimestampRoundTrip(t2);
    IsoTimestamp(t1);
    IsoTimestamp(t2);
  }
}
