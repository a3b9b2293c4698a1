/**
 * `create_video_filename`, identical in both capture scripts:
 * `"{path}/{start:%Y%m%d-%H%M%S}-wildlife.avi"`.
 */
module Naming {
  import opened Clock
  import opened Calendar

  const Suffix: string := "-wildlife.avi"

  /** Length of `YYYYMMDD-HHMMSS`. */
  const StampLength: int := 15

  function Digit(n: int): char
    requires 0 <= n < 10
  {
    ('0' as int + n) as char
  }

  function DigitValue(c: char): int {
    c as int - '0' as int
  }

  /** `n` as exactly two decimal digits, zero padded (`%m`, `%d`, `%H`, `%M`, `%S`). */
  function Pad2(n: int): (s: string)
    requires 0 <= n < 100
  {
    [Digit(n / 10), Digit(n % 10)]
  }

  /** `n` as exactly four decimal digits, zero padded (`%Y`). */
  function Pad4(n: int): (s: string)
    requires 0 <= n < 10000
  {
    [Digit(n / 1000), Digit(n / 100 % 10), Digit(n / 10 % 10), Digit(n % 10)]
  }

  function ParseDigits(s: string): int {
    if s == [] then 0 else ParseDigits(s[..|s| - 1]) * 10 + DigitValue(s[|s| - 1])
  }

  lemma DigitParses(n: int)
    requires 0 <= n < 10
    ensures DigitValue(Digit(n)) == n
  {
  }

  /** Reading one more digit: the value so far times ten, plus that digit. */
  lemma ParseDigitsSnoc(s: string, c: char)
    ensures ParseDigits(s + [c]) == ParseDigits(s) * 10 + DigitValue(c)
  {
    assert (s + [c])[..|s|] == s;
  }

  lemma Pad2Parses(n: int)
    requires 0 <= n < 100
    ensures ParseDigits(Pad2(n)) == n
  {
    DigitParses(n / 10);
    DigitParses(n % 10);
    ParseDigitsSnoc([], Digit(n / 10));
    ParseDigitsSnoc([Digit(n / 10)], Digit(n % 10));
    assert Pad2(n) == [] + [Digit(n / 10)] + [Digit(n % 10)];
  }

  lemma Pad4Parses(n: int)
    requires 0 <= n < 10000
    ensures ParseDigits(Pad4(n)) == n
  {
    var a, b, c, d := Digit(n / 1000), Digit(n / 100 % 10), Digit(n / 10 % 10), Digit(n % 10);
    DigitParses(n / 1000);
    DigitParses(n / 100 % 10);
    DigitParses(n / 10 % 10);
    DigitParses(n % 10);
    ParseDigitsSnoc([], a);
    ParseDigitsSnoc([a], b);
    ParseDigitsSnoc([a, b], c);
    ParseDigitsSnoc([a, b, c], d);
    assert [] + [a] == [a] && [a] + [b] == [a, b] && [a, b] + [c] == [a, b, c];
    assert Pad4(n) == [a, b, c] + [d];
    var q1, q2, q3 := n / 1000, n / 100, n / 10;
    assert q2 == q1 * 10 + q2 % 10;
    assert q3 == q2 * 10 + q3 % 10;
    assert n == q3 * 10 + n % 10;
  }

  /**
   * `strftime("%Y%m%d-%H%M%S")`: fifteen characters, a dash between the date
   * and the time, and decimal digits everywhere else.
   */
  function Stamp(c: DateTime): (s: string)
    requires c.Valid()
    ensures |s| == StampLength && s[8] == '-'
    ensures forall i :: 0 <= i < |s| && i != 8 ==> '0' <= s[i] <= '9'
  {
    Pad4(c.year) + Pad2(c.month) + Pad2(c.day) + "-" + Pad2(c.hour) + Pad2(c.minute) + Pad2(c.second)
  }

  /** Reads the six fields back out of a `YYYYMMDD-HHMMSS` stamp. */
  function ParseStamp(s: string): DateTime
    requires |s| == StampLength
  {
    DateTime(ParseDigits(s[0..4]), ParseDigits(s[4..6]), ParseDigits(s[6..8]),
             ParseDigits(s[9..11]), ParseDigits(s[11..13]), ParseDigits(s[13..15]))
  }

  lemma StampRoundTrip(c: DateTime)
    requires c.Valid()
    ensures |Stamp(c)| == StampLength
    ensures Stamp(c)[8] == '-'
    ensures ParseStamp(Stamp(c)) == c
  {
    var s := Stamp(c);
    assert s[0..4] == Pad4(c.year);
    assert s[4..6] == Pad2(c.month);
    assert s[6..8] == Pad2(c.day);
    assert s[9..11] == Pad2(c.hour);
    assert s[11..13] == Pad2(c.minute);
    assert s[13..15] == Pad2(c.second);
    Pad4Parses(c.year);
    Pad2Parses(c.month);
    Pad2Parses(c.day);
    Pad2Parses(c.hour);
    Pad2Parses(c.minute);
    Pad2Parses(c.second);
  }

  /** Where the parts of `path + "/" + stamp + Suffix` lie. */
  lemma NameLayout(path: string, stamp: string)
    requires |stamp| == StampLength
    ensures var name := path + "/" + stamp + Suffix;
      && |name| == |path| + 1 + StampLength + |Suffix|
      && name[..|path| + 1] == path + "/"
      && name[|path| + 1..] == stamp + Suffix
      && name[|path| + 1..|path| + 1 + StampLength] == stamp
      && name[|path| + 1 + StampLength..] == Suffix
  {
    var name := path + "/" + stamp + Suffix;
    assert name == (path + "/") + (stamp + Suffix);
  }

  /** A stamp holds no slash. */
  lemma StampHasNoSlash(c: DateTime)
    requires c.Valid()
    ensures '/' !in Stamp(c) + Suffix
  {
    var s := Stamp(c);
    forall k | 0 <= k < |s|
      ensures s[k] != '/'
    {
    }
    assert '/' !in Suffix;
  }

  /**
   * `create_video_filename(start, path)`: the storage path, a slash, the start
   * instant stamped to the second, and the fixed suffix. The stamp can be read
   * back and gives the civil time of `start`.
   */
  function VideoFilename(start: Instant, path: string): (name: string)
    ensures |name| == |path| + 1 + StampLength + |Suffix|
    ensures name[..|path| + 1] == path + "/"
    ensures name[|path| + 1 + StampLength..] == Suffix
    ensures name[|path| + 1 + 8] == '-'
    ensures '/' !in name[|path| + 1..]
    ensures ParseStamp(name[|path| + 1..|path| + 1 + StampLength]) == FromInstant(start)
  {
    var c := FromInstant(start);
    StampRoundTrip(c);
    StampHasNoSlash(c);
    NameLayout(path, Stamp(c));
    path + "/" + Stamp(c) + Suffix
  }

  /**
   * Two sessions get the same file name exactly when they start within the
   * same second: the name is unique at second resolution, and nothing finer.
   */
  lemma VideoFilenameUnique(t1: Instant, t2: Instant, path: string)
    ensures VideoFilename(t1, path) == VideoFilename(t2, path) <==> t1 / MicrosPerSecond == t2 / MicrosPerSecond
  {
    if VideoFilename(t1, path) == VideoFilename(t2, path) {
      var n := VideoFilename(t1, path);
      assert FromInstant(t1) == ParseStamp(n[|path| + 1..|path| + 1 + StampLength]) == FromInstant(t2);
    }
  }
}
