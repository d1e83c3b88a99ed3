/**
 * Output naming of the generator: the template's stem, `_Final_`, a
 * `YYYYMMDD_HHMMSS` timestamp and `.docx`. The clock is a parameter.
 */
module OutputName {
  import opened Wrappers
  import opened Text
  import opened Paths

  /** A wall-clock reading as `datetime.now()` gives it (seconds resolution). */
  datatype DateTime = DateTime(year: nat, month: nat, day: nat, hour: nat, minute: nat, second: nat)

  /** The ranges a `datetime` value always lies in. */
  predicate ValidDateTime(t: DateTime)
  {
    && 1 <= t.year <= 9999 && 1 <= t.month <= 12 && 1 <= t.day <= 31
    && t.hour < 24 && t.minute < 60 && t.second < 60
  }

  /** `strftime("%Y%m%d_%H%M%S")`. */
  function Timestamp(t: DateTime): string
  {
    Pad(t.year, 4) + Pad(t.month, 2) + Pad(t.day, 2) + "_"
    + Pad(t.hour, 2) + Pad(t.minute, 2) + Pad(t.second, 2)
  }

  /** The fifteen-character shape `DDDDDDDD_DDDDDD`. */
  predicate TimestampShape(s: string)
  {
    |s| == 15 && s[8] == '_' && AllDigits(s[..8]) && AllDigits(s[9..])
  }

  /** Reads a `YYYYMMDD_HHMMSS` string back into its fields. */
  function ParseTimestamp(s: string): Option<DateTime>
  {
    if TimestampShape(s) then
      assert AllDigits(s[0..4]) && AllDigits(s[4..6]) && AllDigits(s[6..8]) by {
        assert s[0..4] == s[..8][0..4] && s[4..6] == s[..8][4..6] && s[6..8] == s[..8][6..8];
      }
      assert AllDigits(s[9..11]) && AllDigits(s[11..13]) && AllDigits(s[13..15]) by {
        assert s[9..11] == s[9..][0..2] && s[11..13] == s[9..][2..4] && s[13..15] == s[9..][4..6];
      }
      Some(DateTime(DecimalValue(s[0..4]), DecimalValue(s[4..6]), DecimalValue(s[6..8]),
                    DecimalValue(s[9..11]), DecimalValue(s[11..13]), DecimalValue(s[13..15])))
    else None
  }

  /** Every timestamp has the fixed zero-padded shape and reads back to the same time. */
  lemma TimestampRoundTrip(t: DateTime)
    requires ValidDateTime(t)
    ensures TimestampShape(Timestamp(t))
    ensures ParseTimestamp(Timestamp(t)) == Some(t)
  {
    TimestampParts(Pad(t.year, 4), Pad(t.month, 2), Pad(t.day, 2), Pad(t.hour, 2), Pad(t.minute, 2), Pad(t.second, 2));
    PadValue(t.year, 4);
    PadValue(t.month, 2);
    PadValue(t.day, 2);
    PadValue(t.hour, 2);
    PadValue(t.minute, 2);
    PadValue(t.second, 2);
  }

  /** Where each field sits in a `YYYYMMDD_HHMMSS` string. */
  lemma TimestampParts(y: string, mo: string, d: string, h: string, mi: string, se: string)
    requires |y| == 4 && |mo| == 2 && |d| == 2 && |h| == 2 && |mi| == 2 && |se| == 2
    ensures var s := y + mo + d + "_" + h + mi + se;
            && |s| == 15 && s[8] == '_' && s[..8] == y + mo + d && s[9..] == h + mi + se
            && s[0..4] == y && s[4..6] == mo && s[6..8] == d
            && s[9..11] == h && s[11..13] == mi && s[13..15] == se
  {
    var s := y + mo + d + "_" + h + mi + se;
    var date, time := y + mo + d, h + mi + se;
    assert s == date + "_" + time;
    assert s[..8] == date;
    assert s[9..] == time;
    assert date[0..4] == y && date[4..6] == mo && date[6..8] == d;
    assert time[0..2] == h && time[2..4] == mi && time[4..6] == se;
  }

  /** Distinct clock readings give distinct timestamps. */
  lemma TimestampInjective(t1: DateTime, t2: DateTime)
    requires ValidDateTime(t1) && ValidDateTime(t2)
    requires Timestamp(t1) == Timestamp(t2)
    ensures t1 == t2
  {
    TimestampRoundTrip(t1);
    TimestampRoundTrip(t2);
  }

  /** `f"{os.path.splitext(template_filename)[0]}_Final_{timestamp}.docx"`. */
  function OutputFilename(templateFilename: string, now: DateTime): string
  {
    Splitext(templateFilename).0 + "_Final_" + Timestamp(now) + ".docx"
  }

  /**
   * The output name is the template's root (the filename less its final
   * extension), then `_Final_`, then a well-formed timestamp, then `.docx`;
   * the timestamp can be read back from the fixed-width tail of the name.
   */
  lemma OutputFilenameShape(templateFilename: string, now: DateTime)
    requires ValidDateTime(now)
    ensures var name := OutputFilename(templateFilename, now);
            var root := Splitext(templateFilename).0;
            && |name| == |root| + 27
            && name[..|root|] == root
            && root + Splitext(templateFilename).1 == templateFilename
            && name[|root|..|root| + 7] == "_Final_"
            && TimestampShape(name[|root| + 7..|name| - 5])
            && ParseTimestamp(name[|root| + 7..|name| - 5]) == Some(now)
            && name[|name| - 5..] == ".docx"
  {
    SplitextSpec(templateFilename);
    TimestampRoundTrip(now);
    var name := OutputFilename(templateFilename, now);
    var root := Splitext(templateFilename).0;
    assert name == root + "_Final_" + Timestamp(now) + ".docx";
    assert name[|root| + 7..|name| - 5] == Timestamp(now);
  }

  /**
   * Two renders of the same template collide only when they happen in the same
   * second: the name determines the clock reading.
   */
  lemma OutputFilenameDistinct(templateFilename: string, t1: DateTime, t2: DateTime)
    requires ValidDateTime(t1) && ValidDateTime(t2)
    requires t1 != t2
    ensures OutputFilename(templateFilename, t1) != OutputFilename(templateFilename, t2)
  {
    OutputFilenameShape(templateFilename, t1);
    OutputFilenameShape(templateFilename, t2);
  }
}
