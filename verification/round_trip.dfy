/**
 * The two tools together: the file the creation tool writes for today, looked
 * at by the statistics walk. With the default name format the entry is read
 * back under today's date; with the other format presets it is not.
 */
module RoundTrip {
  import opened Wrappers
  import opened Text
  import opened Numbers
  import opened Calendar
  import opened PathDate
  import opened Entry
  import opened Aggregate
  import opened Scanner

  /** The names of the year and month directories created for `today`. */
  function DirNames(today: Date, other: char -> string): seq<string>
    requires Valid(today)
  {
    [Strftime("%Y", today, other), Strftime("%Y%m", today, other)]
  }

  /** The preset that puts a hyphenated date and a suffix in the name. */
  const DashedFormat: string := "%Y-%m-%d 日记.md"

  /** The preset that puts a prefix before the compact date. */
  const PrefixedFormat: string := "diary_%Y%m%d.md"

  /** Text without `%` in front of a format is copied through. */
  lemma {:induction false} StrftimeLiteralPrefix(p: string, rest: string, d: Date, other: char -> string)
    requires Valid(d) && '%' !in p
    ensures Strftime(p + rest, d, other) == p + Strftime(rest, d, other)
    decreases |p|
  {
    if |p| > 0 {
      assert (p + rest)[0] == p[0];
      assert (p + rest)[1..] == p[1..] + rest;
      StrftimeLiteralPrefix(p[1..], rest, d, other);
      assert p == [p[0]] + p[1..];
    } else {
      assert p + rest == rest;
    }
  }

  /** A name with no separator and no surrounding whitespace is kept by sanitizing. */
  lemma SanitizeKeeps(name: string)
    requires '/' !in name && '\\' !in name && Stripped(name)
    ensures Sanitize(name) == name
  {
    ReplaceAbsent(name, "/", "-");
    ReplaceAbsent(name, "\\", "-");
    StripStripped(name);
  }

  /** The directory names are digits only and read back as the year and the month. */
  lemma DirNamesFields(today: Date, other: char -> string)
    requires Valid(today)
    ensures SeparatorFree(DirNames(today, other))
    ensures RelParts(DirNames(today, other)) == DirNames(today, other)
    ensures ParseInt(DirNames(today, other)[0]) == Some(today.year)
    ensures ParseInt(LastTwo(DirNames(today, other)[1])) == Some(today.month)
  {
    StrftimeYear(today, other);
    StrftimeYearMonth(today, other);
    var y := FixedDigits(today.year, 4);
    var m := FixedDigits(today.month, 2);
    var dirs := DirNames(today, other);
    assert dirs == [y, y + m];
    assert SeparatorFree(dirs) by {
      forall i | 0 <= i < |dirs| ensures '/' !in dirs[i] && '\\' !in dirs[i] {
        assert AllDigits(dirs[i]);
      }
    }
    RelPartsOfNames(dirs);
    assert Pow10(4) == 10000 && Pow10(2) == 100;
    ParseFixedDigits(today.year, 4);
    ParseFixedDigits(today.month, 2);
    assert LastTwo(y + m) == m;
  }

  /**
   * A file in today's month directory gets today's year and month and the day
   * `int()` reads from characters 6..7 of its name.
   */
  lemma DateInTodayDirs(today: Date, other: char -> string, name: string)
    requires Valid(today)
    ensures var day := ParseInt(Slice(name, 6, 8));
      ExtractDate(DirNames(today, other), name) ==
        if day.None? then None else MakeDate(today.year, today.month, day.value)
  {
    DirNamesFields(today, other);
    SliceOfPrefix(name);
  }

  /**
   * With the default format, the file the creation tool writes resolves back
   * to the day it was created.
   */
  lemma DefaultFormatRoundTrip(base: string, today: Date, other: char -> string)
    requires Valid(today)
    ensures ExtractDate(DirNames(today, other), EntryLocation(base, DefaultFormat, today, other).filename) == Some(today)
  {
    DefaultLocation(base, today, other);
    var name := CompactDate(today) + ".md";
    assert Slice(name, 6, 8) == FixedDigits(today.day, 2);
    assert Pow10(2) == 100;
    ParseFixedDigits(today.day, 2);
    DateInTodayDirs(today, other, name);
  }

  /** strftime of `%Y<sep>%m<sep>%d<tail>` for a separator and a tail without directives. */
  lemma StrftimeSeparated(sep: char, tail: string, today: Date, other: char -> string)
    requires Valid(today) && sep != '%' && '%' !in tail
    ensures Strftime(['%', 'Y', sep, '%', 'm', sep, '%', 'd'] + tail, today, other) ==
      FixedDigits(today.year, 4) + [sep] + FixedDigits(today.month, 2) + [sep] + FixedDigits(today.day, 2) + tail
  {
    var y := FixedDigits(today.year, 4);
    var m := FixedDigits(today.month, 2);
    var d := FixedDigits(today.day, 2);
    var r4 := ['%', 'd'] + tail;
    var r3 := [sep] + r4;
    var r2 := ['%', 'm'] + r3;
    var r1 := [sep] + r2;
    assert ['%', 'Y', sep, '%', 'm', sep, '%', 'd'] + tail == ['%', 'Y'] + r1;
    StrftimeLiteral(tail, today, other);
    StrftimeDirective('d', tail, today, other);
    StrftimeLiteralPrefix([sep], r4, today, other);
    StrftimeDirective('m', r3, today, other);
    StrftimeLiteralPrefix([sep], r2, today, other);
    StrftimeDirective('Y', r1, today, other);
  }

  /** A name made of digit fields and separator-free text is kept by sanitizing. */
  lemma SeparatedNameKept(y: string, m: string, d: string, sep: char, tail: string)
    requires |y| > 0 && AllDigits(y) && AllDigits(m) && AllDigits(d)
    requires sep != '/' && sep != '\\' && '/' !in tail && '\\' !in tail
    requires |tail| > 0 && !IsSpace(tail[|tail| - 1])
    ensures Sanitize(y + [sep] + m + [sep] + d + tail) == y + [sep] + m + [sep] + d + tail
  {
    var name := y + [sep] + m + [sep] + d + tail;
    assert '/' !in name && '\\' !in name by {
      forall i | 0 <= i < |name| ensures name[i] != '/' && name[i] != '\\' {
        if i < |y| {
          assert name[i] == y[i];
        } else if |y| < i < |y| + 1 + |m| {
          assert name[i] == m[i - |y| - 1];
        } else if |y| + 1 + |m| + 1 <= i < |y| + |m| + |d| + 2 {
          assert name[i] == d[i - |y| - |m| - 2];
        } else if i >= |y| + |m| + |d| + 2 {
          assert name[i] == tail[i - |y| - |m| - |d| - 2];
        }
      }
    }
    assert Stripped(name) by {
      assert name[0] == y[0] && name[|name| - 1] == tail[|tail| - 1];
    }
    SanitizeKeeps(name);
  }

  /** The text of a dashed name: `YYYY-MM-DD 日记.md`. */
  function DashedText(today: Date): string
    requires Valid(today)
  {
    FixedDigits(today.year, 4) + "-" + FixedDigits(today.month, 2) + "-" + FixedDigits(today.day, 2) + " 日记.md"
  }

  lemma StrftimeDashed(today: Date, other: char -> string)
    requires Valid(today)
    ensures Strftime(DashedFormat, today, other) == DashedText(today)
  {
    var tail := " 日记.md";
    assert DashedFormat == ['%', 'Y', '-', '%', 'm', '-', '%', 'd'] + tail;
    StrftimeSeparated('-', tail, today, other);
  }

  lemma DashedTextKept(today: Date)
    requires Valid(today)
    ensures Sanitize(DashedText(today)) == DashedText(today)
  {
    var tail := " 日记.md";
    assert '/' !in tail && '\\' !in tail;
    SeparatedNameKept(FixedDigits(today.year, 4), FixedDigits(today.month, 2), FixedDigits(today.day, 2), '-', tail);
  }

  /** The dashed preset's name: `YYYY-MM-DD 日记.md`. */
  lemma DashedName(base: string, today: Date, other: char -> string)
    requires Valid(today)
    ensures EntryLocation(base, DashedFormat, today, other).filename == DashedText(today)
  {
    StrftimeDashed(today, other);
    DashedTextKept(today);
  }

  /**
   * With the dashed preset, characters 6..7 of the name are the second digit
   * of the month and a hyphen, which `int()` rejects: the entry never gets a
   * date, wherever it sits.
   */
  lemma DashedFormatSkipped(base: string, today: Date, other: char -> string, dirs: seq<string>)
    requires Valid(today)
    ensures ExtractDate(dirs, EntryLocation(base, DashedFormat, today, other).filename) == None
  {
    DashedName(base, today, other);
    var name := DashedText(today);
    var m := FixedDigits(today.month, 2);
    DashedDayField(today);
    DigitHyphenRejected(Slice(name, 6, 8), m[1]);
    UnreadDaySkipped(dirs, name);
  }

  /** Characters 6..7 of a dashed name are the month's second digit and a hyphen. */
  lemma DashedDayField(today: Date)
    requires Valid(today)
    ensures var m := FixedDigits(today.month, 2);
      IsDigit(m[1]) && Slice(DashedText(today), 6, 8) == [m[1], '-']
  {
  }

  /** `int()` refuses a digit followed by a hyphen. */
  lemma DigitHyphenRejected(s: string, c: char)
    requires IsDigit(c) && s == [c, '-']
    ensures ParseInt(s) == None
  {
    IntStripKeeps(s);
    assert !DigitBody(s);
  }

  /** A day field `int()` refuses leaves the file without a date. */
  lemma UnreadDaySkipped(dirs: seq<string>, name: string)
    requires ParseInt(Slice(name, 6, 8)) == None
    ensures ExtractDate(dirs, name) == None
  {
    SliceOfPrefix(name);
  }

  /** The text of a prefixed name: `diary_YYYYMMDD.md`. */
  function PrefixedText(today: Date): string
    requires Valid(today)
  {
    "diary_" + CompactDate(today) + ".md"
  }

  lemma StrftimePrefixed(today: Date, other: char -> string)
    requires Valid(today)
    ensures Strftime(PrefixedFormat, today, other) == PrefixedText(today)
  {
    assert PrefixedFormat == "diary_" + DefaultFormat;
    StrftimeDefault(today, other);
    StrftimeLiteralPrefix("diary_", DefaultFormat, today, other);
  }

  lemma PrefixedTextKept(today: Date)
    requires Valid(today)
    ensures Sanitize(PrefixedText(today)) == PrefixedText(today)
  {
    var name := PrefixedText(today);
    var c := CompactDate(today);
    assert '/' !in name && '\\' !in name by {
      forall i | 0 <= i < |name| ensures name[i] != '/' && name[i] != '\\' {
        if 6 <= i < 14 {
          assert name[i] == c[i - 6];
        }
      }
    }
    assert Stripped(name) by {
      assert name[0] == 'd' && name[|name| - 1] == 'd';
    }
    SanitizeKeeps(name);
  }

  /** The prefixed preset's name: `diary_YYYYMMDD.md`. */
  lemma PrefixedName(base: string, today: Date, other: char -> string)
    requires Valid(today)
    ensures EntryLocation(base, PrefixedFormat, today, other).filename == PrefixedText(today)
  {
    StrftimePrefixed(today, other);
    PrefixedTextKept(today);
  }

  /** Characters 6..7 of a prefixed name are the hundreds of the year. */
  lemma PrefixedDay(today: Date)
    requires Valid(today)
    ensures ParseInt(Slice(PrefixedText(today), 6, 8)) == Some(today.year / 100)
  {
    var name := PrefixedText(today);
    assert Slice(name, 6, 8) == FixedDigits(today.year, 4)[..2];
    FixedDigitsHundreds(today.year);
    assert Pow10(2) == 100;
    ParseFixedDigits(today.year / 100, 2);
  }

  /**
   * With the prefixed preset, characters 6..7 are the first two digits of the
   * year, so the entry is filed under day `year / 100` of today's month, and
   * under today only on that day.
   */
  lemma PrefixedFormatMisdated(base: string, today: Date, other: char -> string)
    requires Valid(today)
    ensures ExtractDate(DirNames(today, other), EntryLocation(base, PrefixedFormat, today, other).filename)
      == MakeDate(today.year, today.month, today.year / 100)
    ensures ExtractDate(DirNames(today, other), EntryLocation(base, PrefixedFormat, today, other).filename) == Some(today)
      <==> today.day == today.year / 100
  {
    PrefixedName(base, today, other);
    PrefixedDay(today);
    DateInTodayDirs(today, other, PrefixedText(today));
  }

  /** The walk over a single file yields its row exactly when the file is counted. */
  lemma ScanOne(e: FileEntry, start: Option<Date>, end: Option<Date>)
    ensures ScanRecords([e], start, end) == if Kept(e, start, end) then [RecordOf(e)] else []
  {
    assert [e][..0] == [];
  }

  /**
   * A default-format entry with any content, found in its month directory,
   * adds exactly one row: its name, today's date and the content's length,
   * provided today passes the date filter.
   */
  lemma DefaultEntryScanned(base: string, today: Date, other: char -> string, content: string,
                            start: Option<Date>, end: Option<Date>)
    requires Valid(today)
    ensures var name := EntryLocation(base, DefaultFormat, today, other).filename;
      ScanRecords([FileEntry(DirNames(today, other), name, Some(content))], start, end)
        == if InBounds(today, start, end) then [Record(name, today, |content|)] else []
  {
    var name := EntryLocation(base, DefaultFormat, today, other).filename;
    DefaultLocation(base, today, other);
    DefaultFormatRoundTrip(base, today, other);
    var e := FileEntry(DirNames(today, other), name, Some(content));
    assert EndsWith(name, ".md");
    ScanOne(e, start, end);
  }

  /**
   * A newly created default-format entry, found in its month directory, adds
   * exactly one row to the statistics: its name, today's date and the length
   * of what was written, provided today passes the date filter.
   */
  lemma CreatedEntryCounted(files: Files, base: string, useTemplate: bool, templatePath: string,
                            today: Date, other: char -> string, start: Option<Date>, end: Option<Date>)
    requires Valid(today)
    requires !TargetExists(files, EntryLocation(base, DefaultFormat, today, other))
    ensures var loc := EntryLocation(base, DefaultFormat, today, other);
      var written := CreateDiaryEntry(files, base, DefaultFormat, useTemplate, templatePath, today, other).files;
      && loc.target in written
      && ScanRecords([FileEntry(DirNames(today, other), loc.filename, Some(written[loc.target]))], start, end)
         == if InBounds(today, start, end) then [Record(loc.filename, today, |written[loc.target]|)] else []
  {
    var loc := EntryLocation(base, DefaultFormat, today, other);
    var written := CreateDiaryEntry(files, base, DefaultFormat, useTemplate, templatePath, today, other).files;
    assert loc.target in written;
    DefaultEntryScanned(base, today, other, written[loc.target], start, end);
  }
}
