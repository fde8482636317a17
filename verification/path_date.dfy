/**
 * Recovering an entry's calendar date from where it sits in the diary tree,
 * `root/<year>/<...month>/<YYYYMMDD...>` (diary_stats.py, extract_date_from_path).
 */
module PathDate {
  import opened Wrappers
  import opened Text
  import opened Numbers
  import opened Calendar

  /**
   * The segments of `os.path.relpath(dirpath, root)` once every `\` is turned
   * into `/`; `dirs` are the directory names from the root down to the file.
   */
  function RelParts(dirs: seq<string>): (parts: seq<string>)
    ensures |parts| >= 1
  {
    var rel := if |dirs| == 0 then "." else Join(dirs, "/");
    Split(ReplaceAll(rel, "\\", "/"), '/')
  }

  /** Directory names that contain neither path separator. */
  predicate SeparatorFree(dirs: seq<string>) {
    forall i :: 0 <= i < |dirs| ==> '/' !in dirs[i] && '\\' !in dirs[i]
  }

  /**
   * The date of a file: year from the first directory, month from the last two
   * characters of the second, day from characters 6..7 of the file name.
   * Anything that does not parse, or is not a calendar date, gives None.
   */
  function ExtractDate(dirs: seq<string>, filename: string): (r: Option<Date>)
    ensures r.Some? ==> Valid(r.value)
  {
    var parts := RelParts(dirs);
    if |parts| < 2 then None
    else
      var year := ParseInt(parts[0]);
      var month := ParseInt(LastTwo(parts[1]));
      var day := ParseInt(Slice(Slice(filename, 0, 8), 6, 8));
      if year.None? || month.None? || day.None? then None
      else MakeDate(year.value, month.value, day.value)
  }

  lemma {:induction false} JoinCharacters(parts: seq<string>, sep: string, c: char)
    requires c !in sep
    requires forall i :: 0 <= i < |parts| ==> c !in parts[i]
    ensures c !in Join(parts, sep)
    decreases |parts|
  {
    if |parts| > 1 {
      JoinCharacters(parts[1..], sep, c);
    }
  }

  /** With separator-free names the relative path splits back into exactly those names. */
  lemma RelPartsOfNames(dirs: seq<string>)
    requires SeparatorFree(dirs)
    ensures RelParts(dirs) == if |dirs| == 0 then ["."] else dirs
  {
    if |dirs| == 0 {
      ReplaceAbsent(".", "\\", "/");
      SplitNoSeparator(".", '/');
    } else {
      JoinCharacters(dirs, "/", '\\');
      ReplaceAbsent(Join(dirs, "/"), "\\", "/");
      SplitJoin(dirs, '/');
    }
  }

  /**
   * A file directly under the root, or one level down, never gets a date, so a
   * root-level `.md` file is never counted.
   */
  lemma ShallowFilesHaveNoDate(dirs: seq<string>, filename: string)
    requires SeparatorFree(dirs) && |dirs| < 2
    ensures ExtractDate(dirs, filename) == None
  {
    RelPartsOfNames(dirs);
  }

  lemma SliceOfPrefix(s: string)
    ensures Slice(Slice(s, 0, 8), 6, 8) == Slice(s, 6, 8)
  {
  }

  /**
   * For a file at least two levels down, the resolved date is exactly the one
   * whose year, month and day `int()` reads from the three fields.
   */
  lemma ExtractDateFields(dirs: seq<string>, filename: string, d: Date)
    requires SeparatorFree(dirs) && |dirs| >= 2
    ensures ExtractDate(dirs, filename) == Some(d) <==>
      && Valid(d)
      && ParseInt(dirs[0]) == Some(d.year)
      && ParseInt(LastTwo(dirs[1])) == Some(d.month)
      && ParseInt(Slice(filename, 6, 8)) == Some(d.day)
  {
    RelPartsOfNames(dirs);
    SliceOfPrefix(filename);
  }

  lemma ExampleFields()
    ensures FixedDigits(2025, 4) == "2025"
    ensures FixedDigits(6, 2) == LastTwo("202506")
    ensures FixedDigits(16, 2) == Slice("20250716.md", 6, 8)
  {
  }

  /** Directory `2025/202506` with file `20250716.md` resolves to 2025-06-16. */
  lemma DocumentedExample()
    ensures ExtractDate(["2025", "202506"], "20250716.md") == Some(Date(2025, 6, 16))
  {
    var dirs := ["2025", "202506"];
    var d := Date(2025, 6, 16);
    assert SeparatorFree(dirs) by {
      assert '/' !in dirs[0] && '\\' !in dirs[0];
      assert '/' !in dirs[1] && '\\' !in dirs[1];
    }
    ExampleFields();
    ParseFixedDigits(2025, 4);
    ParseFixedDigits(6, 2);
    ParseFixedDigits(16, 2);
    assert Valid(d);
    ExtractDateFields(dirs, "20250716.md", d);
  }
}
