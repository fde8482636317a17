/**
 * Creating today's diary file (utils/file_utils.py): the file name from a
 * strftime format, the `base/YYYY/YYYYMM/` layout, the rule that an existing
 * file is never overwritten, and the `{{date}}` template placeholder.
 */
module Entry {
  import opened Text
  import opened Numbers
  import opened Calendar

  /** The format used when none is given. */
  const DefaultFormat: string := "%Y%m%d.md"

  /** The placeholder a template may contain. */
  const Placeholder: string := "{{date}}"

  /** `name.replace("/", "-").replace("\\", "-").strip()`. */
  function Sanitize(name: string): string {
    Strip(ReplaceAll(ReplaceAll(name, "/", "-"), "\\", "-"))
  }

  /** A sanitized name has no path separator, no surrounding whitespace, and is no longer than the input. */
  lemma SanitizeClean(name: string)
    ensures '/' !in Sanitize(name) && '\\' !in Sanitize(name)
    ensures Stripped(Sanitize(name))
    ensures |Sanitize(name)| <= |name|
  {
    var a := ReplaceAll(name, "/", "-");
    var b := ReplaceAll(a, "\\", "-");
    ReplaceChar(name, '/', '-');
    ReplaceChar(a, '\\', '-');
    assert '/' !in b by {
      forall i | 0 <= i < |b| ensures b[i] != '/' {
        assert a[i] != '/';
      }
    }
    assert '\\' !in b;
    StripSubset(b, '/');
    StripSubset(b, '\\');
  }

  /** Sanitizing twice is sanitizing once. */
  lemma SanitizeIdempotent(name: string)
    ensures Sanitize(Sanitize(name)) == Sanitize(name)
  {
    var s := Sanitize(name);
    SanitizeClean(name);
    ReplaceAbsent(s, "/", "-");
    ReplaceAbsent(s, "\\", "-");
    StripStripped(s);
  }

  /**
   * One strftime directive for the date `d`: `%Y` as four digits, `%m` and
   * `%d` as two, `%%` as a percent sign; every other directive (time of day,
   * weekday and month names, ...) is what `other` says.
   */
  function Directive(c: char, d: Date, other: char -> string): string
    requires Valid(d)
  {
    if c == 'Y' then FixedDigits(d.year, 4)
    else if c == 'm' then FixedDigits(d.month, 2)
    else if c == 'd' then FixedDigits(d.day, 2)
    else if c == '%' then "%"
    else other(c)
  }

  /**
   * `today.strftime(fmt)`; a lone `%` at the end is copied. A directive is the
   * one character after `%`: flags, widths and modifiers are not recognised.
   */
  function Strftime(fmt: string, d: Date, other: char -> string): string
    requires Valid(d)
    decreases |fmt|
  {
    if |fmt| == 0 then ""
    else if fmt[0] != '%' then [fmt[0]] + Strftime(fmt[1..], d, other)
    else if |fmt| == 1 then "%"
    else Directive(fmt[1], d, other) + Strftime(fmt[2..], d, other)
  }

  /** Text without `%` comes out of strftime unchanged. */
  lemma {:induction false} StrftimeLiteral(s: string, d: Date, other: char -> string)
    requires Valid(d) && '%' !in s
    ensures Strftime(s, d, other) == s
    decreases |s|
  {
    if |s| > 0 {
      StrftimeLiteral(s[1..], d, other);
      assert s == [s[0]] + s[1..];
    }
  }

  /** strftime works piece by piece when the first piece does not end inside a directive. */
  lemma {:induction false} StrftimeAppend(a: string, b: string, d: Date, other: char -> string)
    requires Valid(d)
    requires CompleteFormat(a)
    ensures Strftime(a + b, d, other) == Strftime(a, d, other) + Strftime(b, d, other)
    decreases |a|
  {
    if |a| > 0 {
      if a[0] != '%' {
        assert (a + b)[1..] == a[1..] + b;
        StrftimeAppend(a[1..], b, d, other);
      } else {
        assert (a + b)[2..] == a[2..] + b;
        StrftimeAppend(a[2..], b, d, other);
      }
    } else {
      assert a + b == b;
    }
  }

  /** Every `%` in `s` is followed by its directive character. */
  predicate CompleteFormat(s: string)
    decreases |s|
  {
    if |s| == 0 then true
    else if s[0] != '%' then CompleteFormat(s[1..])
    else |s| >= 2 && CompleteFormat(s[2..])
  }

  /** The date as `YYYYMMDD`: `strftime("%Y%m%d")`. */
  function CompactDate(d: Date): (r: string)
    requires Valid(d)
    ensures |r| == 8 && AllDigits(r)
  {
    FixedDigits(d.year, 4) + FixedDigits(d.month, 2) + FixedDigits(d.day, 2)
  }

  /** A directive followed by more format. */
  lemma StrftimeDirective(c: char, rest: string, d: Date, other: char -> string)
    requires Valid(d)
    ensures Strftime(['%', c] + rest, d, other) == Directive(c, d, other) + Strftime(rest, d, other)
  {
    assert (['%', c] + rest)[2..] == rest;
  }

  lemma StrftimeYear(d: Date, other: char -> string)
    requires Valid(d)
    ensures Strftime("%Y", d, other) == FixedDigits(d.year, 4)
  {
    StrftimeDirective('Y', "", d, other);
    assert "%Y" == ['%', 'Y'] + "";
  }

  lemma StrftimeYearMonth(d: Date, other: char -> string)
    requires Valid(d)
    ensures Strftime("%Y%m", d, other) == FixedDigits(d.year, 4) + FixedDigits(d.month, 2)
  {
    StrftimeDirective('m', "", d, other);
    StrftimeDirective('Y', "%m", d, other);
    assert "%m" == ['%', 'm'] + "";
    assert "%Y%m" == ['%', 'Y'] + "%m";
  }

  lemma StrftimeMonthDay(d: Date, other: char -> string)
    requires Valid(d)
    ensures Strftime("%m%d", d, other) == FixedDigits(d.month, 2) + FixedDigits(d.day, 2)
  {
    StrftimeDirective('d', "", d, other);
    StrftimeDirective('m', "%d", d, other);
    assert "%d" == ['%', 'd'] + "";
    assert "%m%d" == ['%', 'm'] + "%d";
  }

  lemma StrftimeCompact(d: Date, other: char -> string)
    requires Valid(d)
    ensures Strftime("%Y%m%d", d, other) == CompactDate(d)
  {
    StrftimeMonthDay(d, other);
    StrftimeDirective('Y', "%m%d", d, other);
    assert "%Y%m%d" == ['%', 'Y'] + "%m%d";
  }

  lemma StrftimeDefault(d: Date, other: char -> string)
    requires Valid(d)
    ensures Strftime(DefaultFormat, d, other) == CompactDate(d) + ".md"
  {
    StrftimeCompact(d, other);
    StrftimeLiteral(".md", d, other);
    assert CompleteFormat("%Y%m%d");
    StrftimeAppend("%Y%m%d", ".md", d, other);
    assert DefaultFormat == "%Y%m%d" + ".md";
  }

  /**
   * `os.path.join(a, b)` for POSIX paths: `b` alone when it is absolute,
   * otherwise `a` and `b` with a `/` between unless `a` is empty or already
   * ends in one.
   */
  function JoinPath(a: string, b: string): string {
    if |b| > 0 && b[0] == '/' then b
    else if |a| == 0 || a[|a| - 1] == '/' then a + b
    else a + "/" + b
  }

  /** Where today's entry goes: its month directory and its file name. */
  datatype Location = Location(yearDir: string, monthDir: string, filename: string, target: string)

  /** `filename_format` falls back to the default when it is empty (falsy). */
  function EffectiveFormat(fmt: string): string {
    if fmt == "" then DefaultFormat else fmt
  }

  /** The layout `base/YYYY/YYYYMM/<sanitized name>`. */
  function EntryLocation(base: string, fmt: string, today: Date, other: char -> string): (loc: Location)
    requires Valid(today)
    ensures loc.filename == Sanitize(Strftime(EffectiveFormat(fmt), today, other))
    ensures '/' !in loc.filename && '\\' !in loc.filename && Stripped(loc.filename)
    ensures loc.yearDir == JoinPath(base, FixedDigits(today.year, 4))
    ensures loc.monthDir == JoinPath(loc.yearDir, FixedDigits(today.year, 4) + FixedDigits(today.month, 2))
    ensures loc.target == JoinPath(loc.monthDir, loc.filename)
  {
    var filename := Sanitize(Strftime(EffectiveFormat(fmt), today, other));
    SanitizeClean(Strftime(EffectiveFormat(fmt), today, other));
    StrftimeYear(today, other);
    StrftimeYearMonth(today, other);
    var yearDir := JoinPath(base, Strftime("%Y", today, other));
    var monthDir := JoinPath(yearDir, Strftime("%Y%m", today, other));
    Location(yearDir, monthDir, filename, JoinPath(monthDir, filename))
  }

  /**
   * The files of the diary tree: path to content. Content is the text a
   * text-mode `open(path, 'r')` returns, after universal newline translation,
   * so it holds no `\r`; entries written here from such text read back as
   * written.
   */
  type Files = map<string, string>

  /**
   * `os.path.exists(target)`: a file at that path, or the month directory
   * itself when the sanitized name is empty, `.` or `..`.
   */
  predicate TargetExists(files: Files, loc: Location) {
    loc.target in files || loc.filename in {"", ".", ".."}
  }

  /** What `create_diary_entry` returns and the files afterwards. */
  datatype Created = Created(message: string, files: Files)

  const ExistsPrefix: string := "📄 文件已存在: "
  const CreatedPrefix: string := "✅ 成功创建: "

  /** The new file's content: the template with `{{date}}` filled in, or nothing. */
  function NewContent(files: Files, useTemplate: bool, templatePath: string, today: Date, other: char -> string): string
    requires Valid(today)
  {
    if useTemplate && templatePath != "" && templatePath in files then
      ReplaceAll(files[templatePath], Placeholder, Strftime("%Y%m%d", today, other))
    else ""
  }

  /**
   * `create_diary_entry(base_path, filename_format, use_template, template_path)`
   * on the day `today`: an existing target is reported and left alone;
   * otherwise the file is written and reported as created.
   */
  function CreateDiaryEntry(files: Files, base: string, fmt: string, useTemplate: bool, templatePath: string,
                            today: Date, other: char -> string): (r: Created)
    requires Valid(today)
    ensures forall p :: p in files ==> p in r.files && r.files[p] == files[p]
    ensures TargetExists(files, EntryLocation(base, fmt, today, other)) ==>
      r == Created(ExistsPrefix + EntryLocation(base, fmt, today, other).target, files)
    ensures !TargetExists(files, EntryLocation(base, fmt, today, other)) ==>
      && r.message == CreatedPrefix + EntryLocation(base, fmt, today, other).target
      && r.files.Keys == files.Keys + {EntryLocation(base, fmt, today, other).target}
  {
    var loc := EntryLocation(base, fmt, today, other);
    if TargetExists(files, loc) then Created(ExistsPrefix + loc.target, files)
    else Created(CreatedPrefix + loc.target, files[loc.target := NewContent(files, useTemplate, templatePath, today, other)])
  }

  /** An empty format and the default format create the same file. */
  lemma EmptyFormatIsDefault(base: string, today: Date, other: char -> string)
    requires Valid(today)
    ensures EntryLocation(base, "", today, other) == EntryLocation(base, DefaultFormat, today, other)
  {
  }

  /** With the default format the file is `base/YYYY/YYYYMM/YYYYMMDD.md`. */
  lemma DefaultLocation(base: string, today: Date, other: char -> string)
    requires Valid(today)
    ensures var loc := EntryLocation(base, DefaultFormat, today, other);
      && loc.filename == CompactDate(today) + ".md"
      && loc.yearDir == JoinPath(base, FixedDigits(today.year, 4))
      && loc.monthDir == JoinPath(loc.yearDir, FixedDigits(today.year, 4) + FixedDigits(today.month, 2))
  {
    StrftimeYear(today, other);
    StrftimeYearMonth(today, other);
    StrftimeDefault(today, other);
    CompactNameKept(today);
  }

  /** `YYYYMMDD.md` passes sanitizing unchanged. */
  lemma CompactNameKept(today: Date)
    requires Valid(today)
    ensures Sanitize(CompactDate(today) + ".md") == CompactDate(today) + ".md"
  {
    var name := CompactDate(today) + ".md";
    assert Stripped(name) by {
      assert IsDigit(name[0]) && name[|name| - 1] == 'd';
    }
    ReplaceAbsent(name, "/", "-");
    ReplaceAbsent(name, "\\", "-");
    StripStripped(name);
  }

  /** The text a template becomes when each placeholder is replaced by `rep`. */
  lemma {:induction false} FillPlaceholders(pieces: seq<string>, rep: string)
    requires |pieces| >= 1
    requires forall i :: 0 <= i < |pieces| ==> '{' !in pieces[i]
    ensures ReplaceAll(Join(pieces, Placeholder), Placeholder, rep) == Join(pieces, rep)
    decreases |pieces|
  {
    if |pieces| == 1 {
      ReplaceAbsent(pieces[0], Placeholder, rep);
    } else {
      var rest := Join(pieces[1..], Placeholder);
      FillPlaceholders(pieces[1..], rep);
      assert Join(pieces, Placeholder) == pieces[0] + (Placeholder + rest);
      ReplaceCopiesPrefix(pieces[0], Placeholder + rest, Placeholder, rep);
      assert (Placeholder + rest)[|Placeholder|..] == rest;
      assert Placeholder <= Placeholder + rest;
    }
  }

  /**
   * With a template, every `{{date}}` becomes today's `YYYYMMDD`; without
   * one, the new file is empty.
   */
  lemma TemplateContent(files: Files, base: string, fmt: string, useTemplate: bool, templatePath: string,
                        today: Date, other: char -> string, pieces: seq<string>)
    requires Valid(today)
    requires !TargetExists(files, EntryLocation(base, fmt, today, other))
    requires |pieces| >= 1 && forall i :: 0 <= i < |pieces| ==> '{' !in pieces[i]
    ensures var r := CreateDiaryEntry(files, base, fmt, useTemplate, templatePath, today, other);
      var target := EntryLocation(base, fmt, today, other).target;
      && ((useTemplate && templatePath != "" && templatePath in files && files[templatePath] == Join(pieces, Placeholder))
          ==> r.files[target] == Join(pieces, CompactDate(today)))
      && (!useTemplate || templatePath == "" || templatePath !in files ==> r.files[target] == "")
  {
    StrftimeCompact(today, other);
    FillPlaceholders(pieces, CompactDate(today));
  }
}
