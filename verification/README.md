# MyDiaryManager in Dafny

A model of MyDiaryManager. The project has two small tools that share a diary tree laid
out as `root/YYYY/YYYYMM/<file>.md`:

- **The creation tool** (`diary_manager.py`, `utils/file_utils.py`) reads `config.yaml` and fills
  in defaults for missing settings. It refuses an empty diary root. Otherwise it writes today's
  entry at `base/YYYY/YYYYMM/<sanitized strftime name>`. An existing file is never overwritten.
  A template's `{{date}}` placeholders are replaced by `YYYYMMDD`.
- **The statistics side** (`diary_stats.py` and the pure parts of `streamlit_app.py`) walks the
  tree. It recovers each Markdown file's date from its path and keeps the files inside an optional
  date range. It counts characters per year, month and day, and counts words from jieba pieces and
  Latin words, minus a stopword file. It keeps the 100 most common words. It also maintains the
  stopword file, builds month, year and day-interval ranges, and compares two ranges: totals,
  averages, changes, and a word-frequency difference table.

The modules follow the program's structure:

| module | file | concern |
|---|---|---|
| `Wrappers` | wrappers.dfy | `Option` |
| `Text` | text.dfy | `str.strip`, `replace`, `split`, `join`, slicing, string order and sorting |
| `Numbers` | numbers.dfy | zero-padded decimal formatting and Python's `int(str)` on ASCII digits |
| `Calendar` | calendar.dfy | `datetime.date`: validity, order, the previous day |
| `PathDate` | path_date.dfy | `extract_date_from_path` |
| `Tokenizer` | tokenizer.dfy | the local `tokenize_text` and the stopword filter |
| `Ranking` | ranking.dfy | `Counter`, `most_common`, stable descending sort |
| `Aggregate` | aggregate.dfy | per-year, per-month and per-day totals and `word_freq` |
| `Stopwords` | stopwords.dfy | `load_stopwords`, `add_stopwords` |
| `Scanner` | scanner.dfy | the walk, the filter and the records of `collect_diary_data` |
| `Compare` | compare.dfy | date ranges and the two-range comparison |
| `Entry` | entry.dfy | `sanitize_filename`, strftime, `create_diary_entry` |
| `Config` | config.dfy | `load_config`, `run_creation` |
| `RoundTrip` | round_trip.dfy | what the statistics side makes of the files the creation tool writes |

The filesystem is passed in as values:

- the walk is a sequence of `FileEntry(dirs, name, content)`, where an unreadable file has no content;
- the diary tree the creation tool writes to is a map from path to content;
- `config.yaml` is `Missing`, `Unreadable` or a parsed YAML `Value`.

Outside code also comes in as parameters:

- `jieba.cut`, and which non-ASCII characters Python's `re` counts as word characters, are fields
  of a `Lexicon`;
- today's date is a parameter;
- strftime directives other than `%Y`, `%m`, `%d` and `%%` are a function parameter.

Two points about what the code does:

- Month and day keys are zero-padded (`2025-06`, `2025-06-01`), as the f-strings at
  diary_stats.py:169 and :176 produce.
- The tokenizer in use is the one defined inside `collect_diary_data` (diary_stats.py:136-140).
  It keeps jieba pieces longer than one character, followed by the `\b[a-zA-Z]+\b` matches. The
  module-level `tokenize_text`, with URL and placeholder handling, is shadowed and never called.

## Model

| member | source | states |
|---|---|---|
| Calendar.MakeDate | diary_stats.py:87 | `date(y, m, d)` succeeds exactly for a valid proleptic Gregorian date with year 1..9999; otherwise it raises, modelled as None |
| Calendar.PrevDay | streamlit_app.py:188 | subtracting one day gives a valid date strictly before the given one, with no valid date strictly between them |
| Text.Strip | diary_stats.py:144 | `str.strip()` gives a slice of the input with only whitespace outside it and no whitespace at either end of it, and gives "" exactly for blank strings |
| Numbers.ParsePadded | diary_stats.py:83-86 | `int()` skips tab through carriage return and the space around a digit field |
| Numbers.SeparatorRefused | diary_stats.py:83-86 | `int()` does not skip the U+001C separator that `str.strip()` removes, so a field starting with it is refused |
| Numbers.ParseFixedDigits | diary_stats.py:83-86 | `int()` reads a zero-padded fixed-width field back as its number |
| Numbers.ParseIntStr | diary_stats.py:169 | `int(str(n)) == n` for every integer, which makes the year part of a key recoverable |
| PathDate.ExtractDate | diary_stats.py:65-89 | the date recovered from a path is always a valid calendar date, or None; it never raises |
| PathDate.RelPartsOfNames | diary_stats.py:71-72 | the relative path of separator-free directory names splits back into exactly those names (`.` for the root itself) |
| PathDate.ShallowFilesHaveNoDate | diary_stats.py:71-76 | for directory names without `/` or `\`, fewer than two directory levels below the root gives None |
| PathDate.ExtractDateFields | diary_stats.py:78-87 | two or more levels down, the result is the date d exactly when d is valid, the first directory parses as its year, the last two characters of the second as its month, and characters 6..7 of the name as its day |
| PathDate.DocumentedExample | diary_stats.py:66-70 | directory `2025/202506` with file `20250716.md` resolves to 2025-06-16 |
| Tokenizer.KeepPiecesMembers | diary_stats.py:137 | a jieba piece is kept exactly when it is non-blank and longer than one character |
| Tokenizer.LatinWordsMembers | diary_stats.py:139 | `re.findall(r'\b[a-zA-Z]+\b', text)` finds a word exactly when it is some slice of the text made of ASCII letters, with the text's edge or a non-word character on each side |
| Tokenizer.LatinWordsOfSpacedText | diary_stats.py:139 | Latin words separated by spaces are found exactly and in order, neither split nor merged |
| Tokenizer.LatinWordAfterWordCharacter | diary_stats.py:139 | a Latin word right after a CJK word character is no match, and after a non-word character it is |
| Tokenizer.CountedWords | diary_stats.py:144 | the counted words are stripped, non-empty, not stopwords, and no more than the tokens |
| Tokenizer.CountedWordsMembers | diary_stats.py:144 | a word is counted exactly when it is non-empty, not a stopword, and some token strips to it |
| Ranking.SortDescSorted | diary_stats.py:181 | the descending sort is ordered by non-increasing key |
| Ranking.SortDescPerm | diary_stats.py:181 | the descending sort is a permutation of its input |
| Ranking.SortDescStable | diary_stats.py:181 | the sort is stable: the elements with any one key keep their input order |
| Ranking.Distinct | diary_stats.py:145 | a `Counter`'s keys are duplicate-free, are exactly the words seen, and come in first-occurrence order |
| Ranking.CounterItems | diary_stats.py:145 | each `Counter` item pairs a distinct word with its number of occurrences |
| Ranking.MostCommon | diary_stats.py:181 | `most_common(n)` has at most n entries, with non-increasing counts |
| Ranking.MostCommonCounts | diary_stats.py:181 | each listed count is the word's total number of occurrences, and no word is listed twice |
| Ranking.MostCommonTop | diary_stats.py:181 | a word left out means the list is full, and that word occurs no more often than any listed word |
| Ranking.MostCommonLength | diary_stats.py:181 | the list has min(n, number of distinct words) entries |
| Ranking.MostCommonTies | diary_stats.py:181 | words with equal counts are listed in the order they first occurred |
| Aggregate.GroupSumKeys | diary_stats.py:163 | a group-by sum has one entry per distinct key of the records |
| Aggregate.GroupSumValues | diary_stats.py:163 | each group total is the characters of exactly the records with that key |
| Aggregate.GroupSumTotal | diary_stats.py:163 | the group totals add up to all characters of the records |
| Aggregate.Summarize | diary_stats.py:156-188 | each dimension's totals are non-empty exactly when it has more than one distinct year, (year, month) or date. Non-empty totals are keyed by the year, "year-MM" or "year-MM-DD" (the year unpadded, month and day two digits), each key's total is the characters of exactly the records with that key, and they sum to the total character count. No records give empty totals and no words; at most 100 words are kept |
| Aggregate.MonthKeyInjective | diary_stats.py:169-170 | distinct months of valid dates get distinct "YYYY-MM" keys, so no two months are merged |
| Aggregate.DayKeyInjective | diary_stats.py:176-177 | distinct valid dates get distinct "YYYY-MM-DD" keys |
| Stopwords.LineWordsClean | diary_stats.py:38-39 | every word read from a stopword file's lines is non-empty and has no surrounding whitespace |
| Text.Newlines | diary_stats.py:38 | text read in text mode holds no `\r` |
| Text.NewlinesPlain | diary_stats.py:38 | text without `\r` reads back unchanged |
| Text.NewlinesEndings | diary_stats.py:38-39 | `\r\n`, `\r` and `\n` each end one line |
| Stopwords.LoadStopwords | diary_stats.py:32-40 | a missing file gives the empty set, and every loaded word is non-empty, stripped and free of `\n` and `\r` |
| Stopwords.LoadStopwordsMembers | diary_stats.py:36-40 | a word is loaded exactly when some non-blank line of the file strips to it, where `\r\n`, `\r` and `\n` all end a line |
| Stopwords.NewSet | diary_stats.py:49-52 | a bare string is one word; otherwise the words given, as a set |
| Stopwords.MergedList | diary_stats.py:56-61 | the rewritten list is sorted, duplicate-free, and holds exactly the old and the new words |
| Stopwords.AddStopwords | diary_stats.py:42-63 | the result is the number of new words not yet present and the size of the union of old and new words |
| Stopwords.AddStopwordsWritten | diary_stats.py:56-61 | the file is rewritten as one line per word, in strictly increasing order, for exactly the union |
| Stopwords.AddedCount | diary_stats.py:63 | words added plus words already there make the total |
| Stopwords.OneWordIsList | diary_stats.py:49-52 | adding a bare string is adding the one-element list |
| Stopwords.LoadLines | diary_stats.py:38-39 | a file written one storable word per line (non-empty, stripped, no `\n` or `\r`) loads back as exactly those words |
| Stopwords.AddStopwordsRoundTrip | diary_stats.py:55-61 | after adding storable words, loading the file gives the old stopwords together with the new ones |
| Stopwords.AddStopwordsTwice | diary_stats.py:42-63 | adding the same storable words again adds nothing and rewrites an identical file |
| Scanner.Admit | diary_stats.py:112-132 | a file gives a record exactly when it ends in `.md`, its date resolves, the date passes both bounds, and it can be read; the record's date is valid and in bounds |
| Scanner.ScanRecords | diary_stats.py:110-154 | no more records than files, each with a valid in-bounds date |
| Scanner.ScanRecordsMembers | diary_stats.py:110-154 | a record is present exactly when some file is counted and the record is that file's name, date and length |
| Scanner.ScanWords | diary_stats.py:143-145 | every word fed to the counter is non-empty, stripped and not a stopword |
| Scanner.CollectDiaryData | diary_stats.py:91-188 | the records are exactly the scanned records, at most one per file, all within the bounds; `word_freq` holds at most 100 non-stopwords, each with a positive count |
| Scanner.CollectWordFreq | diary_stats.py:143-181 | `word_freq` pairs distinct words with their occurrence counts among all words fed to the counter, in non-increasing count order, ties in first-occurrence order; it has min(100, distinct words) entries, and a word left out occurs no more often than any listed word |
| Scanner.ScanThenFilter | diary_stats.py:119-123 | filtering by date during the walk equals walking without bounds and dropping out-of-range records afterwards |
| Scanner.ScanRecordsAppend | diary_stats.py:147-154 | one more file adds its record exactly when it is counted |
| Scanner.ScanWordsAppend | diary_stats.py:143-145 | one more file adds exactly its own words |
| Scanner.ShallowFilesIgnored | diary_stats.py:115-117 | for directory names without `/` or `\`, a Markdown file directly under the root or one level down adds neither a record nor a word |
| Scanner.ScanChars | diary_stats.py:132 | the records' character counts add up to the total length of the counted files |
| Compare.MonthRange | streamlit_app.py:304-308 | month mode starts on the 1st and ends on a valid day no earlier than the start; it raises (None) exactly when the 1st of that month is not a date |
| Compare.MonthRangeCovers | streamlit_app.py:184-188 | a month's range holds exactly the valid dates of that month, December included |
| Compare.YearRange | streamlit_app.py:319-320 | year mode is defined exactly for years 1..9999 and runs between valid dates |
| Compare.YearRangeCovers | streamlit_app.py:199-200 | a year's range holds exactly the valid dates of that year |
| Compare.DayRange | streamlit_app.py:280-282 | a day interval is refused exactly when the start is after the end; otherwise it is the interval chosen |
| Compare.DayRangeEmpty | streamlit_app.py:280-282 | a day interval is refused exactly when no date could fall inside it |
| Compare.IntTrend | streamlit_app.py:353-354 | a change reads "increased" exactly when positive, with the change as amount; otherwise "decreased" by its magnitude |
| Compare.RealTrend | streamlit_app.py:356-357 | the same reading for the change of averages |
| Compare.AverageOfTotal | streamlit_app.py:338 | average times count is the total when there are files; 0 when there are none |
| Compare.Lookup | streamlit_app.py:376-377 | `dict(...).get(w, 0)` is 0 for an absent word, and a listed count of that word otherwise |
| Compare.LookupDistinct | streamlit_app.py:363-364 | in a list without repeated words the count looked up is the word's own |
| Compare.DiffTable | streamlit_app.py:363-383 | the difference table is ordered by non-increasing change and is a permutation of the alphabetical rows |
| Compare.DiffTableMembers | streamlit_app.py:367-381 | a row is present exactly when its word is in either top-100 list, its counts are the looked-up ones (0 when absent) and its change is the second minus the first |
| Compare.DiffTableDistinct | streamlit_app.py:375 | no word appears in two rows |
| Compare.DiffTableSwap | streamlit_app.py:375-381 | swapping the two ranges swaps the two counts and negates the change of every row |
| Compare.CompareRanges | streamlit_app.py:326-383 | a first range without files stops with the first warning, else a second without files stops with the second; otherwise totals and counts are the ranges' own |
| Compare.ReportAverages | streamlit_app.py:337-348 | each reported average times its range's number of files is that range's total |
| Compare.AvgDeltaIncreased | streamlit_app.py:337-357 | with files in both ranges, the average reads "increased" exactly when the second range's total per file exceeds the first's |
| Compare.ReportTrend | streamlit_app.py:353-355 | the reported change is an increase exactly when the second total is larger, and its amount is the absolute difference |
| Compare.EqualTotalsReadAsDecrease | streamlit_app.py:354 | equal totals are reported as "decreased by 0" |
| Compare.CompareSwap | streamlit_app.py:335-381 | comparing the other way round swaps the totals, reverses a non-zero change, and swaps the counts of every difference row |
| Entry.SanitizeClean | utils/file_utils.py:40-41 | a sanitized name has no `/` or `\`, no surrounding whitespace, and is no longer than the input |
| Entry.SanitizeIdempotent | utils/file_utils.py:40-41 | sanitizing twice is sanitizing once |
| Entry.CompactDate | utils/file_utils.py:29 | the date used for `{{date}}` is exactly eight digits |
| Entry.StrftimeAppend | utils/file_utils.py:12 | strftime works piece by piece when the first piece does not end inside a directive |
| Entry.StrftimeDefault | utils/file_utils.py:9-12 | the default format gives `YYYYMMDD.md` |
| Entry.EntryLocation | utils/file_utils.py:9-21 | for any format, the file name is the sanitized strftime of the format (the default when empty), with no separator and no surrounding whitespace; the directories are `base/YYYY` and `base/YYYY/YYYYMM`, and the target is the name joined to the month directory |
| Entry.EmptyFormatIsDefault | utils/file_utils.py:9-10 | an empty format creates the same file as `%Y%m%d.md` |
| Entry.DefaultLocation | utils/file_utils.py:12-21 | with the default format the file is `base/YYYY/YYYYMM/YYYYMMDD.md` |
| Entry.CreateDiaryEntry | utils/file_utils.py:6-38 | no existing file changes. An existing target gives the "already exists" message and nothing is written. Otherwise the "created" message is returned and exactly the target is added |
| Entry.FillPlaceholders | utils/file_utils.py:30 | replacing `{{date}}` turns a template into its pieces joined by the replacement |
| Entry.TemplateContent | utils/file_utils.py:26-36 | with a usable template every `{{date}}` becomes today's `YYYYMMDD`; without one the new file is empty |
| Config.WithDefaults | diary_manager.py:24-29 | `setdefault` adds the four keys, keeps every existing value, and leaves other keys alone |
| Config.LoadConfig | diary_manager.py:11-45 | a missing file, a read or parse error, or content that is not a mapping gives exactly the four defaults; a mapping is completed with them |
| Config.MissingConfigIsDefaults | diary_manager.py:38-45 | without a config file the settings are '', '%Y%m%d.md', False and '' |
| Config.LoadedMappingKeepsValues | diary_manager.py:24-29 | every key of a loaded mapping keeps its value |
| Config.RunCreation | diary_manager.py:63-72 | a falsy root is refused with "根目录不能为空" and the files are unchanged. With a usable root and format, an existing target is reported as existing and nothing changes; otherwise, unless the template path cannot be used, the "created" message is returned and exactly the target is added. No existing file ever changes |
| Config.Create | utils/file_utils.py:9-26 | a truthy root or format that is not a string raises; an existing target is reported whatever the template settings; only for a missing target does a truthy non-string template path with `use_template` set raise |
| Config.ExistingTargetBeforeTemplate | utils/file_utils.py:23-26 | with a template path that cannot be used, the creation raises exactly when the target does not exist yet |
| Config.DefaultsRefuse | diary_manager.py:69-70 | the default configuration creates nothing |
| Config.DefaultsDoNotChangeCreation | diary_manager.py:64-67 | a missing setting behaves exactly like that setting at its default |
| RoundTrip.DateInTodayDirs | diary_stats.py:71-87 | a file in today's month directory gets today's year and month, and the day read from characters 6..7 of its name |
| RoundTrip.DefaultFormatRoundTrip | utils/file_utils.py:9-21 | with the default format the entry written today resolves back to today |
| RoundTrip.DashedName | utils/file_utils.py:12 | the `%Y-%m-%d 日记.md` preset names the file `YYYY-MM-DD 日记.md` |
| RoundTrip.DashedFormatSkipped | diary_stats.py:80-89 | a `%Y-%m-%d 日记.md` entry never gets a date, wherever it sits, so it is never counted |
| RoundTrip.PrefixedName | utils/file_utils.py:12 | the `diary_%Y%m%d.md` preset names the file `diary_YYYYMMDD.md` |
| RoundTrip.PrefixedFormatMisdated | diary_stats.py:80-87 | a `diary_%Y%m%d.md` entry is dated day year/100 of its month, which is today only when that is today's day |
| RoundTrip.CreatedEntryCounted | utils/file_utils.py:31-38 | a newly created default-format entry adds exactly one record to the statistics (name, today, length written) when today passes the date filter, and none otherwise |

## Left out

- I/O is not modelled: `os.walk`, `open`, encoding errors, `os.makedirs`, the YAML parser and `save_config`. The walk, the tree and the config file are values, and an unreadable file is `None`.
- jieba's segmentation and Unicode's word-character classes are not modelled; they are parameters (`Lexicon`).
- `datetime.today()` is not modelled; today is a parameter. The second call at utils/file_utils.py:29 is taken to return the same day.
- The conversion of `datetime` bounds to `date` (diary_stats.py:100-104) is not modelled: bounds are dates.
- strftime directives other than `%Y`, `%m`, `%d` and `%%` are not modelled: the character after `%` is passed to a parameter. `%Y` is four zero-padded digits.
- Entry.Strftime: glibc directives with a flag, a width or a modifier (`%-d`, `%_m`, `%02d`, `%Ey`) are not modelled. The model hands only the character after `%` to the parameter and copies the rest as text, so `%-d` gives the parameter's text for `-` followed by `d`, where glibc prints the day.
- `os.path.exists(target)` is not fully modelled. It is true for a file in the tree, or for the month directory itself when the sanitized name is empty, `.` or `..`. Other directories at the target path are not modelled. Nor is a `template_path` naming a directory or an unreadable file: `os.path.exists` is true there, `open` raises and no entry is written, while the model treats a path that is not a file of the tree as no template and writes an empty entry.
- The default stopword path next to the source file is not modelled: the stopword file is passed in, and a missing file is `None`.
- The module-level `tokenize_text` (diary_stats.py:8-30) is not modelled: it is never called.
- Compare.DiffTable: pandas' default `sort_values` is not stable; the model uses a stable sort, so only order and contents, not the order of equal changes, reflect the source.
- Config.RunCreation: a truthy non-string `base_path` or `filename_format` is modelled as a raised error. So is a truthy non-string `template_path` with `use_template` set, but only when the target does not exist yet. Python's `os.path.exists` accepts an integer file descriptor as `template_path`; that case is not modelled. A `template_path` naming a directory is modelled as no template, so the model creates an empty entry where Python raises.
- Key order of the result dictionaries, the DataFrame itself and the `.2f` formatting of averages are not modelled; averages are exact reals.
- The Streamlit widgets, session state, charts, word clouds, the tkinter GUI, the launcher and the auto-creation script are not modelled: they are presentation and process glue.
- The guard `if compare_start_1 and compare_end_1 and ...` is not modelled as a function: the comparison is modelled only for two ranges that were built.
- Numbers.ParseInt: only ASCII digits are accepted. Python's `int()` also accepts the other Unicode decimal digits (`int("２０２５") == 2025`), so a directory or file name written with such digits gets a date in Python and none in the model.
