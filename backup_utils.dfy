/**
 * The pure part of backend/app/utils/backup_utils.py: reading the line
 * table printed by the `clickhouse-backup list` tool (`parse_backup_list`)
 * and classifying a backup name by prefix and embedded date
 * (`classify_backup`). Digits are the ASCII digits.
 */
module BackupUtils {
  import opened Wrappers
  import opened PyStrings

  predicate IsDigit(c: char) {
    '0' <= c <= '9'
  }

  predicate AllDigits(s: string) {
    forall i :: 0 <= i < |s| ==> IsDigit(s[i])
  }

  // ----- type by prefix -----

  /** The type `classify_backup` gives a name; prefixes are compared case-sensitively. */
  function BackupType(name: string): (kind: string)
    ensures kind == "full" <==> StartsWith(name, "full_")
    ensures kind == "incremental" <==> StartsWith(name, "inc_")
    ensures kind == "unknown" <==> !StartsWith(name, "full_") && !StartsWith(name, "inc_")
  {
    if StartsWith(name, "full_") then
      assert name[0] == 'f';
      "full"
    else if StartsWith(name, "inc_") then "incremental"
    else "unknown"
  }

  // ----- `re.search(r"\d{8}", name)` -----

  /** Eight digits start at position i of s. */
  predicate EightDigitsAt(s: string, i: nat) {
    i + 8 <= |s| && AllDigits(s[i..i + 8])
  }

  /** The leftmost position at or after `from` where eight digits start. */
  function SearchEightDigitsFrom(s: string, from: nat): (r: Option<nat>)
    ensures r.Some? ==> from <= r.value && EightDigitsAt(s, r.value)
    ensures r.Some? ==> forall j :: from <= j < r.value ==> !EightDigitsAt(s, j)
    ensures r.None? ==> forall j :: from <= j ==> !EightDigitsAt(s, j)
    decreases |s| - from
  {
    if from + 8 > |s| then None
    else if EightDigitsAt(s, from) then Some(from)
    else SearchEightDigitsFrom(s, from + 1)
  }

  /** `re.search(r"\d{8}", s)`: where the leftmost run of eight digits starts, if any. */
  function SearchEightDigits(s: string): Option<nat> {
    SearchEightDigitsFrom(s, 0)
  }

  // ----- `datetime.strptime(date_str, "%Y%m%d")` -----

  function DigitValue(c: char): nat
    requires IsDigit(c)
  {
    (c as int - '0' as int) as nat
  }

  /** The decimal value of a digit string. */
  function Value(ds: string): nat
    requires AllDigits(ds)
  {
    if ds == [] then 0 else 10 * Value(ds[..|ds| - 1]) + DigitValue(ds[|ds| - 1])
  }

  predicate IsLeapYear(y: int) {
    y % 4 == 0 && (y % 100 != 0 || y % 400 == 0)
  }

  function DaysInMonth(y: int, m: int): int
    requires 1 <= m <= 12
  {
    if m == 2 then (if IsLeapYear(y) then 29 else 28)
    else if m == 4 || m == 6 || m == 9 || m == 11 then 30
    else 31
  }

  /** A date `datetime` accepts: year 1..9999, month 1..12, a day the Gregorian month has. */
  predicate IsValidDate(y: int, m: int, d: int) {
    1 <= y <= 9999 && 1 <= m <= 12 && 1 <= d <= DaysInMonth(y, m)
  }

  /**
   * The lengths the `%m` pattern `1[0-2]|0[1-9]|[1-9]` of CPython's
   * `_strptime` can match at position i, in the order the regex engine
   * tries its alternatives.
   */
  function MonthMatches(s: string, i: nat): seq<nat> {
    (if i + 2 <= |s| && s[i] == '1' && '0' <= s[i + 1] <= '2' then [2] else [])
    + (if i + 2 <= |s| && s[i] == '0' && '1' <= s[i + 1] <= '9' then [2] else [])
    + (if i + 1 <= |s| && '1' <= s[i] <= '9' then [1] else [])
  }

  /** The same for the `%d` pattern `3[01]|[12]\d|0[1-9]|[1-9]| [1-9]`. */
  function DayMatches(s: string, i: nat): seq<nat> {
    (if i + 2 <= |s| && s[i] == '3' && '0' <= s[i + 1] <= '1' then [2] else [])
    + (if i + 2 <= |s| && '1' <= s[i] <= '2' && IsDigit(s[i + 1]) then [2] else [])
    + (if i + 2 <= |s| && s[i] == '0' && '1' <= s[i + 1] <= '9' then [2] else [])
    + (if i + 1 <= |s| && '1' <= s[i] <= '9' then [1] else [])
    + (if i + 2 <= |s| && s[i] == ' ' && '1' <= s[i + 1] <= '9' then [2] else [])
  }

  /**
   * The (month length, day length) of the match `re.match` returns after
   * the four year digits: every `%d` alternative is tried for a `%m`
   * alternative before the next `%m` alternative is tried.
   */
  function FirstMatch(s: string, months: seq<nat>): Option<(nat, nat)>
  {
    if months == [] then None
    else
      var days := DayMatches(s, 4 + months[0]);
      if days != [] then Some((months[0], days[0])) else FirstMatch(s, months[1..])
  }

  /** A matched `%m`/`%d` field: digits, possibly after one space (`int` skips it). */
  predicate IsField(t: string) {
    AllDigits(t) || (t != [] && t[0] == ' ' && AllDigits(t[1..]))
  }

  function FieldValue(t: string): nat
    requires IsField(t)
  {
    if AllDigits(t) then Value(t) else Value(t[1..])
  }

  /**
   * `datetime.strptime(s, "%Y%m%d")` as (year, month, day), or None where
   * it raises ValueError: the pattern does not match, the match leaves
   * characters over ("unconverted data remains"), or `datetime` rejects
   * the date.
   */
  function StrptimeYmd(s: string): (r: Option<(nat, nat, nat)>)
    ensures r.Some? ==> IsValidDate(r.value.0, r.value.1, r.value.2)
    ensures r.Some? ==> |s| >= 4 && AllDigits(s[..4]) && r.value.0 == Value(s[..4])
  {
    if |s| < 4 || !AllDigits(s[..4]) then None
    else match FirstMatch(s, MonthMatches(s, 4))
      case None => None
      case Some((ml, dl)) =>
        if 4 + ml + dl != |s| then None
        else
          var mt, dt := s[4..4 + ml], s[4 + ml..];
          if !IsField(mt) || !IsField(dt) then None
          else
            var y, m, d := Value(s[..4]), FieldValue(mt), FieldValue(dt);
            if IsValidDate(y, m, d) then Some((y, m, d)) else None
  }

  // ----- `date_obj.strftime("%Y-%m-%d")` -----

  /** n written with exactly `width` decimal digits, zero-padded. */
  function Fixed(n: nat, width: nat): (r: string)
    ensures |r| == width && AllDigits(r)
  {
    if width == 0 then "" else Fixed(n / 10, width - 1) + [('0' as int + n % 10) as char]
  }

  function FormatYmd(y: nat, m: nat, d: nat): string {
    Fixed(y, 4) + "-" + Fixed(m, 2) + "-" + Fixed(d, 2)
  }

  // ----- `classify_backup` -----

  /** The date part of `classify_backup(name)`. */
  function FormattedDate(name: string): string {
    var dateStr := match SearchEightDigits(name)
      case Some(i) => name[i..i + 8]
      case None => "unknown";
    match StrptimeYmd(dateStr)
    case Some((y, m, d)) => FormatYmd(y, m, d)
    case None => dateStr
  }

  /** `classify_backup(name)`: (type, date). */
  function ClassifyBackup(name: string): (r: (string, string))
    ensures r.0 == "full" || r.0 == "incremental" || r.0 == "unknown"
    ensures r.1 == "unknown" <==> SearchEightDigits(name) == None
  {
    UnknownDateIff(name);
    (BackupType(name), FormattedDate(name))
  }

  /** The date is "unknown" exactly when the name holds no run of eight digits. */
  lemma UnknownDateIff(name: string)
    ensures FormattedDate(name) == "unknown" <==> SearchEightDigits(name) == None
  {
    FormattedDateCases(name);
    if SearchEightDigits(name).Some? {
      var i := SearchEightDigits(name).value;
      var c := name[i..i + 8];
      assert IsDigit(c[0]) && !IsDigit("unknown"[0]);
      if IsValidYmd(c) {
        assert (c[..4] + "-" + c[4..6] + "-" + c[6..])[0] == c[0];
      }
    }
  }

  // ----- `parse_backup_list` -----

  /** One item of the parsed list: `name`, `type`, `date`, `size`. */
  datatype BackupEntry = BackupEntry(name: string, kind: string, date: string, size: Option<string>)

  /** The first word of `s`, if it has one. */
  function FirstWord(s: string): Option<string> {
    var words := Split(s);
    if words == [] then None else Some(words[0])
  }

  /**
   * `e` describes `line`: its name is a word preceded by whitespace only and
   * followed by whitespace or the end of the line; its size is the next word,
   * if there is one; its type and date are `classify_backup` of the name.
   */
  ghost predicate IsEntryOf(line: string, e: BackupEntry) {
    && IsWord(e.name)
    && (e.kind, e.date) == ClassifyBackup(e.name)
    && exists pre, post :: HeadAt(line, pre, e.name, post) && e.size == FirstWord(post)
  }

  /** The first word of a line as name, the second as size and `classify_backup` of the name describe the line. */
  lemma WordsDescribeLine(line: string, e: BackupEntry)
    requires Split(line) != []
    requires e.name == Split(line)[0]
    requires e.size == if |Split(line)| > 1 then Some(Split(line)[1]) else None
    requires (e.kind, e.date) == ClassifyBackup(e.name)
    ensures IsEntryOf(line, e)
  {
    SplitHead(line);
    var pre, post :| HeadAt(line, pre, e.name, post);
    SplitAfterWord(line, pre, e.name, post);
    assert Split(line)[1..] == Split(post);
    assert e.size == FirstWord(post);
  }

  /** The entry a non-blank line contributes. */
  function EntryOf(line: string): (e: BackupEntry)
    requires !IsBlank(line)
    ensures IsEntryOf(line, e)
  {
    BlankIffNoWords(line);
    var parts := Split(line);
    var c := ClassifyBackup(parts[0]);
    var e := BackupEntry(parts[0], c.0, c.1, if |parts| > 1 then Some(parts[1]) else None);
    WordsDescribeLine(line, e);
    e
  }

  /** A non-blank line has exactly one entry: `EntryOf` is the only one that describes it. */
  lemma EntryOfUnique(line: string, e: BackupEntry)
    requires !IsBlank(line)
    ensures IsEntryOf(line, e) <==> e == EntryOf(line)
  {
    if IsEntryOf(line, e) {
      var pre, post :| HeadAt(line, pre, e.name, post) && e.size == FirstWord(post);
      SplitAfterWord(line, pre, e.name, post);
      assert Split(line)[1..] == Split(post);
    }
  }

  /** The non-blank lines of `lines`, in order. */
  function NonBlank(lines: seq<string>): (r: seq<string>)
    ensures forall k :: 0 <= k < |r| ==> !IsBlank(r[k])
    ensures |r| <= |lines|
  {
    if lines == [] then []
    else
      var last := lines[|lines| - 1];
      NonBlank(lines[..|lines| - 1]) + (if IsBlank(last) then [] else [last])
  }

  /** The lines of `output` that carry an entry: the non-blank lines after the header. */
  function DataLines(output: string): seq<string> {
    var lines := SplitLines(output);
    if lines == [] then [] else NonBlank(lines[1..])
  }

  /** What `parse_backup_list(output)` returns: one entry per data line, in order. */
  function ParsedEntries(output: string): (r: seq<BackupEntry>)
    ensures |r| == |DataLines(output)|
    ensures forall k :: 0 <= k < |r| ==> IsEntryOf(DataLines(output)[k], r[k])
  {
    var data := DataLines(output);
    seq(|data|, k requires 0 <= k < |data| => EntryOf(data[k]))
  }

  /** The body of the loop for one non-blank line: split it and build the item. */
  method LineEntry(line: string) returns (entry: BackupEntry)
    requires !IsBlank(line)
    ensures IsEntryOf(line, entry)
  {
    BlankIffNoWords(line);
    var parts := Split(line);
    var name := parts[0];
    var size := if |parts| > 1 then Some(parts[1]) else None;
    var c := ClassifyBackup(name);
    entry := BackupEntry(name, c.0, c.1, size);
    WordsDescribeLine(line, entry);
  }

  /** `parse_backup_list`: the loop over the lines after the header. */
  method ParseBackupList(output: string) returns (entries: seq<BackupEntry>)
    ensures entries == ParsedEntries(output)
  {
    entries := [];
    var lines := SplitLines(output);
    var body := if lines == [] then [] else lines[1..];
    for i := 0 to |body|
      invariant |entries| == |NonBlank(body[..i])|
      invariant forall k :: 0 <= k < |entries| ==> entries[k] == EntryOf(NonBlank(body[..i])[k])
    {
      ghost var kept := NonBlank(body[..i]);
      assert body[..i + 1][..i] == body[..i];
      var line := body[i];
      if IsBlank(line) {
        assert NonBlank(body[..i + 1]) == kept;
        continue;
      }
      assert NonBlank(body[..i + 1]) == kept + [line];
      var entry := LineEntry(line);
      EntryOfUnique(line, entry);
      entries := entries + [entry];
    }
    assert body[..|body|] == body;
  }

  // ----- properties of the date rule -----

  /** Zero-padded formatting of a digit string's value gives the digits back. */
  lemma {:induction false} FixedValue(ds: string)
    requires AllDigits(ds)
    ensures Fixed(Value(ds), |ds|) == ds
  {
    if ds != [] {
      var init, c := ds[..|ds| - 1], ds[|ds| - 1];
      var v := Value(init);
      FixedValue(init);
      assert Value(ds) == 10 * v + DigitValue(c);
      assert (10 * v + DigitValue(c)) / 10 == v;
      assert (10 * v + DigitValue(c)) % 10 == DigitValue(c);
      assert ('0' as int + DigitValue(c)) as char == c;
      assert ds == init + [c];
    }
  }

  lemma ValueOfTwo(t: string)
    requires |t| == 2 && AllDigits(t)
    ensures Value(t) == 10 * DigitValue(t[0]) + DigitValue(t[1])
  {
    var one := t[..1];
    assert one[..0] == [];
    assert Value(one) == 10 * Value(one[..0]) + DigitValue(one[0]);
    assert Value(one) == DigitValue(t[0]);
    assert t[..|t| - 1] == one;
  }

  /** Which `%m` alternatives match two digits, and whether the first one takes both. */
  lemma MonthMatchesTwoDigits(s: string, i: nat)
    requires i + 2 <= |s| && IsDigit(s[i]) && IsDigit(s[i + 1])
    ensures var ms, m := MonthMatches(s, i), 10 * DigitValue(s[i]) + DigitValue(s[i + 1]);
      && (1 <= m <= 12 <==> |ms| > 0 && ms[0] == 2)
      && (ms == [] || ms == [1] || ms == [2] || ms == [2, 1])
  {
  }

  /** Which `%d` alternatives match two digits, and whether the first one takes both. */
  lemma DayMatchesTwoDigits(s: string, i: nat)
    requires i + 2 <= |s| && IsDigit(s[i]) && IsDigit(s[i + 1])
    ensures var ds, d := DayMatches(s, i), 10 * DigitValue(s[i]) + DigitValue(s[i + 1]);
      1 <= d <= 31 <==> |ds| > 0 && ds[0] == 2
  {
  }

  lemma DayMatchesShort(s: string, i: nat)
    ensures forall k :: 0 <= k < |DayMatches(s, i)| ==> DayMatches(s, i)[k] <= 2
  {
  }

  /** An eight-digit candidate read as YYYYMMDD with a valid Gregorian date. */
  predicate IsValidYmd(c: string)
    requires |c| == 8 && AllDigits(c)
  {
    IsValidDate(Value(c[..4]), Value(c[4..6]), Value(c[6..]))
  }

  /**
   * On eight digits, CPython's `strptime(s, "%Y%m%d")` succeeds exactly
   * when the digits read as YYYYMMDD form a valid date, and then returns
   * that date: the regex's first match covers the whole string just when
   * MM is 01..12 and DD is 01..31.
   */
  lemma StrptimeEightDigits(s: string)
    requires |s| == 8 && AllDigits(s)
    ensures StrptimeYmd(s) == if IsValidYmd(s)
      then Some((Value(s[..4]), Value(s[4..6]), Value(s[6..])))
      else None
  {
    if 1 <= Value(s[4..6]) <= 12 && 1 <= Value(s[6..]) <= 31 {
      StrptimeWholeFields(s);
    } else {
      assert !IsValidYmd(s);
      StrptimeShortFields(s);
    }
  }

  /** Month 01..12 and day 01..31: the first match takes two digits each, and `datetime` decides. */
  lemma StrptimeWholeFields(s: string)
    requires |s| == 8 && AllDigits(s)
    requires 1 <= Value(s[4..6]) <= 12 && 1 <= Value(s[6..]) <= 31
    ensures StrptimeYmd(s) == if IsValidYmd(s)
      then Some((Value(s[..4]), Value(s[4..6]), Value(s[6..])))
      else None
  {
    ValueOfTwo(s[4..6]);
    ValueOfTwo(s[6..]);
    assert s[4..6][0] == s[4] && s[4..6][1] == s[5];
    assert s[6..][0] == s[6] && s[6..][1] == s[7];
    assert IsDigit(s[4]) && IsDigit(s[5]) && IsDigit(s[6]) && IsDigit(s[7]);
    MonthMatchesTwoDigits(s, 4);
    DayMatchesTwoDigits(s, 6);
    assert FirstMatch(s, MonthMatches(s, 4)) == Some((2, 2));
    assert s[4..4 + 2] == s[4..6];
    assert s[4 + 2..] == s[6..];
  }

  /** Otherwise the first match leaves digits over (or there is none), so `strptime` raises. */
  lemma StrptimeShortFields(s: string)
    requires |s| == 8 && AllDigits(s)
    requires !(1 <= Value(s[4..6]) <= 12 && 1 <= Value(s[6..]) <= 31)
    ensures StrptimeYmd(s) == None
  {
    ValueOfTwo(s[4..6]);
    ValueOfTwo(s[6..]);
    assert s[4..6][0] == s[4] && s[4..6][1] == s[5];
    assert s[6..][0] == s[6] && s[6..][1] == s[7];
    assert IsDigit(s[4]) && IsDigit(s[5]) && IsDigit(s[6]) && IsDigit(s[7]);
    var ms := MonthMatches(s, 4);
    var days := DayMatches(s, 6);
    MonthMatchesTwoDigits(s, 4);
    DayMatchesTwoDigits(s, 6);
    DayMatchesShort(s, 5);
    DayMatchesShort(s, 6);
    var fm := FirstMatch(s, ms);
    if fm.Some? {
      var ml, dl := fm.value.0, fm.value.1;
      if ms == [2] || ms == [2, 1] {
        if days != [] {
          assert fm == Some((2, days[0]));
          assert dl != 2;
        } else {
          assert fm == FirstMatch(s, ms[1..]);
          assert ms[1..] == [1];
          assert ms[1..][1..] == [];
          assert FirstMatch(s, ms[1..][1..]) == None;
          assert DayMatches(s, 5) != [] && fm == Some((1, DayMatches(s, 5)[0]));
        }
      } else {
        assert ms == [1];
        assert ms[1..] == [];
        assert FirstMatch(s, ms[1..]) == None;
        assert DayMatches(s, 5) != [] && fm == Some((1, DayMatches(s, 5)[0]));
      }
      assert 4 + ml + dl != |s|;
    }
  }

  /**
   * The date `classify_backup` reports: "unknown" when the name holds no
   * eight digits; otherwise the leftmost eight digits, rewritten as
   * YYYY-MM-DD when they form a valid date and returned unchanged when not.
   */
  lemma FormattedDateCases(name: string)
    ensures SearchEightDigits(name).None? ==> FormattedDate(name) == "unknown"
    ensures SearchEightDigits(name).Some? ==>
      var i := SearchEightDigits(name).value;
      var c := name[i..i + 8];
      && AllDigits(c)
      && FormattedDate(name) == if IsValidYmd(c) then c[..4] + "-" + c[4..6] + "-" + c[6..] else c
  {
    match SearchEightDigits(name)
    case None =>
      assert !IsDigit("unknown"[0]);
      assert "unknown"[..4][0] == 'u';
      assert StrptimeYmd("unknown") == None;
    case Some(i) =>
      var c := name[i..i + 8];
      StrptimeEightDigits(c);
      if IsValidYmd(c) {
        FixedValue(c[..4]);
        FixedValue(c[4..6]);
        FixedValue(c[6..]);
      }
  }

  // ----- properties of the parser -----

  /** Filtering blank lines distributes over concatenation, so it keeps the order of the lines. */
  lemma {:induction false} NonBlankAppend(a: seq<string>, b: seq<string>)
    ensures NonBlank(a + b) == NonBlank(a) + NonBlank(b)
  {
    if b == [] {
      assert a + b == a;
    } else {
      var b' := b[..|b| - 1];
      assert (a + b)[..|a + b| - 1] == a + b';
      assert (a + b)[|a + b| - 1] == b[|b| - 1];
      NonBlankAppend(a, b');
    }
  }

  /** Lines none of which is blank all survive the filter. */
  lemma {:induction false} NonBlankKeepsAll(lines: seq<string>)
    requires forall k :: 0 <= k < |lines| ==> !IsBlank(lines[k])
    ensures NonBlank(lines) == lines
  {
    if lines != [] {
      NonBlankKeepsAll(lines[..|lines| - 1]);
      assert lines == lines[..|lines| - 1] + [lines[|lines| - 1]];
    }
  }

  /** The first line is a header: on its own, with or without its '\n', it yields nothing. */
  lemma HeaderAlone(header: string)
    requires '\n' !in header
    ensures ParsedEntries(header) == []
    ensures ParsedEntries(header + "\n") == []
  {
    if header != [] {
      assert forall i :: 0 <= i < |header| ==> header[i] != '\n' by {
        forall i | 0 <= i < |header| ensures header[i] != '\n' {
          assert header[i] in header;
        }
      }
      assert LineEnd(header) == |header|;
      assert SplitLines(header) == [header];
    }
    assert Terminated([header]) == header + "\n";
    SplitLinesTerminated([header]);
    assert [header][1..] == [];
  }

  /** A table cell: a word without line break. */
  predicate IsCell(w: string) {
    IsWord(w) && '\n' !in w
  }

  /** Rows of cells written out as lines, cells separated by single spaces. */
  function RenderRows(rows: seq<seq<string>>): seq<string> {
    seq(|rows|, k requires 0 <= k < |rows| => Unwords(rows[k]))
  }

  lemma {:induction false} UnwordsNoNewline(words: seq<string>)
    requires forall j :: 0 <= j < |words| ==> IsCell(words[j])
    ensures '\n' !in Unwords(words)
  {
    if |words| > 1 {
      UnwordsNoNewline(words[1..]);
      assert Unwords(words) == words[0] + " " + Unwords(words[1..]);
    }
  }

  /**
   * Reading a printed table: a header, then one line per row of cells.
   * Each row gives one entry, in order; its name is the first cell, its
   * size the second if there is one, further cells are ignored, and its
   * type and date are `classify_backup` of the name. The header gives
   * nothing, whatever it holds.
   */
  lemma ParseTable(header: string, rows: seq<seq<string>>)
    requires '\n' !in header
    requires forall k :: 0 <= k < |rows| ==> |rows[k]| > 0
    requires forall k, j :: 0 <= k < |rows| && 0 <= j < |rows[k]| ==> IsCell(rows[k][j])
    ensures var es := ParsedEntries(Terminated([header] + RenderRows(rows)));
      && |es| == |rows|
      && forall k :: 0 <= k < |rows| ==>
        && es[k].name == rows[k][0]
        && es[k].size == (if |rows[k]| > 1 then Some(rows[k][1]) else None)
        && (es[k].kind, es[k].date) == ClassifyBackup(rows[k][0])
  {
    var rendered := RenderRows(rows);
    var lines := [header] + rendered;
    forall k | 0 <= k < |rows| ensures '\n' !in rendered[k] && !IsBlank(rendered[k]) && Split(rendered[k]) == rows[k] {
      UnwordsNoNewline(rows[k]);
      SplitUnwords(rows[k]);
      BlankIffNoWords(rendered[k]);
    }
    SplitLinesTerminated(lines);
    assert lines[1..] == rendered;
    NonBlankKeepsAll(rendered);
    assert DataLines(Terminated(lines)) == rendered;
  }

  lemma NonBlankDropsBlank(before: seq<string>, blank: string, after: seq<string>)
    requires IsBlank(blank)
    ensures NonBlank(before + [blank] + after) == NonBlank(before + after)
  {
    NonBlankAppend(before + [blank], after);
    NonBlankAppend(before, [blank]);
    NonBlankAppend(before, after);
    assert NonBlank([blank]) == [] by {
      assert [blank][..0] == [];
    }
  }

  /** No line holds a line break. */
  predicate NoBreaks(lines: seq<string>) {
    forall k :: 0 <= k < |lines| ==> '\n' !in lines[k]
  }

  lemma NoBreaksAppend(a: seq<string>, b: seq<string>)
    requires NoBreaks(a) && NoBreaks(b)
    ensures NoBreaks(a + b)
  {
    forall k | 0 <= k < |a + b| ensures '\n' !in (a + b)[k] {
      if k >= |a| {
        assert (a + b)[k] == b[k - |a|];
      }
    }
  }

  lemma DataLinesOfTerminated(lines: seq<string>)
    requires |lines| > 0 && NoBreaks(lines)
    ensures DataLines(Terminated(lines)) == NonBlank(lines[1..])
  {
    SplitLinesTerminated(lines);
  }

  lemma DataLinesDropBlank(header: string, before: seq<string>, blank: string, after: seq<string>)
    requires IsBlank(blank)
    requires NoBreaks([header] + before + [blank] + after)
    requires NoBreaks([header] + before + after)
    ensures DataLines(Terminated([header] + before + [blank] + after))
         == DataLines(Terminated([header] + before + after))
  {
    var with := [header] + before + [blank] + after;
    var without := [header] + before + after;
    DataLinesOfTerminated(with);
    DataLinesOfTerminated(without);
    assert with[1..] == before + [blank] + after;
    assert without[1..] == before + after;
    NonBlankDropsBlank(before, blank, after);
  }

  /** A blank or whitespace-only line after the header changes nothing. */
  lemma BlankLineIgnored(header: string, before: seq<string>, blank: string, after: seq<string>)
    requires IsBlank(blank)
    requires '\n' !in header
    requires NoBreaks(before) && NoBreaks(after)
    ensures ParsedEntries(Terminated([header] + before + [blank] + after))
         == ParsedEntries(Terminated([header] + before + after))
  {
    assert '\n' !in blank by {
      forall i | 0 <= i < |blank| ensures blank[i] != '\n' {
        assert IsSpace(blank[i]);
      }
    }
    assert NoBreaks([header]) && NoBreaks([blank]);
    NoBreaksAppend([header], before);
    NoBreaksAppend([header] + before, [blank]);
    NoBreaksAppend([header] + before + [blank], after);
    NoBreaksAppend([header] + before, after);
    DataLinesDropBlank(header, before, blank, after);
  }
}
