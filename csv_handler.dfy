/**
 * CSVProcessor: extracting e-mail addresses from a member CSV file, either a plain
 * comma-separated list of addresses or a table with an e-mail or login column, and writing
 * a copy without the Excel `sep=` directive.
 */
module CsvHandler {
  import opened Wrappers
  import opened Strings
  import opened Files
  import opened Validators
  import Paths

  // ----- the Excel `sep=` directive -----

  const Directive: string := "sep="

  /**
   * The delimiter: the character after `sep=` in the stripped first line, "," when that line
   * has no directive, and "" when the directive ends the line.
   */
  function DetectDelimiter(text: string): (d: string)
    ensures |d| <= 1
    ensures !Contains(Strip(ReadLine(text)), Directive) ==> d == ","
  {
    var first := Strip(ReadLine(text));
    match IndexOf(first, Directive)
    case None => ","
    case Some(i) => if i + 5 <= |first| then first[i + 4..i + 5] else ""
  }

  /** A first line `sep=c` names `c` as the delimiter. */
  lemma DirectiveNamesDelimiter(c: char, rest: string)
    requires !IsSpace(c)
    ensures DetectDelimiter(Directive + [c] + "\n" + rest) == [c]
  {
    var text := Directive + [c] + "\n" + rest;
    var line := Directive + [c];
    assert text[5] == '\n' && '\n' !in text[..5];
    assert IndexOfChar(text, '\n') == Some(5);
    assert ReadLine(text) == line + "\n";
    assert (line + "\n")[..|line + "\n"| - 1] == line;
    assert Strip(line + "\n") == line;
    assert OccursAt(line, Directive, 0) by {
      assert line[0..4] == Directive;
    }
    assert line[4..5] == [c];
  }

  /** The text the extractor reads as data: everything after a first line that holds a directive. */
  function DataText(text: string): (r: string)
    ensures EndsWith(text, r)
  {
    FirstLineAndRest(text);
    if Contains(ReadLine(text), Directive) then AfterFirstLine(text) else text
  }

  // ----- the simple list: re.findall of the address pattern -----

  const HeaderWords: seq<string> := ["email", "name", "login", "user"]

  /** is_email_list: the first data line has '@' and ',' and none of the header words. */
  predicate IsEmailList(line: string) {
    Contains(line, "@") && Contains(line, ",") && !AnyContained(HeaderWords, Lower(line))
  }

  /** A simple list exactly when '@' and ',' occur and no header word occurs, ignoring case. */
  lemma EmailListIff(line: string)
    ensures IsEmailList(line) <==>
      '@' in line && ',' in line && forall k :: 0 <= k < |HeaderWords| ==> !Contains(Lower(line), HeaderWords[k])
  {
    AnyContainedIff(HeaderWords, Lower(line));
    OneCharContains(line, '@');
    OneCharContains(line, ',');
  }

  /** A top-level domain can start at `d`: a '.' followed by two letters. */
  predicate TldAt(s: string, d: nat) {
    d + 2 < |s| && s[d] == '.' && IsAsciiLetter(s[d + 1]) && IsAsciiLetter(s[d + 2])
  }

  /** The largest `d` with `lo < d < hi` where a top-level domain can start, as backtracking finds it. */
  function LastTldDot(s: string, lo: nat, hi: nat): (r: Option<nat>)
    requires hi <= |s|
    ensures r.Some? ==> lo < r.value < hi && TldAt(s, r.value)
    ensures r.Some? ==> forall j :: r.value < j < hi ==> !TldAt(s, j)
    ensures r.None? ==> forall j :: lo < j < hi ==> !TldAt(s, j)
    decreases hi
  {
    if hi <= lo + 1 then None
    else if TldAt(s, hi - 1) then Some(hi - 1)
    else LastTldDot(s, lo, hi - 1)
  }

  /** Where a match of `[a-zA-Z0-9._%+-]+@[a-zA-Z0-9.-]+\.[a-zA-Z]{2,}` starting at `i` ends, if one does. */
  function MatchEnd(s: string, i: nat): (r: Option<nat>)
    requires i <= |s|
    ensures r.Some? ==> i < r.value <= |s| && MatchesEmail(s[i..r.value])
  {
    var l := Run(s, i, LocalPart);
    var at := i + l;
    if l == 0 || at >= |s| || s[at] != '@' then None
    else
      var e := at + 1 + Run(s, at + 1, DomainPart);
      match LastTldDot(s, at + 1, e)
      case None => None
      case Some(d) =>
        TldRun(s, d);
        var end := d + 1 + Run(s, d + 1, Letters);
        MatchSplit(s, i, at, d, end);
        Some(end)
  }

  /** A top-level domain runs for at least its two letters. */
  lemma TldRun(s: string, d: nat)
    requires TldAt(s, d)
    ensures Run(s, d + 1, Letters) >= 2
  {
    assert InClass(s[d + 1], Letters);
    assert InClass(s[d + 2], Letters);
  }

  lemma MatchSplit(s: string, i: nat, at: nat, d: nat, end: nat)
    requires i < at && at + 1 < d && d + 2 < end <= |s|
    requires s[at] == '@' && s[d] == '.'
    requires forall j :: i <= j < at ==> InClass(s[j], LocalPart)
    requires forall j :: at < j < d ==> InClass(s[j], DomainPart)
    requires forall j :: d < j < end ==> InClass(s[j], Letters)
    ensures MatchesEmail(s[i..end])
  {
    var m := s[i..end];
    assert forall j :: 0 <= j < |m| ==> m[j] == s[i + j];
    assert EmailSplit(m, at - i, d - i);
  }

  /** re.findall(pattern, s[i..]): the matches found scanning left to right without overlap. */
  function FindAllEmails(s: string, i: nat): (r: seq<string>)
    requires i <= |s|
    ensures forall k :: 0 <= k < |r| ==> MatchesEmail(r[k])
    decreases |s| - i
  {
    if i >= |s| then []
    else
      match MatchEnd(s, i)
      case Some(e) => [s[i..e]] + FindAllEmails(s, e)
      case None => FindAllEmails(s, i + 1)
  }

  /** A match starting at the front of a text that is one address runs to its end. */
  lemma MatchEndWhole(m: string, at: nat, dot: nat)
    requires EmailSplit(m, at, dot)
    ensures MatchEnd(m, 0) == Some(|m|)
  {
    assert !LocalChar('@') && !IsAsciiLetter('.');
    RunUpTo(m, 0, at, LocalPart);
    RunUpTo(m, at + 1, |m|, DomainPart);
    assert TldAt(m, dot);
    var t := LastTldDot(m, at + 1, |m|);
    assert t.Some?;
    assert t.value == dot;
    RunUpTo(m, dot + 1, |m|, Letters);
  }

  /** A text that is one address, and nothing else, yields exactly that address. */
  lemma FindsWholeAddress(m: string)
    requires MatchesEmail(m)
    ensures FindAllEmails(m, 0) == [m]
  {
    var at: nat, dot: nat :| EmailSplit(m, at, dot);
    MatchEndWhole(m, at, dot);
    assert m[0..|m|] == m;
  }

  /** `[e.strip() for e in found if e.strip()]`. */
  function StripNonEmpty(xs: seq<string>): (r: seq<string>)
    ensures |r| <= |xs|
    ensures forall k :: 0 <= k < |r| ==> r[k] != ""
  {
    if xs == [] then []
    else (if Strip(xs[0]) != "" then [Strip(xs[0])] else []) + StripNonEmpty(xs[1..])
  }

  /** Found addresses have no surrounding blanks, so the strip step keeps them all unchanged. */
  lemma {:induction false} StripFoundUnchanged(xs: seq<string>)
    requires forall k :: 0 <= k < |xs| ==> MatchesEmail(xs[k])
    ensures StripNonEmpty(xs) == xs
  {
    if xs != [] {
      var x := xs[0];
      var at: nat, dot: nat :| EmailSplit(x, at, dot);
      assert LocalChar(x[0]) && IsAsciiLetter(x[|x| - 1]);
      StripOfStripped(x);
      StripFoundUnchanged(xs[1..]);
    }
  }

  // ----- the structured table: csv.DictReader -----

  const EmailHeaders: seq<string> := ["email", "e-mail", "user email", "email address"]
  const LoginHeaders: seq<string> := ["login", "user", "username", "alias", "userid"]
  const DefaultDomain: string := "@amazon.com"

  /** csv.reader's row for one line, quoting aside: [] for a blank line, else the cells between delimiters. */
  function ParseRow(line: string, delim: char): seq<string> {
    var t := LineText(line);
    if t == [] then [] else Split(t, delim)
  }

  function ParseRows(lines: seq<string>, delim: char): (rows: seq<seq<string>>)
    ensures |rows| == |lines| && forall k :: 0 <= k < |lines| ==> rows[k] == ParseRow(lines[k], delim)
  {
    if lines == [] then [] else [ParseRow(lines[0], delim)] + ParseRows(lines[1..], delim)
  }

  /** The first field whose lower-case form is one of `names`. */
  function FirstField(fields: seq<string>, names: seq<string>): (r: Option<string>)
    ensures r.Some? ==> r.value in fields && Lower(r.value) in names
    ensures r.None? ==> forall k :: 0 <= k < |fields| ==> Lower(fields[k]) !in names
  {
    if fields == [] then None
    else if Lower(fields[0]) in names then Some(fields[0])
    else FirstField(fields[1..], names)
  }

  lemma {:induction false} FirstFieldSnoc(fields: seq<string>, f: string, names: seq<string>)
    ensures FirstField(fields + [f], names) ==
      if FirstField(fields, names).Some? then FirstField(fields, names)
      else if Lower(f) in names then Some(f) else None
  {
    if fields != [] {
      assert (fields + [f])[1..] == fields[1..] + [f];
      FirstFieldSnoc(fields[1..], f, names);
    }
  }

  /** The column search: the first e-mail header and the first login header, case-insensitively. */
  method FindColumns(fields: seq<string>) returns (emailCol: Option<string>, loginCol: Option<string>)
    ensures emailCol == FirstField(fields, EmailHeaders)
    ensures loginCol == FirstField(fields, LoginHeaders)
  {
    emailCol, loginCol := None, None;
    for i := 0 to |fields|
      invariant emailCol == FirstField(fields[..i], EmailHeaders)
      invariant loginCol == FirstField(fields[..i], LoginHeaders)
    {
      var field := fields[i];
      var lower := Lower(field);
      assert fields[..i + 1] == fields[..i] + [field];
      FirstFieldSnoc(fields[..i], field, EmailHeaders);
      FirstFieldSnoc(fields[..i], field, LoginHeaders);
      if lower in EmailHeaders && emailCol.None? {
        emailCol := Some(field);
      } else if lower in LoginHeaders && loginCol.None? {
        loginCol := Some(field);
      }
    }
    assert fields[..|fields|] == fields;
  }

  /** The index of the last occurrence of `x`. */
  function LastIndex(xs: seq<string>, x: string): (j: nat)
    requires x in xs
    ensures j < |xs| && xs[j] == x && forall k :: j < k < |xs| ==> xs[k] != x
  {
    if xs[|xs| - 1] == x then |xs| - 1 else LastIndex(xs[..|xs| - 1], x)
  }

  /**
   * The text of DictReader's `row[col]`, with None and the missing column both read as "":
   * duplicate headers take the cell under the last one, and a row too short for it has None there.
   */
  function CellText(fields: seq<string>, row: seq<string>, col: Option<string>): string {
    if col.None? || col.value !in fields then ""
    else
      var j := LastIndex(fields, col.value);
      if j < |row| then row[j] else ""
  }

  /**
   * The address one row gives: the stripped e-mail cell when it is non-empty, otherwise the
   * stripped login cell with "@amazon.com" added when it has no '@'; "" when neither applies.
   */
  function RowEmail(fields: seq<string>, row: seq<string>, emailCol: Option<string>, loginCol: Option<string>): (r: string)
    ensures CellText(fields, row, emailCol) == "" && r != "" ==> '@' in r
    ensures CellText(fields, row, emailCol) == "" && CellText(fields, row, loginCol) != "" ==> r != ""
    ensures CellText(fields, row, emailCol) == "" && CellText(fields, row, loginCol) == "" ==> r == ""
    ensures CellText(fields, row, emailCol) != "" ==> r == Strip(CellText(fields, row, emailCol))
    ensures CellText(fields, row, emailCol) == "" && CellText(fields, row, loginCol) != "" ==>
      var login := Strip(CellText(fields, row, loginCol));
      r == if '@' in login then login else login + DefaultDomain
  {
    var email := CellText(fields, row, emailCol);
    var login := Strip(CellText(fields, row, loginCol));
    if email != "" then Strip(email)
    else if CellText(fields, row, loginCol) != "" then
      if '@' in login then login else
        assert (login + DefaultDomain)[|login|] == '@';
        login + DefaultDomain
    else ""
  }

  /** The addresses of the data rows in order: blank rows skipped, rows giving "" dropped. */
  function RowsEmails(fields: seq<string>, rows: seq<seq<string>>, emailCol: Option<string>, loginCol: Option<string>): (r: seq<string>)
    ensures |r| <= |rows|
    ensures forall k :: 0 <= k < |r| ==> r[k] != ""
  {
    if rows == [] then []
    else
      var last := rows[|rows| - 1];
      var e := RowEmail(fields, last, emailCol, loginCol);
      RowsEmails(fields, rows[..|rows| - 1], emailCol, loginCol) + (if last == [] || e == "" then [] else [e])
  }

  /** A row e-mail cell holding only whitespace drops the row, whatever its login cell holds. */
  lemma BlankEmailCellDropsRow(fields: seq<string>, rows: seq<seq<string>>, row: seq<string>,
                               emailCol: Option<string>, loginCol: Option<string>)
    requires CellText(fields, row, emailCol) != "" && Strip(CellText(fields, row, emailCol)) == ""
    ensures RowsEmails(fields, rows + [row], emailCol, loginCol) == RowsEmails(fields, rows, emailCol, loginCol)
  {
    assert (rows + [row])[..|rows|] == rows;
  }

  /** Every address found is the one some non-blank data row gives. */
  lemma {:induction false} RowsEmailsFromRows(fields: seq<string>, rows: seq<seq<string>>,
                                              emailCol: Option<string>, loginCol: Option<string>, k: nat)
    requires k < |RowsEmails(fields, rows, emailCol, loginCol)|
    ensures exists j :: 0 <= j < |rows| && rows[j] != [] &&
                        RowsEmails(fields, rows, emailCol, loginCol)[k] == RowEmail(fields, rows[j], emailCol, loginCol)
  {
    var init := rows[..|rows| - 1];
    var front := RowsEmails(fields, init, emailCol, loginCol);
    if k < |front| {
      RowsEmailsFromRows(fields, init, emailCol, loginCol, k);
      var j :| 0 <= j < |init| && init[j] != [] && front[k] == RowEmail(fields, init[j], emailCol, loginCol);
      assert rows[j] == init[j];
    } else {
      assert rows[|rows| - 1] != [];
    }
  }

  /** Every non-blank data row that gives an address has it among the addresses found. */
  lemma {:induction false} RowsEmailsHasRow(fields: seq<string>, rows: seq<seq<string>>,
                                            emailCol: Option<string>, loginCol: Option<string>, row: seq<string>)
    requires row in rows && row != [] && RowEmail(fields, row, emailCol, loginCol) != ""
    ensures RowEmail(fields, row, emailCol, loginCol) in RowsEmails(fields, rows, emailCol, loginCol)
  {
    var init := rows[..|rows| - 1];
    var front := RowsEmails(fields, init, emailCol, loginCol);
    if row != rows[|rows| - 1] {
      assert row in init;
      RowsEmailsHasRow(fields, init, emailCol, loginCol, row);
      InPrefix(front, RowsEmails(fields, rows, emailCol, loginCol)[|front|..], RowEmail(fields, row, emailCol, loginCol));
      assert RowsEmails(fields, rows, emailCol, loginCol) == front + RowsEmails(fields, rows, emailCol, loginCol)[|front|..];
    }
  }

  lemma InPrefix(front: seq<string>, tail: seq<string>, x: string)
    requires x in front
    ensures x in front + tail
  {
    var n :| 0 <= n < |front| && front[n] == x;
    assert (front + tail)[n] == x;
  }

  /** A table with neither an e-mail nor a login column gives no address. */
  lemma {:induction false} NoColumnsNoEmails(fields: seq<string>, rows: seq<seq<string>>)
    ensures RowsEmails(fields, rows, None, None) == []
  {
    if rows != [] {
      NoColumnsNoEmails(fields, rows[..|rows| - 1]);
    }
  }

  /** The row loop of _extract_from_structured_csv. */
  method ExtractFromRows(fields: seq<string>, rows: seq<seq<string>>, emailCol: Option<string>, loginCol: Option<string>)
    returns (emails: seq<string>)
    ensures emails == RowsEmails(fields, rows, emailCol, loginCol)
  {
    emails := [];
    for i := 0 to |rows|
      invariant emails == RowsEmails(fields, rows[..i], emailCol, loginCol)
    {
      assert rows[..i + 1][..i] == rows[..i];
      var row := rows[i];
      if row != [] {
        var email := RowEmail(fields, row, emailCol, loginCol);
        if email != "" {
          emails := emails + [email];
        }
      }
    }
    assert rows[..|rows|] == rows;
  }

  /**
   * _extract_from_structured_csv as a function of the data text: a delimiter that is not one
   * character makes the reader raise, which gives []; so does a missing or blank header row.
   */
  function StructuredEmails(data: string, delimiter: string): seq<string> {
    if |delimiter| != 1 then []
    else
      var rows := ParseRows(ReadLines(data), delimiter[0]);
      if rows == [] || rows[0] == [] then []
      else
        var fields := rows[0];
        RowsEmails(fields, rows[1..], FirstField(fields, EmailHeaders), FirstField(fields, LoginHeaders))
  }

  method ExtractFromStructuredCsv(data: string, delimiter: string) returns (emails: seq<string>)
    ensures emails == StructuredEmails(data, delimiter)
  {
    if |delimiter| != 1 {
      return [];
    }
    var rows := ParseRows(ReadLines(data), delimiter[0]);
    if rows == [] || rows[0] == [] {
      return [];
    }
    var fields := rows[0];
    var emailCol, loginCol := FindColumns(fields);
    emails := ExtractFromRows(fields, rows[1..], emailCol, loginCol);
  }

  // ----- removing duplicates, ignoring case -----

  /** The lower-case forms of the addresses in `xs`. */
  function LowerSet(xs: seq<string>): (r: set<string>)
    ensures forall k :: 0 <= k < |xs| ==> Lower(xs[k]) in r
  {
    if xs == [] then {} else LowerSet(xs[..|xs| - 1]) + {Lower(xs[|xs| - 1])}
  }

  /** Each address whose lower-case form has not been seen before, in order of first appearance. */
  function KeepFirst(xs: seq<string>): seq<string> {
    if xs == [] then []
    else
      var p := xs[..|xs| - 1];
      var x := xs[|xs| - 1];
      KeepFirst(p) + (if Lower(x) in LowerSet(p) then [] else [x])
  }

  lemma {:induction false} LowerSetAppend(a: seq<string>, b: seq<string>)
    ensures LowerSet(a + b) == LowerSet(a) + LowerSet(b)
    decreases |b|
  {
    if b == [] {
      assert a + b == a;
    } else {
      assert (a + b)[..|a + b| - 1] == a + b[..|b| - 1];
      LowerSetAppend(a, b[..|b| - 1]);
    }
  }

  /** What is kept comes from the input. */
  lemma {:induction false} KeepFirstFromInput(xs: seq<string>)
    ensures forall k :: 0 <= k < |KeepFirst(xs)| ==> KeepFirst(xs)[k] in xs
  {
    if xs != [] {
      var p := xs[..|xs| - 1];
      var x := xs[|xs| - 1];
      KeepFirstFromInput(p);
      forall k | 0 <= k < |KeepFirst(xs)|
        ensures KeepFirst(xs)[k] in xs
      {
        if k < |KeepFirst(p)| {
          assert KeepFirst(xs)[k] == KeepFirst(p)[k];
          var z := KeepFirst(p)[k];
          var m :| 0 <= m < |p| && p[m] == z;
          assert xs[m] == z;
        } else {
          assert KeepFirst(xs)[k] == x;
        }
      }
    }
  }

  /** What is kept covers exactly the input's lower-case forms. */
  lemma {:induction false} KeepFirstSameForms(xs: seq<string>)
    ensures LowerSet(KeepFirst(xs)) == LowerSet(xs)
  {
    if xs != [] {
      var p := xs[..|xs| - 1];
      var x := xs[|xs| - 1];
      KeepFirstSameForms(p);
      var tail := if Lower(x) in LowerSet(p) then [] else [x];
      LowerSetAppend(KeepFirst(p), tail);
      assert LowerSet(tail) == if tail == [] then {} else {Lower(x)} by {
        if tail != [] {
          assert tail[..0] == [];
        }
      }
    }
  }

  /** No two addresses are equal ignoring case. */
  predicate DistinctIgnoringCase(xs: seq<string>) {
    forall i, j :: 0 <= i < j < |xs| ==> Lower(xs[i]) != Lower(xs[j])
  }

  /** No two kept addresses are equal ignoring case. */
  lemma {:induction false} KeepFirstDistinct(xs: seq<string>)
    ensures DistinctIgnoringCase(KeepFirst(xs))
  {
    if xs != [] {
      var p := xs[..|xs| - 1];
      var x := xs[|xs| - 1];
      KeepFirstDistinct(p);
      KeepFirstSameForms(p);
      var q := KeepFirst(p);
      var r := KeepFirst(xs);
      if Lower(x) !in LowerSet(p) {
        assert r == q + [x];
        forall i | 0 <= i < |q|
          ensures Lower(r[i]) != Lower(x)
        {
          assert r[i] == q[i];
          assert Lower(q[i]) in LowerSet(q);
        }
      }
    }
  }

  /** An input with no case-insensitive duplicates is kept whole. */
  lemma {:induction false} KeepFirstNoDuplicates(xs: seq<string>)
    requires DistinctIgnoringCase(xs)
    ensures KeepFirst(xs) == xs
  {
    if xs != [] {
      var p := xs[..|xs| - 1];
      var x := xs[|xs| - 1];
      KeepFirstNoDuplicates(p);
      LowerSetExcludes(p, Lower(x));
      assert xs == p + [x];
    }
  }

  /** A form that no element has is not in LowerSet(xs). */
  lemma {:induction false} LowerSetExcludes(xs: seq<string>, y: string)
    requires forall k :: 0 <= k < |xs| ==> Lower(xs[k]) != y
    ensures y !in LowerSet(xs)
  {
    if xs != [] {
      LowerSetExcludes(xs[..|xs| - 1], y);
    }
  }

  /** The de-duplication loop of extract_emails_from_csv with its set of lower-case forms seen. */
  method DedupEmails(emails: seq<string>) returns (unique: seq<string>)
    ensures unique == KeepFirst(emails)
  {
    unique := [];
    var seen: set<string> := {};
    for i := 0 to |emails|
      invariant unique == KeepFirst(emails[..i])
      invariant seen == LowerSet(emails[..i])
    {
      var email := emails[i];
      assert emails[..i + 1][..i] == emails[..i];
      if Lower(email) !in seen {
        unique := unique + [email];
        seen := seen + {Lower(email)};
      }
    }
    assert emails[..|emails|] == emails;
  }

  // ----- extract_emails_from_csv -----

  /** The addresses before de-duplication: a simple list is searched, a table is read column-wise. */
  function RawEmails(text: string): (r: seq<string>)
    ensures forall k :: 0 <= k < |r| ==> r[k] != ""
  {
    var data := DataText(text);
    if IsEmailList(Strip(ReadLine(data))) then StripNonEmpty(FindAllEmails(data, 0))
    else StructuredEmails(data, DetectDelimiter(text))
  }

  /** extract_emails_from_csv: [] for a missing file, otherwise the raw addresses de-duplicated. */
  function ExtractEmails(fs: FileSystem, path: string): seq<string> {
    if path !in fs then [] else KeepFirst(RawEmails(fs[path]))
  }

  method ExtractEmailsFromCsv(fs: FileSystem, path: string) returns (emails: seq<string>)
    ensures emails == ExtractEmails(fs, path)
  {
    if path !in fs {
      return [];
    }
    var text := fs[path];
    var delimiter := DetectDelimiter(text);
    var data := DataText(text);
    var raw;
    if IsEmailList(Strip(ReadLine(data))) {
      raw := StripNonEmpty(FindAllEmails(data, 0));
    } else {
      raw := ExtractFromStructuredCsv(data, delimiter);
    }
    emails := DedupEmails(raw);
  }

  /** The extracted addresses are non-empty, distinct ignoring case, and each one was found in the file. */
  lemma ExtractedDistinct(fs: FileSystem, path: string)
    ensures var r := ExtractEmails(fs, path);
      DistinctIgnoringCase(r) &&
      (forall k :: 0 <= k < |r| ==> r[k] != "" && r[k] in RawEmails(fs[path]))
  {
    if path in fs {
      var raw := RawEmails(fs[path]);
      KeepFirstDistinct(raw);
      KeepFirstFromInput(raw);
    }
  }

  /** From a simple list, every extracted address passes validate_email. */
  lemma ListModeValid(fs: FileSystem, path: string)
    requires path in fs && IsEmailList(Strip(ReadLine(DataText(fs[path]))))
    ensures forall k :: 0 <= k < |ExtractEmails(fs, path)| ==> ValidateEmail(ExtractEmails(fs, path)[k])
  {
    var data := DataText(fs[path]);
    var found := FindAllEmails(data, 0);
    StripFoundUnchanged(found);
    KeepFirstFromInput(found);
  }

  // ----- clean_csv_file -----

  /** clean_csv_file: the path written and the new file system; the input path when the file cannot be read. */
  function CleanCsvFile(fs: FileSystem, path: string): (FileSystem, string) {
    if path !in fs then (fs, path)
    else
      var dir := if Paths.Dirname(path) == "" then "." else Paths.Dirname(path);
      var out := Paths.JoinPath(dir, "cleaned_" + Paths.Basename(path));
      var lines := ReadLines(fs[path]);
      var content := if lines != [] && Contains(lines[0], Directive) then Concat(lines[1..]) else fs[path];
      (fs[out := content], out)
  }

  /**
   * The cleaned copy sits beside the input as "cleaned_<name>", never overwrites the input, and
   * holds exactly the text the extractor reads as data.
   */
  lemma CleanedCopy(fs: FileSystem, path: string)
    requires path in fs
    ensures var (fs2, out) := CleanCsvFile(fs, path);
      && Paths.Basename(out) == "cleaned_" + Paths.Basename(path)
      && out != path && out in fs2 && fs2[path] == fs[path]
      && fs2[out] == DataText(fs[path])
  {
    var dir := if Paths.Dirname(path) == "" then "." else Paths.Dirname(path);
    var name := "cleaned_" + Paths.Basename(path);
    assert '/' !in name by {
      assert '/' !in Paths.Basename(path);
    }
    Paths.BasenameOfJoin(dir, name);
    var out := Paths.JoinPath(dir, name);
    assert |Paths.Basename(out)| != |Paths.Basename(path)|;
  }
}
