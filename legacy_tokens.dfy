/**
 * Tokens that older versions of CDP Runbooker left in shell start-up files: a line
 * `# Added by CDP Runbooker` followed by a line `export QUIP_API_TOKEN=<token>`. This module
 * finds such tokens (SecureTokenManager._detect_legacy_tokens and _extract_token_from_line),
 * removes the pairs again (_cleanup_legacy_tokens), and names the files looked at
 * (_get_shell_config_files).
 */
module LegacyTokens {
  import opened Wrappers
  import opened Strings
  import opened Paths
  import opened Files
  import opened Seqs

  const Sentinel := "# Added by CDP Runbooker"
  const ExportPrefix := "export QUIP_API_TOKEN="

  /** A token found in a file must be longer than this. */
  const MinLegacyLength := 30

  // ----- _extract_token_from_line -----

  /** token_part[1:-1]: the text inside the outer two characters ("" for a single character). */
  function Inner(s: string): (r: string)
    ensures |s| >= 2 ==> s == [s[0]] + r + [s[|s| - 1]]
    ensures |s| < 2 ==> r == ""
  {
    if |s| >= 2 then s[1..|s| - 1] else ""
  }

  /** One pair of matching outer double or single quotes removed. */
  function Unquote(s: string): string {
    if StartsWith(s, "\"") && EndsWith(s, "\"") then Inner(s)
    else if StartsWith(s, "'") && EndsWith(s, "'") then Inner(s)
    else s
  }

  /**
   * _extract_token_from_line: None without an '='; otherwise the stripped text after the first
   * '=', unquoted, when it is longer than 30 characters.
   */
  function ExtractTokenFromLine(line: string): (r: Option<string>)
    ensures '=' !in line ==> r == None
    ensures r.Some? ==> |r.value| > MinLegacyLength
  {
    match IndexOfChar(line, '=')
    case None => None
    case Some(i) =>
      var token := Unquote(Strip(line[i + 1..]));
      if token != "" && |token| > MinLegacyLength then Some(token) else None
  }

  /** The '=' of the export prefix is its last character and its only '='. */
  lemma ExportPrefixEquals(rest: string)
    ensures IndexOfChar(ExportPrefix + rest, '=') == Some(|ExportPrefix| - 1)
    ensures (ExportPrefix + rest)[|ExportPrefix|..] == rest
  {
    var s := ExportPrefix + rest;
    assert s[|ExportPrefix| - 1] == '=';
    assert forall j :: 0 <= j < |ExportPrefix| - 1 ==> s[j] == ExportPrefix[j] != '=';
  }

  /** The line the tool wrote, `export QUIP_API_TOKEN="<token>"`, gives the token back exactly when it is long enough. */
  lemma ExtractQuotedExport(t: string)
    ensures ExtractTokenFromLine(ExportPrefix + "\"" + t + "\"") ==
      if |t| > MinLegacyLength then Some(t) else None
  {
    var q := "\"" + t + "\"";
    assert ExportPrefix + "\"" + t + "\"" == ExportPrefix + q;
    ExportPrefixEquals(q);
    StripOfStripped(q);
    assert StartsWith(q, "\"") && EndsWith(q, "\"");
    assert Inner(q) == t;
  }

  /** The same with single quotes. */
  lemma ExtractSingleQuotedExport(t: string)
    ensures ExtractTokenFromLine(ExportPrefix + "'" + t + "'") ==
      if |t| > MinLegacyLength then Some(t) else None
  {
    var q := "'" + t + "'";
    assert ExportPrefix + "'" + t + "'" == ExportPrefix + q;
    ExportPrefixEquals(q);
    StripOfStripped(q);
    assert !StartsWith(q, "\"");
    assert StartsWith(q, "'") && EndsWith(q, "'");
    assert Inner(q) == t;
  }

  /** A lone quote character as the value is sliced to "" and refused. */
  lemma LoneQuoteRefused()
    ensures ExtractTokenFromLine(ExportPrefix + "\"") == None
  {
    ExportPrefixEquals("\"");
    StripOfStripped("\"");
  }

  // ----- the marked lines -----

  predicate IsSentinel(line: string) {
    Strip(line) == Sentinel
  }

  predicate IsExport(line: string) {
    StartsWith(Strip(line), ExportPrefix)
  }

  /** No line is both a marker and an export line. */
  lemma SentinelIsNotExport(line: string)
    ensures !(IsSentinel(line) && IsExport(line))
  {
    if IsSentinel(line) {
      assert Strip(line)[0] == '#' != ExportPrefix[0];
    }
  }

  datatype LineKind = Marker | Export | Plain

  /** What a line is to the scan: the marker, an export line, or anything else. */
  function KindOf(line: string): (k: LineKind)
    ensures k == Marker <==> IsSentinel(line)
    ensures k == Export <==> IsExport(line)
  {
    SentinelIsNotExport(line);
    if IsSentinel(line) then Marker else if IsExport(line) then Export else Plain
  }

  // ----- _detect_legacy_tokens, one file -----

  /** The token a marker at line i introduces, if the next line is an export line whose value extracts. */
  function TokenAt(lines: seq<string>, i: nat): Option<string>
    requires i < |lines|
  {
    if KindOf(lines[i]) == Marker && i + 1 < |lines| && KindOf(lines[i + 1]) == Export then
      ExtractTokenFromLine(Strip(lines[i + 1]))
    else None
  }

  /** For each line, the token a marker there introduces. */
  function Tokens(lines: seq<string>): (r: seq<Option<string>>)
    ensures |r| == |lines| && forall i :: 0 <= i < |lines| ==> r[i] == TokenAt(lines, i)
  {
    seq(|lines|, i requires 0 <= i < |lines| => TokenAt(lines, i))
  }

  /** The first present value at or after index i. */
  function FirstSome<T>(xs: seq<Option<T>>, i: nat): (r: Option<T>)
    requires i <= |xs|
    ensures r.Some? ==> exists k :: i <= k < |xs| && xs[k] == r
    ensures r.None? ==> forall k :: i <= k < |xs| ==> xs[k].None?
    decreases |xs| - i
  {
    if i == |xs| then None
    else if xs[i].Some? then xs[i]
    else FirstSome(xs, i + 1)
  }

  /** The first present value is the one at the earliest index that has one. */
  lemma {:induction false} FirstSomeIsEarliest<T>(xs: seq<Option<T>>, i: nat, k: nat)
    requires i <= k < |xs| && xs[k].Some?
    requires forall j :: i <= j < k ==> xs[j].None?
    ensures FirstSome(xs, i) == xs[k]
    decreases k - i
  {
    if i < k {
      FirstSomeIsEarliest(xs, i + 1, k);
    }
  }

  /** The token the scan of a file's lines finds: the one introduced by the earliest marker that yields one. */
  function FirstToken(lines: seq<string>): Option<string> {
    FirstSome(Tokens(lines), 0)
  }

  /** The scan of one file's lines, stopping at the first token found. */
  method FindTokenInLines(lines: seq<string>) returns (token: Option<string>)
    ensures token == FirstToken(lines)
  {
    ghost var tokens := Tokens(lines);
    for i := 0 to |lines|
      invariant FirstSome(tokens, 0) == FirstSome(tokens, i)
    {
      var line := Strip(lines[i]);
      if line == Sentinel && i + 1 < |lines| {
        var next := Strip(lines[i + 1]);
        if StartsWith(next, ExportPrefix) {
          var t := ExtractTokenFromLine(next);
          assert tokens[i] == t;
          if t.Some? {
            return t;
          }
        } else {
          assert tokens[i] == None;
        }
      } else {
        assert tokens[i] == None;
      }
    }
    return None;
  }

  // ----- _detect_legacy_tokens, all files -----

  /** The token found in the file at path f, if it exists. */
  function FileToken(fs: FileSystem, f: string): Option<string> {
    if f in fs then FirstToken(ReadLines(fs[f])) else None
  }

  /** The token of each existing file that has one, with its path, in the order the files are listed. */
  function Detect(fs: FileSystem, files: seq<string>): (r: seq<(string, string)>)
    ensures |r| <= |files|
    decreases |files|
  {
    if files == [] then []
    else
      var f := files[|files| - 1];
      Detect(fs, files[..|files| - 1]) + (if FileToken(fs, f).Some? then [(f, FileToken(fs, f).value)] else [])
  }

  /** An entry is a listed, existing file with its first token, and every such file has its entry. */
  lemma {:induction false} DetectEntries(fs: FileSystem, files: seq<string>, f: string, t: string)
    ensures (f, t) in Detect(fs, files) <==> f in files && FileToken(fs, f) == Some(t)
    decreases |files|
  {
    if files != [] {
      DetectEntries(fs, files[..|files| - 1], f, t);
      assert files == files[..|files| - 1] + [files[|files| - 1]];
    }
  }

  /** Files listed once give at most one entry each. */
  lemma {:induction false} DetectOnePerFile(fs: FileSystem, files: seq<string>)
    requires forall i, j :: 0 <= i < j < |files| ==> files[i] != files[j]
    ensures var r := Detect(fs, files); forall i, j :: 0 <= i < j < |r| ==> r[i].0 != r[j].0
    decreases |files|
  {
    if files != [] {
      var p := files[..|files| - 1];
      var f := files[|files| - 1];
      DetectOnePerFile(fs, p);
      var prior := Detect(fs, p);
      forall k | 0 <= k < |prior|
        ensures prior[k].0 != f
      {
        DetectEntries(fs, p, prior[k].0, prior[k].1);
      }
    }
  }

  /** The loop over the files, skipping missing ones. */
  method DetectLegacyTokens(fs: FileSystem, files: seq<string>) returns (found: seq<(string, string)>)
    ensures found == Detect(fs, files)
  {
    found := [];
    for i := 0 to |files|
      invariant found == Detect(fs, files[..i])
    {
      assert files[..i + 1][..i] == files[..i];
      if files[i] in fs {
        var token := FindTokenInLines(ReadLines(fs[files[i]]));
        if token.Some? {
          found := found + [(files[i], token.value)];
        }
      }
    }
    assert files[..|files|] == files;
  }

  // ----- _cleanup_legacy_tokens -----

  /** Line k survives the cleanup: it is not a marker, nor an export line straight after one. */
  predicate Kept(kinds: seq<LineKind>, k: nat)
    requires k < |kinds|
  {
    kinds[k] != Marker && !(k > 0 && kinds[k - 1] == Marker && kinds[k] == Export)
  }

  /** The kind of each line. */
  function Kinds(lines: seq<string>): (r: seq<LineKind>)
    ensures |r| == |lines|
  {
    if lines == [] then [] else Kinds(lines[..|lines| - 1]) + [KindOf(lines[|lines| - 1])]
  }

  lemma {:induction false} KindsAt(lines: seq<string>, i: nat)
    requires i < |lines|
    ensures Kinds(lines)[i] == KindOf(lines[i])
    decreases |lines|
  {
    if i < |lines| - 1 {
      KindsAt(lines[..|lines| - 1], i);
    }
  }

  /** The surviving lines from line i on, in their order. */
  function KeptFrom(lines: seq<string>, kinds: seq<LineKind>, i: nat): seq<string>
    requires |kinds| == |lines| && i <= |lines|
    decreases |lines| - i
  {
    if i == |lines| then []
    else (if Kept(kinds, i) then [lines[i]] else []) + KeptFrom(lines, kinds, i + 1)
  }

  /** None of the surviving lines is a marker. */
  lemma {:induction false} KeptFromNoMarker(lines: seq<string>, kinds: seq<LineKind>, i: nat)
    requires kinds == Kinds(lines) && i <= |lines|
    ensures forall k :: 0 <= k < |KeptFrom(lines, kinds, i)| ==> !IsSentinel(KeptFrom(lines, kinds, i)[k])
    decreases |lines| - i
  {
    if i < |lines| {
      KeptFromNoMarker(lines, kinds, i + 1);
      var r := KeptFrom(lines, kinds, i);
      var rest := KeptFrom(lines, kinds, i + 1);
      if Kept(kinds, i) {
        assert r == [lines[i]] + rest;
        KindsAt(lines, i);
        forall k | 1 <= k < |r|
          ensures !IsSentinel(r[k])
        {
          assert r[k] == rest[k - 1];
        }
      } else {
        assert r == rest;
      }
    }
  }

  /** The lines the cleanup writes back. */
  function Cleaned(lines: seq<string>): (r: seq<string>)
    ensures forall k :: 0 <= k < |r| ==> !IsSentinel(r[k])
  {
    KeptFromNoMarker(lines, Kinds(lines), 0);
    KeptFrom(lines, Kinds(lines), 0)
  }

  /** The cleanup loop: a marker is skipped, and so is an export line right after it. */
  method CleanLines(lines: seq<string>) returns (newLines: seq<string>)
    ensures newLines == Cleaned(lines)
  {
    ghost var kinds := Kinds(lines);
    newLines := [];
    var i: nat := 0;
    while i < |lines|
      invariant i <= |lines|
      invariant newLines + KeptFrom(lines, kinds, i) == KeptFrom(lines, kinds, 0)
      invariant 0 < i < |lines| && kinds[i - 1] == Marker ==> kinds[i] != Export
      decreases |lines| - i
    {
      KindsAt(lines, i);
      var line := Strip(lines[i]);
      if line == Sentinel {
        assert kinds[i] == Marker;
        assert KeptFrom(lines, kinds, i) == KeptFrom(lines, kinds, i + 1);
        i := i + 1;
        if i < |lines| {
          KindsAt(lines, i);
        }
        if i < |lines| && StartsWith(Strip(lines[i]), ExportPrefix) {
          assert kinds[i] == Export;
          assert KeptFrom(lines, kinds, i) == KeptFrom(lines, kinds, i + 1);
          i := i + 1;
        }
        continue;
      } else {
        assert kinds[i] != Marker && Kept(kinds, i);
        assert KeptFrom(lines, kinds, i) == [lines[i]] + KeptFrom(lines, kinds, i + 1);
        AppendAssoc(newLines, [lines[i]], KeptFrom(lines, kinds, i + 1));
        newLines := newLines + [lines[i]];
        i := i + 1;
      }
    }
  }

  /** Lines without a marker are kept as they are. */
  lemma {:induction false} KeptFromUnmarked(lines: seq<string>, kinds: seq<LineKind>, i: nat)
    requires |kinds| == |lines| && i <= |lines|
    requires forall j :: 0 <= j < |lines| ==> kinds[j] != Marker
    ensures KeptFrom(lines, kinds, i) == lines[i..]
    decreases |lines| - i
  {
    if i < |lines| {
      KeptFromUnmarked(lines, kinds, i + 1);
      assert lines[i..] == [lines[i]] + lines[i + 1..];
    }
  }

  /** Lines without a marker are written back unchanged. */
  lemma CleanedUnmarked(lines: seq<string>)
    requires forall k :: 0 <= k < |lines| ==> !IsSentinel(lines[k])
    ensures Cleaned(lines) == lines
  {
    forall j | 0 <= j < |lines|
      ensures Kinds(lines)[j] != Marker
    {
      KindsAt(lines, j);
    }
    KeptFromUnmarked(lines, Kinds(lines), 0);
    assert lines[0..] == lines;
  }

  /** Cleaning twice is cleaning once. */
  lemma CleanedIdempotent(lines: seq<string>)
    ensures Cleaned(Cleaned(lines)) == Cleaned(lines)
  {
    CleanedUnmarked(Cleaned(lines));
  }

  /** After the cleanup a file holds no token for the detection to find. */
  lemma NothingLeftToDetect(lines: seq<string>)
    ensures FirstToken(Cleaned(lines)) == None
  {
    var c := Cleaned(lines);
    var tokens := Tokens(c);
    forall k | 0 <= k < |c|
      ensures tokens[k].None?
    {
      assert KindOf(c[k]) != Marker;
    }
  }

  /** A marker whose next line is not an export line loses only itself; an export line after it goes too. */
  lemma MarkerPairs(lines: seq<string>, i: nat)
    requires i + 1 < |lines| && IsSentinel(lines[i])
    ensures var kinds := Kinds(lines);
      KeptFrom(lines, kinds, i) ==
        if IsExport(lines[i + 1]) then KeptFrom(lines, kinds, i + 2)
        else if IsSentinel(lines[i + 1]) then KeptFrom(lines, kinds, i + 1)
        else [lines[i + 1]] + KeptFrom(lines, kinds, i + 2)
  {
    KindsAt(lines, i);
    KindsAt(lines, i + 1);
  }

  /** The text written back to a file: its lines, cleaned, written one after another. */
  function CleanText(text: string): string {
    Concat(Cleaned(ReadLines(text)))
  }

  /** A file's text without a marker line is written back unchanged. */
  lemma CleanTextUnmarked(text: string)
    requires forall k :: 0 <= k < |ReadLines(text)| ==> !IsSentinel(ReadLines(text)[k])
    ensures CleanText(text) == text
  {
    CleanedUnmarked(ReadLines(text));
    ConcatReadLines(text);
  }

  /** _cleanup_legacy_tokens over the files found: each is rewritten, and its base name reported. */
  function Cleanup(fs: FileSystem, found: seq<(string, string)>): (r: (FileSystem, seq<string>))
    ensures r.0.Keys == fs.Keys
    ensures |r.1| <= |found|
    decreases |found|
  {
    if found == [] then (fs, [])
    else
      var f := found[0].0;
      if f in fs then
        var rest := Cleanup(fs[f := CleanText(fs[f])], found[1..]);
        (rest.0, [Basename(f)] + rest.1)
      else Cleanup(fs, found[1..])
  }

  /** The cleanup touches only the files it was given. */
  lemma {:induction false} CleanupOnlyFound(fs: FileSystem, found: seq<(string, string)>, p: string)
    requires p in fs && forall k :: 0 <= k < |found| ==> found[k].0 != p
    ensures Cleanup(fs, found).0[p] == fs[p]
    decreases |found|
  {
    if found != [] {
      var f := found[0].0;
      if f in fs {
        CleanupOnlyFound(fs[f := CleanText(fs[f])], found[1..], p);
      } else {
        CleanupOnlyFound(fs, found[1..], p);
      }
    }
  }

  // ----- _get_shell_config_files -----

  /** The start-up files looked at: those of zsh, of bash, or all four when the shell is neither. */
  function ShellConfigFiles(shell: string, home: string): (r: seq<string>)
    ensures |r| == 2 || |r| == 4
    ensures Contains(shell, "zsh") ==> r == [JoinPath(home, ".zshrc"), JoinPath(home, ".zprofile")]
  {
    if Contains(shell, "zsh") then [JoinPath(home, ".zshrc"), JoinPath(home, ".zprofile")]
    else if Contains(shell, "bash") then [JoinPath(home, ".bashrc"), JoinPath(home, ".bash_profile")]
    else
      [JoinPath(home, ".zshrc"), JoinPath(home, ".bashrc"),
       JoinPath(home, ".bash_profile"), JoinPath(home, ".zprofile")]
  }

  /** The files are named by the start-up file names, whatever the home directory. */
  lemma ShellConfigNames(shell: string, home: string)
    ensures var files := ShellConfigFiles(shell, home);
      var names := if Contains(shell, "zsh") then [".zshrc", ".zprofile"]
        else if Contains(shell, "bash") then [".bashrc", ".bash_profile"]
        else [".zshrc", ".bashrc", ".bash_profile", ".zprofile"];
      |files| == |names| && forall i :: 0 <= i < |names| ==> Basename(files[i]) == names[i]
  {
    NoSlashInNames();
    if Contains(shell, "zsh") {
      JoinedNames(home, [".zshrc", ".zprofile"]);
    } else if Contains(shell, "bash") {
      JoinedNames(home, [".bashrc", ".bash_profile"]);
    } else {
      JoinedNames(home, [".zshrc", ".bashrc", ".bash_profile", ".zprofile"]);
    }
  }

  lemma NoSlashInNames()
    ensures '/' !in ".zshrc" && '/' !in ".zprofile" && '/' !in ".bashrc" && '/' !in ".bash_profile"
  {
  }

  /** Plain file names joined to a directory keep their names. */
  lemma JoinedNames(home: string, names: seq<string>)
    requires forall i :: 0 <= i < |names| ==> '/' !in names[i]
    ensures forall i :: 0 <= i < |names| ==> Basename(JoinPath(home, names[i])) == names[i]
  {
    forall i | 0 <= i < |names|
      ensures Basename(JoinPath(home, names[i])) == names[i]
    {
      BasenameOfJoin(home, names[i]);
    }
  }
}
