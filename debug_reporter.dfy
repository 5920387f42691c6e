/**
 * The decisions DebugReporter takes on the data it has collected: the advice drawn from a
 * report, how the program was started, which environment variables are kept and how PATH
 * values are sanitised, and how the recommendations are numbered in the Markdown report.
 *
 * A report section is `None` when its key is absent from the report; when present it holds
 * what the rules read from it, with the defaults `.get` supplies already applied (no files
 * missing, no import attempts, no packages, no execution method).
 */
module DebugReporter {
  import opened Wrappers
  import opened Strings
  import Paths

  /** One entry of required_packages: the package and info.get('status'). */
  datatype Package = Package(name: string, status: Option<string>)

  datatype Report = Report(
    filesMissing: Option<seq<string>>,       // the keys of file_structure's files_missing
    importStatuses: Option<seq<string>>,     // the status of each of import_analysis's import_attempts
    packages: Option<seq<Package>>,          // dependencies' required_packages, in dict order
    executionMethod: Option<Option<string>>) // execution_context's execution_method, if it has one

  // The longer texts are written in pieces, which lets the verifier read their letters.
  const RootPackageAdvice := "Add __init__.py to the root directory" + " to enable package imports"
  const AbsoluteImportsAdvice := "Consider using absolute imports" + " for direct script execution"
  const FilesPresentAdvice := "Ensure all required files" + " are present and accessible"
  const InstallPrefix := "Install missing dependencies: "
  const DirectScriptAdvice := "For direct script execution," + " ensure all imports use absolute paths"

  /** [a for a in import_attempts if a['status'] == 'failed'], as the statuses kept. */
  function FailedImports(statuses: seq<string>): (r: seq<string>)
    ensures |r| <= |statuses|
    ensures forall k :: 0 <= k < |r| ==> r[k] == "failed"
    ensures r != [] <==> "failed" in statuses
  {
    if statuses == [] then []
    else if statuses[0] == "failed" then [statuses[0]] + FailedImports(statuses[1..])
    else
      assert statuses == [statuses[0]] + statuses[1..];
      FailedImports(statuses[1..])
  }

  /** [pkg for pkg, info in required_packages.items() if info.get('status') == 'missing']. */
  function MissingPackages(packages: seq<Package>): (r: seq<string>)
    ensures |r| <= |packages|
  {
    if packages == [] then []
    else if packages[0].status == Some("missing") then [packages[0].name] + MissingPackages(packages[1..])
    else MissingPackages(packages[1..])
  }

  function FileAdvice(filesMissing: Option<seq<string>>): seq<string> {
    if filesMissing.Some? && "__init__.py" in filesMissing.value then [RootPackageAdvice] else []
  }

  function ImportAdvice(statuses: Option<seq<string>>): seq<string> {
    if statuses.Some? && FailedImports(statuses.value) != [] then [AbsoluteImportsAdvice, FilesPresentAdvice] else []
  }

  function DependencyAdvice(packages: Option<seq<Package>>): seq<string> {
    if packages.Some? && MissingPackages(packages.value) != [] then [InstallPrefix + Join(MissingPackages(packages.value), ", ")]
    else []
  }

  function ExecutionAdvice(executionMethod: Option<Option<string>>): seq<string> {
    if executionMethod == Some(Some("direct_script")) then [DirectScriptAdvice] else []
  }

  /** What generate_recommendations returns for a report. */
  function Advice(report: Report): seq<string> {
    FileAdvice(report.filesMissing) + ImportAdvice(report.importStatuses)
      + DependencyAdvice(report.packages) + ExecutionAdvice(report.executionMethod)
  }

  /** generate_recommendations: each check appends its advice in turn. */
  method GenerateRecommendations(report: Report) returns (recs: seq<string>)
    ensures recs == Advice(report)
  {
    recs := [];
    if report.filesMissing.Some? {
      if "__init__.py" in report.filesMissing.value {
        recs := recs + [RootPackageAdvice];
      }
    }
    assert recs == FileAdvice(report.filesMissing);
    if report.importStatuses.Some? {
      var failed := FailedImports(report.importStatuses.value);
      if failed != [] {
        recs := recs + [AbsoluteImportsAdvice];
        recs := recs + [FilesPresentAdvice];
      }
    }
    assert recs == FileAdvice(report.filesMissing) + ImportAdvice(report.importStatuses);
    if report.packages.Some? {
      var missing := MissingPackages(report.packages.value);
      if missing != [] {
        recs := recs + [InstallPrefix + Join(missing, ", ")];
      }
    }
    assert recs == FileAdvice(report.filesMissing) + ImportAdvice(report.importStatuses)
      + DependencyAdvice(report.packages);
    if report.executionMethod.Some? {
      if report.executionMethod.value == Some("direct_script") {
        recs := recs + [DirectScriptAdvice];
      }
    }
  }

  /** The place of a recommendation in the fixed order of the checks. */
  function Rank(rec: string): nat {
    if rec == RootPackageAdvice then 0
    else if rec == AbsoluteImportsAdvice then 1
    else if rec == FilesPresentAdvice then 2
    else if StartsWith(rec, InstallPrefix) then 3
    else if rec == DirectScriptAdvice then 4
    else 5
  }

  /** The first letters tell the five recommendations apart. */
  lemma RanksOfAdvice(names: string)
    ensures Rank(RootPackageAdvice) == 0 && Rank(AbsoluteImportsAdvice) == 1 && Rank(FilesPresentAdvice) == 2
    ensures Rank(InstallPrefix + names) == 3 && Rank(DirectScriptAdvice) == 4
  {
    var inst := InstallPrefix + names;
    assert inst[0] == 'I';
    assert RootPackageAdvice[0] == 'A' && AbsoluteImportsAdvice[0] == 'C' && FilesPresentAdvice[0] == 'E';
    assert DirectScriptAdvice[0] == 'F';
    assert inst[..|InstallPrefix|] == InstallPrefix;
  }

  /** The packages whose status is 'missing' are the ones listed, each as often as it occurs. */
  lemma {:induction false} MissingPackagesAre(packages: seq<Package>)
    ensures forall x :: x in MissingPackages(packages) <==> exists k :: 0 <= k < |packages| && packages[k].name == x && packages[k].status == Some("missing")
    ensures forall k :: 0 <= k < |packages| && packages[k].status == Some("missing") ==> packages[k].name in MissingPackages(packages)
    ensures packages == [] ==> MissingPackages(packages) == []
  {
    if packages != [] {
      MissingPackagesAre(packages[1..]);
      forall x
        ensures x in MissingPackages(packages) <==> exists k :: 0 <= k < |packages| && packages[k].name == x && packages[k].status == Some("missing")
      {
        if x in MissingPackages(packages) && !(packages[0].status == Some("missing") && packages[0].name == x) {
          var k :| 0 <= k < |packages[1..]| && packages[1..][k].name == x && packages[1..][k].status == Some("missing");
          assert packages[k + 1] == packages[1..][k];
        }
        if exists k :: 0 <= k < |packages| && packages[k].name == x && packages[k].status == Some("missing") {
          var k :| 0 <= k < |packages| && packages[k].name == x && packages[k].status == Some("missing");
          if k > 0 {
            assert packages[1..][k - 1] == packages[k];
          }
        }
      }
    }
  }

  /** The missing packages keep the order of required_packages. */
  lemma {:induction false} MissingPackagesAppend(a: seq<Package>, b: seq<Package>)
    ensures MissingPackages(a + b) == MissingPackages(a) + MissingPackages(b)
  {
    if a == [] {
      assert a + b == b;
    } else {
      assert (a + b)[1..] == a[1..] + b;
      MissingPackagesAppend(a[1..], b);
    }
  }

  /** A missing __init__.py yields the root-package advice, and nothing else does. */
  lemma RootPackageAdvised(report: Report)
    ensures RootPackageAdvice in Advice(report) <==> report.filesMissing.Some? && "__init__.py" in report.filesMissing.value
  {
    RanksOfAdvice(if report.packages.Some? then Join(MissingPackages(report.packages.value), ", ") else "");
  }

  /**
   * Both import recommendations are given, one after the other, exactly when some import
   * attempt failed; an attempt with status 'error' does not count as failed.
   */
  lemma ImportAdvised(report: Report)
    ensures AbsoluteImportsAdvice in Advice(report) <==> report.importStatuses.Some? && "failed" in report.importStatuses.value
    ensures FilesPresentAdvice in Advice(report) <==> AbsoluteImportsAdvice in Advice(report)
    ensures forall i :: 0 <= i < |Advice(report)| && Advice(report)[i] == AbsoluteImportsAdvice ==>
      i + 1 < |Advice(report)| && Advice(report)[i + 1] == FilesPresentAdvice
  {
    var recs := Advice(report);
    RanksOfAdvice(if report.packages.Some? then Join(MissingPackages(report.packages.value), ", ") else "");
    var f := FileAdvice(report.filesMissing);
    forall i | 0 <= i < |recs| && recs[i] == AbsoluteImportsAdvice
      ensures i + 1 < |recs| && recs[i + 1] == FilesPresentAdvice
    {
      assert i == |f|;
    }
  }

  /** The missing packages are named in one recommendation, joined by ", ", when there is one. */
  lemma DependencyAdvised(report: Report)
    ensures (exists k :: 0 <= k < |Advice(report)| && StartsWith(Advice(report)[k], InstallPrefix)) <==>
      report.packages.Some? && exists k :: 0 <= k < |report.packages.value| && report.packages.value[k].status == Some("missing")
    ensures forall k :: 0 <= k < |Advice(report)| && StartsWith(Advice(report)[k], InstallPrefix) ==>
      Advice(report)[k] == InstallPrefix + Join(MissingPackages(report.packages.value), ", ")
  {
    var recs := Advice(report);
    var names := if report.packages.Some? then Join(MissingPackages(report.packages.value), ", ") else "";
    RanksOfAdvice(names);
    var d := DependencyAdvice(report.packages);
    var before := FileAdvice(report.filesMissing) + ImportAdvice(report.importStatuses);
    assert recs == before + d + ExecutionAdvice(report.executionMethod);
    RanksByPart(report);
    forall k | 0 <= k < |recs| && StartsWith(recs[k], InstallPrefix)
      ensures k == |before| && d != [] && recs[k] == d[0]
    {
      InstallRank(recs[k]);
    }
    if report.packages.Some? {
      MissingPackagesAre(report.packages.value);
      if MissingPackages(report.packages.value) != [] {
        var x := MissingPackages(report.packages.value)[0];
        assert x in MissingPackages(report.packages.value);
        assert recs[|before|] == InstallPrefix + names;
        assert StartsWith(recs[|before|], InstallPrefix);
      }
    }
  }

  /** The recommendations come in the order of the checks, each at most once. */
  lemma AdviceInOrder(report: Report)
    ensures |Advice(report)| <= 5
    ensures forall i, j :: 0 <= i < j < |Advice(report)| ==> Rank(Advice(report)[i]) < Rank(Advice(report)[j])
  {
    RanksByPart(report);
  }

  /** The rank of each recommendation, by the check that gave it. */
  lemma RanksByPart(report: Report)
    ensures var f, m, d := FileAdvice(report.filesMissing), ImportAdvice(report.importStatuses), DependencyAdvice(report.packages);
      forall k :: 0 <= k < |Advice(report)| ==>
        (k < |f| ==> Rank(Advice(report)[k]) == 0) &&
        (|f| <= k < |f| + |m| ==> Rank(Advice(report)[k]) == k - |f| + 1) &&
        (|f| + |m| <= k < |f| + |m| + |d| ==> Rank(Advice(report)[k]) == 3) &&
        (|f| + |m| + |d| <= k ==> Rank(Advice(report)[k]) == 4)
  {
    RanksOfAdvice(if report.packages.Some? then Join(MissingPackages(report.packages.value), ", ") else "");
  }

  /** A text that starts like the install advice has its rank. */
  lemma InstallRank(s: string)
    requires StartsWith(s, InstallPrefix)
    ensures Rank(s) == 3
  {
    RanksOfAdvice("");
    assert s[0] == InstallPrefix[0] == 'I';
    assert RootPackageAdvice[0] == 'A' && AbsoluteImportsAdvice[0] == 'C' && FilesPresentAdvice[0] == 'E';
  }

  /** A report without any of the four sections gets no recommendation. */
  lemma NoSectionsNoAdvice()
    ensures Advice(Report(None, None, None, None)) == []
  {
  }

  /** Only the packages found missing decide: the same packages reported in two parts give the same advice. */
  lemma DependencyAdviceOfParts(a: seq<Package>, b: seq<Package>)
    ensures DependencyAdvice(Some(a + b)) ==
      if MissingPackages(a) + MissingPackages(b) == [] then []
      else [InstallPrefix + Join(MissingPackages(a) + MissingPackages(b), ", ")]
  {
    MissingPackagesAppend(a, b);
  }

  /**
   * collect_execution_context's execution_method: 'unknown' without a main module file, else
   * 'direct_script' when the file is named cdpRunbooker.py, else 'module_execution' when '-m'
   * is an argument, else 'script_execution'. `mainFile` is the main module's __file__.
   */
  function ExecutionMethod(mainFile: Option<string>, argv: seq<string>): string {
    if mainFile.None? || mainFile.value == "" then "unknown"
    else if Paths.PathName(mainFile.value) == "cdpRunbooker.py" then "direct_script"
    else if "-m" in argv then "module_execution"
    else "script_execution"
  }

  /**
   * The direct-script advice is given for a collected execution context exactly when the
   * main module's file is named cdpRunbooker.py; running with -m never earns it.
   */
  lemma DirectScriptAdvised(report: Report, mainFile: Option<string>, argv: seq<string>)
    requires report.executionMethod == Some(Some(ExecutionMethod(mainFile, argv)))
    ensures DirectScriptAdvice in Advice(report) <==>
      mainFile.Some? && mainFile.value != "" && Paths.PathName(mainFile.value) == "cdpRunbooker.py"
  {
    RanksOfAdvice(if report.packages.Some? then Join(MissingPackages(report.packages.value), ", ") else "");
  }

  /** The method is one of the four names, and a named main file always gets a known method. */
  lemma ExecutionMethodKnown(mainFile: Option<string>, argv: seq<string>)
    ensures ExecutionMethod(mainFile, argv) in ["unknown", "direct_script", "module_execution", "script_execution"]
    ensures ExecutionMethod(mainFile, argv) == "unknown" <==> mainFile.None? || mainFile.value == ""
  {
  }

  const RelevantEnvVars := ["PATH", "PYTHONPATH", "VIRTUAL_ENV", "CONDA_DEFAULT_ENV", "SHELL", "TERM", "LANG", "LC_ALL"]

  /** A variable's value as reported: in PATH and PYTHONPATH the home directory becomes '~'. */
  function Sanitised(name: string, value: string, home: string): string {
    if name == "PATH" || name == "PYTHONPATH" then ReplaceAll(value, home, "~") else value
  }

  /**
   * The variables part of collect_system_info: each relevant variable that is set to a
   * non-empty value, sanitised. `environ` is os.environ and `home` is str(Path.home()).
   */
  method CollectVariables(environ: map<string, string>, home: string) returns (vars: map<string, string>)
    ensures forall v :: v in vars <==> v in RelevantEnvVars && v in environ && environ[v] != ""
    ensures forall v :: v in vars ==> vars[v] == Sanitised(v, environ[v], home)
  {
    vars := map[];
    for i := 0 to |RelevantEnvVars|
      invariant forall v :: v in vars <==> v in RelevantEnvVars[..i] && v in environ && environ[v] != ""
      invariant forall v :: v in vars ==> vars[v] == Sanitised(v, environ[v], home)
    {
      var name := RelevantEnvVars[i];
      assert RelevantEnvVars[..i + 1] == RelevantEnvVars[..i] + [name];
      if name in environ && environ[name] != "" {
        vars := vars[name := Sanitised(name, environ[name], home)];
      }
    }
    assert RelevantEnvVars[..|RelevantEnvVars|] == RelevantEnvVars;
  }

  /** Only PATH and PYTHONPATH are rewritten; a value that does not mention home is kept as it is. */
  lemma SanitisedKeeps(name: string, value: string, home: string)
    ensures name != "PATH" && name != "PYTHONPATH" ==> Sanitised(name, value, home) == value
    ensures home != [] && !Contains(value, home) ==> Sanitised(name, value, home) == value
  {
    if home != [] && !Contains(value, home) {
      ReplaceAllAbsent(value, home, "~");
    }
  }

  /** After sanitising, a PATH value no longer mentions the home directory (one without '~' in it). */
  lemma {:induction false} NoHomeLeft(value: string, home: string)
    requires home != [] && '~' !in home
    ensures !Contains(ReplaceAll(value, home, "~"), home)
    decreases |value|
  {
    match IndexOf(value, home)
    case None =>
    case Some(i) =>
      var a := value[..i];
      var rest := value[i + |home|..];
      var b := ReplaceAll(rest, home, "~");
      NoHomeLeft(rest, home);
      BeforeFirstOccurrence(value, home, i);
      NoneAcrossTilde(a, b, home);
      assert ReplaceAll(value, home, "~") == a + "~" + b;
  }

  /** Before the first occurrence of `p` there is none. */
  lemma BeforeFirstOccurrence(s: string, p: string, i: nat)
    requires p != [] && IndexOf(s, p) == Some(i)
    ensures forall j: nat :: j + |p| <= |s[..i]| ==> !OccursAt(s[..i], p, j)
  {
    assert IndexOfFrom(s, p, 0) == Some(i) && OccursAt(s, p, i);
    forall j: nat | j + |p| <= i
      ensures !OccursAt(s[..i], p, j)
    {
      assert !OccursAt(s, p, j);
      assert s[..i][j..j + |p|] == s[j..j + |p|];
    }
  }

  /** A letter inside an occurrence of `p` is a letter of `p`. */
  lemma WindowLetter(r: string, p: string, k: nat, m: nat)
    requires OccursAt(r, p, k) && m < |r|
    ensures k <= m < k + |p| ==> p[m - k] == r[m]
  {
    if k <= m < k + |p| {
      assert r[k..k + |p|][m - k] == r[m];
    }
  }

  /**
   * A pattern without '~' that occurs neither in `a` nor in `b` does not occur in a + "~" + b:
   * it cannot take in the '~' between them.
   */
  lemma NoneAcrossTilde(a: string, b: string, p: string)
    requires p != [] && '~' !in p
    requires forall j: nat :: j + |p| <= |a| ==> !OccursAt(a, p, j)
    requires !Contains(b, p)
    ensures !Contains(a + "~" + b, p)
  {
    var r := a + "~" + b;
    if Contains(r, p) {
      var k := IndexOf(r, p).value;
      assert OccursAt(r, p, k);
      WindowLetter(r, p, k, |a|);
      if k + |p| <= |a| {
        assert a[k..k + |p|] == r[k..k + |p|];
        assert OccursAt(a, p, k);
      } else if k > |a| {
        assert r[|a| + 1..] == b;
        assert b[k - |a| - 1..k - |a| - 1 + |p|] == r[k..k + |p|];
        ContainsAt(b, p, k - |a| - 1);
      }
    }
  }

  /** The Recommendations section of format_report_as_markdown: a heading, then "<n>. <rec>" from 1. */
  method RecommendationsSection(recs: seq<string>) returns (lines: seq<string>)
    ensures |lines| == |recs| + 3
    ensures lines[0] == "## Recommendations" && lines[1] == "" && lines[|lines| - 1] == ""
    ensures forall k :: 0 <= k < |recs| ==> lines[k + 2] == NumberedLine(k + 1, recs[k])
  {
    lines := ["## Recommendations", ""];
    for i := 0 to |recs|
      invariant |lines| == i + 2
      invariant lines[0] == "## Recommendations" && lines[1] == ""
      invariant forall k :: 0 <= k < i ==> lines[k + 2] == NumberedLine(k + 1, recs[k])
    {
      lines := lines + [NumberedLine(i + 1, recs[i])];
    }
    lines := lines + [""];
  }

  /** f"{n}. {rec}". */
  function NumberedLine(n: nat, rec: string): string {
    NatToString(n) + ". " + rec
  }

  /** The number and the recommendation can be read back from a numbered line. */
  lemma NumberedLineReadsBack(n: nat, rec: string)
    ensures BeforeFirst(NumberedLine(n, rec), ". ") == NatToString(n)
    ensures Contains(NumberedLine(n, rec), ". ") && AfterFirst(NumberedLine(n, rec), ". ") == rec
    ensures DigitsValue(NatToString(n)) == n
  {
    var d := NatToString(n);
    var line := NumberedLine(n, rec);
    assert OccursAt(line, ". ", |d|);
    forall j: nat | j < |d|
      ensures !OccursAt(line, ". ", j)
    {
      assert line[j] == d[j] && IsDigit(d[j]);
    }
    assert IndexOf(line, ". ") == Some(|d|);
    assert line[..|d|] == d;
    assert line[|d| + 2..] == rec;
    NatToStringRoundTrip(n);
  }
}
