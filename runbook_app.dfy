/**
 * The name and choice logic of cdpRunbooker.py: where the package root is looked for, how an
 * engagement folder is named and placed, how a use-case name is cut out of a template title,
 * how a template is picked from the console, and which folders the CSV workflow tries.
 */
module RunbookApp {
  import opened Wrappers
  import opened Strings
  import opened Paths
  import opened Prompts
  import Validators

  // ----- CDPConfig -----

  const BaseFolderId := "GnqeOTObOTLj"
  const TestFolderId := "LCqeOdDHPHvy"
  const DefaultCsvFolderIds: seq<string> := ["4wX0O30tDBmU", "GnqeOTObOTLj"]

  // ----- find_package_root -----

  /** The directory holds both a `utils` and a `core` entry. */
  predicate HasPackage(exists_: string -> bool, dir: string) {
    exists_(JoinPath(dir, "utils")) && exists_(JoinPath(dir, "core"))
  }

  /** The k-th directory up from `dir`, `up` giving a directory's parent. */
  function Ancestor(up: string -> string, dir: string, k: nat): string {
    if k == 0 then dir else up(Ancestor(up, dir, k - 1))
  }

  /**
   * The search at the `n`-th directory up from `dir` with `tries` steps left: the first
   * directory holding the package, else `fallback` once the tries run out or a directory is its
   * own parent (the file system root).
   */
  function RootFrom(exists_: string -> bool, up: string -> string, dir: string, n: nat, tries: nat, fallback: string): string
    decreases tries
  {
    if tries == 0 then fallback
    else if HasPackage(exists_, Ancestor(up, dir, n)) then Ancestor(up, dir, n)
    else if up(Ancestor(up, dir, n)) == Ancestor(up, dir, n) then fallback
    else RootFrom(exists_, up, dir, n + 1, tries - 1, fallback)
  }

  /** find_package_root(), with os.path.exists as `exists_` and os.path.dirname as the parent. */
  method FindPackageRoot(exists_: string -> bool, scriptDir: string) returns (root: string)
    ensures root == RootFrom(exists_, Dirname, scriptDir, 0, 5, scriptDir)
  {
    var current := scriptDir;
    for n := 0 to 5
      invariant current == Ancestor(Dirname, scriptDir, n)
      invariant RootFrom(exists_, Dirname, scriptDir, 0, 5, scriptDir) == RootFrom(exists_, Dirname, scriptDir, n, 5 - n, scriptDir)
    {
      if HasPackage(exists_, current) {
        return current;
      }
      var parent := Dirname(current);
      if parent == current {
        break;
      }
      current := parent;
    }
    return scriptDir;
  }

  /** None of the first `n` directories up from `dir` (dir itself first) holds the package. */
  predicate NoneHoldsBelow(exists_: string -> bool, up: string -> string, dir: string, n: nat)
    decreases n
  {
    n == 0 || (!HasPackage(exists_, Ancestor(up, dir, n - 1)) && NoneHoldsBelow(exists_, up, dir, n - 1))
  }

  /**
   * The search started `start` steps up, with `tries` steps left, ends in the fallback or in the
   * nearest ancestor `k` that holds the package, none nearer holding it.
   */
  lemma {:induction false} RootIsNearestAncestor(exists_: string -> bool, up: string -> string, dir: string, start: nat, tries: nat, fallback: string)
    returns (k: nat)
    requires NoneHoldsBelow(exists_, up, dir, start)
    ensures RootFrom(exists_, up, dir, start, tries, fallback) != fallback ==>
      && start <= k < start + tries
      && RootFrom(exists_, up, dir, start, tries, fallback) == Ancestor(up, dir, k)
      && HasPackage(exists_, Ancestor(up, dir, k)) && NoneHoldsBelow(exists_, up, dir, k)
    decreases tries
  {
    k := start;
    var here := Ancestor(up, dir, start);
    if tries > 0 && !HasPackage(exists_, here) && up(here) != here {
      k := RootIsNearestAncestor(exists_, up, dir, start + 1, tries - 1, fallback);
    }
  }

  /**
   * find_package_root() answers the script directory, or the nearest of it and its first four
   * parents that holds both `utils` and `core`.
   */
  lemma PackageRootFound(exists_: string -> bool, scriptDir: string) returns (k: nat)
    ensures var r := RootFrom(exists_, Dirname, scriptDir, 0, 5, scriptDir);
      r == scriptDir ||
      (k < 5 && r == Ancestor(Dirname, scriptDir, k) && HasPackage(exists_, r) && NoneHoldsBelow(exists_, Dirname, scriptDir, k))
  {
    k := RootIsNearestAncestor(exists_, Dirname, scriptDir, 0, 5, scriptDir);
  }

  // ----- FolderManager.create_engagement_folder -----

  /** The engagement folder's title, with the SIM id appended only when there is one. */
  function FolderName(customer: string, engagement: string, month: string, sim: string): string {
    var base := "CDP_" + month + "_" + customer + "_" + engagement;
    if sim != "" then base + "_" + sim else base
  }

  /** The folder the engagement folder is created in. */
  function ParentFolder(isTest: bool): (id: string)
    ensures id == TestFolderId <==> isTest
  {
    if isTest then TestFolderId else BaseFolderId
  }

  lemma ValidConcat(a: string, b: string)
    ensures Validators.ValidateFolderName(a + b) <==> Validators.ValidateFolderName(a) && Validators.ValidateFolderName(b)
  {
    if Validators.ValidateFolderName(a) && Validators.ValidateFolderName(b) {
      forall i | 0 <= i < |a + b|
        ensures !Validators.IsForbidden((a + b)[i])
      {
        if i >= |a| {
          assert (a + b)[i] == b[i - |a|];
        }
      }
    }
    if Validators.ValidateFolderName(a + b) {
      forall i | 0 <= i < |a|
        ensures !Validators.IsForbidden(a[i])
      {
        assert (a + b)[i] == a[i];
      }
      forall i | 0 <= i < |b|
        ensures !Validators.IsForbidden(b[i])
      {
        assert (a + b)[|a| + i] == b[i];
      }
    }
  }

  /**
   * The folder's title starts with "CDP_" and the month, ends with the SIM id when one is
   * given, and passes validate_folder_name exactly when each part the user typed does.
   */
  lemma FolderNameShape(customer: string, engagement: string, month: string, sim: string)
    ensures StartsWith(FolderName(customer, engagement, month, sim), "CDP_" + month + "_")
    ensures sim != "" ==> EndsWith(FolderName(customer, engagement, month, sim), "_" + sim)
    ensures Validators.ValidateFolderName(FolderName(customer, engagement, month, sim)) <==>
      Validators.ValidateFolderName(customer) && Validators.ValidateFolderName(engagement) &&
      Validators.ValidateFolderName(month) && Validators.ValidateFolderName(sim)
  {
    var base := "CDP_" + month + "_" + customer + "_" + engagement;
    var name := FolderName(customer, engagement, month, sim);
    assert name[..|"CDP_" + month + "_"|] == "CDP_" + month + "_";
    if sim != "" {
      assert name == base + ("_" + sim);
    }
    FolderNameValid(customer, engagement, month, sim);
  }

  lemma FolderNameValid(customer: string, engagement: string, month: string, sim: string)
    ensures Validators.ValidateFolderName(FolderName(customer, engagement, month, sim)) <==>
      Validators.ValidateFolderName(customer) && Validators.ValidateFolderName(engagement) &&
      Validators.ValidateFolderName(month) && Validators.ValidateFolderName(sim)
  {
    var base := "CDP_" + month + "_" + customer + "_" + engagement;
    assert Validators.ValidateFolderName("CDP_");
    assert Validators.ValidateFolderName("_");
    ValidConcat("CDP_", month);
    ValidConcat("CDP_" + month, "_");
    ValidConcat("CDP_" + month + "_", customer);
    ValidConcat("CDP_" + month + "_" + customer, "_");
    ValidConcat("CDP_" + month + "_" + customer + "_", engagement);
    if sim != "" {
      ValidConcat(base, "_");
      ValidConcat(base + "_", sim);
    } else {
      assert Validators.ValidateFolderName(sim);
    }
  }

  // ----- CDPRunbookApp._extract_use_case_name -----

  const UseCasePrefixes: seq<string> := ["[WIP] - ", "CDP - ", "CDP "]
  const UseCaseSuffixes: seq<string> := [" - Runbook Template", " Runbook Template", " Template"]

  /** Each pattern in turn replaced by nothing everywhere it occurs. */
  function RemoveEach(name: string, patterns: seq<string>): string
    decreases |patterns|
  {
    if patterns == [] then name else RemoveEach(ReplaceAll(name, patterns[0], ""), patterns[1..])
  }

  /** The use-case name: prefixes removed, then suffixes, then whitespace stripped. */
  function UseCaseName(title: string): (r: string)
    ensures r == [] || (!IsSpace(r[0]) && !IsSpace(r[|r| - 1]))
  {
    Strip(RemoveEach(RemoveEach(title, UseCasePrefixes), UseCaseSuffixes))
  }

  /** _extract_use_case_name(template_title): `name` reassigned once per pattern. */
  method ExtractUseCaseName(title: string) returns (name: string)
    ensures name == UseCaseName(title)
  {
    name := title;
    for i := 0 to |UseCasePrefixes|
      invariant RemoveEach(title, UseCasePrefixes) == RemoveEach(name, UseCasePrefixes[i..])
    {
      assert UseCasePrefixes[i..][1..] == UseCasePrefixes[i + 1..];
      name := ReplaceAll(name, UseCasePrefixes[i], "");
    }
    ghost var afterPrefixes := name;
    for i := 0 to |UseCaseSuffixes|
      invariant RemoveEach(afterPrefixes, UseCaseSuffixes) == RemoveEach(name, UseCaseSuffixes[i..])
    {
      assert UseCaseSuffixes[i..][1..] == UseCaseSuffixes[i + 1..];
      name := ReplaceAll(name, UseCaseSuffixes[i], "");
    }
    name := Strip(name);
  }

  /** Removing patterns that do not occur leaves the name alone. */
  lemma {:induction false} RemoveEachAbsent(name: string, patterns: seq<string>)
    requires forall k :: 0 <= k < |patterns| ==> patterns[k] != [] && !Contains(name, patterns[k])
    ensures RemoveEach(name, patterns) == name
    decreases |patterns|
  {
    if patterns != [] {
      ReplaceAllAbsent(name, patterns[0], "");
      RemoveEachAbsent(name, patterns[1..]);
    }
  }

  /** A title holding none of the six patterns is its own use-case name, once stripped. */
  lemma UseCaseNameOfPlainTitle(title: string)
    requires forall k :: 0 <= k < |UseCasePrefixes| ==> !Contains(title, UseCasePrefixes[k])
    requires forall k :: 0 <= k < |UseCaseSuffixes| ==> !Contains(title, UseCaseSuffixes[k])
    ensures UseCaseName(title) == Strip(title)
  {
    RemoveEachAbsent(title, UseCasePrefixes);
    RemoveEachAbsent(title, UseCaseSuffixes);
  }

  // ----- CDPRunbookApp._get_template_selection -----

  /** One entry of list_use_case_templates(): its number, title and thread id. */
  datatype Template = Template(index: nat, title: string, threadId: string)

  /** The digits of a base-10 integer as Python's int() reads them: single underscores may sit between two digits. */
  predicate DecimalBody(s: string) {
    && |s| > 0 && IsDigit(s[0]) && IsDigit(s[|s| - 1])
    && (forall i :: 0 <= i < |s| ==> IsDigit(s[i]) || s[i] == '_')
    && (forall i :: 0 <= i < |s| - 1 ==> s[i] == '_' ==> IsDigit(s[i + 1]))
  }

  /** The digits of `s` with its underscores left out. */
  function DigitsOf(s: string): (r: string)
    requires forall i :: 0 <= i < |s| ==> IsDigit(s[i]) || s[i] == '_'
    ensures forall i :: 0 <= i < |r| ==> IsDigit(r[i])
    ensures (forall i :: 0 <= i < |s| ==> IsDigit(s[i])) ==> r == s
  {
    if s == [] then []
    else (if s[0] == '_' then [] else [s[0]]) + DigitsOf(s[1..])
  }

  /** int(s) for a string already stripped: an optional sign, then ASCII digits with single underscores between them. */
  function ParseInt(s: string): (r: Option<int>)
    ensures r.Some? <==> DecimalBody(s) || (s != [] && (s[0] == '-' || s[0] == '+') && DecimalBody(s[1..]))
    ensures AllDigits(s) ==> r == Some(DigitsValue(s))
    ensures r.Some? && r.value > 0 ==> s[0] != '-'
  {
    if s != [] && (s[0] == '-' || s[0] == '+') then
      if DecimalBody(s[1..]) then
        var v: int := DigitsValue(DigitsOf(s[1..]));
        Some(if s[0] == '-' then -v else v)
      else None
    else if DecimalBody(s) then Some(DigitsValue(DigitsOf(s)))
    else None
  }

  /** An underscore between digits is read through: "1_0" selects the tenth template. */
  lemma ParseIntUnderscore()
    ensures ParseInt("1_0") == Some(10)
  {
    assert DigitsOf("1_0") == "10" by {
      assert "1_0"[1..] == "_0" && "_0"[1..] == "0" && "0"[1..] == [];
    }
    assert DecimalBody("1_0");
    assert "10"[..1] == "1" && "1"[..0] == [];
    assert DigitsValue("1") == 1;
    assert DigitsValue("10") == 10;
  }

  /** An underscore must sit between two digits: a doubled, leading or trailing one is a ValueError. */
  lemma ParseIntMisplacedUnderscore()
    ensures ParseInt("1__0") == None && ParseInt("_1") == None && ParseInt("1_") == None
  {
    assert "1__0"[1] == '_' && "1__0"[2] == '_';
  }

  /** f"{n}" parses back to n. */
  lemma ParseIntOfDecimal(n: nat)
    ensures ParseInt(NatToString(n)) == Some(n)
  {
    NatToStringRoundTrip(n);
  }

  /** The template with number `n` as typed, when 1 <= n <= len(templates). */
  function Selected(templates: seq<Template>, answer: string): (r: Option<Template>)
    ensures r.Some? <==> ParseInt(answer).Some? && 1 <= ParseInt(answer).value <= |templates|
    ensures r.Some? ==> r.value == templates[ParseInt(answer).value - 1]
  {
    match ParseInt(answer)
    case None => None
    case Some(n) => if 1 <= n <= |templates| then Some(templates[n - 1]) else None
  }

  /** _get_template_selection(templates) with the console at line `at`: asked until a number in range is typed. */
  function TemplateChoice(answers: seq<string>, at: nat, templates: seq<Template>): (r: Read<Template>)
    ensures r.Got? ==> r.value in templates && at < r.next <= |answers|
    ensures templates == [] ==> r == EndOfInput
    decreases |answers| - at
  {
    match Input(answers, at, true)
    case EndOfInput => EndOfInput
    case Got(v, next) =>
      match Selected(templates, v)
      case Some(t) => Got(t, next)
      case None => TemplateChoice(answers, next, templates)
  }

  method GetTemplateSelection(answers: seq<string>, at: nat, templates: seq<Template>) returns (r: Read<Template>)
    ensures r == TemplateChoice(answers, at, templates)
  {
    var i := at;
    while true
      invariant at <= i
      invariant TemplateChoice(answers, at, templates) == TemplateChoice(answers, i, templates)
      decreases |answers| - i + 1
    {
      var input := GetUserInput(answers, i, true);
      if input.EndOfInput? {
        return EndOfInput;
      }
      var selection := ParseInt(input.value);
      if selection.Some? && 1 <= selection.value <= |templates| {
        return Got(templates[selection.value - 1], input.next);
      }
      i := input.next;
    }
  }

  /** The template picked is the one whose number was on the last line read, and that number was in range. */
  lemma {:induction false} TemplateChoiceIsTyped(answers: seq<string>, at: nat, templates: seq<Template>)
    ensures var r := TemplateChoice(answers, at, templates);
      r.Got? ==> Selected(templates, Strip(answers[r.next - 1])) == Some(r.value)
    decreases |answers| - at
  {
    InputValue(answers, at, true);
    match Input(answers, at, true)
    case EndOfInput =>
    case Got(v, next) =>
      if Selected(templates, v).None? {
        TemplateChoiceIsTyped(answers, next, templates);
      }
  }

  // ----- CDPRunbookApp.add_users_workflow -----

  /** The folders tried: the one given, else the two defaults. */
  function FolderIdsToTry(folderId: string): (ids: seq<string>)
    ensures folderId != "" ==> ids == [folderId]
    ensures folderId == "" ==> ids == DefaultCsvFolderIds
  {
    if folderId != "" then [folderId] else DefaultCsvFolderIds
  }

  /** The position of the first folder from `i` on for which add_users_from_csv succeeds, else |ids|. */
  function FirstAccepting(ids: seq<string>, i: nat, addUsers: string -> bool): (k: nat)
    requires i <= |ids|
    ensures i <= k <= |ids|
    ensures k < |ids| ==> addUsers(ids[k])
    ensures forall j :: i <= j < k ==> !addUsers(ids[j])
    decreases |ids| - i
  {
    if i == |ids| || addUsers(ids[i]) then i else FirstAccepting(ids, i + 1, addUsers)
  }

  /** The folders tried in order until add_users_from_csv succeeds, and whether one did. */
  function TryFolders(ids: seq<string>, addUsers: string -> bool): (bool, seq<string>) {
    var k := FirstAccepting(ids, 0, addUsers);
    if k < |ids| then (true, ids[..k + 1]) else (false, ids)
  }

  /**
   * The folders are tried in order: the workflow succeeds exactly when one of them accepts the
   * CSV, it stops at the first that does, and every folder before it failed.
   */
  lemma TryFoldersInOrder(ids: seq<string>, addUsers: string -> bool)
    ensures var (ok, tried) := TryFolders(ids, addUsers);
      && |tried| <= |ids| && tried == ids[..|tried|]
      && (ok <==> exists k :: 0 <= k < |ids| && addUsers(ids[k]))
      && (ok ==> tried != [] && addUsers(tried[|tried| - 1]))
      && (forall k :: 0 <= k < |tried| - 1 ==> !addUsers(tried[k]))
      && (!ok ==> tried == ids)
  {
    var k := FirstAccepting(ids, 0, addUsers);
    if k == |ids| {
      assert ids[..|ids|] == ids;
    }
  }

  /** add_users_workflow(csv_path, folder_id), with add_users_from_csv as `addUsers`. */
  method AddUsersWorkflow(folderId: string, addUsers: string -> bool) returns (success: bool, tried: seq<string>)
    ensures (success, tried) == TryFolders(FolderIdsToTry(folderId), addUsers)
  {
    var ids := FolderIdsToTry(folderId);
    success := false;
    tried := [];
    for i := 0 to |ids|
      invariant tried == ids[..i]
      invariant FirstAccepting(ids, 0, addUsers) == FirstAccepting(ids, i, addUsers)
    {
      tried := tried + [ids[i]];
      if addUsers(ids[i]) {
        assert tried == ids[..i + 1];
        success := true;
        return;
      }
    }
    assert tried == ids;
  }
}
