/**
 * utils/dependency_validator.py: the package names read from requirements.txt, the check of
 * each against the interpreter, and the staleness test of the installation against the
 * bytecode cache.
 *
 * Importing a package is an oracle `check` answering whether it is available and the error
 * text when it is not; file times are given as integers.
 */
module DependencyValidator {
  import opened Wrappers
  import opened Strings
  import opened Files
  import opened Seqs

  /** The list used when requirements.txt is missing or cannot be read. */
  const FallbackRequirements: seq<string> := ["quipclient", "requests", "urllib3", "cryptography", "certifi"]

  /** The version operators a name is cut at, in the order the cuts are made. */
  const Operators: seq<string> := [">=", "==", "~=", ">", "<"]

  /** requirements.txt: absent, present but failing to read, or its text. */
  datatype RequirementsFile = Missing | Unreadable | Text(text: string)

  // ----- get_requirements_list -----

  /** A stripped line that names a package: not blank and not a comment. */
  predicate Considered(line: string) {
    var l := Strip(line);
    l != [] && l[0] != '#'
  }

  /** The line cut before the first of each operator in turn: `l.split(op)[0]` for each op. */
  function CutAt(l: string, ops: seq<string>): (r: string)
    requires forall k :: 0 <= k < |ops| ==> ops[k] != []
    ensures StartsWith(l, r)
    ensures ContainsNone(r, ops)
    decreases |ops|
  {
    if ops == [] then l
    else
      var c := BeforeFirst(l, ops[0]);
      var r := CutAt(c, ops[1..]);
      assert r == c[..|r|] && c == l[..|c|];
      assert l[..|r|] == r;
      NotContainsSlice(c, ops[0], 0, |r|);
      assert forall k :: 1 <= k < |ops| ==> ops[k] == ops[1..][k - 1];
      r
  }

  /** The package name of a line: cut at the operators, then stripped. */
  function PackageName(line: string): (name: string)
    ensures ContainsNone(name, Operators)
  {
    var cut := CutAt(Strip(line), Operators);
    StripKeepsNone(cut, Operators);
    Strip(cut)
  }

  /** The names the lines yield, in file order. */
  function Parsed(lines: seq<string>): (names: seq<string>)
    ensures forall k :: 0 <= k < |names| ==> names[k] != []
    decreases |lines|
  {
    if lines == [] then []
    else
      var line := lines[|lines| - 1];
      var init := Parsed(lines[..|lines| - 1]);
      if Considered(line) && PackageName(line) != "" then init + [PackageName(line)] else init
  }

  /** get_requirements_list(): the names in requirements.txt, or the fallback list. */
  function Requirements(file: RequirementsFile): seq<string> {
    match file
    case Missing => FallbackRequirements
    case Unreadable => FallbackRequirements
    case Text(text) => Parsed(ReadLines(text))
  }

  /** The loop over the file's lines. */
  method GetRequirementsList(file: RequirementsFile) returns (requirements: seq<string>)
    ensures requirements == Requirements(file)
  {
    if file.Missing? || file.Unreadable? {
      return FallbackRequirements;
    }
    var lines := ReadLines(file.text);
    requirements := [];
    for k := 0 to |lines|
      invariant requirements == Parsed(lines[..k])
    {
      ParsedStep(lines, k);
      var line := Strip(lines[k]);
      if line != [] && line[0] != '#' {
        var package := PackageName(lines[k]);
        if package != "" {
          requirements := requirements + [package];
        }
      }
    }
    assert lines[..|lines|] == lines;
  }

  lemma ParsedStep(lines: seq<string>, k: nat)
    requires k < |lines|
    ensures Parsed(lines[..k + 1]) ==
      if Considered(lines[k]) && PackageName(lines[k]) != "" then Parsed(lines[..k]) + [PackageName(lines[k])]
      else Parsed(lines[..k])
  {
    assert lines[..k + 1][..k] == lines[..k];
  }

  /** Names keep file order: the names of two runs of lines are those of each, one after the other. */
  lemma {:induction false} ParsedAppend(a: seq<string>, b: seq<string>)
    ensures Parsed(a + b) == Parsed(a) + Parsed(b)
    decreases |b|
  {
    if b == [] {
      assert a + b == a;
    } else {
      var b' := b[..|b| - 1];
      var line := b[|b| - 1];
      assert (a + b)[..|a + b| - 1] == a + b';
      assert (a + b)[|a + b| - 1] == line;
      ParsedAppend(a, b');
      if Considered(line) && PackageName(line) != "" {
        assert Parsed(a + b) == Parsed(a + b') + [PackageName(line)];
        assert Parsed(b) == Parsed(b') + [PackageName(line)];
        assert Parsed(a) + (Parsed(b') + [PackageName(line)]) == (Parsed(a) + Parsed(b')) + [PackageName(line)];
      } else {
        assert Parsed(a + b) == Parsed(a + b');
      }
    }
  }

  /** A blank or comment line, or one whose name comes out empty, adds no package. */
  lemma SkippedLine(lines: seq<string>, line: string)
    requires !Considered(line) || PackageName(line) == ""
    ensures Parsed(lines + [line]) == Parsed(lines)
  {
    assert (lines + [line])[..|lines|] == lines;
  }

  /** Every name comes from a considered line, and is that line's name. */
  lemma {:induction false} NamesFromLines(lines: seq<string>)
    ensures forall n :: n in Parsed(lines) ==>
      exists k :: 0 <= k < |lines| && Considered(lines[k]) && PackageName(lines[k]) == n
    decreases |lines|
  {
    if lines != [] {
      var init := lines[..|lines| - 1];
      NamesFromLines(init);
      InitAgrees(lines);
      forall n | n in Parsed(lines)
        ensures exists k :: 0 <= k < |lines| && Considered(lines[k]) && PackageName(lines[k]) == n
      {
        if n in Parsed(init) {
          var k :| 0 <= k < |init| && Considered(init[k]) && PackageName(init[k]) == n;
        } else {
          assert PackageName(lines[|lines| - 1]) == n;
        }
      }
    }
  }

  /** A name is the stripped start of its stripped line, free of every version operator. */
  lemma NameIsStrippedPrefix(line: string)
    ensures exists p :: StartsWith(Strip(line), p) && PackageName(line) == Strip(p)
    ensures forall k :: 0 <= k < |Operators| ==> !Contains(PackageName(line), Operators[k])
  {
    var cut := CutAt(Strip(line), Operators);
    assert StartsWith(Strip(line), cut) && PackageName(line) == Strip(cut);
  }

  // ----- validate_all_dependencies -----

  /** The message added for a missing package with an error text. */
  function ErrorMessage(package: string, error: string): string {
    "  \U{274C} " + package + ": " + error
  }

  /** The missing packages and the messages for those with an error text, in requirement order. */
  function Check(requirements: seq<string>, check: string -> (bool, Option<string>)): (r: (seq<string>, seq<string>))
    ensures |r.1| <= |r.0| <= |requirements|
    ensures forall p :: p in r.0 <==> p in requirements && !check(p).0
    decreases |requirements|
  {
    if requirements == [] then ([], [])
    else
      var package := requirements[|requirements| - 1];
      var init := Check(requirements[..|requirements| - 1], check);
      assert forall x :: x in requirements <==> x in requirements[..|requirements| - 1] || x == package;
      Step(init, package, check)
  }

  /** What checking one more package adds to the missing packages and the messages so far. */
  function Step(acc: (seq<string>, seq<string>), package: string, check: string -> (bool, Option<string>)): (seq<string>, seq<string>) {
    var (available, error) := check(package);
    if available then acc
    else if error.Some? && error.value != "" then (acc.0 + [package], acc.1 + [ErrorMessage(package, error.value)])
    else (acc.0 + [package], acc.1)
  }

  /** Checking one requirement more extends a prefix by one step. */
  lemma CheckPrefix(requirements: seq<string>, k: nat, check: string -> (bool, Option<string>))
    requires k < |requirements|
    ensures Check(requirements[..k + 1], check) == Step(Check(requirements[..k], check), requirements[k], check)
  {
    assert requirements[..k + 1][..k] == requirements[..k];
  }

  /** validate_all_dependencies(): all satisfied, the missing packages, the error messages. */
  function ValidateAll(file: RequirementsFile, check: string -> (bool, Option<string>)): (bool, seq<string>, seq<string>) {
    var (missing, errors) := Check(Requirements(file), check);
    (|missing| == 0, missing, errors)
  }

  /** Satisfied exactly when every requirement is available; nothing missing means no message. */
  lemma AllSatisfiedIff(file: RequirementsFile, check: string -> (bool, Option<string>))
    ensures ValidateAll(file, check).0 <==> forall p :: p in Requirements(file) ==> check(p).0
    ensures ValidateAll(file, check).0 ==> ValidateAll(file, check).2 == []
  {
    var (missing, errors) := Check(Requirements(file), check);
    if missing != [] {
      assert missing[0] in missing;
    }
  }

  /** The missing packages keep requirement order: checking two runs of names checks each in turn. */
  lemma {:induction false} CheckAppend(a: seq<string>, b: seq<string>, check: string -> (bool, Option<string>))
    ensures Check(a + b, check) == (Check(a, check).0 + Check(b, check).0, Check(a, check).1 + Check(b, check).1)
    decreases |b|
  {
    if b == [] {
      assert a + b == a;
      assert Check(a, check).0 + [] == Check(a, check).0 && Check(a, check).1 + [] == Check(a, check).1;
    } else {
      var b' := b[..|b| - 1];
      var package := b[|b| - 1];
      assert (a + b)[..|a + b| - 1] == a + b';
      assert (a + b)[|a + b| - 1] == package;
      CheckAppend(a, b', check);
      var (x, y) := (Check(a, check), Check(b', check));
      var (available, error) := check(package);
      if !available {
        assert x.0 + (y.0 + [package]) == (x.0 + y.0) + [package];
        if error.Some? && error.value != "" {
          var m := ErrorMessage(package, error.value);
          assert x.1 + (y.1 + [m]) == (x.1 + y.1) + [m];
        }
      }
    }
  }

  /** A message is added for a missing package exactly when the import gave a non-empty error text. */
  lemma OneMessage(requirements: seq<string>, package: string, check: string -> (bool, Option<string>))
    requires !check(package).0
    ensures var (missing, errors) := Check(requirements + [package], check);
      && missing == Check(requirements, check).0 + [package]
      && (check(package).1.Some? && check(package).1.value != "" ==>
            errors == Check(requirements, check).1 + [ErrorMessage(package, check(package).1.value)])
      && (check(package).1.None? || check(package).1.value == "" ==> errors == Check(requirements, check).1)
  {
    assert (requirements + [package])[..|requirements|] == requirements;
  }

  /** The loop over the requirements. */
  method ValidateAllDependencies(file: RequirementsFile, check: string -> (bool, Option<string>))
    returns (allSatisfied: bool, missing: seq<string>, errors: seq<string>)
    ensures (allSatisfied, missing, errors) == ValidateAll(file, check)
  {
    var requirements := GetRequirementsList(file);
    missing, errors := [], [];
    for k := 0 to |requirements|
      invariant (missing, errors) == Check(requirements[..k], check)
    {
      CheckPrefix(requirements, k, check);
      var package := requirements[k];
      var (available, error) := check(package);
      if !available {
        missing := missing + [package];
        if error.Some? && error.value != "" {
          errors := errors + [ErrorMessage(package, error.value)];
        }
      }
    }
    assert requirements[..|requirements|] == requirements;
    allSatisfied := |missing| == 0;
  }

  // ----- check_installation_currency -----

  /** One entry of __pycache__: whether it is a regular file, and its modification time. */
  datatype CacheEntry = CacheEntry(isFile: bool, mtime: int)

  /** The newest modification time of the regular files, starting from 0. */
  function Newest(entries: seq<CacheEntry>): (n: int)
    ensures n >= 0
    ensures forall k :: 0 <= k < |entries| && entries[k].isFile ==> entries[k].mtime <= n
    decreases |entries|
  {
    if entries == [] then 0
    else
      var e := entries[|entries| - 1];
      var init := Newest(entries[..|entries| - 1]);
      if e.isFile && e.mtime > init then e.mtime else init
  }

  /** The maximum is 0 or the time of one of the files. */
  lemma {:induction false} NewestIsSomeFile(entries: seq<CacheEntry>)
    ensures Newest(entries) == 0 ||
      exists k :: 0 <= k < |entries| && entries[k].isFile && entries[k].mtime == Newest(entries)
    decreases |entries|
  {
    if entries != [] {
      var init := entries[..|entries| - 1];
      NewestIsSomeFile(init);
      if Newest(entries) != 0 && Newest(entries) == Newest(init) {
        var k :| 0 <= k < |init| && init[k].isFile && init[k].mtime == Newest(init);
        assert entries[k] == init[k];
      }
    }
  }

  /** The loop over os.listdir(__pycache__). */
  method NewestCache(entries: seq<CacheEntry>) returns (newest: int)
    ensures newest == Newest(entries)
  {
    newest := 0;
    for k := 0 to |entries|
      invariant newest == Newest(entries[..k])
    {
      assert entries[..k + 1][..k] == entries[..k];
      if entries[k].isFile {
        newest := if entries[k].mtime > newest then entries[k].mtime else newest;
      }
    }
    assert entries[..|entries|] == entries;
  }

  /**
   * check_installation_currency(): the warning is printed when requirements.txt exists and
   * __pycache__ exists and the requirements are newer than every cached file (and than 0).
   */
  function WarnsStale(requirementsMtime: Option<int>, cache: Option<seq<CacheEntry>>): bool {
    requirementsMtime.Some? && cache.Some? && requirementsMtime.value > Newest(cache.value)
  }

  /** The warning says exactly that the requirements are newer than 0 and than every cached file. */
  lemma WarnsStaleIff(requirementsMtime: int, cache: seq<CacheEntry>)
    ensures WarnsStale(Some(requirementsMtime), Some(cache)) <==>
      requirementsMtime > 0 && forall k :: 0 <= k < |cache| && cache[k].isFile ==> cache[k].mtime < requirementsMtime
  {
    NewestIsSomeFile(cache);
  }
}
