/**
 * InputValidator: the date, folder-name, SIM-reference and e-mail checks and the file-name
 * sanitiser. Each regular expression is modelled by what it matches, and each computed
 * check is tied to an independent description of the accepted inputs.
 */
module Validators {
  import opened Wrappers
  import opened Strings

  // ----- validate_date_format: datetime.strptime(s, '%Y-%m') -----

  /**
   * The length matched at the front of `t` by strptime's month pattern `1[0-2]|0[1-9]|[1-9]`,
   * its alternatives tried in that order; 0 when none matches.
   */
  function MonthMatch(t: string): (n: nat)
    ensures n <= 2 && n <= |t|
    ensures n > 0 ==> AllDigits(t[..n])
  {
    if |t| >= 2 && t[0] == '1' && '0' <= t[1] <= '2' then 2
    else if |t| >= 2 && t[0] == '0' && '1' <= t[1] <= '9' then 2
    else if |t| >= 1 && '1' <= t[0] <= '9' then 1
    else 0
  }

  /**
   * strptime with '%Y-%m' succeeds: four digits for the year (year 0 is out of range for
   * datetime), a '-', the month pattern, and no unconverted data after it.
   */
  function ValidateDateFormat(s: string): bool {
    && |s| >= 5
    && (forall i :: 0 <= i < 4 ==> IsDigit(s[i]))
    && s[..4] != "0000"
    && s[4] == '-'
    && MonthMatch(s[5..]) > 0
    && 5 + MonthMatch(s[5..]) == |s|
  }

  /** The value of a four-digit string, digit by digit. */
  lemma DigitsValue4(y: string)
    requires |y| == 4 && forall i :: 0 <= i < 4 ==> IsDigit(y[i])
    ensures DigitsValue(y) == ((y[0] as int - '0' as int) * 10 + (y[1] as int - '0' as int)) * 100
                              + (y[2] as int - '0' as int) * 10 + (y[3] as int - '0' as int)
  {
    var d := y[3] as int - '0' as int;
    assert DigitsValue(y) == DigitsValue(y[..3]) * 10 + d;
    assert y[..3][..2] == y[..2];
    assert DigitsValue(y[..3]) == DigitsValue(y[..2]) * 10 + (y[2] as int - '0' as int);
    assert y[..2][..1] == y[..1];
    assert DigitsValue(y[..2]) == DigitsValue(y[..1]) * 10 + (y[1] as int - '0' as int);
    assert y[..1][..0] == [];
    assert DigitsValue(y[..1]) == y[0] as int - '0' as int;
  }

  /** A two-digit or one-digit string's value. */
  lemma DigitsValueShort(t: string)
    requires 1 <= |t| <= 2 && forall i :: 0 <= i < |t| ==> IsDigit(t[i])
    ensures |t| == 1 ==> DigitsValue(t) == t[0] as int - '0' as int
    ensures |t| == 2 ==> DigitsValue(t) == (t[0] as int - '0' as int) * 10 + (t[1] as int - '0' as int)
  {
    if |t| == 2 {
      assert t[..1][..0] == [];
    } else {
      assert t[..0] == [];
    }
  }

  /** The strings strptime accepts are exactly "YYYY-M" or "YYYY-MM" with year 1..9999 and month 1..12. */
  lemma DateFormatIff(s: string)
    ensures ValidateDateFormat(s) <==>
      && |s| >= 6 && s[4] == '-'
      && AllDigits(s[..4]) && DigitsValue(s[..4]) >= 1
      && AllDigits(s[5..]) && |s| <= 7 && 1 <= DigitsValue(s[5..]) <= 12
  {
    if |s| >= 5 && AllDigits(s[..4]) {
      var y := s[..4];
      DigitsValue4(y);
      assert y == "0000" <==> (y[0] == '0' && y[1] == '0' && y[2] == '0' && y[3] == '0');
    }
    if |s| >= 6 && |s| <= 7 && AllDigits(s[5..]) {
      DigitsValueShort(s[5..]);
    }
    if |s| >= 5 && MonthMatch(s[5..]) > 0 && 5 + MonthMatch(s[5..]) == |s| {
      assert s[5..][..MonthMatch(s[5..])] == s[5..];
      DigitsValueShort(s[5..]);
    }
    if |s| >= 5 && (forall i :: 0 <= i < 4 ==> IsDigit(s[i])) {
      assert AllDigits(s[..4]);
    }
  }

  // ----- validate_folder_name and sanitize_filename: the class [<>:"/\\|?*] -----

  /** A character of the class `[<>:"/\\|?*]`. */
  predicate IsForbidden(c: char) {
    c == '<' || c == '>' || c == ':' || c == '"' || c == '/' || c == '\\' || c == '|' || c == '?' || c == '*'
  }

  /** validate_folder_name: re.search finds no forbidden character. */
  function ValidateFolderName(name: string): (ok: bool)
    ensures ok <==> forall i :: 0 <= i < |name| ==> !IsForbidden(name[i])
  {
    if name == [] then true
    else if IsForbidden(name[0]) then false
    else ValidateFolderName(name[1..])
  }

  function SafeChar(c: char): char {
    if IsForbidden(c) then '_' else c
  }

  /** sanitize_filename: re.sub puts '_' in place of every forbidden character and keeps the rest. */
  function SanitizeFilename(name: string): (r: string)
    ensures |r| == |name|
    ensures forall i :: 0 <= i < |name| ==> r[i] == SafeChar(name[i])
  {
    if name == [] then [] else [SafeChar(name[0])] + SanitizeFilename(name[1..])
  }

  /** A sanitised name always passes the folder-name check, and sanitising it again changes nothing. */
  lemma SanitizedIsValid(name: string)
    ensures ValidateFolderName(SanitizeFilename(name))
    ensures SanitizeFilename(SanitizeFilename(name)) == SanitizeFilename(name)
  {
  }

  /** Sanitising leaves a name unchanged exactly when the folder-name check accepts it. */
  lemma SanitizeFixesValid(name: string)
    ensures SanitizeFilename(name) == name <==> ValidateFolderName(name)
  {
    if !ValidateFolderName(name) {
      var i :| 0 <= i < |name| && IsForbidden(name[i]);
      assert SanitizeFilename(name)[i] == '_' != name[i];
    }
  }

  // ----- validate_sim_id -----

  const SimPrefix: string := "Countdown-Premium-"
  const SimHost: string := "issues.amazon.com"

  /** The character classes of the patterns: `\d`, `[a-zA-Z]`, `[a-zA-Z0-9._%+-]`, `[a-zA-Z0-9.-]`. */
  datatype CharClass = Digits | Letters | LocalPart | DomainPart

  predicate LocalChar(c: char) {
    IsAsciiLetter(c) || IsDigit(c) || c == '.' || c == '_' || c == '%' || c == '+' || c == '-'
  }

  predicate DomainChar(c: char) {
    IsAsciiLetter(c) || IsDigit(c) || c == '.' || c == '-'
  }

  predicate InClass(c: char, cls: CharClass) {
    match cls
    case Digits => IsDigit(c)
    case Letters => IsAsciiLetter(c)
    case LocalPart => LocalChar(c)
    case DomainPart => DomainChar(c)
  }

  /** The length of the run of `cls` characters starting at `k`, as a greedy `+` takes it. */
  function Run(s: string, k: nat, cls: CharClass): (n: nat)
    requires k <= |s|
    ensures k + n <= |s|
    ensures forall j :: k <= j < k + n ==> InClass(s[j], cls)
    ensures k + n < |s| ==> !InClass(s[k + n], cls)
    decreases |s| - k
  {
    if k < |s| && InClass(s[k], cls) then 1 + Run(s, k + 1, cls) else 0
  }

  /** A run that reaches up to a character outside the class, or the end, has exactly that length. */
  lemma RunUpTo(s: string, k: nat, e: nat, cls: CharClass)
    requires k <= e <= |s| && forall j :: k <= j < e ==> InClass(s[j], cls)
    requires e < |s| ==> !InClass(s[e], cls)
    ensures Run(s, k, cls) == e - k
  {
  }

  /** `Countdown-Premium-\d+` can start matching at `i`. */
  predicate SimMatchAt(s: string, i: nat) {
    OccursAt(s, SimPrefix, i) && i + |SimPrefix| < |s| && IsDigit(s[i + |SimPrefix|])
  }

  /** The leftmost position at or after `k` where the pattern matches. */
  function FindSimMatchFrom(s: string, k: nat): (r: Option<nat>)
    decreases |s| - k
    ensures r.Some? ==> k <= r.value && SimMatchAt(s, r.value)
    ensures r.Some? ==> forall j :: k <= j < r.value ==> !SimMatchAt(s, j)
    ensures r.None? ==> forall j :: k <= j ==> !SimMatchAt(s, j)
  {
    if k >= |s| then None
    else if SimMatchAt(s, k) then Some(k)
    else FindSimMatchFrom(s, k + 1)
  }

  /** A well-formed SIM reference: the prefix followed by one or more digits. */
  predicate IsSimRef(r: string) {
    |r| > |SimPrefix| && StartsWith(r, SimPrefix) && forall j :: |SimPrefix| <= j < |r| ==> IsDigit(r[j])
  }

  /** re.search(r'(Countdown-Premium-\d+)', s).group(1): the leftmost match with all the digits that follow. */
  function SearchSim(s: string): (r: Option<string>)
    ensures r.None? <==> forall j :: 0 <= j ==> !SimMatchAt(s, j)
  {
    match FindSimMatchFrom(s, 0)
    case None => None
    case Some(i) => Some(RefAt(s, i))
  }

  /** The prefix at `i` and the whole run of digits after it. */
  function RefAt(s: string, i: nat): string
    requires i + |SimPrefix| <= |s|
  {
    s[i..i + |SimPrefix| + Run(s, i + |SimPrefix|, Digits)]
  }

  /** What the search finds is a well-formed reference. */
  lemma SearchSimIsRef(s: string)
    requires SearchSim(s).Some?
    ensures IsSimRef(SearchSim(s).value)
  {
    var i := FindSimMatchFrom(s, 0).value;
    var r := RefAt(s, i);
    assert r[..|SimPrefix|] == s[i..i + |SimPrefix|];
  }

  /**
   * validate_sim_id: "" stays ""; a bare number gets the prefix; in an issue URL the embedded
   * reference is taken; a string already starting with the prefix is kept; anything else is None.
   */
  function ValidateSimId(s: string): Option<string> {
    if s == [] then Some("")
    else if AllDigits(s) then Some(SimPrefix + s)
    else if Contains(s, SimHost) && SearchSim(s).Some? then SearchSim(s)
    else if StartsWith(s, SimPrefix) then Some(s)
    else None
  }

  /** Every accepted SIM id comes back empty (only for empty input) or starting with the prefix. */
  lemma SimIdShape(s: string)
    requires ValidateSimId(s).Some?
    ensures ValidateSimId(s).value == "" <==> s == ""
    ensures s != "" ==> StartsWith(ValidateSimId(s).value, SimPrefix)
    ensures AllDigits(s) ==> ValidateSimId(s).value[|SimPrefix|..] == s
  {
    if AllDigits(s) {
      assert (SimPrefix + s)[..|SimPrefix|] == SimPrefix;
    }
  }

  /** A string with no '.' cannot contain the issue host. */
  lemma NoDotNoHost(r: string)
    requires '.' !in r
    ensures !Contains(r, SimHost)
  {
    forall j: nat | j + |SimHost| <= |r|
      ensures !OccursAt(r, SimHost, j)
    {
      assert r[j..j + |SimHost|][6] == r[j + 6];
    }
  }

  /** A well-formed reference is not all digits and does not contain the host. */
  lemma SimRefFacts(r: string)
    requires IsSimRef(r)
    ensures !AllDigits(r) && !Contains(r, SimHost)
  {
    assert r[0] == SimPrefix[0];
    assert '.' !in r by {
      forall j | 0 <= j < |r|
        ensures r[j] != '.'
      {
        if j < |SimPrefix| {
          assert r[j] == r[..|SimPrefix|][j];
        }
      }
    }
    NoDotNoHost(r);
  }

  /** Validating an accepted SIM id again gives the same id. */
  lemma SimIdIdempotent(s: string)
    requires ValidateSimId(s).Some?
    ensures ValidateSimId(ValidateSimId(s).value) == ValidateSimId(s)
  {
    var r := ValidateSimId(s).value;
    if s != [] && AllDigits(s) {
      assert IsSimRef(r) by {
        assert r[..|SimPrefix|] == SimPrefix;
      }
      SimRefFacts(r);
    } else if s != [] && Contains(s, SimHost) && SearchSim(s).Some? {
      SearchSimIsRef(s);
      SimRefFacts(r);
    }
  }

  /** The leftmost match is found wherever the first match position is. */
  lemma FindFirstSimMatch(s: string, k: nat)
    requires SimMatchAt(s, k) && forall j :: 0 <= j < k ==> !SimMatchAt(s, j)
    ensures FindSimMatchFrom(s, 0) == Some(k)
  {
    var r := FindSimMatchFrom(s, 0);
    assert r.Some?;
    assert r.value >= k;
  }

  /** An issue URL (without a 'C' of its own) followed by a reference yields exactly that reference. */
  lemma SimIdFromUrl(u: string, d: string)
    requires Contains(u, SimHost) && 'C' !in u && AllDigits(d)
    ensures ValidateSimId(u + SimPrefix + d) == Some(SimPrefix + d)
  {
    var s := u + (SimPrefix + d);
    assert u + SimPrefix + d == s;
    SearchAfterUrl(u, d);
    ContainsStill(u, SimPrefix + d, SimHost);
    assert s[|u|] == 'C';
  }

  /** The search finds the reference that follows a text without a 'C'. */
  lemma SearchAfterUrl(u: string, d: string)
    requires 'C' !in u && AllDigits(d)
    ensures SearchSim(u + (SimPrefix + d)) == Some(SimPrefix + d)
  {
    var t := SimPrefix + d;
    var s := u + t;
    var k := |u|;
    FirstMatchAfterUrl(u, d);
    DigitsToEnd(u, d);
    SuffixSlice(u, t);
    SearchSimAt(s, k);
    assert RefAt(s, k) == s[k..k + |SimPrefix| + |d|] == t;
  }

  /** The first match in the text is where the prefix follows `u`. */
  lemma FirstMatchAfterUrl(u: string, d: string)
    requires 'C' !in u && AllDigits(d)
    ensures FindSimMatchFrom(u + (SimPrefix + d), 0) == Some(|u|)
  {
    var t := SimPrefix + d;
    var s := u + t;
    var k := |u|;
    OccursAfter(u, SimPrefix, d);
    NoSimMatchInUrl(u, t);
    FindFirstSimMatch(s, k);
  }

  /** The digits after the prefix run to the end of the text. */
  lemma DigitsToEnd(u: string, d: string)
    requires AllDigits(d)
    ensures |u| + |SimPrefix| <= |u + (SimPrefix + d)|
    ensures Run(u + (SimPrefix + d), |u| + |SimPrefix|, Digits) == |d|
  {
    var s := u + (SimPrefix + d);
    var k := |u| + |SimPrefix|;
    forall j | k <= j < |s|
      ensures IsDigit(s[j])
    {
      assert s[j] == d[j - k];
    }
    RunUpTo(s, k, |s|, Digits);
  }

  /** Where the first match starts, the search takes the prefix and the digits after it. */
  lemma SearchSimAt(s: string, k: nat)
    requires FindSimMatchFrom(s, 0) == Some(k)
    ensures k + |SimPrefix| <= |s| && SearchSim(s) == Some(RefAt(s, k))
  {
  }

  /** What a string contains, it still contains with more after it. */
  lemma ContainsStill(u: string, t: string, p: string)
    requires Contains(u, p)
    ensures Contains(u + t, p)
  {
    var h := IndexOf(u, p).value;
    assert (u + t)[h..h + |p|] == u[h..h + |p|];
    ContainsAt(u + t, p, h);
  }

  /** No reference starts inside a text without a 'C'. */
  lemma NoSimMatchInUrl(u: string, t: string)
    requires 'C' !in u
    ensures forall j :: 0 <= j < |u| ==> !SimMatchAt(u + t, j)
  {
    forall j | 0 <= j < |u|
      ensures !SimMatchAt(u + t, j)
    {
      assert (u + t)[j] == u[j];
      if j + |SimPrefix| <= |u + t| {
        assert (u + t)[j..j + |SimPrefix|][0] == (u + t)[j];
      }
    }
  }

  // ----- validate_email: re.match(r'^[a-zA-Z0-9._%+-]+@[a-zA-Z0-9.-]+\.[a-zA-Z]{2,}$', m) -----

  /** `m` splits as local part, '@' at `at`, domain, '.' at `dot`, and two or more letters. */
  ghost predicate EmailSplit(m: string, at: nat, dot: nat) {
    && 0 < at && at + 1 < dot && dot + 2 < |m|
    && m[at] == '@' && m[dot] == '.'
    && (forall i :: 0 <= i < at ==> LocalChar(m[i]))
    && (forall i :: at < i < dot ==> DomainChar(m[i]))
    && (forall i :: dot < i < |m| ==> IsAsciiLetter(m[i]))
  }

  /** The pattern, without its `$`, matches the whole of `m` for some choice of split points. */
  ghost predicate MatchesEmail(m: string) {
    exists at: nat, dot: nat :: EmailSplit(m, at, dot)
  }

  /** The match computed directly: the split must be at the first '@' and the last '.'. */
  function IsEmailAddress(m: string): bool {
    match IndexOfChar(m, '@')
    case None => false
    case Some(at) =>
      match LastIndexOfChar(m, '.')
      case None => false
      case Some(dot) =>
        && 0 < at && at + 1 < dot && dot + 2 < |m|
        && (forall i :: 0 <= i < at ==> LocalChar(m[i]))
        && (forall i :: at < i < dot ==> DomainChar(m[i]))
        && (forall i :: dot < i < |m| ==> IsAsciiLetter(m[i]))
  }

  /** The direct computation agrees with the pattern's backtracking search over all splits. */
  lemma EmailIff(m: string)
    ensures IsEmailAddress(m) <==> MatchesEmail(m)
  {
    if IsEmailAddress(m) {
      var at := IndexOfChar(m, '@').value;
      var dot := LastIndexOfChar(m, '.').value;
      assert EmailSplit(m, at, dot);
    }
    if MatchesEmail(m) {
      var at: nat, dot: nat :| EmailSplit(m, at, dot);
      assert m[at] == '@' && !LocalChar('@');
      assert IndexOfChar(m, '@') == Some(at);
      assert m[dot] == '.' && !IsAsciiLetter('.');
      assert LastIndexOfChar(m, '.') == Some(dot);
    }
  }

  /** validate_email: the pattern matches, `$` also allowing a single newline at the very end. */
  function ValidateEmail(m: string): (ok: bool)
    ensures ok <==> MatchesEmail(m) || (|m| > 0 && m[|m| - 1] == '\n' && MatchesEmail(m[..|m| - 1]))
  {
    EmailIffWithNewline(m);
    IsEmailAddress(m) || (|m| > 0 && m[|m| - 1] == '\n' && IsEmailAddress(m[..|m| - 1]))
  }

  lemma EmailIffWithNewline(m: string)
    ensures IsEmailAddress(m) <==> MatchesEmail(m)
    ensures |m| > 0 ==> (IsEmailAddress(m[..|m| - 1]) <==> MatchesEmail(m[..|m| - 1]))
  {
    EmailIff(m);
    if |m| > 0 {
      EmailIff(m[..|m| - 1]);
    }
  }

  /** An accepted address has exactly one '@' unless a newline ends it, so it is the first one. */
  lemma EmailOneAt(m: string)
    requires IsEmailAddress(m)
    ensures CountChar(m, '@') == 1
  {
    var at := IndexOfChar(m, '@').value;
    assert '@' !in m[..at];
    assert '@' !in m[at + 1..] by {
      forall i | at + 1 <= i < |m|
        ensures m[i] != '@'
      {
        var dot := LastIndexOfChar(m, '.').value;
        if i < dot { assert DomainChar(m[i]); }
        else if i > dot { assert IsAsciiLetter(m[i]); }
      }
    }
    CountSplitAt(m, '@', at);
    NoCharCount(m[at + 1..], '@');
  }
}
