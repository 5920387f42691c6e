/**
 * The handful of Python `str` operations the modelled code relies on, over `seq<char>`:
 * strip(), lower() (ASCII letters only), startswith(), endswith(), `in`, find(),
 * split(sep)[0], replace(), join(), isdigit() (ASCII digits only) and decimal formatting.
 */
module Strings {
  import opened Wrappers

  /** The characters Python's str.isspace() accepts, hence those str.strip() removes. */
  predicate IsSpace(c: char) {
    || c == ' '
    || '\t' <= c <= '\r'
    || '\U{1c}' <= c <= '\U{1f}'
    || c == '\U{85}' || c == '\U{a0}' || c == '\U{1680}'
    || '\U{2000}' <= c <= '\U{200a}'
    || c == '\U{2028}' || c == '\U{2029}' || c == '\U{202f}' || c == '\U{205f}' || c == '\U{3000}'
  }

  /** str.strip(): whitespace removed at both ends. */
  function Strip(s: string): (r: string)
    ensures |r| <= |s|
    ensures r == [] || (!IsSpace(r[0]) && !IsSpace(r[|r| - 1]))
    decreases |s|
  {
    if s != [] && IsSpace(s[0]) then Strip(s[1..])
    else if s != [] && IsSpace(s[|s| - 1]) then Strip(s[..|s| - 1])
    else s
  }

  /** A string with no whitespace at either end is its own strip. */
  lemma StripOfStripped(s: string)
    requires s == [] || (!IsSpace(s[0]) && !IsSpace(s[|s| - 1]))
    ensures Strip(s) == s
  {
  }

  function LowerChar(c: char): char {
    if 'A' <= c <= 'Z' then (c as int + 32) as char else c
  }

  /** str.lower() restricted to ASCII letters. */
  function Lower(s: string): string {
    seq(|s|, i requires 0 <= i < |s| => LowerChar(s[i]))
  }

  /** [x.lower() for x in xs]. */
  function LowerAll(xs: seq<string>): (r: seq<string>)
    ensures |r| == |xs| && forall k :: 0 <= k < |xs| ==> r[k] == Lower(xs[k])
  {
    if xs == [] then [] else [Lower(xs[0])] + LowerAll(xs[1..])
  }

  predicate StartsWith(s: string, p: string) {
    |p| <= |s| && s[..|p|] == p
  }

  predicate EndsWith(s: string, p: string) {
    |p| <= |s| && s[|s| - |p|..] == p
  }

  /** `p` occurs in `s` starting at index `i`. */
  predicate OccursAt(s: string, p: string, i: nat) {
    i + |p| <= |s| && s[i..i + |p|] == p
  }

  /** str.find(p, k): the first index at or after `k` where `p` occurs. */
  function IndexOfFrom(s: string, p: string, k: nat): (r: Option<nat>)
    decreases |s| - k
    ensures r.Some? ==> k <= r.value && OccursAt(s, p, r.value)
    ensures r.Some? ==> forall j :: k <= j < r.value ==> !OccursAt(s, p, j)
    ensures r.None? ==> forall j :: k <= j ==> !OccursAt(s, p, j)
  {
    if k + |p| > |s| then None
    else if s[k..k + |p|] == p then Some(k)
    else IndexOfFrom(s, p, k + 1)
  }

  function IndexOf(s: string, p: string): Option<nat> {
    IndexOfFrom(s, p, 0)
  }

  /** Python's `p in s`. */
  predicate Contains(s: string, p: string) {
    IndexOf(s, p).Some?
  }

  lemma ContainsAt(s: string, p: string, i: nat)
    requires OccursAt(s, p, i)
    ensures Contains(s, p)
  {
  }

  /** The slice of `u + t` past `u` is `t`. */
  lemma SuffixSlice(u: string, t: string)
    ensures (u + t)[|u|..|u| + |t|] == t
  {
  }

  /** A one-character pattern occurs exactly when the character does. */
  lemma OneCharContains(s: string, c: char)
    ensures Contains(s, [c]) <==> c in s
  {
    if c in s {
      var i :| 0 <= i < |s| && s[i] == c;
      assert s[i..i + 1] == [c];
      ContainsAt(s, [c], i);
    }
    if Contains(s, [c]) {
      var i := IndexOf(s, [c]).value;
      assert s[i..i + 1][0] == s[i];
    }
  }

  /** A pattern placed after `u` occurs where `u` ends, with what follows it right after. */
  lemma OccursAfter(u: string, p: string, rest: string)
    ensures OccursAt(u + (p + rest), p, |u|)
    ensures rest != [] ==> (u + (p + rest))[|u| + |p|] == rest[0]
  {
    assert (u + (p + rest))[|u|..|u| + |p|] == p;
  }

  /** An occurrence inside a slice is an occurrence in the whole string. */
  lemma SliceOccurs(s: string, p: string, a: nat, b: nat)
    requires a <= b <= |s|
    ensures forall j: nat :: OccursAt(s[a..b], p, j) ==> OccursAt(s, p, a + j) && a + j + |p| <= b
  {
    forall j: nat | OccursAt(s[a..b], p, j)
      ensures OccursAt(s, p, a + j) && a + j + |p| <= b
    {
      assert j + |p| <= b - a;
      forall t | 0 <= t < |p|
        ensures s[a + j + t] == p[t]
      {
        assert s[a..b][j..j + |p|][t] == p[t];
      }
      assert s[a + j..a + j + |p|] == p;
    }
  }

  /** A slice of a string that lacks `p` lacks `p` too. */
  lemma NotContainsSlice(s: string, p: string, a: nat, b: nat)
    requires a <= b <= |s| && !Contains(s, p)
    ensures !Contains(s[a..b], p)
  {
    SliceOccurs(s, p, a, b);
  }

  /** None of the patterns `ps` occurs in `s`. */
  predicate ContainsNone(s: string, ps: seq<string>) {
    forall k :: 0 <= k < |ps| ==> !Contains(s, ps[k])
  }

  /** A slice `r` of a string that lacks every pattern lacks them too. */
  lemma ContainsNoneSlice(s: string, ps: seq<string>, a: nat, r: string)
    requires a + |r| <= |s| && r == s[a..a + |r|] && ContainsNone(s, ps)
    ensures ContainsNone(r, ps)
  {
    forall k | 0 <= k < |ps|
      ensures !Contains(r, ps[k])
    {
      NotContainsSlice(s, ps[k], a, a + |r|);
    }
  }

  /** Stripping a string that lacks every pattern cannot bring one in. */
  lemma {:induction false} StripKeepsNone(s: string, ps: seq<string>)
    requires ContainsNone(s, ps)
    ensures ContainsNone(Strip(s), ps)
    decreases |s|
  {
    if s != [] && IsSpace(s[0]) {
      ContainsNoneSlice(s, ps, 1, s[1..]);
      StripKeepsNone(s[1..], ps);
    } else if s != [] && IsSpace(s[|s| - 1]) {
      ContainsNoneSlice(s, ps, 0, s[..|s| - 1]);
      StripKeepsNone(s[..|s| - 1], ps);
    }
  }

  /** s.split(p)[0]: everything before the first occurrence of `p`. */
  function BeforeFirst(s: string, p: string): (r: string)
    requires p != []
    ensures StartsWith(s, r)
    ensures !Contains(r, p)
  {
    match IndexOf(s, p)
    case None => s
    case Some(i) =>
      var r := s[..i];
      assert r == s[0..i];
      SliceOccurs(s, p, 0, i);
      r
  }

  /** s.split(p, 1)[1]: everything after the first occurrence of `p`. */
  function AfterFirst(s: string, p: string): string
    requires Contains(s, p)
  {
    s[IndexOf(s, p).value + |p|..]
  }

  /** Python's `r` placed before, between and after the characters of `s`: `s.replace("", r)`. */
  function InsertAround(s: string, r: string): string {
    if s == [] then r else r + [s[0]] + InsertAround(s[1..], r)
  }

  /** s.replace(p, r): every non-overlapping occurrence of `p`, left to right, becomes `r`. */
  function ReplaceAll(s: string, p: string, r: string): string
    decreases |s|
  {
    if p == [] then InsertAround(s, r)
    else
      match IndexOf(s, p)
      case None => s
      case Some(i) => s[..i] + r + ReplaceAll(s[i + |p|..], p, r)
  }

  /** Replacing a pattern that does not occur changes nothing. */
  lemma ReplaceAllAbsent(s: string, p: string, r: string)
    requires p != [] && !Contains(s, p)
    ensures ReplaceAll(s, p, r) == s
  {
  }

  /** sep.join(xs). */
  function Join(xs: seq<string>, sep: string): string {
    if |xs| == 0 then "" else if |xs| == 1 then xs[0] else xs[0] + sep + Join(xs[1..], sep)
  }

  /** The index of the last `c` in `s`, as str.rfind(c). */
  function LastIndexOfChar(s: string, c: char): (r: Option<nat>)
    ensures r.Some? ==> r.value < |s| && s[r.value] == c && forall j :: r.value < j < |s| ==> s[j] != c
    ensures r.None? ==> forall j :: 0 <= j < |s| ==> s[j] != c
  {
    if s == [] then None
    else if s[|s| - 1] == c then Some(|s| - 1)
    else LastIndexOfChar(s[..|s| - 1], c)
  }

  /** The number of times `c` occurs in `s`. */
  function CountChar(s: string, c: char): nat {
    if s == [] then 0 else (if s[0] == c then 1 else 0) + CountChar(s[1..], c)
  }

  /** The index of the first `c` in `s`, as str.find(c). */
  function IndexOfChar(s: string, c: char): (r: Option<nat>)
    ensures r.Some? ==> r.value < |s| && s[r.value] == c && c !in s[..r.value]
    ensures r.Some? ==> forall j :: 0 <= j < r.value ==> s[j] != c
    ensures r.None? ==> c !in s && forall j :: 0 <= j < |s| ==> s[j] != c
  {
    if s == [] then None
    else if s[0] == c then Some(0)
    else
      match IndexOfChar(s[1..], c)
      case None => None
      case Some(i) =>
        assert s[..i + 1] == [s[0]] + s[1..][..i];
        Some(i + 1)
  }

  /** s.split(c) for a one-character separator: the pieces between the separators. */
  function Split(s: string, c: char): (r: seq<string>)
    ensures |r| == CountChar(s, c) + 1
    ensures forall k :: 0 <= k < |r| ==> c !in r[k]
    decreases |s|
  {
    match IndexOfChar(s, c)
    case None =>
      NoCharCount(s, c);
      [s]
    case Some(i) =>
      CountSplitAt(s, c, i);
      [s[..i]] + Split(s[i + 1..], c)
  }

  lemma NoCharCount(s: string, c: char)
    requires c !in s
    ensures CountChar(s, c) == 0
  {
    if s != [] {
      assert c !in s[1..];
      NoCharCount(s[1..], c);
    }
  }

  lemma {:induction false} CountSplitAt(s: string, c: char, i: nat)
    requires i < |s| && s[i] == c && c !in s[..i]
    ensures CountChar(s, c) == 1 + CountChar(s[i + 1..], c)
  {
    if i == 0 {
      assert s[1..] == s[i + 1..];
    } else {
      assert s[0] != c;
      assert s[1..][..i - 1] == s[1..i];
      assert c !in s[1..][..i - 1];
      CountSplitAt(s[1..], c, i - 1);
      assert s[1..][i..] == s[i + 1..];
    }
  }

  /** Joining the pieces of s.split(c) with `c` rebuilds `s`. */
  lemma {:induction false} JoinSplit(s: string, c: char)
    ensures Join(Split(s, c), [c]) == s
    decreases |s|
  {
    match IndexOfChar(s, c)
    case None =>
    case Some(i) =>
      var rest := Split(s[i + 1..], c);
      JoinSplit(s[i + 1..], c);
      assert ([s[..i]] + rest)[1..] == rest;
      assert s == s[..i] + [c] + s[i + 1..];
  }

  /** Some key occurs in `s`: any(k in s for k in keys). */
  predicate AnyContained(keys: seq<string>, s: string) {
    keys != [] && (Contains(s, keys[0]) || AnyContained(keys[1..], s))
  }

  /** The keys are looked for one by one, so one of them is found exactly when some key occurs. */
  lemma {:induction false} AnyContainedIff(keys: seq<string>, s: string)
    ensures AnyContained(keys, s) <==> exists i :: 0 <= i < |keys| && Contains(s, keys[i])
  {
    if keys != [] {
      AnyContainedIff(keys[1..], s);
      if exists i :: 0 <= i < |keys| && Contains(s, keys[i]) {
        var i :| 0 <= i < |keys| && Contains(s, keys[i]);
        if i > 0 {
          assert keys[1..][i - 1] == keys[i];
        }
      }
      if AnyContained(keys[1..], s) {
        var i :| 0 <= i < |keys[1..]| && Contains(s, keys[1..][i]);
        assert keys[i + 1] == keys[1..][i];
      }
    }
  }

  predicate IsDigit(c: char) {
    '0' <= c <= '9'
  }

  predicate IsAsciiLetter(c: char) {
    'a' <= c <= 'z' || 'A' <= c <= 'Z'
  }

  /** str.isdigit(): non-empty and every character a digit. */
  predicate AllDigits(s: string) {
    |s| > 0 && forall i :: 0 <= i < |s| ==> IsDigit(s[i])
  }

  /** The decimal value of a string of digits. */
  function DigitsValue(s: string): nat
    requires forall i :: 0 <= i < |s| ==> IsDigit(s[i])
  {
    if s == [] then 0
    else
      assert IsDigit(s[|s| - 1]);
      DigitsValue(s[..|s| - 1]) * 10 + (s[|s| - 1] as int - '0' as int)
  }

  function DigitChar(d: nat): (c: char)
    requires d < 10
    ensures IsDigit(c) && c as int - '0' as int == d
  {
    ('0' as int + d) as char
  }

  /** f"{n}" for a natural number: its decimal digits. */
  function NatToString(n: nat): (r: string)
    ensures AllDigits(r)
    ensures |r| > 1 ==> r[0] != '0'
  {
    if n < 10 then [DigitChar(n)] else NatToString(n / 10) + [DigitChar(n % 10)]
  }

  /** Reading back the digits of f"{n}" gives n. */
  lemma {:induction false} NatToStringRoundTrip(n: nat)
    ensures DigitsValue(NatToString(n)) == n
  {
    var r := NatToString(n);
    if n >= 10 {
      NatToStringRoundTrip(n / 10);
      assert r[..|r| - 1] == NatToString(n / 10);
    }
  }
}
