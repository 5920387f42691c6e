/**
 * POSIX path helpers with the behaviour of Python's posixpath (os.path on Linux and macOS)
 * and of pathlib's `name` property.
 */
module Paths {
  import opened Wrappers
  import opened Strings

  /** The index just after the last '/', or 0 when there is none. */
  function TailStart(p: string): (i: nat)
    ensures i <= |p| && '/' !in p[i..]
    ensures i > 0 ==> p[i - 1] == '/'
  {
    match LastIndexOfChar(p, '/')
    case None => 0
    case Some(k) =>
      k + 1
  }

  /** os.path.basename(p): what follows the last '/'. */
  function Basename(p: string): (r: string)
    ensures '/' !in r && EndsWith(p, r)
  {
    p[TailStart(p)..]
  }

  predicate AllSlashes(s: string) {
    forall i :: 0 <= i < |s| ==> s[i] == '/'
  }

  /** s.rstrip('/'). */
  function RStripSlashes(s: string): (r: string)
    ensures StartsWith(s, r) && (r == [] || r[|r| - 1] != '/')
    ensures forall i :: |r| <= i < |s| ==> s[i] == '/'
  {
    if s != [] && s[|s| - 1] == '/' then RStripSlashes(s[..|s| - 1]) else s
  }

  /** os.path.dirname(p): the part up to the last '/', trailing slashes dropped unless it is all slashes. */
  function Dirname(p: string): string {
    var head := p[..TailStart(p)];
    if head != "" && !AllSlashes(head) then RStripSlashes(head) else head
  }

  /** os.path.join(a, b) for two parts. */
  function JoinPath(a: string, b: string): string {
    if StartsWith(b, "/") then b
    else if a == "" || EndsWith(a, "/") then a + b
    else a + "/" + b
  }

  /** After a prefix ending in '/', a slash-free tail starts exactly at the prefix's end. */
  lemma TailStartAfter(x: string, b: string)
    requires '/' !in b && (x == [] || x[|x| - 1] == '/')
    ensures TailStart(x + b) == |x|
  {
    LastIndexPastSuffix(x, b, '/');
  }

  /** A suffix free of `c` does not move the last `c`. */
  lemma {:induction false} LastIndexPastSuffix(x: string, b: string, c: char)
    requires c !in b
    ensures LastIndexOfChar(x + b, c) == LastIndexOfChar(x, c)
    decreases |b|
  {
    if b != [] {
      assert (x + b)[..|x + b| - 1] == x + b[..|b| - 1];
      LastIndexPastSuffix(x, b[..|b| - 1], c);
    } else {
      assert x + b == x;
    }
  }

  /** Joining a plain file name and taking the basename gives the name back. */
  lemma BasenameOfJoin(a: string, b: string)
    requires '/' !in b
    ensures Basename(JoinPath(a, b)) == b
  {
    assert !StartsWith(b, "/") by {
      if |b| > 0 {
        assert b[..1][0] == b[0];
      }
    }
    var x := if a == "" || EndsWith(a, "/") then a else a + "/";
    assert JoinPath(a, b) == x + b;
    assert x == [] || x[|x| - 1] == '/' by {
      if a != "" && EndsWith(a, "/") {
        assert a[|a| - 1] == a[|a| - 1..][0];
      }
    }
    TailStartAfter(x, b);
    assert (x + b)[|x|..] == b;
  }

  /** Path components as pathlib keeps them: no empty and no '.' parts. */
  function Components(parts: seq<string>): (r: seq<string>)
    ensures forall k :: 0 <= k < |r| ==> r[k] != "" && r[k] != "."
  {
    if parts == [] then []
    else if parts[0] == "" || parts[0] == "." then Components(parts[1..])
    else [parts[0]] + Components(parts[1..])
  }

  /** pathlib.PurePosixPath(p).name: the last kept component, or "" when there is none. */
  function PathName(p: string): (r: string)
    ensures '/' !in r && r != "."
  {
    var parts := Components(Split(p, '/'));
    if parts == [] then ""
    else
      assert parts[|parts| - 1] in Split(p, '/') by { ComponentsFrom(Split(p, '/')); }
      parts[|parts| - 1]
  }

  lemma ComponentsFrom(parts: seq<string>)
    ensures forall x :: x in Components(parts) ==> x in parts
  {
  }
}
