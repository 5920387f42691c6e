/**
 * Text files as the modelled code sees them: a file system maps a path to the file's text
 * (already decoded, newlines already translated to '\n'); readlines() splits the text after
 * every '\n', and writelines() concatenates.
 */
module Files {
  import opened Strings

  type FileSystem = map<string, string>

  /** f.readlines(): the lines of `text`, each keeping its '\n'; only the last may lack one. */
  function ReadLines(text: string): (r: seq<string>)
    ensures forall k :: 0 <= k < |r| ==> r[k] != []
    ensures forall k :: 0 <= k < |r| - 1 ==> r[k][|r[k]| - 1] == '\n'
    ensures forall k :: 0 <= k < |r| ==> '\n' !in r[k][..|r[k]| - 1]
    decreases |text|
  {
    if text == [] then []
    else
      match IndexOfChar(text, '\n')
      case None => [text]
      case Some(i) =>
        assert text[..i + 1][..i] == text[..i];
        [text[..i + 1]] + ReadLines(text[i + 1..])
  }

  /** f.writelines(lines): the lines written one after another. */
  function Concat(lines: seq<string>): string {
    if lines == [] then [] else lines[0] + Concat(lines[1..])
  }

  /** Writing back what readlines() returned reproduces the file. */
  lemma {:induction false} ConcatReadLines(text: string)
    ensures Concat(ReadLines(text)) == text
    decreases |text|
  {
    if text != [] {
      match IndexOfChar(text, '\n')
      case None =>
      case Some(i) =>
        ConcatReadLines(text[i + 1..]);
        assert text == text[..i + 1] + text[i + 1..];
    }
  }

  /** f.readline(): the first line, or "" at the end of the file. */
  function ReadLine(text: string): string {
    var lines := ReadLines(text);
    if lines == [] then "" else lines[0]
  }

  /** The text left after one readline(). */
  function AfterFirstLine(text: string): string {
    var lines := ReadLines(text);
    if lines == [] then "" else Concat(lines[1..])
  }

  /** The first line and the rest make up the file. */
  lemma FirstLineAndRest(text: string)
    ensures ReadLine(text) + AfterFirstLine(text) == text
  {
    ConcatReadLines(text);
  }

  /** A line without its '\n' terminator. */
  function LineText(line: string): (r: string)
    ensures line == r || line == r + "\n"
  {
    if line != [] && line[|line| - 1] == '\n' then line[..|line| - 1] else line
  }
}
