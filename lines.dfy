/**
  Text helpers for the indented listing: the two-spaces-per-level indentation,
  counting newline characters, and splitting a text back into its lines.
 */
module Lines {

  /** `'  '.repeat(level)`: two spaces for every level of depth. */
  function Indent(level: nat): (r: string)
    ensures |r| == 2 * level
    ensures forall k :: 0 <= k < |r| ==> r[k] == ' '
  {
    if level == 0 then "" else "  " + Indent(level - 1)
  }

  /** Number of '\n' characters in `t`. */
  function CountNewlines(t: string): (n: nat)
    ensures n <= |t|
    ensures n == 0 <==> '\n' !in t
  {
    if t == [] then 0
    else (if t[0] == '\n' then 1 else 0) + CountNewlines(t[1..])
  }

  lemma {:induction false} CountNewlinesAppend(a: string, b: string)
    ensures CountNewlines(a + b) == CountNewlines(a) + CountNewlines(b)
  {
    if a != [] {
      assert (a + b)[0] == a[0];
      assert (a + b)[1..] == a[1..] + b;
      CountNewlinesAppend(a[1..], b);
    } else {
      assert a + b == b;
    }
  }

  /** Position of the first '\n' in `t`, or `|t|` when there is none. */
  function FirstNewline(t: string): (k: nat)
    ensures k <= |t|
    ensures k < |t| ==> t[k] == '\n'
    ensures forall j :: 0 <= j < k ==> t[j] != '\n'
  {
    if t == [] then 0
    else if t[0] == '\n' then 0
    else 1 + FirstNewline(t[1..])
  }

  /**
    The lines of `t`, each without its terminating '\n'. A final newline
    ends the last line; it does not start an empty one.
   */
  function SplitLines(t: string): (ls: seq<string>)
    ensures forall k :: 0 <= k < |ls| ==> '\n' !in ls[k]
    ensures |ls| <= |t|
    decreases |t|
  {
    if t == [] then []
    else
      var k := FirstNewline(t);
      if k == |t| then [t] else [t[..k]] + SplitLines(t[k + 1..])
  }

  /** A newline-free line followed by '\n' is split off as one line. */
  lemma SplitLinesCons(line: string, rest: string)
    requires '\n' !in line
    ensures SplitLines(line + "\n" + rest) == [line] + SplitLines(rest)
  {
    var t := line + "\n" + rest;
    var k := FirstNewline(t);
    assert t[|line|] == '\n';
    assert forall j :: 0 <= j < |line| ==> t[j] == line[j];
    assert k == |line|;
    assert t[..k] == line;
    assert t[k + 1..] == rest;
  }

  /** Indenting a line that has no newline does not introduce one. */
  lemma IndentedOneLine(level: nat, s: string)
    requires '\n' !in s
    ensures '\n' !in Indent(level) + s
  {
  }
}
