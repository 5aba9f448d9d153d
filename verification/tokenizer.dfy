/** `NaiveTokenizer.tokenize`: four regular-expression passes over the text.

      1. lower-case, then surround every non-word character with one space on
         each side (`re.sub(r'(\W)', r' \1 ', text.lower())`);
      2. glue `w ' w` back into `w'w` (`re.sub(r"(\w) \' (\w)", ...)`);
      3. replace `.\s+.\s+.` by `...`;
      4. `str.split()`: maximal runs of non-whitespace.

    Each `re.sub` is modelled as Python performs it: a left-to-right scan that
    replaces the leftmost match and resumes after it, so matches never overlap.
    Pass 2 on `a ' b ' c` therefore glues only the first apostrophe. */
module Tokenizer {
  import opened Base
  import opened Chars

  /** Pass 1 for one character. */
  function PadChar(c: char): string
  {
    if IsWordChar(c) then [c] else [' ', c, ' ']
  }

  /** Pass 1: every non-word character (whitespace included) gets a space on each side. */
  function Pad(s: string): (r: string)
  {
    if s == [] then [] else PadChar(s[0]) + Pad(s[1..])
  }

  /** The pattern `(\w) ' (\w)` matches at the start of `s`. */
  predicate ApostropheAt(s: string)
  {
    |s| >= 5 && IsWordChar(s[0]) && s[1] == ' ' && s[2] == '\'' && s[3] == ' ' && IsWordChar(s[4])
  }

  /** Pass 2: leftmost, non-overlapping replacement of `w ' w` by `w'w`. */
  function JoinApostrophes(s: string): (r: string)
    decreases |s|
  {
    if s == [] then []
    else if ApostropheAt(s) then [s[0], '\'', s[4]] + JoinApostrophes(s[5..])
    else [s[0]] + JoinApostrophes(s[1..])
  }

  /** End of the whitespace run of `s` that starts at `i`. */
  function SpaceRunEnd(s: string, i: nat): (j: nat)
    requires i <= |s|
    ensures i <= j <= |s|
    ensures forall k :: i <= k < j ==> IsSpace(s[k])
    ensures j == |s| || !IsSpace(s[j])
    decreases |s| - i
  {
    if i < |s| && IsSpace(s[i]) then SpaceRunEnd(s, i + 1) else i
  }

  /** Where a match of `\.\s+\.\s+\.` that starts at the beginning of `s` ends, if
      there is one. A greedy `\s+` that stops short of a `.` cannot succeed by
      backtracking, since the character it gives back is whitespace, so the
      match is decided by the maximal runs. */
  function EllipsisEnd(s: string): (r: Option<nat>)
    ensures r.Some? ==> 5 <= r.value <= |s|
  {
    if |s| == 0 || s[0] != '.' then None
    else
      var j1 := SpaceRunEnd(s, 1);
      if j1 == 1 || j1 == |s| || s[j1] != '.' then None
      else
        var j2 := SpaceRunEnd(s, j1 + 1);
        if j2 == j1 + 1 || j2 == |s| || s[j2] != '.' then None
        else Some(j2 + 1)
  }

  /** Pass 3: leftmost, non-overlapping replacement of `.\s+.\s+.` by `...`. */
  function JoinEllipses(s: string): (r: string)
    decreases |s|
  {
    if s == [] then []
    else
      match EllipsisEnd(s)
      case Some(e) => "..." + JoinEllipses(s[e..])
      case None => [s[0]] + JoinEllipses(s[1..])
  }

  /** End of the run of non-whitespace characters of `s` that starts at `i`. */
  function WordEnd(s: string, i: nat): (j: nat)
    requires i <= |s|
    ensures i <= j <= |s|
    ensures forall k :: i <= k < j ==> !IsSpace(s[k])
    ensures j == |s| || IsSpace(s[j])
    decreases |s| - i
  {
    if i < |s| && !IsSpace(s[i]) then WordEnd(s, i + 1) else i
  }

  /** Pass 4: `str.split()` with no separator. */
  function Split(s: string): (r: seq<string>)
    ensures forall k :: 0 <= k < |r| ==> |r[k]| > 0
    ensures forall k, i :: 0 <= k < |r| && 0 <= i < |r[k]| ==> !IsSpace(r[k][i])
    decreases |s|
  {
    if s == [] then []
    else if IsSpace(s[0]) then Split(s[1..])
    else
      var j := WordEnd(s, 0);
      [s[..j]] + Split(s[j..])
  }

  /** `NaiveTokenizer.tokenize`. */
  function Tokenize(text: string): seq<string>
  {
    Split(JoinEllipses(JoinApostrophes(Pad(Lower(text)))))
  }
}
