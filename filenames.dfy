/**
 * The copy-name rule applied when an owner uploads a second file under a name
 * already in use: " (1)" goes in front of the extension, or at the end of a
 * name without one.
 */
module FileNames {

  /** Python's `str.rfind(c)`: the index of the last `c` in `s`, or -1. */
  function RFind(s: string, c: char): (i: int)
    ensures -1 <= i < |s|
    ensures i >= 0 ==> s[i] == c
    ensures forall j :: i < j < |s| ==> s[j] != c
  {
    if |s| == 0 then -1
    else if s[|s| - 1] == c then |s| - 1
    else RFind(s[..|s| - 1], c)
  }

  const CopyMark := " (1)"

  /** `add_postfix`. */
  function AddPostfix(filename: string): (r: string)
    ensures |r| == |filename| + |CopyMark|
  {
    var dot := RFind(filename, '.');
    if dot < 0 then filename + CopyMark
    else filename[..dot] + CopyMark + filename[dot..]
  }

  /** Without a dot the mark is appended. */
  lemma AddPostfixWithoutDot(filename: string)
    requires '.' !in filename
    ensures AddPostfix(filename) == filename + " (1)"
  {
  }

  /**
   * With a dot the mark goes right before the LAST dot: the stem before it and
   * the extension from it are both kept, and cutting the four characters of the
   * mark back out at the dot's index gives the original name.
   */
  lemma AddPostfixWithDot(filename: string, dot: nat)
    requires dot < |filename| && filename[dot] == '.'
    requires forall j :: dot < j < |filename| ==> filename[j] != '.'
    ensures AddPostfix(filename) == filename[..dot] + " (1)" + filename[dot..]
    ensures |AddPostfix(filename)| == |filename| + 4
    ensures AddPostfix(filename)[..dot] == filename[..dot]
    ensures AddPostfix(filename)[dot..dot + 4] == " (1)"
    ensures AddPostfix(filename)[dot + 4..] == filename[dot..]
    ensures AddPostfix(filename)[..dot] + AddPostfix(filename)[dot + 4..] == filename
  {
  }
}
