/**
 * The string primitives the configuration editor relies on, written out by hand:
 * Python's whitespace class, `str.strip()`, `re.split(r'\s+', s, 1)`,
 * `str.split(c, 1)`, `'\n'.join(...)` and the line iteration of a text file.
 */
module Text {
  import opened Base

  /**
   * The characters for which Python's `str.isspace()` holds. Both `str.strip()`
   * without arguments and the regular-expression class `\s` on `str` patterns
   * use exactly this set.
   */
  predicate IsSpace(c: char) {
    || c == ' '
    || ('\t' <= c <= '\r')
    || ('\U{1C}' <= c <= '\U{1F}')
    || c == '\U{85}'
    || c == '\U{A0}'
    || c == '\U{1680}'
    || ('\U{2000}' <= c <= '\U{200A}')
    || c == '\U{2028}'
    || c == '\U{2029}'
    || c == '\U{202F}'
    || c == '\U{205F}'
    || c == '\U{3000}'
  }

  predicate AllSpace(s: string) {
    forall i | 0 <= i < |s| :: IsSpace(s[i])
  }

  predicate NoSpace(s: string) {
    forall i | 0 <= i < |s| :: !IsSpace(s[i])
  }

  /** `s` has no whitespace at either end, so `s.strip() == s`. */
  predicate IsStripped(s: string) {
    s == [] || (!IsSpace(s[0]) && !IsSpace(s[|s| - 1]))
  }

  /** Length of the longest all-whitespace prefix of `s`. */
  function LeadingSpaces(s: string): (k: nat)
    ensures k <= |s|
    ensures forall i | 0 <= i < k :: IsSpace(s[i])
    ensures k == |s| || !IsSpace(s[k])
  {
    if |s| == 0 || !IsSpace(s[0]) then 0 else 1 + LeadingSpaces(s[1..])
  }

  lemma LeadingSpacesIs(s: string, k: nat)
    requires k <= |s|
    requires forall i | 0 <= i < k :: IsSpace(s[i])
    requires k == |s| || !IsSpace(s[k])
    ensures LeadingSpaces(s) == k
  {
  }

  /** Length of the longest all-whitespace suffix of `s`. */
  function TrailingSpaces(s: string): (k: nat)
    ensures k <= |s|
    ensures forall i | |s| - k <= i < |s| :: IsSpace(s[i])
    ensures k == |s| || !IsSpace(s[|s| - k - 1])
  {
    if |s| == 0 || !IsSpace(s[|s| - 1]) then 0 else 1 + TrailingSpaces(s[..|s| - 1])
  }

  lemma TrailingSpacesIs(s: string, k: nat)
    requires k <= |s|
    requires forall i | |s| - k <= i < |s| :: IsSpace(s[i])
    requires k == |s| || !IsSpace(s[|s| - k - 1])
    ensures TrailingSpaces(s) == k
  {
  }

  /** Python's `s.strip()`: `s` with the whitespace at both ends removed. */
  function Strip(s: string): (r: string)
    ensures IsStripped(r)
  {
    var t := s[LeadingSpaces(s)..];
    t[..|t| - TrailingSpaces(t)]
  }

  /** What `Strip` removes is whitespace at the two ends and nothing else. */
  lemma StripSpec(s: string) returns (w1: string, w2: string)
    ensures s == w1 + Strip(s) + w2
    ensures AllSpace(w1) && AllSpace(w2)
  {
    var a := LeadingSpaces(s);
    var t := s[a..];
    var b := TrailingSpaces(t);
    var c := |s| - b;
    w1, w2 := s[..a], s[c..];
    assert Strip(s) == s[a..c] by {
      assert t[..|t| - b] == s[a..c];
    }
    assert AllSpace(w1) by {
      assert forall i | 0 <= i < |w1| :: w1[i] == s[i];
    }
    assert AllSpace(w2) by {
      assert forall i | 0 <= i < |w2| :: w2[i] == t[|t| - b + i];
    }
    SliceThree(s, a, c);
  }

  /** Cutting a sequence at two points and gluing the pieces gives it back. */
  lemma SliceThree<T>(s: seq<T>, a: nat, c: nat)
    requires a <= c <= |s|
    ensures s == s[..a] + s[a..c] + s[c..]
  {
    assert s[..a] + s[a..c] == s[..c];
  }

  /** Stripping is determined by the padding: whatever whitespace surrounds a stripped string is removed, and nothing else. */
  lemma StripPadded(w1: string, x: string, w2: string)
    requires AllSpace(w1) && AllSpace(w2) && IsStripped(x)
    ensures Strip(w1 + x + w2) == x
  {
    var s := w1 + x + w2;
    assert forall i | 0 <= i < |w1| :: s[i] == w1[i];
    assert forall i | 0 <= i < |w2| :: s[|w1| + |x| + i] == w2[i];
    if x == [] {
      LeadingSpacesIs(s, |s|);
    } else {
      assert s[|w1|] == x[0];
      LeadingSpacesIs(s, |w1|);
      var t := s[|w1|..];
      assert t == x + w2;
      assert forall i | 0 <= i < |w2| :: t[|x| + i] == w2[i];
      assert t[|x| - 1] == x[|x| - 1];
      TrailingSpacesIs(t, |w2|);
      assert t[..|t| - |w2|] == x;
    }
  }

  /** A stripped string is its own strip. */
  lemma StripStripped(s: string)
    requires IsStripped(s)
    ensures Strip(s) == s
  {
    StripPadded([], s, []);
    assert [] + s + [] == s;
  }

  /** Leading whitespace alone is removed from a stripped string. */
  lemma StripLeft(w: string, x: string)
    requires AllSpace(w) && IsStripped(x)
    ensures Strip(w + x) == x
  {
    StripPadded(w, x, []);
    assert w + x + [] == w + x;
  }

  /** Trailing whitespace alone is removed from a stripped string. */
  lemma StripRight(x: string, w: string)
    requires IsStripped(x) && AllSpace(w)
    ensures Strip(x + w) == x
  {
    StripPadded([], x, w);
    assert [] + x + w == x + w;
  }

  /** Stripping a string is stripping it with one more trailing whitespace character. */
  lemma StripAppendSpace(s: string, c: char)
    requires IsSpace(c)
    ensures Strip(s + [c]) == Strip(s)
  {
    var w1, w2 := StripSpec(s);
    assert s + [c] == w1 + Strip(s) + (w2 + [c]);
    StripPadded(w1, Strip(s), w2 + [c]);
  }

  /** Stripping never introduces a character. */
  lemma StripKeepsOut(s: string, c: char)
    requires c !in s
    ensures c !in Strip(s)
  {
    var w1, w2 := StripSpec(s);
    var r := Strip(s);
    assert forall j | 0 <= j < |r| :: r[j] == s[|w1| + j];
  }

  /** Index of the first whitespace character of `s`, or `|s|` when there is none. */
  function FirstSpace(s: string): (k: nat)
    ensures k <= |s|
    ensures forall i | 0 <= i < k :: !IsSpace(s[i])
    ensures k < |s| ==> IsSpace(s[k])
  {
    if |s| == 0 || IsSpace(s[0]) then 0 else 1 + FirstSpace(s[1..])
  }

  lemma FirstSpaceIs(s: string, k: nat)
    requires k <= |s|
    requires forall i | 0 <= i < k :: !IsSpace(s[i])
    requires k < |s| ==> IsSpace(s[k])
    ensures FirstSpace(s) == k
  {
  }

  /** Index of the first occurrence of `c` in `s`, or `|s|` when there is none. */
  function FirstIndex(s: string, c: char): (k: nat)
    ensures k <= |s|
    ensures forall i | 0 <= i < k :: s[i] != c
    ensures k < |s| ==> s[k] == c
  {
    if |s| == 0 || s[0] == c then 0 else 1 + FirstIndex(s[1..], c)
  }

  lemma FirstIndexOf(a: string, c: char, b: string)
    requires c !in a
    ensures FirstIndex(a + [c] + b, c) == |a|
  {
    var s := a + [c] + b;
    assert forall i | 0 <= i < |a| :: s[i] == a[i];
    assert s[|a|] == c;
  }

  /**
   * Python's `re.split(r'\s+', s, 1)`: `None` when the pattern does not match (the
   * one-element result), otherwise the text before the first whitespace run, the run
   * itself and the text after it.
   */
  function SplitAtSpaceRun(s: string): (r: Option<(string, string, string)>)
    ensures r.None? <==> NoSpace(s)
    ensures r.Some? ==>
              var (head, sep, tail) := r.value;
              && s == head + sep + tail
              && NoSpace(head)
              && sep != [] && AllSpace(sep)
              && (tail == [] || !IsSpace(tail[0]))
  {
    var k := FirstSpace(s);
    if k == |s| then
      None
    else
      var rest := s[k..];
      var n := LeadingSpaces(rest);
      assert s == s[..k] + rest[..n] + rest[n..];
      assert !NoSpace(s) by { assert IsSpace(s[k]); }
      Some((s[..k], rest[..n], rest[n..]))
  }

  /** A stripped string that splits has a non-empty head and a non-empty tail. */
  lemma SplitAtSpaceRunStripped(s: string)
    requires IsStripped(s) && SplitAtSpaceRun(s).Some?
    ensures SplitAtSpaceRun(s).value.0 != [] && SplitAtSpaceRun(s).value.2 != []
  {
    var (head, sep, tail) := SplitAtSpaceRun(s).value;
    assert s[0] == (head + sep)[0];
    assert s[|s| - 1] == (sep + tail)[|sep + tail| - 1];
  }

  /** A string made of a whitespace-free head, a whitespace run and a tail that does not start with whitespace splits exactly there. */
  lemma SplitAtSpaceRunOf(head: string, sep: string, tail: string)
    requires NoSpace(head) && |sep| > 0 && AllSpace(sep)
    requires tail == [] || !IsSpace(tail[0])
    ensures SplitAtSpaceRun(head + sep + tail) == Some((head, sep, tail))
  {
    var s := head + sep + tail;
    var rest := sep + tail;
    assert FirstSpace(s) == |head| by {
      assert forall i | 0 <= i < |head| :: s[i] == head[i];
      assert s[|head|] == sep[0];
      FirstSpaceIs(s, |head|);
    }
    assert s[|head|..] == rest && s[..|head|] == head;
    assert LeadingSpaces(rest) == |sep| by {
      assert forall i | 0 <= i < |sep| :: rest[i] == sep[i];
      assert |tail| > 0 ==> rest[|sep|] == tail[0];
      LeadingSpacesIs(rest, |sep|);
    }
    assert rest[..|sep|] == sep && rest[|sep|..] == tail;
  }

  /** Python's `s.split(c, 1)`: `None` when `c` does not occur, otherwise the text around its first occurrence. */
  function SplitAtChar(s: string, c: char): (r: Option<(string, string)>)
    ensures r.None? <==> c !in s
    ensures r.Some? ==> s == r.value.0 + [c] + r.value.1 && c !in r.value.0
  {
    var k := FirstIndex(s, c);
    if k == |s| then
      assert s[..k] == s;
      None
    else
      assert s == s[..k] + [c] + s[k + 1..];
      Some((s[..k], s[k + 1..]))
  }

  /** The split on a character happens at its first occurrence. */
  lemma SplitAtCharOf(a: string, c: char, b: string)
    requires c !in a
    ensures SplitAtChar(a + [c] + b, c) == Some((a, b))
  {
    FirstIndexOf(a, c, b);
    var s := a + [c] + b;
    assert s[..|a|] == a;
    assert s[|a| + 1..] == b;
  }

  /** Python's `sep.join(lines)`. */
  function Join(lines: seq<string>, sep: char): string {
    if |lines| == 0 then []
    else if |lines| == 1 then lines[0]
    else lines[0] + [sep] + Join(lines[1..], sep)
  }

  /** All the pieces, one after another. */
  function Concat(pieces: seq<string>): string {
    if pieces == [] then [] else pieces[0] + Concat(pieces[1..])
  }

  /**
   * The lines a text file yields when iterated, `for line in fp`: each line keeps its
   * terminating newline, and only the last one may lack it.
   */
  function FileLines(text: string): (lines: seq<string>)
    ensures Concat(lines) == text
    ensures forall i | 0 <= i < |lines| :: lines[i] != [] && '\n' !in lines[i][..|lines[i]| - 1]
    ensures forall i | 0 <= i < |lines| - 1 :: lines[i][|lines[i]| - 1] == '\n'
    decreases |text|
  {
    if text == [] then []
    else
      var k := FirstIndex(text, '\n');
      if k == |text| then
        assert text[..|text| - 1] == text[..k][..|text| - 1];
        [text]
      else
        var line := text[..k + 1];
        var rest := FileLines(text[k + 1..]);
        assert line[..|line| - 1] == text[..k];
        assert text == line + text[k + 1..];
        assert ([line] + rest)[1..] == rest;
        [line] + rest
  }

  /** Every line followed by a newline. */
  function Terminated(lines: seq<string>): seq<string> {
    if lines == [] then [] else [lines[0] + "\n"] + Terminated(lines[1..])
  }

  /** A line without a newline, its newline, then more text: iteration yields the terminated line first. */
  lemma FileLinesCons(line: string, rest: string)
    requires '\n' !in line
    ensures FileLines(line + "\n" + rest) == [line + "\n"] + FileLines(rest)
  {
    var text := line + "\n" + rest;
    FirstIndexOf(line, '\n', rest);
    assert text[..|line| + 1] == line + "\n";
    assert text[|line| + 1..] == rest;
  }

  /**
   * Iterating over lines joined by newlines, the last one blank, gives the other lines
   * back, each with its newline.
   */
  lemma {:induction false} FileLinesOfJoin(lines: seq<string>)
    requires forall i | 0 <= i < |lines| :: '\n' !in lines[i]
    ensures FileLines(Join(lines + [""], '\n')) == Terminated(lines)
  {
    if lines == [] {
      assert lines + [""] == [""];
    } else {
      var more := lines[1..];
      assert (lines + [""])[1..] == more + [""];
      var rest := Join(more + [""], '\n');
      assert Join(lines + [""], '\n') == lines[0] + "\n" + rest;
      assert '\n' !in lines[0];
      FileLinesCons(lines[0], rest);
      assert forall i | 0 <= i < |more| :: '\n' !in more[i] by {
        assert forall i | 0 <= i < |more| :: more[i] == lines[i + 1];
      }
      FileLinesOfJoin(more);
    }
  }
}
