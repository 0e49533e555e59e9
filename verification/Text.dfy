/**
 * The Python `str` operations the audit parsers are built from, over
 * `seq<char>`: whitespace classification, `strip()`, `splitlines()`,
 * `split(sep)`, `split()`, splitting at the regular expression `\s{2,}`,
 * `sep.join(...)` and the substring test `t in s`.
 */
module Text {

  // ---------------------------------------------------------------------
  // Character classes
  // ---------------------------------------------------------------------

  /**
   * Python's notion of whitespace (`str.isspace()`): the characters that
   * `str.split()`, `str.strip()` and `\s` in a `str` pattern all use.
   */
  predicate IsSpace(c: char) {
    var n := c as int;
    (0x09 <= n <= 0x0D) || (0x1C <= n <= 0x20) || n == 0x85 || n == 0xA0
    || n == 0x1680 || (0x2000 <= n <= 0x200A) || n == 0x2028 || n == 0x2029
    || n == 0x202F || n == 0x205F || n == 0x3000
  }

  /** The line boundaries of `str.splitlines()`; `\r\n` counts as one boundary. */
  predicate IsLineBreak(c: char) {
    var n := c as int;
    (0x0A <= n <= 0x0D) || (0x1C <= n <= 0x1E) || n == 0x85 || n == 0x2028 || n == 0x2029
  }

  predicate NoSpace(s: string) {
    forall i :: 0 <= i < |s| ==> !IsSpace(s[i])
  }

  predicate AllSpace(s: string) {
    forall i :: 0 <= i < |s| ==> IsSpace(s[i])
  }

  predicate NoLineBreak(s: string) {
    forall i :: 0 <= i < |s| ==> !IsLineBreak(s[i])
  }

  /** Neither starts nor ends with whitespace: what `strip()` returns. */
  predicate IsTrimmed(s: string) {
    s == [] || (!IsSpace(s[0]) && !IsSpace(s[|s| - 1]))
  }

  /** No two whitespace characters in a row. */
  predicate NoDoubleSpace(s: string) {
    forall i :: 0 <= i < |s| - 1 ==> !(IsSpace(s[i]) && IsSpace(s[i + 1]))
  }

  /**
   * A column of a whitespace-aligned table row: non-empty, no whitespace
   * at either end, whitespace inside only one character at a time.
   */
  predicate IsCell(s: string) {
    s != [] && IsTrimmed(s) && NoDoubleSpace(s)
  }

  // ---------------------------------------------------------------------
  // Scanning helpers: the first position at or after `from` with a property
  // ---------------------------------------------------------------------

  function FirstSpace(s: string, from: nat): (k: nat)
    requires from <= |s|
    ensures from <= k <= |s|
    ensures k < |s| ==> IsSpace(s[k])
    ensures forall i :: from <= i < k ==> !IsSpace(s[i])
    decreases |s| - from
  {
    if from == |s| || IsSpace(s[from]) then from else FirstSpace(s, from + 1)
  }

  function FirstNonSpace(s: string, from: nat): (k: nat)
    requires from <= |s|
    ensures from <= k <= |s|
    ensures k < |s| ==> !IsSpace(s[k])
    ensures forall i :: from <= i < k ==> IsSpace(s[i])
    decreases |s| - from
  {
    if from == |s| || !IsSpace(s[from]) then from else FirstNonSpace(s, from + 1)
  }

  function FirstLineBreak(s: string, from: nat): (k: nat)
    requires from <= |s|
    ensures from <= k <= |s|
    ensures k < |s| ==> IsLineBreak(s[k])
    ensures forall i :: from <= i < k ==> !IsLineBreak(s[i])
    decreases |s| - from
  {
    if from == |s| || IsLineBreak(s[from]) then from else FirstLineBreak(s, from + 1)
  }

  function IndexOf(s: string, c: char, from: nat): (k: nat)
    requires from <= |s|
    ensures from <= k <= |s|
    ensures k < |s| ==> s[k] == c
    ensures forall i :: from <= i < k ==> s[i] != c
    decreases |s| - from
  {
    if from == |s| || s[from] == c then from else IndexOf(s, c, from + 1)
  }

  /** The first position where two whitespace characters start, or `|s|`. */
  function FirstDoubleSpace(s: string, from: nat): (k: nat)
    requires from <= |s|
    ensures from <= k <= |s|
    ensures k < |s| ==> k + 1 < |s| && IsSpace(s[k]) && IsSpace(s[k + 1])
    ensures forall i :: from <= i < k && i + 1 < |s| ==> !(IsSpace(s[i]) && IsSpace(s[i + 1]))
    decreases |s| - from
  {
    if from + 1 >= |s| then |s|
    else if IsSpace(s[from]) && IsSpace(s[from + 1]) then from
    else FirstDoubleSpace(s, from + 1)
  }

  // ---------------------------------------------------------------------
  // Joining
  // ---------------------------------------------------------------------

  /** `sep.join(parts)`. */
  function Join(parts: seq<string>, sep: string): string {
    if |parts| == 0 then []
    else if |parts| == 1 then parts[0]
    else parts[0] + sep + Join(parts[1..], sep)
  }

  /** `''.join(parts)`. */
  function Concat(parts: seq<string>): string {
    if parts == [] then [] else parts[0] + Concat(parts[1..])
  }

  lemma {:induction false} ConcatAppend(a: seq<string>, b: seq<string>)
    ensures Concat(a + b) == Concat(a) + Concat(b)
    decreases |a|
  {
    if a == [] {
      assert a + b == b;
    } else {
      assert (a + b)[1..] == a[1..] + b;
      ConcatAppend(a[1..], b);
    }
  }

  /** A join whose last part is non-empty ends with that part's last character. */
  lemma {:induction false} JoinEnds(parts: seq<string>, sep: string)
    requires |parts| >= 1 && parts[|parts| - 1] != []
    ensures |Join(parts, sep)| >= 1
    ensures Join(parts, sep)[|Join(parts, sep)| - 1] == parts[|parts| - 1][|parts[|parts| - 1]| - 1]
    decreases |parts|
  {
    if |parts| > 1 {
      JoinEnds(parts[1..], sep);
    }
  }

  // ---------------------------------------------------------------------
  // strip()
  // ---------------------------------------------------------------------

  /** The end of `s[lo..hi]` once its trailing whitespace is dropped. */
  function TextEnd(s: string, lo: nat, hi: nat): (k: nat)
    requires lo <= hi <= |s|
    ensures lo <= k <= hi
    ensures k > lo ==> !IsSpace(s[k - 1])
    ensures forall m :: k <= m < hi ==> IsSpace(s[m])
    decreases hi - lo
  {
    if hi == lo || !IsSpace(s[hi - 1]) then hi else TextEnd(s, lo, hi - 1)
  }

  /** `s.strip()`: `s` without the whitespace at either end. */
  function Strip(s: string): string {
    var i := FirstNonSpace(s, 0);
    s[i..TextEnd(s, i, |s|)]
  }

  /**
   * What `strip()` returns is a slice of `s` with only whitespace cut off
   * around it; it is trimmed, it is empty exactly when `s` is all
   * whitespace, and a trimmed `s` is left as it is.
   */
  lemma StripTrims(s: string)
    ensures IsTrimmed(Strip(s))
    ensures exists i, j :: 0 <= i <= j <= |s| && Strip(s) == s[i..j] && AllSpace(s[..i]) && AllSpace(s[j..])
    ensures Strip(s) == [] <==> AllSpace(s)
    ensures IsTrimmed(s) ==> Strip(s) == s
  {
    var i := FirstNonSpace(s, 0);
    var j := TextEnd(s, i, |s|);
    assert AllSpace(s[..i]) && AllSpace(s[j..]);
    assert i < |s| ==> j > i;
  }

  /** Whitespace around a trimmed, non-empty text is exactly what `strip()` removes. */
  lemma StripPadded(pre: string, core: string, post: string)
    requires AllSpace(pre) && AllSpace(post)
    requires core != [] && IsTrimmed(core)
    ensures Strip(pre + core + post) == core
  {
    var s := pre + core + post;
    var a, b := |pre|, |pre| + |core|;
    assert forall m :: 0 <= m < a ==> s[m] == pre[m];
    assert forall m :: b <= m < |s| ==> s[m] == post[m - b];
    assert !IsSpace(s[a]) && !IsSpace(s[b - 1]);
    var i := FirstNonSpace(s, 0);
    assert i == a;
    var j := TextEnd(s, i, |s|);
    assert j == b;
    assert s[a..b] == core;
  }

  // ---------------------------------------------------------------------
  // splitlines()
  // ---------------------------------------------------------------------

  /**
   * `s.splitlines()`: the lines of `s` without their line boundaries; a
   * final boundary does not start an extra empty line.
   */
  function SplitLines(s: string): (lines: seq<string>)
    ensures forall i :: 0 <= i < |lines| ==> NoLineBreak(lines[i])
    ensures |lines| <= |s|
    decreases |s|
  {
    if s == [] then []
    else
      var k := FirstLineBreak(s, 0);
      if k == |s| then [s]
      else
        var next := if s[k] == '\r' && k + 1 < |s| && s[k + 1] == '\n' then k + 2 else k + 1;
        [s[..k]] + SplitLines(s[next..])
  }

  /** Every line followed by a newline: the shape of a command's standard output. */
  function Terminated(lines: seq<string>): string {
    if lines == [] then [] else lines[0] + "\n" + Terminated(lines[1..])
  }

  /** `splitlines()` gives back the lines a newline-terminated text was made of. */
  lemma {:induction false} SplitLinesTerminated(lines: seq<string>)
    requires forall i :: 0 <= i < |lines| ==> NoLineBreak(lines[i])
    ensures SplitLines(Terminated(lines)) == lines
    decreases |lines|
  {
    if lines != [] {
      var l := lines[0];
      var s := Terminated(lines);
      assert s == l + "\n" + Terminated(lines[1..]);
      assert s[|l|] == '\n';
      var k := FirstLineBreak(s, 0);
      assert forall i :: 0 <= i < |l| ==> s[i] == l[i];
      assert k == |l|;
      assert s[|l| + 1..] == Terminated(lines[1..]);
      assert s[..k] == l;
      SplitLinesTerminated(lines[1..]);
    }
  }

  // ---------------------------------------------------------------------
  // split(sep) with a one-character separator
  // ---------------------------------------------------------------------

  /** `s.split(sep)`: the text between separators, empty pieces kept. */
  function SplitOn(s: string, sep: char): (parts: seq<string>)
    ensures |parts| >= 1
    decreases |s|
  {
    var k := IndexOf(s, sep, 0);
    if k == |s| then [s] else [s[..k]] + SplitOn(s[k + 1..], sep)
  }

  /**
   * There are several pieces exactly when the separator occurs, no piece
   * holds the separator, and joining the pieces with it gives back `s`.
   */
  lemma {:induction false} SplitOnParts(s: string, sep: char)
    ensures |SplitOn(s, sep)| > 1 <==> sep in s
    ensures forall i :: 0 <= i < |SplitOn(s, sep)| ==> sep !in SplitOn(s, sep)[i]
    ensures Join(SplitOn(s, sep), [sep]) == s
    decreases |s|
  {
    var k := IndexOf(s, sep, 0);
    if k == |s| {
      assert sep !in s;
    } else {
      var rest := SplitOn(s[k + 1..], sep);
      SplitOnParts(s[k + 1..], sep);
      var parts := [s[..k]] + rest;
      assert SplitOn(s, sep) == parts;
      assert parts[1..] == rest;
      assert s == s[..k] + [sep] + s[k + 1..];
    }
  }

  /** Splitting the join `s` of separator-free pieces gives the pieces back. */
  lemma {:induction false} SplitOnJoin(parts: seq<string>, sep: char, s: string)
    requires |parts| >= 1
    requires forall i :: 0 <= i < |parts| ==> sep !in parts[i]
    requires Join(parts, [sep]) == s
    ensures SplitOn(s, sep) == parts
    decreases |parts|
  {
    var p := parts[0];
    var k := IndexOf(s, sep, 0);
    if |parts| == 1 {
      assert s == p;
      assert forall i :: 0 <= i < |p| ==> p[i] != sep;
      assert k == |s|;
    } else {
      assert s == p + [sep] + Join(parts[1..], [sep]);
      assert s[|p|] == sep;
      assert forall i :: 0 <= i < |p| ==> s[i] == p[i] && p[i] != sep;
      assert k == |p|;
      assert s[..k] == p;
      assert s[k + 1..] == Join(parts[1..], [sep]);
      SplitOnJoin(parts[1..], sep, s[k + 1..]);
    }
  }

  // ---------------------------------------------------------------------
  // split() with no argument
  // ---------------------------------------------------------------------

  /** The non-whitespace characters of `s`, in order. */
  function RemoveSpaces(s: string): string {
    if s == [] then []
    else if IsSpace(s[0]) then RemoveSpaces(s[1..])
    else [s[0]] + RemoveSpaces(s[1..])
  }

  lemma {:induction false} RemoveSpacesAppend(a: string, b: string)
    ensures RemoveSpaces(a + b) == RemoveSpaces(a) + RemoveSpaces(b)
    decreases |a|
  {
    if a == [] {
      assert a + b == b;
    } else {
      assert (a + b)[0] == a[0];
      assert (a + b)[1..] == a[1..] + b;
      RemoveSpacesAppend(a[1..], b);
    }
  }

  lemma {:induction false} RemoveSpacesOfWord(w: string)
    requires NoSpace(w)
    ensures RemoveSpaces(w) == w
    decreases |w|
  {
    if w != [] {
      RemoveSpacesOfWord(w[1..]);
    }
  }

  /**
   * `s.split()`: the maximal runs of non-whitespace characters, in order.
   * Every word is non-empty and holds no whitespace.
   */
  function Words(s: string): (words: seq<string>)
    ensures forall i :: 0 <= i < |words| ==> words[i] != [] && NoSpace(words[i])
    decreases |s|
  {
    if s == [] then []
    else if IsSpace(s[0]) then Words(s[1..])
    else
      var k := FirstSpace(s, 0);
      [s[..k]] + Words(s[k..])
  }

  /** `split()` loses exactly the whitespace: its words concatenate to the other characters. */
  lemma {:induction false} WordsKeepCharacters(s: string)
    ensures Concat(Words(s)) == RemoveSpaces(s)
    decreases |s|
  {
    if s != [] {
      if IsSpace(s[0]) {
        WordsKeepCharacters(s[1..]);
      } else {
        var k := FirstSpace(s, 0);
        var ws := Words(s);
        assert ws[1..] == Words(s[k..]);
        assert s == s[..k] + s[k..];
        RemoveSpacesAppend(s[..k], s[k..]);
        RemoveSpacesOfWord(s[..k]);
        WordsKeepCharacters(s[k..]);
      }
    }
  }

  /** Words joined by single spaces split back into the same words. */
  lemma {:induction false} WordsOfJoin(words: seq<string>)
    requires forall i :: 0 <= i < |words| ==> words[i] != [] && NoSpace(words[i])
    ensures Words(Join(words, " ")) == words
    decreases |words|
  {
    if words != [] {
      var w := words[0];
      var s := Join(words, " ");
      var k := FirstSpace(s, 0);
      assert !IsSpace(w[0]);
      if |words| == 1 {
        assert s == w;
        assert k == |s|;
        assert s[..k] == w && s[k..] == [];
      } else {
        var rest := Join(words[1..], " ");
        assert s == w + " " + rest;
        assert s[|w|] == ' ';
        assert forall i :: 0 <= i < |w| ==> s[i] == w[i];
        assert k == |w|;
        assert s[..k] == w;
        assert s[k..] == [' '] + rest;
        assert Words(s[k..]) == Words(rest);
        WordsOfJoin(words[1..]);
      }
    }
  }

  /** `split()` finds no word exactly in blank text. */
  lemma {:induction false} WordsOfBlank(s: string)
    ensures Words(s) == [] <==> AllSpace(s)
    decreases |s|
  {
    if s != [] {
      if IsSpace(s[0]) {
        WordsOfBlank(s[1..]);
        assert AllSpace(s) <==> AllSpace(s[1..]) by {
          if AllSpace(s[1..]) {
            forall i | 0 <= i < |s|
              ensures IsSpace(s[i])
            {
              if i > 0 {
                assert s[i] == s[1..][i - 1];
              }
            }
          }
        }
      }
    }
  }

  /**
   * Words joined by single spaces: no whitespace at either end, never two
   * whitespace characters in a row, and every whitespace character is a
   * plain space. The result is empty exactly when there are no words.
   */
  lemma {:induction false} JoinWordsShape(words: seq<string>)
    requires forall i :: 0 <= i < |words| ==> words[i] != [] && NoSpace(words[i])
    ensures Join(words, " ") == [] <==> words == []
    ensures IsTrimmed(Join(words, " "))
    ensures NoDoubleSpace(Join(words, " "))
    ensures forall i :: 0 <= i < |Join(words, " ")| && IsSpace(Join(words, " ")[i]) ==> Join(words, " ")[i] == ' '
    decreases |words|
  {
    if |words| > 1 {
      var w := words[0];
      var rest := Join(words[1..], " ");
      var s := Join(words, " ");
      JoinWordsShape(words[1..]);
      assert s == w + " " + rest;
      assert rest != [];
      forall i | 0 <= i < |s|
        ensures IsSpace(s[i]) ==> s[i] == ' ' && 0 < i < |s| - 1 && !IsSpace(s[i - 1]) && !IsSpace(s[i + 1])
      {
        if i < |w| {
          assert s[i] == w[i];
        } else if i == |w| {
          assert s[i - 1] == w[|w| - 1];
          assert s[i + 1] == rest[0];
        } else {
          assert s[i] == rest[i - |w| - 1];
          if IsSpace(s[i]) {
            assert s[i - 1] == rest[i - |w| - 2];
            assert s[i + 1] == rest[i - |w|];
          }
        }
      }
      assert s[|s| - 1] == rest[|rest| - 1];
    }
  }

  // ---------------------------------------------------------------------
  // re.split(r'\s{2,}', s)
  // ---------------------------------------------------------------------

  /**
   * `re.split(r'\s{2,}', s)`: the text between maximal runs of two or more
   * whitespace characters. The leftmost run is taken first and the greedy
   * quantifier extends it to the end of the whitespace.
   */
  function SplitColumns(s: string): (fields: seq<string>)
    ensures |fields| >= 1
    decreases |s|
  {
    var k := FirstDoubleSpace(s, 0);
    if k == |s| then [s]
    else
      var j := FirstNonSpace(s, k);
      assert j != k && j != k + 1;
      [s[..k]] + SplitColumns(s[j..])
  }

  /**
   * On a stripped, non-empty line every field is a cell: non-empty, no
   * whitespace at either end, and single whitespace characters kept inside.
   */
  lemma {:induction false} ColumnsAreCells(s: string)
    requires s != [] && IsTrimmed(s)
    ensures forall i :: 0 <= i < |SplitColumns(s)| ==> IsCell(SplitColumns(s)[i])
    decreases |s|
  {
    var k := FirstDoubleSpace(s, 0);
    if k < |s| {
      var j := FirstNonSpace(s, k);
      assert k > 0;
      assert !IsSpace(s[k - 1]);
      var head := s[..k];
      assert IsCell(head) by {
        assert forall i :: 0 <= i < k ==> head[i] == s[i];
      }
      assert !IsSpace(s[|s| - 1]) && k <= |s| - 1;
      assert j < |s|;
      var tail := s[j..];
      assert tail[|tail| - 1] == s[|s| - 1];
      ColumnsAreCells(tail);
      var fields := SplitColumns(s);
      assert fields == [head] + SplitColumns(tail);
      forall i | 0 <= i < |fields|
        ensures IsCell(fields[i])
      {
        if i > 0 {
          assert fields[i] == SplitColumns(tail)[i - 1];
        }
      }
    }
  }

  /** A column gap of a whitespace-aligned table: two or more whitespace characters. */
  predicate IsGap(g: string) {
    |g| >= 2 && AllSpace(g)
  }

  /** Cells with the gap `gaps[i]` between `cells[i]` and `cells[i + 1]`. */
  function Interleave(cells: seq<string>, gaps: seq<string>): string
    requires |cells| >= 1 && |gaps| == |cells| - 1
    decreases |cells|
  {
    if |cells| == 1 then cells[0] else cells[0] + gaps[0] + Interleave(cells[1..], gaps[1..])
  }

  /** Cells set between gaps form a non-empty line with no outer whitespace. */
  lemma {:induction false} InterleaveTrimmed(cells: seq<string>, gaps: seq<string>)
    requires |cells| >= 1 && |gaps| == |cells| - 1
    requires forall i :: 0 <= i < |cells| ==> IsCell(cells[i])
    ensures Interleave(cells, gaps) != []
    ensures IsTrimmed(Interleave(cells, gaps))
    decreases |cells|
  {
    if |cells| > 1 {
      var rest := Interleave(cells[1..], gaps[1..]);
      InterleaveTrimmed(cells[1..], gaps[1..]);
      var s := cells[0] + gaps[0] + rest;
      assert s[0] == cells[0][0];
      assert s[|s| - 1] == rest[|rest| - 1];
    }
  }

  /** Cells and gaps without line breaks form a single line. */
  lemma {:induction false} InterleaveNoLineBreak(cells: seq<string>, gaps: seq<string>)
    requires |cells| >= 1 && |gaps| == |cells| - 1
    requires forall i :: 0 <= i < |cells| ==> NoLineBreak(cells[i])
    requires forall i :: 0 <= i < |gaps| ==> NoLineBreak(gaps[i])
    ensures NoLineBreak(Interleave(cells, gaps))
    decreases |cells|
  {
    if |cells| > 1 {
      InterleaveNoLineBreak(cells[1..], gaps[1..]);
      var rest := Interleave(cells[1..], gaps[1..]);
      var s := cells[0] + gaps[0] + rest;
      forall i | 0 <= i < |s|
        ensures !IsLineBreak(s[i])
      {
        if i < |cells[0]| {
          assert s[i] == cells[0][i];
        } else if i < |cells[0]| + |gaps[0]| {
          assert s[i] == gaps[0][i - |cells[0]|];
        } else {
          assert s[i] == rest[i - |cells[0]| - |gaps[0]|];
        }
      }
    }
  }

  /**
   * Cells set between gaps of two or more whitespace characters, however
   * wide, split back into exactly the cells.
   */
  lemma {:induction false} SplitColumnsInterleave(cells: seq<string>, gaps: seq<string>, s: string)
    requires |cells| >= 1 && |gaps| == |cells| - 1
    requires forall i :: 0 <= i < |cells| ==> IsCell(cells[i])
    requires forall i :: 0 <= i < |gaps| ==> IsGap(gaps[i])
    requires Interleave(cells, gaps) == s
    ensures SplitColumns(s) == cells
    decreases |cells|
  {
    var c := cells[0];
    var k := FirstDoubleSpace(s, 0);
    if |cells| == 1 {
      assert s == c;
      assert k == |s|;
    } else {
      var g := gaps[0];
      var rest := Interleave(cells[1..], gaps[1..]);
      InterleaveTrimmed(cells[1..], gaps[1..]);
      assert s == c + g + rest;
      assert forall i :: 0 <= i < |c| ==> s[i] == c[i];
      assert forall i :: 0 <= i < |g| ==> s[|c| + i] == g[i];
      assert IsSpace(s[|c|]) && IsSpace(s[|c| + 1]);
      assert s[|c| + |g|] == rest[0];
      assert !IsSpace(s[|c| - 1]);
      assert k == |c|;
      var j := FirstNonSpace(s, k);
      assert j == |c| + |g|;
      assert s[..k] == c;
      assert s[j..] == rest;
      SplitColumnsInterleave(cells[1..], gaps[1..], rest);
    }
  }

  // ---------------------------------------------------------------------
  // Substring test
  // ---------------------------------------------------------------------

  /** `t in s` for strings: `t` occurs in `s` as a contiguous substring. */
  predicate Contains(s: string, t: string)
    decreases |s|
  {
    |t| <= |s| && (s[..|t|] == t || (s != [] && Contains(s[1..], t)))
  }

  /** The position-based reading of the substring test. */
  ghost predicate OccursAt(s: string, t: string, i: int) {
    0 <= i && i + |t| <= |s| && s[i..i + |t|] == t
  }

  lemma {:induction false} ContainsIff(s: string, t: string)
    ensures Contains(s, t) <==> exists i :: OccursAt(s, t, i)
    decreases |s|
  {
    if |t| <= |s| && s != [] {
      ContainsIff(s[1..], t);
      if s[..|t|] == t {
        assert OccursAt(s, t, 0);
      } else if Contains(s, t) {
        var i :| OccursAt(s[1..], t, i);
        assert s[i + 1..i + 1 + |t|] == s[1..][i..i + |t|];
        assert OccursAt(s, t, i + 1);
      }
      if i :| OccursAt(s, t, i) {
        if i == 0 {
          assert s[..|t|] == s[0..|t|];
        } else {
          assert s[1..][i - 1..i - 1 + |t|] == s[i..i + |t|];
          assert OccursAt(s[1..], t, i - 1);
        }
      }
    } else if |t| <= |s| {
      assert OccursAt(s, t, 0);
    } else {
      if i :| OccursAt(s, t, i) {
        assert false;
      }
    }
  }
}
