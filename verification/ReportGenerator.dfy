/**
 * `split_long_line` from `modules/report_generator.py`: before a log line is
 * written into the PDF report, its words are re-joined with single spaces,
 * and every word longer than the maximum length is cut into pieces of that
 * length, the last piece holding what is left.
 */
module ReportGenerator {
  import opened Text

  /**
   * What the inner loop makes of one word: pieces of exactly `m` characters
   * cut from its front while it is longer than `m`, then the rest.
   */
  function Chunks(word: string, m: nat): (pieces: seq<string>)
    requires m >= 1
    ensures |pieces| >= 1
    decreases |word|
  {
    if |word| > m then [word[..m]] + Chunks(word[m..], m) else [word]
  }

  /** The pieces of all words, word after word. */
  function Pieces(words: seq<string>, m: nat): seq<string>
    requires m >= 1
  {
    if words == [] then []
    else
      var n := |words| - 1;
      Pieces(words[..n], m) + Chunks(words[n], m)
  }

  /** The line `split_long_line` returns: the pieces of the line's words, one space apart. */
  function Wrapped(text: string, m: nat): string
    requires m >= 1
  {
    Join(Pieces(Words(text), m), " ")
  }

  // ---------------------------------------------------------------------
  // One word
  // ---------------------------------------------------------------------

  /**
   * The pieces of a word spell the word; none is longer than `m`; all but
   * the last are exactly `m` long; a non-empty word gives non-empty pieces,
   * and a word without whitespace gives pieces without whitespace.
   */
  lemma {:induction false} ChunksShape(word: string, m: nat)
    requires m >= 1
    ensures Concat(Chunks(word, m)) == word
    ensures forall k :: 0 <= k < |Chunks(word, m)| ==> |Chunks(word, m)[k]| <= m
    ensures forall k :: 0 <= k < |Chunks(word, m)| - 1 ==> |Chunks(word, m)[k]| == m
    ensures word != [] ==> forall k :: 0 <= k < |Chunks(word, m)| ==> Chunks(word, m)[k] != []
    ensures NoSpace(word) ==> forall k :: 0 <= k < |Chunks(word, m)| ==> NoSpace(Chunks(word, m)[k])
    decreases |word|
  {
    if |word| > m {
      var c := Chunks(word, m);
      ChunksShape(word[m..], m);
      assert c[1..] == Chunks(word[m..], m);
      assert word == word[..m] + word[m..];
    }
  }

  /** A word no longer than `m` is left as it is. */
  lemma ShortWordKept(word: string, m: nat)
    requires m >= 1 && |word| <= m
    ensures Chunks(word, m) == [word]
  {
  }

  /**
   * A non-empty word gives the least number of pieces of length at most
   * `m` that hold it: `ceil(|word| / m)`.
   */
  lemma {:induction false} ChunkCount(word: string, m: nat)
    requires m >= 1 && word != []
    ensures (|Chunks(word, m)| - 1) * m < |word| <= |Chunks(word, m)| * m
    ensures |Chunks(word, m)| == (|word| + m - 1) / m
    decreases |word|
  {
    var n := |Chunks(word, m)|;
    if |word| > m {
      var rest := word[m..];
      ChunkCount(rest, m);
      assert n == |Chunks(rest, m)| + 1;
      assert (n - 1) * m == (n - 2) * m + m;
      assert n * m == (n - 1) * m + m;
    }
    CeilingDivision(|word|, m, n);
  }

  /** `n` pieces of length at most `m` are needed for `len` characters exactly when `n == ceil(len / m)`. */
  lemma CeilingDivision(len: int, m: int, n: int)
    requires m >= 1 && (n - 1) * m < len <= n * m
    ensures (len + m - 1) / m == n
  {
    assert (n - 1) * m == n * m - m;
    QuotientUnique(len + m - 1, m, n, len + m - 1 - n * m);
  }

  lemma QuotientUnique(x: int, m: int, q: int, r: int)
    requires m >= 1 && 0 <= r < m && x == q * m + r
    ensures x / m == q
  {
    var d := x / m - q;
    assert d * m == r - x % m;
    if d >= 1 {
      ProductAtLeast(d, m);
      assert false;
    } else if d <= -1 {
      ProductAtLeast(-d, m);
      assert false;
    }
  }

  lemma ProductAtLeast(d: int, m: int)
    requires d >= 1 && m >= 1
    ensures d * m >= m
  {
    assert d * m == (d - 1) * m + m;
    assert (d - 1) * m >= 0;
  }

  // ---------------------------------------------------------------------
  // All words
  // ---------------------------------------------------------------------

  /** Cutting distributes over concatenation: pieces keep their words' order. */
  lemma {:induction false} PiecesAppend(a: seq<string>, b: seq<string>, m: nat)
    requires m >= 1
    ensures Pieces(a + b, m) == Pieces(a, m) + Pieces(b, m)
    decreases |b|
  {
    if b == [] {
      assert a + b == a;
    } else {
      var n := |b| - 1;
      var front := b[..n];
      var ab := a + b;
      assert ab == (a + front) + [b[n]];
      PiecesSnoc(a + front, b[n], m);
      PiecesSnoc(front, b[n], m);
      assert b == front + [b[n]];
      PiecesAppend(a, front, m);
    }
  }

  lemma PiecesSnoc(words: seq<string>, w: string, m: nat)
    requires m >= 1
    ensures Pieces(words + [w], m) == Pieces(words, m) + Chunks(w, m)
  {
    assert (words + [w])[..|words|] == words;
  }

  /** Every piece of a line's words is a non-empty word of at most `m` characters. */
  lemma {:induction false} PiecesAreShortWords(words: seq<string>, m: nat)
    requires m >= 1
    requires forall i :: 0 <= i < |words| ==> words[i] != [] && NoSpace(words[i])
    ensures forall k :: 0 <= k < |Pieces(words, m)| ==>
      Pieces(words, m)[k] != [] && NoSpace(Pieces(words, m)[k]) && |Pieces(words, m)[k]| <= m
    ensures Pieces(words, m) == [] <==> words == []
    decreases |words|
  {
    if words != [] {
      var n := |words| - 1;
      PiecesAreShortWords(words[..n], m);
      ChunksShape(words[n], m);
      var front := Pieces(words[..n], m);
      var last := Chunks(words[n], m);
      forall k | 0 <= k < |front + last|
        ensures (front + last)[k] != [] && NoSpace((front + last)[k]) && |(front + last)[k]| <= m
      {
        if k >= |front| {
          assert (front + last)[k] == last[k - |front|];
        }
      }
    }
  }

  /** The pieces spell the words: no character is lost, added or moved. */
  lemma {:induction false} PiecesKeepCharacters(words: seq<string>, m: nat)
    requires m >= 1
    ensures Concat(Pieces(words, m)) == Concat(words)
    decreases |words|
  {
    if words != [] {
      var n := |words| - 1;
      PiecesKeepCharacters(words[..n], m);
      ChunksShape(words[n], m);
      ConcatAppend(Pieces(words[..n], m), Chunks(words[n], m));
      assert words == words[..n] + [words[n]];
      ConcatAppend(words[..n], [words[n]]);
      assert Concat([words[n]]) == words[n] + Concat([]);
    }
  }

  /** Words that are all short enough are left as they are. */
  lemma {:induction false} ShortWordsKept(words: seq<string>, m: nat)
    requires m >= 1
    requires forall i :: 0 <= i < |words| ==> |words[i]| <= m
    ensures Pieces(words, m) == words
    decreases |words|
  {
    if words != [] {
      var n := |words| - 1;
      ShortWordsKept(words[..n], m);
      ShortWordKept(words[n], m);
      assert words == words[..n] + [words[n]];
    }
  }

  // ---------------------------------------------------------------------
  // The line
  // ---------------------------------------------------------------------

  /** Splitting the result again gives back exactly the pieces. */
  lemma WrappedWords(text: string, m: nat)
    requires m >= 1
    ensures Words(Wrapped(text, m)) == Pieces(Words(text), m)
  {
    PiecesAreShortWords(Words(text), m);
    WordsOfJoin(Pieces(Words(text), m));
  }

  /**
   * The result's words are non-empty and at most `m` long, its
   * non-whitespace characters are the line's, in order, and the line's
   * words are its pieces put back together.
   */
  lemma WrappedContents(text: string, m: nat)
    requires m >= 1
    ensures forall k :: 0 <= k < |Words(Wrapped(text, m))| ==>
      Words(Wrapped(text, m))[k] != [] && |Words(Wrapped(text, m))[k]| <= m
    ensures RemoveSpaces(Wrapped(text, m)) == RemoveSpaces(text)
  {
    var words := Words(text);
    WrappedWords(text, m);
    PiecesAreShortWords(words, m);
    WordsKeepCharacters(Wrapped(text, m));
    PiecesKeepCharacters(words, m);
    WordsKeepCharacters(text);
  }

  /**
   * The result has no leading or trailing whitespace and separates its
   * words by single plain spaces; it is empty exactly when the line is
   * blank.
   */
  lemma WrappedShape(text: string, m: nat)
    requires m >= 1
    ensures IsTrimmed(Wrapped(text, m)) && NoDoubleSpace(Wrapped(text, m))
    ensures forall i :: 0 <= i < |Wrapped(text, m)| && IsSpace(Wrapped(text, m)[i]) ==> Wrapped(text, m)[i] == ' '
    ensures Wrapped(text, m) == [] <==> AllSpace(text)
  {
    PiecesAreShortWords(Words(text), m);
    JoinWordsShape(Pieces(Words(text), m));
    WordsOfBlank(text);
  }

  /** Cutting an already cut line changes nothing. */
  lemma WrappedIdempotent(text: string, m: nat)
    requires m >= 1
    ensures Wrapped(Wrapped(text, m), m) == Wrapped(text, m)
  {
    WrappedWords(text, m);
    PiecesAreShortWords(Words(text), m);
    ShortWordsKept(Pieces(Words(text), m), m);
  }

  /** A line of short words one space apart comes back unchanged. */
  lemma ShortLineKept(words: seq<string>, m: nat)
    requires m >= 1
    requires forall i :: 0 <= i < |words| ==> words[i] != [] && NoSpace(words[i]) && |words[i]| <= m
    ensures Wrapped(Join(words, " "), m) == Join(words, " ")
  {
    WordsOfJoin(words);
    ShortWordsKept(words, m);
  }

  /** A single long word comes back as its pieces one space apart. */
  lemma LongWordCut(word: string, m: nat)
    requires m >= 1 && word != [] && NoSpace(word)
    ensures Wrapped(word, m) == Join(Chunks(word, m), " ")
  {
    assert Join([word], " ") == word;
    WordsOfJoin([word]);
    assert Words(word) == [word];
    assert [word][..0] == [];
    assert Pieces([word], m) == Chunks(word, m);
  }

  /**
   * `split_long_line`: every word of `text.split()` is cut by the inner
   * loop and its pieces are appended in order; the pieces are joined with
   * single spaces. A `max_length` below one never ends the inner loop, so
   * the function is only defined for `max_length >= 1`.
   */
  method SplitLongLine(text: string, maxLength: nat) returns (r: string)
    requires maxLength >= 1
    ensures r == Wrapped(text, maxLength)
    ensures Words(r) == Pieces(Words(text), maxLength)
    ensures forall k :: 0 <= k < |Words(r)| ==> |Words(r)[k]| <= maxLength
    ensures RemoveSpaces(r) == RemoveSpaces(text)
  {
    var words := Words(text);
    var pieces: seq<string> := [];
    var i := 0;
    while i < |words|
      invariant 0 <= i <= |words|
      invariant pieces == Pieces(words[..i], maxLength)
    {
      var word := words[i];
      while |word| > maxLength
        invariant pieces + Chunks(word, maxLength) == Pieces(words[..i], maxLength) + Chunks(words[i], maxLength)
        decreases |word|
      {
        pieces := pieces + [word[..maxLength]];
        word := word[maxLength..];
      }
      pieces := pieces + [word];
      assert words[..i + 1][..i] == words[..i];
      i := i + 1;
    }
    assert words[..i] == words;
    r := Join(pieces, " ");
    WrappedWords(text, maxLength);
    WrappedContents(text, maxLength);
  }
}
