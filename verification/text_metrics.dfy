/**
  The document statistics shown in the toolbar: word, character and line
  counts (`countWords`, `content.length` and `countLines` in app/page.tsx).

  The source computes them with JavaScript's string library; the functions
  here model those library calls (`trim`, `split(/\s+/)`, `split('\n')`,
  `length`) and the lemmas relate them to direct definitions of what is being
  counted.
*/
module TextMetrics {

  /**
    ECMAScript white space: the WhiteSpace and LineTerminator code points,
    which are exactly what both `\s` in a regular expression and
    `String.prototype.trim` treat as blank.
  */
  predicate IsSpace(c: char) {
    || c == '\t' || c == '\n' || c == '\U{000B}' || c == '\U{000C}' || c == '\r'
    || c == ' ' || c == '\U{00A0}' || c == '\U{1680}'
    || ('\U{2000}' <= c <= '\U{200A}')
    || c == '\U{2028}' || c == '\U{2029}' || c == '\U{202F}' || c == '\U{205F}'
    || c == '\U{3000}' || c == '\U{FEFF}'
  }

  /** Every character of `s` is white space (true of the empty string). */
  predicate Blank(s: string) {
    forall i :: 0 <= i < |s| ==> IsSpace(s[i])
  }

  /** No character of `s` is white space. */
  predicate SpaceFree(s: string) {
    forall i :: 0 <= i < |s| ==> !IsSpace(s[i])
  }

  // ---------------------------------------------------------------------------
  // Words

  /**
    The number of maximal runs of non-white-space characters in `s`, that is,
    of positions where such a run starts; `afterSpace` says whether the
    position before `s` counts as white space (the start of the text does).
  */
  function RunsAfter(s: string, afterSpace: bool): nat
    decreases |s|
  {
    if s == [] then 0
    else (if afterSpace && !IsSpace(s[0]) then 1 else 0) + RunsAfter(s[1..], IsSpace(s[0]))
  }

  /** The number of words of `s`: maximal runs of non-white-space characters. */
  function WordRuns(s: string): nat {
    RunsAfter(s, true)
  }

  /** `s.trimStart()`: `s` without its leading white space. */
  function TrimStart(s: string): (t: string)
    ensures |t| <= |s| && t == s[|s| - |t|..]
    ensures Blank(s[..|s| - |t|])
    ensures t == [] || !IsSpace(t[0])
    decreases |s|
  {
    if s != [] && IsSpace(s[0]) then
      var t := TrimStart(s[1..]);
      assert s[..|s| - |t|] == [s[0]] + s[1..][..|s| - 1 - |t|];
      t
    else s
  }

  /** `s.trimEnd()`: `s` without its trailing white space. */
  function TrimEnd(s: string): (t: string)
    ensures |t| <= |s| && t == s[..|t|]
    ensures Blank(s[|t|..])
    ensures t == [] || !IsSpace(t[|t| - 1])
    decreases |s|
  {
    if s != [] && IsSpace(s[|s| - 1]) then
      var t := TrimEnd(s[..|s| - 1]);
      assert s[|t|..] == s[..|s| - 1][|t|..] + [s[|s| - 1]];
      t
    else s
  }

  /** `s.trim()`: `s` without its leading and trailing white space. */
  function Trim(s: string): (t: string)
    ensures exists lead, trail :: s == lead + t + trail && Blank(lead) && Blank(trail)
    ensures t == [] || (!IsSpace(t[0]) && !IsSpace(t[|t| - 1]))
  {
    var u := TrimStart(s);
    var t := TrimEnd(u);
    Unslice(s, |s| - |u|, u, t);
    t
  }

  /** A text is its prefix, then the front part of the rest, then the rest of the rest. */
  lemma Unslice(s: string, k: nat, u: string, t: string)
    requires k <= |s| && u == s[k..] && |t| <= |u| && t == u[..|t|]
    ensures s == s[..k] + t + u[|t|..]
  {
    assert u == t + u[|t|..];
    assert s == s[..k] + u;
  }

  /** The length of the longest prefix of `s` free of white space. */
  function SpaceFreePrefix(s: string): (n: nat)
    ensures n <= |s| && SpaceFree(s[..n])
    ensures n < |s| ==> IsSpace(s[n])
    decreases |s|
  {
    if s == [] || IsSpace(s[0]) then 0
    else
      var n := 1 + SpaceFreePrefix(s[1..]);
      assert s[..n] == [s[0]] + s[1..][..n - 1];
      n
  }

  /** The length of the longest prefix of `s` made of white space. */
  function BlankPrefix(s: string): (n: nat)
    ensures n <= |s| && Blank(s[..n])
    ensures n < |s| ==> !IsSpace(s[n])
    decreases |s|
  {
    if s == [] || !IsSpace(s[0]) then 0
    else
      var n := 1 + BlankPrefix(s[1..]);
      assert s[..n] == [s[0]] + s[1..][..n - 1];
      n
  }

  /**
    `s.split(/\s+/)`: the pieces between maximal runs of white space, in
    order. A leading or trailing run produces an empty first or last piece,
    and the empty string splits into one empty piece.
  */
  function SplitOnSpaceRuns(s: string): (pieces: seq<string>)
    ensures |pieces| >= 1
    ensures forall i :: 0 <= i < |pieces| ==> SpaceFree(pieces[i])
    ensures s != [] && !IsSpace(s[0]) ==> pieces[0] != []
    ensures forall i :: 0 < i < |pieces| - 1 ==> pieces[i] != []
    decreases |s|
  {
    var n := SpaceFreePrefix(s);
    if n == |s| then
      assert s[..n] == s;
      [s]
    else
      var rest := s[n..];
      var m := BlankPrefix(rest);
      [s[..n]] + SplitOnSpaceRuns(rest[m..])
  }

  /**
    The pieces of a split put back together: each piece followed by the
    separator that came after it in the text.
  */
  function Weave(pieces: seq<string>, seps: seq<string>): string
    requires |pieces| == |seps| + 1
    decreases |seps|
  {
    if seps == [] then pieces[0] else pieces[0] + seps[0] + Weave(pieces[1..], seps[1..])
  }

  /** A separator list whose entries are non-empty white-space runs. */
  predicate SpaceRuns(seps: seq<string>) {
    forall i :: 0 <= i < |seps| ==> seps[i] != [] && Blank(seps[i])
  }

  /**
    `split(/\s+/)` loses nothing but the separators: the text is its pieces
    with a non-empty white-space run between each two. As the pieces hold no
    white space, this fixes the pieces.
  */
  lemma {:induction false} SplitOnSpaceRunsRebuilds(s: string)
    ensures exists seps: seq<string> ::
      |seps| + 1 == |SplitOnSpaceRuns(s)| && SpaceRuns(seps) && Weave(SplitOnSpaceRuns(s), seps) == s
    decreases |s|
  {
    var n := SpaceFreePrefix(s);
    if n == |s| {
      assert s[..n] == s;
      assert Weave(SplitOnSpaceRuns(s), []) == s;
    } else {
      var a, w, tail := SplitOnSpaceRunsFirst(s);
      SplitOnSpaceRunsRebuilds(tail);
      var tailPieces := SplitOnSpaceRuns(tail);
      var seps' :| |seps'| + 1 == |tailPieces| && SpaceRuns(seps') && Weave(tailPieces, seps') == tail;
      var seps := RebuildFirst(s, a, w, tail, tailPieces, seps');
      assert Weave(SplitOnSpaceRuns(s), seps) == s;
    }
  }

  /** The separators of a text: the run after its first piece, then those of the rest. */
  lemma RebuildFirst(s: string, a: string, w: string, tail: string, tailPieces: seq<string>, tailSeps: seq<string>)
    returns (seps: seq<string>)
    requires s == a + w + tail && w != [] && Blank(w)
    requires SplitOnSpaceRuns(s) == [a] + tailPieces
    requires |tailSeps| + 1 == |tailPieces| && SpaceRuns(tailSeps) && Weave(tailPieces, tailSeps) == tail
    ensures |seps| + 1 == |SplitOnSpaceRuns(s)| && SpaceRuns(seps) && Weave(SplitOnSpaceRuns(s), seps) == s
  {
    seps := [w] + tailSeps;
    WeaveCons(a, w, tailPieces, tailSeps);
    assert forall i :: 0 < i < |seps| ==> seps[i] == tailSeps[i - 1];
  }

  /** A text holding white space splits into its first piece, the run after it, and the split of the rest. */
  lemma SplitOnSpaceRunsFirst(s: string) returns (a: string, w: string, tail: string)
    requires SpaceFreePrefix(s) < |s|
    ensures s == a + w + tail && w != [] && Blank(w)
    ensures SplitOnSpaceRuns(s) == [a] + SplitOnSpaceRuns(tail)
    ensures |tail| < |s|
  {
    var n := SpaceFreePrefix(s);
    var rest := s[n..];
    var m := BlankPrefix(rest);
    a, w, tail := s[..n], rest[..m], rest[m..];
    Unslice(s, n, rest, w);
    assert SplitOnSpaceRuns(s) == [a] + SplitOnSpaceRuns(tail);
  }

  /** Weaving one more piece and separator in front. */
  lemma WeaveCons(a: string, w: string, pieces: seq<string>, seps: seq<string>)
    requires |pieces| == |seps| + 1
    ensures Weave([a] + pieces, [w] + seps) == a + w + Weave(pieces, seps)
  {
    assert ([a] + pieces)[1..] == pieces && ([w] + seps)[1..] == seps;
  }

  /** `pieces.filter(Boolean)`: the non-empty pieces, in order. */
  function NonEmpty(pieces: seq<string>): (r: seq<string>)
    ensures forall p :: p in r <==> p in pieces && p != []
    decreases |pieces|
  {
    if pieces == [] then []
    else
      assert pieces == [pieces[0]] + pieces[1..];
      (if pieces[0] != [] then [pieces[0]] else []) + NonEmpty(pieces[1..])
  }

  /** Filtering drops exactly the empty pieces: the result is shorter by their number. */
  lemma {:induction false} NonEmptyLength(pieces: seq<string>)
    ensures |NonEmpty(pieces)| == |pieces| - multiset(pieces)[[]]
    decreases |pieces|
  {
    if pieces != [] {
      NonEmptyLength(pieces[1..]);
      assert pieces == [pieces[0]] + pieces[1..];
      assert multiset(pieces) == multiset([pieces[0]]) + multiset(pieces[1..]);
    }
  }

  /** Filtering a concatenation filters each part and keeps their order. */
  lemma {:induction false} NonEmptyAppend(a: seq<string>, b: seq<string>)
    ensures NonEmpty(a + b) == NonEmpty(a) + NonEmpty(b)
    decreases |a|
  {
    if a == [] {
      assert a + b == b;
    } else {
      var head := if a[0] != [] then [a[0]] else [];
      assert (a + b)[0] == a[0];
      assert (a + b)[1..] == a[1..] + b;
      NonEmptyAppend(a[1..], b);
      assert NonEmpty(a + b) == head + (NonEmpty(a[1..]) + NonEmpty(b));
      assert NonEmpty(a) == head + NonEmpty(a[1..]);
    }
  }

  /**
    `countWords`: 0 when the trimmed text is empty, otherwise the number of
    non-empty white-space-separated tokens of the trimmed text; this is the
    number of maximal runs of non-white-space characters.
  */
  function CountWords(text: string): (n: nat)
    ensures n == WordRuns(text)
  {
    var t := Trim(text);
    TrimStartKeepsRuns(text);
    TrimEndKeepsRuns(TrimStart(text));
    if t == [] then 0
    else
      SplitCountsRuns(t);
      |NonEmpty(SplitOnSpaceRuns(t))|
  }

  /** Where `RunsAfter` stands after reading `a`, starting from `afterSpace`. */
  function EndsAfterSpace(a: string, afterSpace: bool): bool {
    if a == [] then afterSpace else IsSpace(a[|a| - 1])
  }

  /** Counting runs over a concatenation: the second part is counted from where the first part left off. */
  lemma {:induction false} RunsAppend(a: string, b: string, afterSpace: bool)
    ensures RunsAfter(a + b, afterSpace) == RunsAfter(a, afterSpace) + RunsAfter(b, EndsAfterSpace(a, afterSpace))
    decreases |a|
  {
    if a != [] {
      assert (a + b)[1..] == a[1..] + b;
      RunsAppend(a[1..], b, IsSpace(a[0]));
      if |a| > 1 {
        assert a[1..][|a[1..]| - 1] == a[|a| - 1];
      }
    } else {
      assert a + b == b;
    }
  }

  /** White space starts no run. */
  lemma {:induction false} RunsOfBlank(w: string, afterSpace: bool)
    requires Blank(w)
    ensures RunsAfter(w, afterSpace) == 0
    decreases |w|
  {
    if w != [] {
      RunsOfBlank(w[1..], true);
    }
  }

  /** A text without white space is one run when it is non-empty and none when it is empty. */
  lemma {:induction false} RunsOfSpaceFree(a: string, afterSpace: bool)
    requires SpaceFree(a)
    ensures RunsAfter(a, afterSpace) == if afterSpace && a != [] then 1 else 0
    decreases |a|
  {
    if a != [] {
      RunsOfSpaceFree(a[1..], false);
    }
  }

  /** A text holding some non-white-space character has at least one run. */
  lemma {:induction false} RunsOfNonBlank(s: string)
    requires !Blank(s)
    ensures WordRuns(s) >= 1
    decreases |s|
  {
    if IsSpace(s[0]) {
      assert !Blank(s[1..]) by {
        var i :| 0 <= i < |s| && !IsSpace(s[i]);
        assert s[1..][i - 1] == s[i];
      }
      RunsOfNonBlank(s[1..]);
    }
  }

  /** The non-empty pieces of a white-space split are exactly the runs. */
  lemma {:induction false} SplitCountsRuns(s: string)
    ensures |NonEmpty(SplitOnSpaceRuns(s))| == WordRuns(s)
    decreases |s|
  {
    var n := SpaceFreePrefix(s);
    if n == |s| {
      assert s[..n] == s;
      RunsOfSpaceFree(s, true);
      assert NonEmpty([s]) == (if s != [] then [s] else []) + NonEmpty([]);
    } else {
      var a, w, tail := SplitOnSpaceRunsFirst(s);
      assert SpaceFree(a) by {
        assert a == SplitOnSpaceRuns(s)[0];
      }
      RunsOfFirst(a, w, tail);
      SplitCountsRuns(tail);
      NonEmptyCons(a, SplitOnSpaceRuns(tail));
    }
  }

  /** A space-free first piece and the white-space run after it contribute one run at most. */
  lemma RunsOfFirst(a: string, w: string, tail: string)
    requires SpaceFree(a) && w != [] && Blank(w)
    ensures WordRuns(a + w + tail) == (if a != [] then 1 else 0) + WordRuns(tail)
  {
    assert a + w + tail == a + (w + tail);
    RunsAppend(a, w + tail, true);
    RunsAppend(w, tail, EndsAfterSpace(a, true));
    RunsOfSpaceFree(a, true);
    RunsOfBlank(w, EndsAfterSpace(a, true));
    assert EndsAfterSpace(w, EndsAfterSpace(a, true));
  }

  /** Filtering a piece in front counts it when it is non-empty. */
  lemma NonEmptyCons(a: string, pieces: seq<string>)
    ensures |NonEmpty([a] + pieces)| == (if a != [] then 1 else 0) + |NonEmpty(pieces)|
  {
    NonEmptyAppend([a], pieces);
    assert NonEmpty([a]) == (if a != [] then [a] else []) + NonEmpty([]);
  }

  /** Leading white space starts no run. */
  lemma TrimStartKeepsRuns(s: string)
    ensures WordRuns(TrimStart(s)) == WordRuns(s)
  {
    var t := TrimStart(s);
    var lead := s[..|s| - |t|];
    assert s == lead + t;
    RunsAppend(lead, t, true);
    RunsOfBlank(lead, true);
  }

  /** Trailing white space starts no run. */
  lemma TrimEndKeepsRuns(s: string)
    ensures WordRuns(TrimEnd(s)) == WordRuns(s)
  {
    var t := TrimEnd(s);
    var trail := s[|t|..];
    assert s == t + trail;
    RunsAppend(t, trail, true);
    RunsOfBlank(trail, EndsAfterSpace(t, true));
  }

  /** The word count is 0 exactly for the empty and the white-space-only texts. */
  lemma CountWordsZeroIffBlank(text: string)
    ensures CountWords(text) == 0 <==> Blank(text)
  {
    if Blank(text) {
      RunsOfBlank(text, true);
    } else {
      RunsOfNonBlank(text);
    }
  }

  /** Surrounding a text with white space does not change its word count. */
  lemma CountWordsIgnoresPadding(lead: string, text: string, trail: string)
    requires Blank(lead) && Blank(trail)
    ensures CountWords(lead + text + trail) == CountWords(text)
  {
    RunsAppend(lead + text, trail, true);
    RunsOfBlank(trail, EndsAfterSpace(lead + text, true));
    RunsAppend(lead, text, true);
    RunsOfBlank(lead, true);
  }

  /** Runs on either side of a white-space character are counted separately. */
  lemma RunsOfSpaced(a: string, sep: char, b: string)
    requires IsSpace(sep)
    ensures WordRuns(a + [sep] + b) == WordRuns(a) + WordRuns(b)
  {
    assert a + [sep] + b == a + ([sep] + b);
    RunsAppend(a, [sep] + b, true);
    RunsAppend([sep], b, EndsAfterSpace(a, true));
    RunsOfBlank([sep], EndsAfterSpace(a, true));
  }

  /** Joining two texts with a white-space character adds their word counts. */
  lemma CountWordsOfSpaced(a: string, sep: char, b: string)
    requires IsSpace(sep)
    ensures CountWords(a + [sep] + b) == CountWords(a) + CountWords(b)
  {
    RunsOfSpaced(a, sep, b);
  }

  // ---------------------------------------------------------------------------
  // Lines

  /**
    `s.split(sep)` for a one-character separator: the pieces between
    occurrences of `sep`, in order; the empty string splits into one empty
    piece.
  */
  function SplitOn(s: string, sep: char): (pieces: seq<string>)
    ensures |pieces| >= 1
    ensures forall i :: 0 <= i < |pieces| ==> sep !in pieces[i]
    decreases |s|
  {
    if s == [] then [[]]
    else
      var p := SplitOn(s[1..], sep);
      if s[0] == sep then [[]] + p else [[s[0]] + p[0]] + p[1..]
  }

  /** `pieces.join(sep)`. */
  function Join(pieces: seq<string>, sep: char): string
    requires |pieces| >= 1
    decreases |pieces|
  {
    if |pieces| == 1 then pieces[0] else pieces[0] + [sep] + Join(pieces[1..], sep)
  }

  /** Splitting on a separator and joining the pieces with it gives the text back. */
  lemma {:induction false} JoinSplitOn(s: string, sep: char)
    ensures Join(SplitOn(s, sep), sep) == s
    decreases |s|
  {
    if s != [] {
      var p := SplitOn(s[1..], sep);
      JoinSplitOn(s[1..], sep);
      if s[0] == sep {
        assert ([[]] + p)[1..] == p;
      } else {
        var q := [[s[0]] + p[0]] + p[1..];
        if |p| > 1 {
          assert q[1..] == p[1..];
          assert Join(p, sep) == p[0] + [sep] + Join(p[1..], sep);
        }
      }
    }
  }

  /** A text with k occurrences of the separator splits into k + 1 pieces. */
  lemma {:induction false} SplitOnLength(s: string, sep: char)
    ensures |SplitOn(s, sep)| == 1 + multiset(s)[sep]
    decreases |s|
  {
    if s != [] {
      SplitOnLength(s[1..], sep);
      assert s == [s[0]] + s[1..];
      assert multiset(s) == multiset([s[0]]) + multiset(s[1..]);
    }
  }

  /** A text without the separator splits into itself alone. */
  lemma {:induction false} SplitOnAbsent(s: string, sep: char)
    requires sep !in s
    ensures SplitOn(s, sep) == [s]
    decreases |s|
  {
    if s != [] {
      assert sep !in s[1..];
      SplitOnAbsent(s[1..], sep);
      assert [s[0]] + s[1..] == s;
    }
  }

  /**
    `countLines`: 0 for the empty text, otherwise the number of pieces of
    `text.split('\n')`, which is one more than the number of line feeds.
  */
  function CountLines(text: string): (n: nat)
    ensures n == if text == [] then 0 else 1 + multiset(text)['\n']
  {
    SplitOnLength(text, '\n');
    if text == [] then 0 else |SplitOn(text, '\n')|
  }

  // ---------------------------------------------------------------------------
  // Characters

  /**
    `s.length`: the number of UTF-16 code units, so characters outside the
    Basic Multilingual Plane count twice.
  */
  function CharCount(s: string): (n: nat)
    ensures |s| <= n <= 2 * |s|
    ensures n == |s| <==> forall i :: 0 <= i < |s| ==> s[i] as int < 0x1_0000
    decreases |s|
  {
    if s == [] then 0
    else
      var n := (if s[0] as int < 0x1_0000 then 1 else 2) + CharCount(s[1..]);
      assert forall i :: 1 <= i < |s| ==> s[i] == s[1..][i - 1];
      n
  }

  /** The character count of a concatenation is the sum of the parts' counts. */
  lemma {:induction false} CharCountAppend(a: string, b: string)
    ensures CharCount(a + b) == CharCount(a) + CharCount(b)
    decreases |a|
  {
    if a == [] {
      assert a + b == b;
    } else {
      assert (a + b)[1..] == a[1..] + b;
      CharCountAppend(a[1..], b);
    }
  }

  // ---------------------------------------------------------------------------
  // The toolbar's figures

  datatype Stats = Stats(words: nat, chars: nat, lines: nat)

  /** The three figures the toolbar shows for a document. */
  function DocumentStats(text: string): (r: Stats)
    ensures r.words == WordRuns(text)
    ensures r.lines == if text == [] then 0 else 1 + multiset(text)['\n']
    ensures |text| <= r.chars <= 2 * |text|
  {
    Stats(CountWords(text), CharCount(text), CountLines(text))
  }

  /** "hello world" has two words. */
  lemma HelloWorldWords()
    ensures CountWords("hello world") == 2
  {
    var hello, world := "hello", "world";
    assert "hello world" == hello + [' '] + world;
    assert SpaceFree(hello) && SpaceFree(world);
    RunsOfSpaceFree(hello, true);
    RunsOfSpaceFree(world, true);
    RunsOfSpaced(hello, ' ', world);
  }

  /** "hello world" is eleven code units long. */
  lemma HelloWorldChars()
    ensures CharCount("hello world") == 11
  {
    assert forall i :: 0 <= i < |"hello world"| ==> "hello world"[i] as int < 0x1_0000;
  }

  /** "hello world" is one line. */
  lemma HelloWorldLines()
    ensures CountLines("hello world") == 1
  {
    assert '\n' !in "hello world";
    SplitOnAbsent("hello world", '\n');
  }

  /** The text "hello world" shows 2 words, 11 characters and 1 line. */
  lemma HelloWorldStats()
    ensures DocumentStats("hello world") == Stats(2, 11, 1)
  {
    HelloWorldWords();
    HelloWorldChars();
    HelloWorldLines();
  }
}
