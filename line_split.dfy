/** The line splitter of the shell: `split` in src/main.rs breaks one input
    line into its whitespace-separated words, the way `str::split_whitespace`
    does, and collects them in order. */
module LineSplit {

  /** Unicode's White_Space property, which `char::is_whitespace` and hence
      `str::split_whitespace` use: U+0009..U+000D (tab, line feed, vertical
      tab, form feed, carriage return), space, NEL, no-break space, Ogham
      space mark, U+2000..U+200A, line and paragraph separators, narrow
      no-break space, medium mathematical space and ideographic space. */
  const WhiteSpace: set<char> := {
    '\t', '\n', '\U{B}', '\U{C}', '\r', ' ', '\U{85}', '\U{A0}', '\U{1680}',
    '\U{2000}', '\U{2001}', '\U{2002}', '\U{2003}', '\U{2004}', '\U{2005}',
    '\U{2006}', '\U{2007}', '\U{2008}', '\U{2009}', '\U{200A}',
    '\U{2028}', '\U{2029}', '\U{202F}', '\U{205F}', '\U{3000}'
  }

  predicate IsWhitespace(c: char) {
    c in WhiteSpace
  }

  predicate AllWhitespace(s: string) {
    forall k :: 0 <= k < |s| ==> IsWhitespace(s[k])
  }

  /** What `split_whitespace` can yield: a non-empty run without whitespace. */
  predicate IsWord(w: string) {
    |w| > 0 && forall k :: 0 <= k < |w| ==> !IsWhitespace(w[k])
  }

  predicate AllWords(ws: seq<string>) {
    forall i :: 0 <= i < |ws| ==> IsWord(ws[i])
  }

  /** Length of the longest prefix of `s` that holds no whitespace. */
  function WordLength(s: string): (n: nat)
    ensures n <= |s|
    ensures forall k :: 0 <= k < n ==> !IsWhitespace(s[k])
    ensures n < |s| ==> IsWhitespace(s[n])
  {
    if s == [] || IsWhitespace(s[0]) then 0 else 1 + WordLength(s[1..])
  }

  /** The words of `s`, left to right: the maximal whitespace-free runs. */
  function Words(s: string): seq<string>
    decreases |s|
  {
    if s == [] then []
    else if IsWhitespace(s[0]) then Words(s[1..])
    else
      var n := WordLength(s);
      [s[..n]] + Words(s[n..])
  }

  /** `s` with every whitespace character deleted. */
  function RemoveWhitespace(s: string): string {
    if s == [] then []
    else (if IsWhitespace(s[0]) then [] else [s[0]]) + RemoveWhitespace(s[1..])
  }

  /** The words laid end to end. */
  function Concat(ws: seq<string>): string {
    if ws == [] then [] else ws[0] + Concat(ws[1..])
  }

  /** The words separated by single spaces. */
  function JoinWords(ws: seq<string>): string {
    if ws == [] then []
    else if |ws| == 1 then ws[0]
    else ws[0] + " " + JoinWords(ws[1..])
  }

  /** `split` (src/main.rs:29-37): the `for` loop takes the words that
      `split_whitespace` yields one by one and pushes each onto `ret`. Here
      `rest` is what the iterator has not consumed yet, and the inner loop
      finds where its next word ends. */
  method Split(line: string) returns (ret: seq<string>)
    ensures ret == Words(line)
    ensures AllWords(ret)
    ensures Concat(ret) == RemoveWhitespace(line)
    ensures ret == [] <==> AllWhitespace(line)
  {
    ret := [];
    var rest := line;
    while rest != []
      invariant ret + Words(rest) == Words(line)
      decreases |rest|
    {
      if IsWhitespace(rest[0]) {
        rest := rest[1..];
      } else {
        var n := 1;
        while n < |rest| && !IsWhitespace(rest[n])
          invariant 1 <= n <= |rest|
          invariant forall k :: 0 <= k < n ==> !IsWhitespace(rest[k])
        {
          n := n + 1;
        }
        WordLengthUnique(rest, n);
        ret := ret + [rest[..n]];
        rest := rest[n..];
      }
    }
    WordsAreWords(line);
    WordsConcat(line);
    WordsEmptyIff(line);
  }

  /** The longest whitespace-free prefix is determined by its two defining
      facts: everything before it is not whitespace, and what follows is. */
  lemma WordLengthUnique(s: string, n: nat)
    requires n <= |s|
    requires forall k :: 0 <= k < n ==> !IsWhitespace(s[k])
    requires n < |s| ==> IsWhitespace(s[n])
    ensures WordLength(s) == n
  {
  }

  /** Every word `split` returns is non-empty and free of whitespace. */
  lemma {:induction false} WordsAreWords(s: string)
    ensures AllWords(Words(s))
    decreases |s|
  {
    if s == [] {
    } else if IsWhitespace(s[0]) {
      WordsAreWords(s[1..]);
    } else {
      var n := WordLength(s);
      WordsAreWords(s[n..]);
      assert IsWord(s[..n]);
    }
  }

  lemma {:induction false} RemoveWhitespaceAppend(a: string, b: string)
    ensures RemoveWhitespace(a + b) == RemoveWhitespace(a) + RemoveWhitespace(b)
  {
    if a == [] {
      assert a + b == b;
    } else {
      assert (a + b)[1..] == a[1..] + b;
      RemoveWhitespaceAppend(a[1..], b);
    }
  }

  lemma {:induction false} RemoveWhitespaceOfWord(w: string)
    requires forall k :: 0 <= k < |w| ==> !IsWhitespace(w[k])
    ensures RemoveWhitespace(w) == w
  {
    if w != [] {
      RemoveWhitespaceOfWord(w[1..]);
    }
  }

  /** No non-whitespace character is lost, added or moved: the words laid end
      to end are the line with its whitespace deleted. */
  lemma {:induction false} WordsConcat(s: string)
    ensures Concat(Words(s)) == RemoveWhitespace(s)
    decreases |s|
  {
    if s == [] {
    } else if IsWhitespace(s[0]) {
      WordsConcat(s[1..]);
    } else {
      var n := WordLength(s);
      var ws := Words(s);
      assert ws[0] == s[..n] && ws[1..] == Words(s[n..]);
      WordsConcat(s[n..]);
      assert s == s[..n] + s[n..];
      RemoveWhitespaceAppend(s[..n], s[n..]);
      RemoveWhitespaceOfWord(s[..n]);
    }
  }

  /** A line yields no words exactly when it is whitespace only (the bare
      "\n" that `read_line` returns for an empty line among them). */
  lemma {:induction false} WordsEmptyIff(s: string)
    ensures Words(s) == [] <==> AllWhitespace(s)
    decreases |s|
  {
    if s != [] {
      WordsEmptyIff(s[1..]);
      if IsWhitespace(s[0]) {
        if AllWhitespace(s[1..]) {
          forall k | 0 <= k < |s| ensures IsWhitespace(s[k]) {
            if k > 0 { assert s[k] == s[1..][k - 1]; }
          }
        } else {
          var k :| 0 <= k < |s[1..]| && !IsWhitespace(s[1..][k]);
          assert s[k + 1] == s[1..][k];
        }
      }
    }
  }

  /** Splitting a line at a point where whitespace touches the cut splits its
      words the same way: no word straddles the cut. */
  lemma {:induction false} WordsAppend(a: string, b: string)
    requires a == [] || b == [] || IsWhitespace(a[|a| - 1]) || IsWhitespace(b[0])
    ensures Words(a + b) == Words(a) + Words(b)
    decreases |a|, 1
  {
    if a == [] {
      assert a + b == b;
    } else if IsWhitespace(a[0]) {
      WordsAppendAfterWhitespace(a, b);
    } else {
      WordsAppendAfterWord(a, b);
    }
  }

  lemma {:induction false} WordsAppendAfterWhitespace(a: string, b: string)
    requires a != [] && IsWhitespace(a[0])
    requires b == [] || IsWhitespace(a[|a| - 1]) || IsWhitespace(b[0])
    ensures Words(a + b) == Words(a) + Words(b)
    decreases |a|, 0
  {
    assert (a + b)[0] == a[0];
    assert (a + b)[1..] == a[1..] + b;
    assert |a| > 1 ==> a[1..][|a| - 2] == a[|a| - 1];
    WordsAppend(a[1..], b);
  }

  lemma {:induction false} WordsAppendAfterWord(a: string, b: string)
    requires a != [] && !IsWhitespace(a[0])
    requires b == [] || IsWhitespace(a[|a| - 1]) || IsWhitespace(b[0])
    ensures Words(a + b) == Words(a) + Words(b)
    decreases |a|, 0
  {
    var m := WordLength(a);
    WordLengthAppend(a, b);
    assert (a + b)[0] == a[0];
    assert Words(a + b) == [(a + b)[..m]] + Words((a + b)[m..]);
    assert (a + b)[..m] == a[..m];
    assert (a + b)[m..] == a[m..] + b;
    assert m < |a| ==> a[m..][|a| - m - 1] == a[|a| - 1];
    WordsAppend(a[m..], b);
  }

  /** Text appended after a whitespace boundary does not lengthen the first
      word. */
  lemma WordLengthAppend(a: string, b: string)
    requires a != []
    requires b == [] || IsWhitespace(a[|a| - 1]) || IsWhitespace(b[0])
    ensures WordLength(a + b) == WordLength(a)
  {
    var m := WordLength(a);
    forall k | 0 <= k < m ensures !IsWhitespace((a + b)[k]) {
      assert (a + b)[k] == a[k];
    }
    if m < |a| {
      assert (a + b)[m] == a[m];
    } else if m < |a + b| {
      assert !IsWhitespace(a[|a| - 1]);
      assert (a + b)[m] == b[0];
    }
    WordLengthUnique(a + b, m);
  }

  /** A word on its own splits into just itself. */
  lemma WordsOfWord(w: string)
    requires IsWord(w)
    ensures Words(w) == [w]
  {
    WordLengthUnique(w, |w|);
    assert w[..|w|] == w;
  }

  /** Whitespace before and after the line (the trailing newline of
      `read_line` among it) does not change its words. */
  lemma LeadingTrailingIrrelevant(g: string, s: string, h: string)
    requires AllWhitespace(g) && AllWhitespace(h)
    ensures Words(g + s + h) == Words(s)
  {
    WordsEmptyIff(g);
    WordsEmptyIff(h);
    WordsAppend(g, s);
    WordsAppend(g + s, h);
  }

  /** Any non-empty run of whitespace between two parts of a line splits it
      like a single space does. */
  lemma GapWidthIrrelevant(a: string, g: string, b: string)
    requires |g| > 0 && AllWhitespace(g)
    ensures Words(a + g + b) == Words(a + " " + b)
  {
    WordsEmptyIff(g);
    WordsEmptyIff(" ");
    WordsAppend(a, g);
    WordsAppend(a + g, b);
    WordsAppend(a, " ");
    WordsAppend(a + " ", b);
  }

  /** Joining words with single spaces and splitting again gives them back. */
  lemma {:induction false} SplitJoin(ws: seq<string>)
    requires AllWords(ws)
    ensures Words(JoinWords(ws)) == ws
  {
    if |ws| == 1 {
      WordsOfWord(ws[0]);
    } else if |ws| > 1 {
      var rest := JoinWords(ws[1..]);
      var gap := " " + rest;
      assert JoinWords(ws) == ws[0] + gap;
      assert IsWhitespace(gap[0]);
      assert gap[1..] == rest;
      WordsAppend(ws[0], gap);
      WordsOfWord(ws[0]);
      SplitJoin(ws[1..]);
    }
  }

  /** Idempotence: re-splitting the space-joined words of a line changes
      nothing. */
  lemma SplitIdempotent(s: string)
    ensures Words(JoinWords(Words(s))) == Words(s)
  {
    WordsAreWords(s);
    SplitJoin(Words(s));
  }
}
