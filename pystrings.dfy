/**
 * The Python `str` builtins the backup tooling relies on: `startswith`,
 * `strip`, `split()` and `splitlines()`. Whitespace is restricted to the
 * ASCII space and tab, and line breaks to '\n'.
 */
module PyStrings {

  /** Whitespace as `str.split()` and `str.strip()` see it (ASCII space and tab). */
  predicate IsSpace(c: char) {
    c == ' ' || c == '\t'
  }

  /** `s.startswith(prefix)`. */
  predicate StartsWith(s: string, prefix: string) {
    prefix <= s
  }

  /** `not line.strip()`: the line holds nothing but whitespace. */
  predicate IsBlank(line: string) {
    forall i :: 0 <= i < |line| ==> IsSpace(line[i])
  }

  /** A non-empty run of non-whitespace characters. */
  predicate IsWord(w: string) {
    |w| > 0 && ' ' !in w && '\t' !in w
  }

  /** The number of whitespace characters `s` starts with. */
  function LeadingSpaces(s: string): (n: nat)
    ensures n <= |s|
    ensures forall i :: 0 <= i < n ==> IsSpace(s[i])
    ensures n < |s| ==> !IsSpace(s[n])
  {
    if s != [] && IsSpace(s[0]) then 1 + LeadingSpaces(s[1..]) else 0
  }

  /** The length of the run of non-whitespace characters `s` starts with. */
  function WordLength(s: string): (n: nat)
    ensures n <= |s|
    ensures forall i :: 0 <= i < n ==> !IsSpace(s[i])
    ensures n < |s| ==> IsSpace(s[n])
  {
    if s != [] && !IsSpace(s[0]) then 1 + WordLength(s[1..]) else 0
  }

  /** `s.split()` without a separator: the maximal whitespace-free runs of `s`, in order. */
  function Split(s: string): (words: seq<string>)
    ensures forall k :: 0 <= k < |words| ==> IsWord(words[k])
    decreases |s|
  {
    var rest := s[LeadingSpaces(s)..];
    if rest == [] then []
    else
      var n := WordLength(rest);
      assert rest[..n] == rest[0..n];
      [rest[..n]] + Split(rest[n..])
  }

  /** Words joined by single spaces (`" ".join(words)`). */
  function Unwords(words: seq<string>): string
  {
    if |words| == 0 then ""
    else if |words| == 1 then words[0]
    else words[0] + " " + Unwords(words[1..])
  }

  /** The index of the first '\n' of `s`, or `|s|` when there is none. */
  function LineEnd(s: string): (n: nat)
    ensures n <= |s|
    ensures forall i :: 0 <= i < n ==> s[i] != '\n'
    ensures n < |s| ==> s[n] == '\n'
  {
    if s != [] && s[0] != '\n' then 1 + LineEnd(s[1..]) else 0
  }

  /**
   * `s.splitlines()`: the lines of `s` without their '\n'; a final '\n'
   * ends the last line instead of starting an empty one.
   */
  function SplitLines(s: string): (lines: seq<string>)
    ensures forall k :: 0 <= k < |lines| ==> '\n' !in lines[k]
    decreases |s|
  {
    if s == [] then []
    else
      var n := LineEnd(s);
      if n == |s| then [s] else [s[..n]] + SplitLines(s[n + 1..])
  }

  /** Every line followed by '\n', concatenated. */
  function Terminated(lines: seq<string>): string
  {
    if lines == [] then "" else lines[0] + "\n" + Terminated(lines[1..])
  }

  // ----- properties -----

  /** A line is blank exactly when `split()` finds no word in it. */
  lemma BlankIffNoWords(line: string)
    ensures IsBlank(line) <==> Split(line) == []
  {
    var k := LeadingSpaces(line);
    if k < |line| {
      assert !IsSpace(line[k]);
      assert line[k..] != [];
    }
  }

  /** Leading whitespace does not change what `split()` returns. */
  lemma SplitSkipsSpace(c: char, s: string)
    requires IsSpace(c)
    ensures Split([c] + s) == Split(s)
  {
    var t := [c] + s;
    assert t[1..] == s;
    assert LeadingSpaces(t) == 1 + LeadingSpaces(s);
    assert t[LeadingSpaces(t)..] == s[LeadingSpaces(s)..];
  }

  /** Joining two non-empty word lists puts one space between them. */
  lemma {:induction false} UnwordsAppend(a: seq<string>, b: seq<string>)
    requires a != [] && b != []
    ensures Unwords(a + b) == Unwords(a) + " " + Unwords(b)
  {
    assert (a + b)[0] == a[0];
    assert (a + b)[1..] == a[1..] + b;
    if |a| > 1 {
      UnwordsAppend(a[1..], b);
    }
  }

  /** A word followed by whitespace, or by nothing, is the first piece `split()` finds. */
  lemma SplitWordPrefix(w: string, t: string)
    requires IsWord(w)
    requires t == [] || IsSpace(t[0])
    ensures Split(w + t) == [w] + Split(t)
  {
    assert forall i :: 0 <= i < |w| ==> !IsSpace(w[i]) by {
      forall i | 0 <= i < |w| ensures !IsSpace(w[i]) {
        assert w[i] in w;
      }
    }
    var s := w + t;
    assert s[0] == w[0];
    assert LeadingSpaces(s) == 0;
    assert s[0..] == s;
    var n := WordLength(s);
    assert forall i :: 0 <= i < |w| ==> s[i] == w[i] && !IsSpace(s[i]);
    assert t != [] ==> s[|w|] == t[0];
    assert n == |w|;
    assert s[..n] == w;
    assert s[n..] == t;
  }

  /** Leading whitespace of any length does not change what `split()` returns. */
  lemma {:induction false} SplitAfterBlank(pre: string, s: string)
    requires IsBlank(pre)
    ensures Split(pre + s) == Split(s)
    decreases |pre|
  {
    if pre != [] {
      assert IsSpace(pre[0]);
      assert IsBlank(pre[1..]) by {
        assert forall i :: 0 <= i < |pre[1..]| ==> pre[1..][i] == pre[i + 1];
      }
      assert pre + s == [pre[0]] + (pre[1..] + s);
      SplitSkipsSpace(pre[0], pre[1..] + s);
      SplitAfterBlank(pre[1..], s);
    } else {
      assert pre + s == s;
    }
  }

  /** `s` is `pre + w + post`: whitespace, then the word `w`, then whitespace or nothing. */
  predicate HeadAt(s: string, pre: string, w: string, post: string) {
    && s == pre + w + post
    && IsBlank(pre)
    && IsWord(w)
    && (post == [] || IsSpace(post[0]))
  }

  /** A word after whitespace, ended by whitespace or the end, is the first piece `split()` finds. */
  lemma SplitAfterWord(s: string, pre: string, w: string, post: string)
    requires HeadAt(s, pre, w, post)
    ensures Split(s) == [w] + Split(post)
  {
    assert s == pre + (w + post);
    SplitAfterBlank(pre, w + post);
    SplitWordPrefix(w, post);
  }

  /** The first piece of `split()` sits after whitespace only, and is followed by whitespace or the end. */
  lemma {:induction false} SplitHead(s: string)
    requires Split(s) != []
    ensures exists pre, post :: HeadAt(s, pre, Split(s)[0], post)
    decreases |s|
  {
    assert s != [];
    if IsSpace(s[0]) {
      assert s == [s[0]] + s[1..];
      SplitSkipsSpace(s[0], s[1..]);
      SplitHead(s[1..]);
      var pre, post :| HeadAt(s[1..], pre, Split(s)[0], post);
      HeadAfterSpace(s[0], s[1..], pre, Split(s)[0], post);
    } else {
      HeadOfWord(s);
    }
  }

  lemma HeadAfterSpace(c: char, s: string, pre: string, w: string, post: string)
    requires IsSpace(c) && HeadAt(s, pre, w, post)
    ensures HeadAt([c] + s, [c] + pre, w, post)
  {
    var pre' := [c] + pre;
    assert forall i :: 1 <= i < |pre'| ==> pre'[i] == pre[i - 1];
  }

  lemma HeadOfWord(s: string)
    requires s != [] && !IsSpace(s[0])
    ensures HeadAt(s, [], Split(s)[0], s[WordLength(s)..])
  {
    var n := WordLength(s);
    var w, post := s[..n], s[n..];
    forall i | 0 <= i < |w| ensures !IsSpace(w[i]) {
      assert w[i] == s[i];
    }
    assert ' ' !in w && '\t' !in w;
    assert s == [] + w + post;
    assert HeadAt(s, [], w, post);
    SplitAfterWord(s, [], w, post);
  }

  /** Splitting words joined by spaces gives the words back. */
  lemma {:induction false} SplitUnwords(words: seq<string>)
    requires forall k :: 0 <= k < |words| ==> IsWord(words[k])
    ensures Split(Unwords(words)) == words
  {
    if |words| == 1 {
      SplitWordPrefix(words[0], []);
      assert words[0] + [] == words[0];
    } else if |words| > 1 {
      var w := words[0];
      var u := Unwords(words[1..]);
      SplitWordPrefix(w, " " + u);
      assert w + " " + u == w + (" " + u);
      assert " " + u == [' '] + u;
      SplitSkipsSpace(' ', u);
      SplitUnwords(words[1..]);
      assert words == [w] + words[1..];
    }
  }

  /** Reading back lines terminated by '\n' gives the lines. */
  lemma {:induction false} SplitLinesTerminated(lines: seq<string>)
    requires forall k :: 0 <= k < |lines| ==> '\n' !in lines[k]
    ensures SplitLines(Terminated(lines)) == lines
  {
    if lines != [] {
      var l := lines[0];
      var rest := Terminated(lines[1..]);
      assert Terminated(lines) == l + "\n" + rest;
      SplitLinesFirst(l, rest);
      SplitLinesTerminated(lines[1..]);
      assert lines == [l] + lines[1..];
    }
  }

  /** A break-free line followed by '\n' is the first line `splitlines()` finds. */
  lemma SplitLinesFirst(l: string, rest: string)
    requires '\n' !in l
    ensures SplitLines(l + "\n" + rest) == [l] + SplitLines(rest)
  {
    var s := l + "\n" + rest;
    assert forall i :: 0 <= i < |l| ==> s[i] != '\n' by {
      forall i | 0 <= i < |l| ensures s[i] != '\n' {
        assert s[i] == l[i];
        assert l[i] in l;
      }
    }
    assert s[|l|] == '\n';
    assert LineEnd(s) == |l|;
    assert s[..|l|] == l;
    assert s[|l| + 1..] == rest;
  }

  /** Terminating the lines `splitlines()` finds rebuilds the text, up to one final '\n'. */
  lemma {:induction false} TerminatedSplitLines(s: string)
    ensures Terminated(SplitLines(s)) == if s == [] || s[|s| - 1] == '\n' then s else s + "\n"
    decreases |s|
  {
    if s != [] {
      var n := LineEnd(s);
      if n == |s| {
        assert Terminated([s]) == s + "\n";
        assert s[|s| - 1] != '\n';
      } else {
        var l, t := s[..n], s[n + 1..];
        assert s == l + "\n" + t;
        assert '\n' !in l by {
          forall i | 0 <= i < |l| ensures l[i] != '\n' {
            assert l[i] == s[i];
          }
        }
        SplitLinesFirst(l, t);
        TerminatedSplitLines(t);
        assert Terminated([l] + SplitLines(t)) == l + "\n" + Terminated(SplitLines(t));
        if t != [] {
          assert t[|t| - 1] == s[|s| - 1];
        }
      }
    }
  }
}
