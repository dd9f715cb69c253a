/** How text becomes lines and lines become text in the scanner: iterating over
    a file opened in text mode, `str.splitlines()`, and `sep.join(...)`. */
module LineIO {
  import opened Text
  import opened Ordering

  /** Which notion of a line ending is in force. Iterating over a file opened
      in text mode uses universal newlines (`\n`, `\r` and `\r\n`);
      `str.splitlines()` also breaks at the other Unicode line boundaries. */
  datatype Breaks = FileIteration | Splitlines

  predicate IsBreak(kind: Breaks, c: char) {
    var n := c as int;
    n == 0x0A || n == 0x0D ||
    (kind == Splitlines &&
      (n == 0x0B || n == 0x0C || n == 0x1C || n == 0x1D || n == 0x1E ||
       n == 0x85 || n == 0x2028 || n == 0x2029))
  }

  predicate NoBreaks(kind: Breaks, s: string) {
    forall i :: 0 <= i < |s| ==> !IsBreak(kind, s[i])
  }

  /** Index of the first line ending in `s`, or `|s|` when there is none. */
  function BreakIndex(kind: Breaks, s: string): (i: nat)
    ensures i <= |s|
    ensures NoBreaks(kind, s[..i])
    ensures i < |s| ==> IsBreak(kind, s[i])
  {
    if s == [] || IsBreak(kind, s[0]) then 0
    else
      var i := 1 + BreakIndex(kind, s[1..]);
      assert s[..i] == [s[0]] + s[1..][..i - 1];
      i
  }

  /** Where the text after the line ending at `i` starts: `\r\n` is one
      ending, every other break character is one on its own. */
  function AfterBreak(s: string, i: nat): (j: nat)
    requires i < |s|
    ensures i < j <= |s|
  {
    if s[i] == '\r' && i + 1 < |s| && s[i + 1] == '\n' then i + 2 else i + 1
  }

  /** The lines of `s`, without their endings. A final line ending does not
      start an empty extra line, and the empty text has no lines. */
  function Lines(kind: Breaks, s: string): (ls: seq<string>)
    ensures forall k :: 0 <= k < |ls| ==> NoBreaks(kind, ls[k])
    decreases |s|
  {
    if s == [] then []
    else
      var i := BreakIndex(kind, s);
      if i == |s| then [s]
      else [s[..i]] + Lines(kind, s[AfterBreak(s, i)..])
  }

  /** Neither clean-up can create a line ending. */
  lemma CleanKeepsNoBreaks(kind: Breaks, l: string)
    requires NoBreaks(kind, l)
    ensures NoBreaks(kind, Strip(l))
    ensures NoBreaks(kind, RemoveWww(l))
  {
    StripChars(l);
    RemoveWwwChars(l);
    forall i | 0 <= i < |Strip(l)| ensures !IsBreak(kind, Strip(l)[i]) {
      assert Strip(l)[i] in Strip(l);
    }
    forall i | 0 <= i < |RemoveWww(l)| ensures !IsBreak(kind, RemoveWww(l)[i]) {
      assert RemoveWww(l)[i] in RemoveWww(l);
    }
  }

  /** `sep.join(xs)`. */
  function Join(xs: seq<string>, sep: string): (s: string)
    ensures |xs| == 1 ==> s == xs[0]
  {
    if xs == [] then ""
    else if |xs| == 1 then xs[0]
    else xs[0] + sep + Join(xs[1..], sep)
  }

  /** A line without breaks followed by `\n` is split off as one line. */
  lemma LinesCons(x: string, rest: string)
    requires NoBreaks(FileIteration, x)
    ensures Lines(FileIteration, x + "\n" + rest) == [x] + Lines(FileIteration, rest)
  {
    var s := x + "\n" + rest;
    var i := BreakIndex(FileIteration, s);
    assert s[|x|] == '\n';
    assert s[..|x|] == x;
    assert i == |x|;
    assert AfterBreak(s, i) == |x| + 1;
    assert s[|x| + 1..] == rest;
    assert s[..i] == x;
  }

  /** Reading back what `'\n'.join(xs)` wrote: the same lines, except that an
      empty last element leaves no line of its own. */
  lemma {:induction false} LinesOfJoin(xs: seq<string>)
    requires forall k :: 0 <= k < |xs| ==> NoBreaks(FileIteration, xs[k])
    ensures Lines(FileIteration, Join(xs, "\n")) ==
      if xs != [] && xs[|xs| - 1] == "" then xs[..|xs| - 1] else xs
  {
    if |xs| == 1 {
      var x := xs[0];
      if x != [] {
        assert BreakIndex(FileIteration, x) == |x|;
      }
    } else if |xs| > 1 {
      LinesCons(xs[0], Join(xs[1..], "\n"));
      LinesOfJoin(xs[1..]);
      ConsSlices(xs);
    }
  }

  lemma ConsSlices(xs: seq<string>)
    requires |xs| > 1
    ensures xs[1..][|xs| - 2] == xs[|xs| - 1]
    ensures [xs[0]] + xs[1..] == xs
    ensures [xs[0]] + xs[1..][..|xs| - 2] == xs[..|xs| - 1]
  {
    assert xs[1..][..|xs| - 2] == xs[1..|xs| - 1];
  }

  /** Text that ends with a line ending, followed by one more line and its
      ending, reads as the old lines plus the new one. */
  lemma {:induction false} LinesAppendLine(prefix: string, x: string)
    requires prefix == [] || prefix[|prefix| - 1] == '\n'
    requires NoBreaks(FileIteration, x)
    ensures Lines(FileIteration, prefix + x + "\n") == Lines(FileIteration, prefix) + [x]
    decreases |prefix|
  {
    var s := prefix + x + "\n";
    if prefix == [] {
      LinesCons(x, "");
      assert x + "\n" + "" == s;
    } else {
      var i := BreakIndex(FileIteration, prefix);
      assert i < |prefix| by {
        assert prefix[..i] == prefix ==> IsBreak(FileIteration, prefix[|prefix| - 1]);
      }
      assert s[..|prefix|] == prefix;
      assert s[..i] == prefix[..i];
      assert BreakIndex(FileIteration, s) == i by {
        BreakIndexPrefix(prefix, x + "\n");
        assert s == prefix + (x + "\n");
      }
      var j := AfterBreak(prefix, i);
      assert AfterBreak(s, i) == j;
      assert s[j..] == prefix[j..] + x + "\n";
      LinesAppendLine(prefix[j..], x);
    }
  }

  /** The first line ending of a text is found before anything appended to
      it, once the text itself holds one. */
  lemma {:induction false} BreakIndexPrefix(s: string, t: string)
    requires BreakIndex(FileIteration, s) < |s|
    ensures BreakIndex(FileIteration, s + t) == BreakIndex(FileIteration, s)
  {
    if !IsBreak(FileIteration, s[0]) {
      assert (s + t)[1..] == s[1..] + t;
      BreakIndexPrefix(s[1..], t);
    }
  }

  /** One step of reading: the first line, then the lines of what follows
      its ending. */
  lemma LinesUnfold(kind: Breaks, s: string)
    requires s != []
    ensures |Lines(kind, s)| ==
      if BreakIndex(kind, s) == |s| then 1
      else 1 + |Lines(kind, s[AfterBreak(s, BreakIndex(kind, s))..])|
  {
  }

  /** The round trip used for `valid_domains.txt`: when no element is empty
      or holds a line ending, the lines read back are exactly the elements. */
  lemma LinesOfJoinExact(xs: seq<string>)
    requires forall k :: 0 <= k < |xs| ==> NoBreaks(FileIteration, xs[k]) && xs[k] != ""
    ensures Lines(FileIteration, Join(xs, "\n")) == xs
  {
    LinesOfJoin(xs);
  }

  /** The line count of `'\n'.join(xs)` as `sum(1 for _ in f)` sees it: one
      per element, one fewer when the last element is empty. */
  lemma LineCountOfJoin(xs: seq<string>)
    requires forall k :: 0 <= k < |xs| ==> NoBreaks(FileIteration, xs[k])
    ensures |Lines(FileIteration, Join(xs, "\n"))| ==
      if xs != [] && xs[|xs| - 1] == "" then |xs| - 1 else |xs|
  {
    LinesOfJoin(xs);
  }

  /** The set a file yields when every line is stripped:
      `{line.strip() for line in f}`. */
  function ReadStrippedSet(text: string): (r: set<string>)
    ensures forall d :: d in r ==> Trimmed(d) && NoBreaks(FileIteration, d)
    ensures r == {} <==> Lines(FileIteration, text) == []
  {
    var ls := Lines(FileIteration, text);
    forall l | l in ls ensures NoBreaks(FileIteration, Strip(l)) {
      CleanKeepsNoBreaks(FileIteration, l);
    }
    var r := set l | l in ls :: Strip(l);
    assert ls != [] ==> Strip(ls[0]) in r;
    assert ls == [] ==> r == {};
    r
  }

  /** The list a file yields when every line is stripped:
      `[line.strip() for line in f]`. */
  function ReadStrippedList(text: string): (r: seq<string>)
    ensures |r| == |Lines(FileIteration, text)|
    ensures forall k :: 0 <= k < |r| ==> r[k] == Strip(Lines(FileIteration, text)[k])
  {
    var ls := Lines(FileIteration, text);
    seq(|ls|, k requires 0 <= k < |ls| => Strip(ls[k]))
  }

  /** Every character that ends a line in a file also ends one for
      `splitlines()`. */
  lemma SplitlinesFreeIsOneLine(s: string)
    requires NoBreaks(Splitlines, s)
    ensures NoBreaks(FileIteration, s)
  {
  }

  /** Writing trimmed single-line elements with `'\n'.join` and reading them
      back with `{line.strip() for line in f}` gives back exactly the elements
      written, as long as the last one is not empty. */
  lemma WriteReadSet(xs: seq<string>)
    requires forall k :: 0 <= k < |xs| ==> NoBreaks(FileIteration, xs[k]) && Trimmed(xs[k])
    requires xs == [] || xs[|xs| - 1] != ""
    ensures ReadStrippedSet(Join(xs, "\n")) == Elements(xs)
  {
    var text := Join(xs, "\n");
    LinesOfJoin(xs);
    assert Lines(FileIteration, text) == xs;
    forall d | d in ReadStrippedSet(text) ensures d in Elements(xs) {
      var l :| l in xs && d == Strip(l);
      var k :| 0 <= k < |xs| && xs[k] == l;
      StripFixed(l);
    }
    forall d | d in Elements(xs) ensures d in ReadStrippedSet(text) {
      var k :| 0 <= k < |xs| && xs[k] == d;
      StripFixed(d);
      assert d in xs;
    }
  }
}
