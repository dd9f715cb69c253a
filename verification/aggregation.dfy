/** `compare_results`: the union of the Amass, Subfinder and DNSRecon outputs
    that becomes `updated_wordlist.txt`, and `display_summary`, which counts
    the lines of that file. A file is `None` when it does not exist. */
module Aggregation {
  import opened Wrappers
  import opened Text
  import opened LineIO
  import opened Ordering

  /** The three discovery tools whose output files are merged, in the order
      they are opened. */
  datatype Source = Amass | Subfinder | DNSRecon

  /** The outcome of `compare_results`: the combined set that was written, or
      the first output file that could not be opened. */
  datatype Comparison = Combined(domains: set<string>) | NotFound(source: Source)

  /** `{line.strip().replace('www.', '') for line in f}`: the DNSRecon XML
      file read as raw lines. */
  function DnsReconDomains(text: string): (r: set<string>)
    ensures forall d :: d in r ==> NoBreaks(FileIteration, d)
  {
    var r := set l | l in Lines(FileIteration, text) :: RemoveWww(Strip(l));
    forall l | l in Lines(FileIteration, text)
      ensures NoBreaks(FileIteration, RemoveWww(Strip(l)))
    {
      CleanKeepsNoBreaks(FileIteration, l);
      CleanKeepsNoBreaks(FileIteration, Strip(l));
    }
    r
  }

  /** `compare_result`'s set logic. One `try` block wraps the three reads, so
      the first missing file ends it before anything is written. */
  function CompareResults(amass: Option<string>, subfinder: Option<string>, dnsrecon: Option<string>)
    : (c: Comparison)
    ensures c.NotFound? <==> amass.None? || subfinder.None? || dnsrecon.None?
    ensures c.NotFound? ==> c.source == if amass.None? then Amass
                                         else if subfinder.None? then Subfinder
                                         else DNSRecon
  {
    match (amass, subfinder, dnsrecon)
    case (None, _, _) => NotFound(Amass)
    case (Some(_), None, _) => NotFound(Subfinder)
    case (Some(_), Some(_), None) => NotFound(DNSRecon)
    case (Some(a), Some(s), Some(d)) =>
      Combined(ReadStrippedSet(a) + ReadStrippedSet(s) + DnsReconDomains(d))
  }

  /** On success the combined set holds exactly the stripped Amass and
      Subfinder lines and the stripped, `www.`-free DNSRecon lines: every
      candidate of every source is kept, duplicates collapse, and the Amass and
      Subfinder files can be given in either order. */
  lemma CompareResultsMembers(a: string, s: string, d: string)
    ensures CompareResults(Some(a), Some(s), Some(d)) ==
            CompareResults(Some(s), Some(a), Some(d))
    ensures forall x :: x in CompareResults(Some(a), Some(s), Some(d)).domains <==>
      (exists l :: l in Lines(FileIteration, a) && Strip(l) == x) ||
      (exists l :: l in Lines(FileIteration, s) && Strip(l) == x) ||
      (exists l :: l in Lines(FileIteration, d) && RemoveWww(Strip(l)) == x)
  {
  }

  /** Every domain the comparison can produce is a single line. */
  lemma CombinedSingleLines(a: string, s: string, d: string)
    ensures forall x :: x in CompareResults(Some(a), Some(s), Some(d)).domains ==>
      NoBreaks(FileIteration, x)
  {
    forall l | l in Lines(FileIteration, a) + Lines(FileIteration, s)
      ensures NoBreaks(FileIteration, Strip(l))
    {
      CleanKeepsNoBreaks(FileIteration, l);
    }
  }

  /** `updated_wordlist.txt` after `compare_results`: `'\n'.join` of the
      combined set in the set's own iteration order `order` (which Python
      leaves unspecified), or the file untouched when a source was missing. */
  function UpdatedWordlist(before: Option<string>, c: Comparison, order: seq<string>)
    : (after: Option<string>)
    requires c.Combined? ==> Enumerates(order, c.domains)
    ensures c.NotFound? ==> after == before
    ensures c.Combined? ==> after == Some(Join(order, "\n"))
  {
    if c.NotFound? then before else Some(Join(order, "\n"))
  }

  /** `display_summary`: `sum(1 for _ in f)` reads the file one line at a
      time; a missing file is reported instead of counted. */
  method DisplaySummary(wordlist: Option<string>) returns (identified: Option<nat>)
    ensures wordlist.None? ==> identified.None?
    ensures wordlist.Some? ==> identified == Some(|Lines(FileIteration, wordlist.value)|)
  {
    if wordlist.None? {
      return None;
    }
    var text := wordlist.value;
    var rest, n := text, 0;
    while rest != []
      invariant n + |Lines(FileIteration, rest)| == |Lines(FileIteration, text)|
      decreases |rest|
    {
      var j := BreakIndex(FileIteration, rest);
      LinesUnfold(FileIteration, rest);
      n := n + 1;
      if j == |rest| {
        rest := [];
      } else {
        rest := rest[AfterBreak(rest, j)..];
      }
    }
    identified := Some(n);
  }

  /** The number the summary prints after a successful comparison: one per
      combined domain, one fewer when the set iteration happens to put the
      empty string last (its line is then only a trailing newline). */
  lemma SummaryAfterCompare(before: Option<string>, a: string, s: string, d: string, order: seq<string>)
    requires Enumerates(order, CompareResults(Some(a), Some(s), Some(d)).domains)
    ensures var written := UpdatedWordlist(before, CompareResults(Some(a), Some(s), Some(d)), order);
      written.Some? &&
      |Lines(FileIteration, written.value)| ==
        |CompareResults(Some(a), Some(s), Some(d)).domains| -
          (if order != [] && order[|order| - 1] == "" then 1 else 0)
    ensures "" !in CompareResults(Some(a), Some(s), Some(d)).domains ==>
      |Lines(FileIteration, UpdatedWordlist(before, CompareResults(Some(a), Some(s), Some(d)), order).value)| ==
        |CompareResults(Some(a), Some(s), Some(d)).domains|
  {
    CombinedSingleLines(a, s, d);
    forall k | 0 <= k < |order| ensures NoBreaks(FileIteration, order[k]) {
      assert order[k] in Elements(order);
    }
    LineCountOfJoin(order);
    DistinctCard(order);
    if order != [] {
      assert order[|order| - 1] in Elements(order);
    }
  }
}
