/** `run_puredns` after the PureDNS process has finished: its exit code and
    standard output decide what `valid_domains.txt` holds next. */
module Validity {
  import opened Wrappers
  import opened Text
  import opened LineIO
  import opened Ordering

  /** What `subprocess.run(..., capture_output=True, text=True)` hands back. */
  datatype ToolRun = ToolRun(exitCode: int, stdout: string, stderr: string)

  /** What `run_puredns` reports: the error, or the number of resolved valid
      domains it prints before writing them. */
  datatype PureDnsReport = PureDnsError(stderr: string) | ResolvedCount(count: nat)

  /** The confirmed-live lines with `www.` removed:
      `{domain.replace("www.", "") for domain in stdout.splitlines()}`. */
  function ResolvedSet(stdout: string): (domains: set<string>)
    ensures forall d :: d in domains ==> NoBreaks(Splitlines, d)
    ensures domains == {} <==> Lines(Splitlines, stdout) == []
  {
    var ls := Lines(Splitlines, stdout);
    forall l | l in ls ensures NoBreaks(Splitlines, RemoveWww(l)) {
      CleanKeepsNoBreaks(Splitlines, l);
    }
    var r := set l | l in ls :: RemoveWww(l);
    assert ls != [] ==> RemoveWww(ls[0]) in r;
    assert ls == [] ==> r == {};
    r
  }

  /** The stdout lines with `www.` removed, in output order. */
  function CleanedLines(stdout: string): (cleaned: seq<string>) {
    var ls := Lines(Splitlines, stdout);
    seq(|ls|, k requires 0 <= k < |ls| => RemoveWww(ls[k]))
  }

  lemma CleanedLinesElements(stdout: string)
    ensures Elements(CleanedLines(stdout)) == ResolvedSet(stdout)
    ensures forall d :: d in ResolvedSet(stdout) ==> NoBreaks(Splitlines, d)
  {
    var ls := Lines(Splitlines, stdout);
    var cleaned := CleanedLines(stdout);
    forall d | d in ResolvedSet(stdout)
      ensures d in Elements(cleaned) && NoBreaks(Splitlines, d)
    {
      var l :| l in ls && d == RemoveWww(l);
      var k :| 0 <= k < |ls| && ls[k] == l;
      assert cleaned[k] == d;
      CleanKeepsNoBreaks(Splitlines, l);
    }
  }

  /** `sorted({domain.replace("www.", "") for domain in stdout.splitlines()})`:
      strictly increasing, holding exactly the cleaned stdout lines. */
  function ValidDomains(stdout: string): (r: seq<string>)
    ensures StrictlyIncreasing(r)
    ensures Elements(r) == ResolvedSet(stdout)
    ensures |r| == |ResolvedSet(stdout)|
    ensures forall k :: 0 <= k < |r| ==> NoBreaks(Splitlines, r[k])
  {
    CleanedLinesElements(stdout);
    var r := SortedSet(CleanedLines(stdout));
    StrictlyIncreasingDistinct(r);
    DistinctCard(r);
    assert forall k :: 0 <= k < |r| ==> r[k] in Elements(r);
    r
  }

  /** The message `run_puredns` prints. */
  function RunPureDnsReport(run: ToolRun): (rep: PureDnsReport)
    ensures rep.PureDnsError? <==> run.exitCode != 0
    ensures rep.ResolvedCount? ==> rep.count == |ValidDomains(run.stdout)| == |ResolvedSet(run.stdout)|
  {
    if run.exitCode != 0 then PureDnsError(run.stderr)
    else ResolvedCount(|ValidDomains(run.stdout)|)
  }

  /** `valid_domains.txt` after `run_puredns`: untouched on a non-zero exit,
      otherwise `'\n'.join` of the sorted list. */
  function ValidFileAfter(before: Option<string>, run: ToolRun): (after: Option<string>)
    ensures run.exitCode != 0 ==> after == before
    ensures run.exitCode == 0 ==> after == Some(Join(ValidDomains(run.stdout), "\n"))
  {
    if run.exitCode != 0 then before else Some(Join(ValidDomains(run.stdout), "\n"))
  }

  /** Each cleaned PureDNS line has no whitespace at either end. */
  predicate CleanOutput(stdout: string) {
    forall d :: d in ResolvedSet(stdout) ==> Trimmed(d)
  }

  /** Reading `valid_domains.txt` back with `{line.strip() for line in f}`
      gives exactly the set PureDNS reported, provided each cleaned line has no
      whitespace at its ends and the list is not the empty string alone. An
      empty string in a longer list sorts first and survives the trip. */
  lemma ValidFileRoundTrip(stdout: string)
    requires CleanOutput(stdout)
    requires ValidDomains(stdout) != [""]
    ensures ReadStrippedSet(Join(ValidDomains(stdout), "\n")) == ResolvedSet(stdout)
  {
    var xs := ValidDomains(stdout);
    forall k | 0 <= k < |xs| ensures NoBreaks(FileIteration, xs[k]) && Trimmed(xs[k]) {
      SplitlinesFreeIsOneLine(xs[k]);
      assert xs[k] in Elements(xs);
    }
    if |xs| >= 2 {
      EmptyOnlyFirst(xs);
    }
    WriteReadSet(xs);
  }
}
