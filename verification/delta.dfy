/** `find_delta_domains` and the three-way report `main` prints after a scan,
    comparing `valid_domains.txt` before and after PureDNS ran. */
module Delta {
  import opened Wrappers
  import opened Text
  import opened LineIO
  import opened Ordering
  import opened Validity

  /** `current_domains - previous_domains if previous_domains else set()`:
      the new domains, and none at all when there is nothing to compare with. */
  function FindDelta(previous: set<string>, current: set<string>): (delta: set<string>)
    ensures delta <= current
    ensures delta !! previous
    ensures previous != {} ==> forall d :: d in current && d !in previous ==> d in delta
    ensures previous == {} ==> delta == {}
  {
    if previous != {} then current - previous else {}
  }

  /** Nothing is new relative to itself. */
  lemma DeltaOfSelf(domains: set<string>)
    ensures FindDelta(domains, domains) == {}
  {
  }

  /** The three outcomes `main` prints. */
  datatype DeltaReport = PreviousScanNotFound | NoNewDomains | NewDomains(domains: set<string>)

  /** The set `main` reads from `valid_domains.txt`; a missing file gives the
      empty set. */
  function DomainsIn(file: Option<string>): (domains: set<string>)
    ensures file.None? ==> domains == {}
    ensures file.Some? ==> (domains == {} <==> Lines(FileIteration, file.value) == [])
    ensures forall d :: d in domains ==> Trimmed(d) && NoBreaks(FileIteration, d)
  {
    if file.Some? then ReadStrippedSet(file.value) else {}
  }

  /** `main`: `previous_domains` is read before the scan, and only when it is
      non-empty is the file read again after PureDNS and the delta taken. */
  function ReportDelta(before: Option<string>, run: ToolRun): (rep: DeltaReport)
    ensures rep.PreviousScanNotFound? <==> DomainsIn(before) == {}
    ensures rep.NewDomains? ==>
      rep.domains != {} &&
      rep.domains == DomainsIn(ValidFileAfter(before, run)) - DomainsIn(before)
    ensures rep.NoNewDomains? ==>
      DomainsIn(ValidFileAfter(before, run)) <= DomainsIn(before)
  {
    var previous := DomainsIn(before);
    if previous != {} then
      var current := DomainsIn(ValidFileAfter(before, run));
      var delta := FindDelta(previous, current);
      if delta != {} then NewDomains(delta) else NoNewDomains
    else PreviousScanNotFound
  }

  /** When PureDNS fails the file is not rewritten, so the scan reads the same
      domains twice and can only report that nothing is new. */
  lemma PureDnsFailureReportsNothingNew(before: Option<string>, run: ToolRun)
    requires run.exitCode != 0
    requires DomainsIn(before) != {}
    ensures ReportDelta(before, run) == NoNewDomains
  {
    assert ValidFileAfter(before, run) == before;
  }

  /** Two scans in a row where PureDNS succeeded both times: the report names
      exactly the cleaned domains of the second run that the first did not
      have, since `valid_domains.txt` reads back as the set written. */
  lemma ReportAcrossRuns(first: string, second: string)
    requires CleanOutput(first) && ValidDomains(first) != [""]
    requires CleanOutput(second) && ValidDomains(second) != [""]
    requires ResolvedSet(first) != {}
    ensures var before := Some(Join(ValidDomains(first), "\n"));
      var added := ResolvedSet(second) - ResolvedSet(first);
      ReportDelta(before, ToolRun(0, second, "")) ==
        if added == {} then NoNewDomains else NewDomains(added)
  {
    ValidFileRoundTrip(first);
    ValidFileRoundTrip(second);
  }

  /** The same successful PureDNS output twice in a row finds nothing new:
      the file is rewritten with what it already held, whatever whitespace its
      lines carry, as long as the first run left a line to read. */
  lemma RepeatedScanFindsNothingNew(stdout: string)
    requires ValidDomains(stdout) != [""]
    requires ResolvedSet(stdout) != {}
    ensures ReportDelta(Some(Join(ValidDomains(stdout), "\n")), ToolRun(0, stdout, "")) == NoNewDomains
  {
    var xs := ValidDomains(stdout);
    ElementsEmpty(xs);
    forall k | 0 <= k < |xs| ensures NoBreaks(FileIteration, xs[k]) {
      SplitlinesFreeIsOneLine(xs[k]);
    }
    if |xs| >= 2 {
      EmptyOnlyFirst(xs);
    }
    LinesOfJoin(xs);
    assert Lines(FileIteration, Join(xs, "\n")) != [];
  }
}
