/** `resolve_domains_to_ip` and the `resolved-ip.txt` report `main` writes
    from its result. The DNS lookups are not performed: each call of
    `socket.gethostbyname_ex` is given by its answer. */
module IpMap {
  import opened Wrappers
  import opened LineIO
  import opened Ordering

  /** One answer of `socket.gethostbyname_ex(domain)`: the address list (its
      element `[2]`), a `socket.gaierror`, which the loop catches, or any other
      exception, which it does not. */
  datatype Lookup = Addresses(ips: seq<string>) | GaiError(message: string) | OtherError(message: string)

  /** The addresses of the last lookup of `d` that succeeded, if any did. */
  function LastAddresses(domains: seq<string>, answers: seq<Lookup>, d: string): (r: Option<seq<string>>)
    requires |answers| == |domains|
    ensures r.Some? ==> d in domains
  {
    if domains == [] then None
    else
      var n := |domains| - 1;
      if domains[n] == d && answers[n].Addresses? then Some(answers[n].ips)
      else LastAddresses(domains[..n], answers[..n], d)
  }

  /** The domains whose lookup succeeded, in lookup order. */
  function Succeeded(domains: seq<string>, answers: seq<Lookup>): (r: seq<string>)
    requires |answers| == |domains|
  {
    if domains == [] then []
    else
      var n := |domains| - 1;
      Succeeded(domains[..n], answers[..n]) + (if answers[n].Addresses? then [domains[n]] else [])
  }

  /** The domains reported as failures (a `gaierror`), in lookup order. */
  function Failed(domains: seq<string>, answers: seq<Lookup>): (r: seq<string>)
    requires |answers| == |domains|
    ensures |r| <= |domains|
    ensures forall k :: 0 <= k < |r| ==> r[k] in domains
  {
    if domains == [] then []
    else
      var n := |domains| - 1;
      var p := Failed(domains[..n], answers[..n]);
      assert forall k :: 0 <= k < |p| ==> p[k] in domains by {
        assert forall x :: x in domains[..n] ==> x in domains;
      }
      p + (if answers[n].GaiError? then [domains[n]] else [])
  }

  /** When no lookup raised, every domain is either stored or reported as a
      failure: the loop skips none. */
  lemma {:induction false} LookupsAccounted(domains: seq<string>, answers: seq<Lookup>)
    requires |answers| == |domains|
    requires forall i :: 0 <= i < |answers| ==> !answers[i].OtherError?
    ensures |Succeeded(domains, answers)| + |Failed(domains, answers)| == |domains|
  {
    if domains != [] {
      var n := |domains| - 1;
      LookupsAccounted(domains[..n], answers[..n]);
    }
  }

  /** Each element at its first occurrence: the key order of a Python dict,
      where assigning to an existing key keeps its place. */
  function FirstOccurrences(xs: seq<string>): (r: seq<string>)
    ensures Distinct(r)
    ensures Elements(r) == Elements(xs)
  {
    if xs == [] then []
    else
      var n := |xs| - 1;
      var p := FirstOccurrences(xs[..n]);
      assert Elements(xs) == Elements(xs[..n]) + {xs[n]} by {
        forall y | y in Elements(xs) ensures y in Elements(xs[..n]) + {xs[n]} {
          var k :| 0 <= k < |xs| && xs[k] == y;
          if k < n { assert xs[..n][k] == y; }
        }
        forall y | y in Elements(xs[..n]) ensures y in Elements(xs) {
          var k :| 0 <= k < n && xs[..n][k] == y;
          assert xs[k] == y;
        }
      }
      if xs[n] in Elements(xs[..n]) then p
      else
        var r := p + [xs[n]];
        assert Elements(r) == Elements(p) + {xs[n]} by {
          forall y | y in Elements(r) ensures y in Elements(p) + {xs[n]} {
            var k :| 0 <= k < |r| && r[k] == y;
            if k < |p| { assert p[k] == y; }
          }
          forall y | y in Elements(p) ensures y in Elements(r) {
            var k :| 0 <= k < |p| && p[k] == y;
            assert r[k] == y;
          }
          assert r[|p|] == xs[n];
        }
        forall i | 0 <= i < |p| ensures p[i] != xs[n] {
          assert p[i] in Elements(p);
        }
        r
  }

  /** A domain has been resolved exactly when it is among the successful
      lookups. */
  lemma {:induction false} LastAddressesSucceeded(domains: seq<string>, answers: seq<Lookup>, d: string)
    requires |answers| == |domains|
    ensures LastAddresses(domains, answers, d).Some? <==> d in Elements(Succeeded(domains, answers))
  {
    if domains != [] {
      var n := |domains| - 1;
      LastAddressesSucceeded(domains[..n], answers[..n], d);
      var p := Succeeded(domains[..n], answers[..n]);
      var tail := if answers[n].Addresses? then [domains[n]] else [];
      ElementsAppend(p, tail);
      ElementsCons(domains[n], []);
      assert [domains[n]] + [] == [domains[n]];
      ElementsEmpty([]);
    }
  }

  /** The dict `resolve_domains_to_ip` returns: every domain whose lookup
      succeeded, mapped to the answer of its last successful lookup. */
  function ResolvedMap(domains: seq<string>, answers: seq<Lookup>): (m: map<string, seq<string>>)
    requires |answers| == |domains|
    ensures forall d :: d in m ==> d in domains
    ensures m.Keys == Elements(Succeeded(domains, answers))
  {
    var m := map d | d in Elements(domains) && LastAddresses(domains, answers, d).Some? ::
      LastAddresses(domains, answers, d).value;
    forall d ensures d in m <==> d in Elements(Succeeded(domains, answers)) {
      LastAddressesSucceeded(domains, answers, d);
      if LastAddresses(domains, answers, d).Some? {
        var k :| 0 <= k < |domains| && domains[k] == d;
      }
    }
    m
  }

  /** How one more lookup changes the specification functions. */
  lemma LookupStep(domains: seq<string>, answers: seq<Lookup>, k: nat)
    requires |answers| == |domains| && k < |domains|
    ensures var ds, an := domains[..k], answers[..k];
      var ds1, an1 := domains[..k + 1], answers[..k + 1];
      && Succeeded(ds1, an1) == Succeeded(ds, an) + (if answers[k].Addresses? then [domains[k]] else [])
      && Failed(ds1, an1) == Failed(ds, an) + (if answers[k].GaiError? then [domains[k]] else [])
      && ResolvedMap(ds1, an1) ==
           if answers[k].Addresses? then ResolvedMap(ds, an)[domains[k] := answers[k].ips]
           else ResolvedMap(ds, an)
  {
    var ds, an := domains[..k], answers[..k];
    var ds1, an1 := domains[..k + 1], answers[..k + 1];
    assert ds1[..k] == ds && an1[..k] == an;
    assert ds1 == ds + [domains[k]];
    ElementsAppend(ds, [domains[k]]);
    ElementsCons(domains[k], []);
    assert [domains[k]] + [] == [domains[k]];
    ElementsEmpty([]);
  }

  /** After the first `k` lookups, the dict, its key order and the failures
      reported are those the specification functions give for them. */
  ghost predicate Progress(domains: seq<string>, answers: seq<Lookup>, k: nat,
                           resolved: map<string, seq<string>>, order: seq<string>, failures: seq<string>)
    requires |answers| == |domains| && k <= |domains|
  {
    && resolved == ResolvedMap(domains[..k], answers[..k])
    && order == FirstOccurrences(Succeeded(domains[..k], answers[..k]))
    && failures == Failed(domains[..k], answers[..k])
  }

  /** One turn of the loop in `resolve_domains_to_ip` for a lookup that did
      not raise: store the addresses (a new key goes last) or report the
      `gaierror`. */
  method RecordLookup(domains: seq<string>, answers: seq<Lookup>, k: nat,
                      resolved: map<string, seq<string>>, order: seq<string>, failures: seq<string>)
    returns (resolved': map<string, seq<string>>, order': seq<string>, failures': seq<string>)
    requires |answers| == |domains| && k < |domains|
    requires !answers[k].OtherError?
    requires Progress(domains, answers, k, resolved, order, failures)
    ensures Progress(domains, answers, k + 1, resolved', order', failures')
  {
    var domain := domains[k];
    LookupStep(domains, answers, k);
    ghost var done := Succeeded(domains[..k], answers[..k]);
    resolved', order', failures' := resolved, order, failures;
    if answers[k].Addresses? {
      FirstOccurrencesStep(done, domain);
      if domain !in resolved {
        order' := order + [domain];
      }
      resolved' := resolved[domain := answers[k].ips];
    } else {
      assert done + [] == done;
      failures' := failures + [domain];
    }
  }

  /** `resolve_domains_to_ip`: one lookup per domain, in order; a `gaierror`
      is reported and skipped, any other exception leaves the function
      (`raised`), and the dict is filled in place. */
  method ResolveDomainsToIp(domains: seq<string>, answers: seq<Lookup>)
    returns (resolved: map<string, seq<string>>, order: seq<string>, failures: seq<string>, raised: bool)
    requires |answers| == |domains|
    ensures raised <==> exists i :: 0 <= i < |answers| && answers[i].OtherError?
    ensures !raised ==> resolved == ResolvedMap(domains, answers)
    ensures !raised ==> order == FirstOccurrences(Succeeded(domains, answers))
    ensures !raised ==> failures == Failed(domains, answers)
  {
    resolved, order, failures, raised := map[], [], [], false;
    var k := 0;
    while k < |domains|
      invariant 0 <= k <= |domains|
      invariant forall i :: 0 <= i < k ==> !answers[i].OtherError?
      invariant Progress(domains, answers, k, resolved, order, failures)
    {
      if answers[k].OtherError? {
        raised := true;
        return;
      }
      resolved, order, failures := RecordLookup(domains, answers, k, resolved, order, failures);
      k := k + 1;
    }
    assert domains[..k] == domains && answers[..k] == answers;
  }

  /** A dict gains a key at the end only when it is new. */
  lemma FirstOccurrencesStep(xs: seq<string>, x: string)
    ensures FirstOccurrences(xs + [x]) ==
      if x in Elements(xs) then FirstOccurrences(xs) else FirstOccurrences(xs) + [x]
  {
    assert (xs + [x])[..|xs|] == xs;
  }

  /** The keys of the dict are the successful lookups, each holding its last
      successful answer, and the first-occurrence order lists them. */
  lemma ResolvedKeys(domains: seq<string>, answers: seq<Lookup>)
    requires |answers| == |domains|
    ensures forall d :: d in ResolvedMap(domains, answers) <==> LastAddresses(domains, answers, d).Some?
    ensures forall d :: d in ResolvedMap(domains, answers) ==>
      ResolvedMap(domains, answers)[d] == LastAddresses(domains, answers, d).value
    ensures Enumerates(FirstOccurrences(Succeeded(domains, answers)), ResolvedMap(domains, answers).Keys)
  {
    forall d ensures d in ResolvedMap(domains, answers) <==> LastAddresses(domains, answers, d).Some? {
      LastAddressesSucceeded(domains, answers, d);
    }
  }

  /** With a DNS that answers the same domain the same way every time (`a`
      for `d`), `d` is a key exactly when it is in the input and its lookup
      succeeded, and its value is that lookup's address list; a failure does
      not hide any domain looked up after it. */
  lemma {:induction false} ConsistentLookups(domains: seq<string>, answers: seq<Lookup>, d: string, a: Lookup)
    requires |answers| == |domains|
    requires forall j :: 0 <= j < |domains| && domains[j] == d ==> answers[j] == a
    ensures LastAddresses(domains, answers, d) == if d in domains && a.Addresses? then Some(a.ips) else None
  {
    if domains != [] {
      var n := |domains| - 1;
      ConsistentLookups(domains[..n], answers[..n], d, a);
      assert d in domains <==> d in domains[..n] || domains[n] == d by {
        assert domains == domains[..n] + [domains[n]];
      }
    }
  }

  /** One entry of `resolved-ip.txt`: `f"{domain}: {', '.join(ips)}"`. */
  function ReportEntry(domain: string, ips: seq<string>): (entry: string)
    ensures |entry| >= |domain| + 2 && entry[..|domain|] == domain && entry[|domain|..|domain| + 2] == ": "
    ensures NoBreaks(FileIteration, domain) && (forall j :: 0 <= j < |ips| ==> NoBreaks(FileIteration, ips[j])) ==>
      NoBreaks(FileIteration, entry)
  {
    var entry := domain + ": " + Join(ips, ", ");
    if NoBreaks(FileIteration, domain) && (forall j :: 0 <= j < |ips| ==> NoBreaks(FileIteration, ips[j])) then
      JoinNoBreaks(ips);
      assert entry == domain + (": " + Join(ips, ", "));
      entry
    else entry
  }

  /** Every key is in the dict, and no key or address holds a line ending. */
  predicate SingleLineEntries(order: seq<string>, resolved: map<string, seq<string>>) {
    && (forall k :: 0 <= k < |order| ==> order[k] in resolved && NoBreaks(FileIteration, order[k]))
    && (forall d :: d in resolved ==> forall j :: 0 <= j < |resolved[d]| ==> NoBreaks(FileIteration, resolved[d][j]))
  }

  /** The whole report, `f.write(f"{domain}: {', '.join(ips)}\n")` for each
      key in dict order. */
  function ReportText(order: seq<string>, resolved: map<string, seq<string>>): (text: string)
    requires forall k :: 0 <= k < |order| ==> order[k] in resolved
    ensures text == [] <==> order == []
    ensures text != [] ==> text[|text| - 1] == '\n'
  {
    if order == [] then ""
    else
      var n := |order| - 1;
      ReportText(order[..n], resolved) + ReportEntry(order[n], resolved[order[n]]) + "\n"
  }

  /** The loop over `resolved_ips.items()` that writes the report. */
  method WriteReport(order: seq<string>, resolved: map<string, seq<string>>) returns (text: string)
    requires forall k :: 0 <= k < |order| ==> order[k] in resolved
    ensures text == ReportText(order, resolved)
  {
    text := "";
    for k := 0 to |order|
      invariant text == ReportText(order[..k], resolved)
    {
      assert order[..k + 1][..k] == order[..k];
      text := text + ReportEntry(order[k], resolved[order[k]]) + "\n";
    }
    assert order[..|order|] == order;
  }

  /** `', '.join` of single-line addresses is a single line. */
  lemma {:induction false} JoinNoBreaks(ips: seq<string>)
    requires forall k :: 0 <= k < |ips| ==> NoBreaks(FileIteration, ips[k])
    ensures NoBreaks(FileIteration, Join(ips, ", "))
  {
    if |ips| > 1 {
      JoinNoBreaks(ips[1..]);
    }
  }

  /** The entries the report holds, in dict order. */
  function ReportEntries(order: seq<string>, resolved: map<string, seq<string>>): (es: seq<string>)
    requires forall k :: 0 <= k < |order| ==> order[k] in resolved
    ensures |es| == |order|
    ensures forall k :: 0 <= k < |order| ==> es[k] == ReportEntry(order[k], resolved[order[k]])
  {
    if order == [] then []
    else
      var n := |order| - 1;
      var es := ReportEntries(order[..n], resolved) + [ReportEntry(order[n], resolved[order[n]])];
      assert forall k :: 0 <= k < n ==> order[..n][k] == order[k];
      es
  }

  /** Read back line by line, the report holds one line per resolved domain,
      in dict order, each `domain: ip1, ip2, ...`. */
  lemma {:induction false} ReportLines(order: seq<string>, resolved: map<string, seq<string>>)
    requires SingleLineEntries(order, resolved)
    ensures Lines(FileIteration, ReportText(order, resolved)) == ReportEntries(order, resolved)
  {
    if order != [] {
      var n := |order| - 1;
      assert SingleLineEntries(order[..n], resolved);
      ReportLines(order[..n], resolved);
      var d := order[n];
      var x := ReportEntry(d, resolved[d]);
      LinesAppendLine(ReportText(order[..n], resolved), x);
    }
  }

  /** Every address any lookup returned is a single line. */
  predicate SingleLineAddresses(answers: seq<Lookup>) {
    forall i, j :: 0 <= i < |answers| && answers[i].Addresses? && 0 <= j < |answers[i].ips| ==>
      NoBreaks(FileIteration, answers[i].ips[j])
  }

  /** The end of `main`: when `valid_domains.txt` exists its stripped lines
      are resolved and `resolved-ip.txt` is written (the new contents are
      returned); when it does not, or a lookup raised something other than a
      `gaierror`, nothing is written (`None`). */
  method ResolveAndReport(validFile: Option<string>, answers: seq<Lookup>) returns (report: Option<string>)
    requires validFile.Some? ==> |answers| == |Lines(FileIteration, validFile.value)|
    ensures validFile.None? ==> report.None?
    ensures validFile.Some? ==>
      (report.Some? <==> forall i :: 0 <= i < |answers| ==> !answers[i].OtherError?)
    ensures report.Some? ==>
      var domains := ReadStrippedList(validFile.value);
      var order := FirstOccurrences(Succeeded(domains, answers));
      Enumerates(order, ResolvedMap(domains, answers).Keys) &&
      report.value == ReportText(order, ResolvedMap(domains, answers))
    ensures report.Some? && SingleLineAddresses(answers) ==>
      var domains := ReadStrippedList(validFile.value);
      |Lines(FileIteration, report.value)| == |ResolvedMap(domains, answers)|
  {
    if validFile.None? {
      return None;
    }
    var domains := ReadStrippedList(validFile.value);
    var resolved, order, failures, raised := ResolveDomainsToIp(domains, answers);
    if raised {
      return None;
    }
    ResolvedKeys(domains, answers);
    var text := WriteReport(order, resolved);
    if SingleLineAddresses(answers) {
      forall k | 0 <= k < |order| ensures NoBreaks(FileIteration, order[k]) {
        assert order[k] in Elements(order);
        var i :| 0 <= i < |domains| && domains[i] == order[k];
        CleanKeepsNoBreaks(FileIteration, Lines(FileIteration, validFile.value)[i]);
      }
      forall d, j | d in resolved && 0 <= j < |resolved[d]| ensures NoBreaks(FileIteration, resolved[d][j]) {
        LastAddressesFrom(domains, answers, d);
      }
      ReportLines(order, resolved);
      DistinctCard(order);
    }
    report := Some(text);
  }

  /** A value in the dict is the address list of one of the lookups. */
  lemma {:induction false} LastAddressesFrom(domains: seq<string>, answers: seq<Lookup>, d: string)
    requires |answers| == |domains|
    requires LastAddresses(domains, answers, d).Some?
    ensures exists i :: (0 <= i < |answers| && answers[i].Addresses? &&
      answers[i].ips == LastAddresses(domains, answers, d).value)
  {
    var n := |domains| - 1;
    if !(domains[n] == d && answers[n].Addresses?) {
      LastAddressesFrom(domains[..n], answers[..n], d);
      var i :| 0 <= i < n && answers[..n][i].Addresses? &&
        answers[..n][i].ips == LastAddresses(domains[..n], answers[..n], d).value;
      assert answers[i] == answers[..n][i];
    }
  }
}
