# OSINT domain-resolution discovery: a Dafny model of its result handling

`OSINT-DomainResolutionsDiscovery.py` runs Amass, Subfinder and DNSRecon against a
target domain. It merges their candidate sub-domains into `updated_wordlist.txt`,
counts them, and has PureDNS confirm which are live, writing the confirmed ones to
`valid_domains.txt`. It then reports which confirmed domains are new since the
previous scan, and resolves each confirmed domain to its IP addresses in
`resolved-ip.txt`. This project models the part of the script that transforms
those results, and proves what each step guarantees.

The modules follow the script's own steps:

- `Text` models the two clean-ups applied to every domain.
  - `str.strip()` uses Python's full `str.isspace` set.
  - `str.replace("www.", "")` scans left to right and removes every
    non-overlapping occurrence.
- `LineIO` models how text becomes lines and lines become text.
  - Iterating over a text-mode file uses universal newlines (`\n`, `\r`, `\r\n`).
  - `str.splitlines()` uses Python's full line-boundary set.
  - `sep.join` is modelled as written, and there are lemmas about reading
    back what was joined.
- `Ordering` models Python's string order and `sorted(set(...))`.
- `Aggregation` models `compare_results` and the line count in `display_summary`.
- `Validity` models what `run_puredns` does with PureDNS's exit code and stdout.
- `Delta` models `find_delta_domains` and the three-way report at the end of `main`.
- `IpMap` models `resolve_domains_to_ip`: a loop that fills a dict in place,
  given as a method proved against specification functions. It also models the
  loop that writes `resolved-ip.txt`.
- `Wrappers` holds `Option`. A file that does not exist is `None`; otherwise
  it is `Some(contents)`.

Where a reader might expect otherwise, the model follows the code:

- `replace` removes every occurrence of `www.`, including inner ones, not only a
  leading prefix as the comment above it says (`"a.www.b"` becomes `"a.b"`).
- `compare_results` is all-or-nothing: one `try` block wraps all three reads,
  so a missing file means nothing is written.
- A PureDNS failure leaves `valid_domains.txt` as it was; it is not emptied.

## Model

| member | source | states |
|---|---|---|
| Text.Strip | OSINT-DomainResolutionsDiscovery.py:96 | `line.strip()` leaves no whitespace character at either end and is never longer than its input |
| Text.StripPadded | OSINT-DomainResolutionsDiscovery.py:96 | for any whitespace prefix and suffix around a core with no whitespace at its ends, `strip()` returns exactly that core (including when the core is empty) |
| Text.StripFixed | OSINT-DomainResolutionsDiscovery.py:146 | a string with no whitespace at its ends is returned unchanged by `strip()` |
| Text.StripChars | OSINT-DomainResolutionsDiscovery.py:96 | every character `strip()` keeps occurs in its input |
| Text.StripIdempotent | OSINT-DomainResolutionsDiscovery.py:96 | stripping twice is the same as stripping once |
| Text.RemoveWww | OSINT-DomainResolutionsDiscovery.py:60 | `replace("www.", "")` never lengthens a string |
| Text.RemoveWwwAbsent | OSINT-DomainResolutionsDiscovery.py:60 | a string with no occurrence of `www.` is returned unchanged |
| Text.RemoveWwwAtFirst | OSINT-DomainResolutionsDiscovery.py:60 | left-to-right removal: at the first occurrence `i`, the result is `s[..i]` followed by the removal applied to what comes after that occurrence |
| Text.RemoveWwwChars | OSINT-DomainResolutionsDiscovery.py:100 | the removal introduces no character that was not in its input |
| Text.RemoveWwwNotIdempotent | OSINT-DomainResolutionsDiscovery.py:60 | one pass turns `"wwwww.w."` into `"www."`, and a second pass turns that into `""`, so the removal is not idempotent |
| Text.RemoveWwwInterior | OSINT-DomainResolutionsDiscovery.py:100 | an inner occurrence is removed too: `"a.www.b"` becomes `"a.b"` |
| LineIO.Lines | OSINT-DomainResolutionsDiscovery.py:96 | iterating over a file yields lines none of which holds a line ending |
| LineIO.Join | OSINT-DomainResolutionsDiscovery.py:67 | `'\n'.join` of one element is that element |
| LineIO.CleanKeepsNoBreaks | OSINT-DomainResolutionsDiscovery.py:96-100 | neither `strip()` nor the `www.` removal can create a line ending |
| LineIO.LinesCons | OSINT-DomainResolutionsDiscovery.py:67 | a single-line element followed by `\n` reads back as that element followed by the lines of the rest |
| LineIO.LinesOfJoin | OSINT-DomainResolutionsDiscovery.py:66-67 | reading back `'\n'.join(xs)` line by line gives exactly `xs`, less its last element when that element is empty |
| LineIO.LinesOfJoinExact | OSINT-DomainResolutionsDiscovery.py:66-67 | with non-empty single-line elements, the lines read back are exactly the elements written |
| LineIO.LineCountOfJoin | OSINT-DomainResolutionsDiscovery.py:47 | `sum(1 for _ in f)` over `'\n'.join(xs)` is the number of elements, or one fewer when the last element is empty |
| LineIO.LinesAppendLine | OSINT-DomainResolutionsDiscovery.py:191-192 | text that ends in `\n`, extended by one single-line entry and `\n`, reads as the old lines plus that entry |
| LineIO.ReadStrippedSet | OSINT-DomainResolutionsDiscovery.py:146 | `{line.strip() for line in f}` holds only single-line strings with no whitespace at their ends, and is empty exactly when the file has no lines |
| LineIO.ReadStrippedList | OSINT-DomainResolutionsDiscovery.py:188 | `[line.strip() for line in f]` has one entry per file line, the `k`-th being that line stripped |
| LineIO.SplitlinesFreeIsOneLine | OSINT-DomainResolutionsDiscovery.py:60 | a line produced by `splitlines()` is also a single line when read back from a file |
| LineIO.WriteReadSet | OSINT-DomainResolutionsDiscovery.py:66-67 | writing trimmed single-line elements with `'\n'.join` and reading them back with `{line.strip() for line in f}` gives back exactly the set of elements, provided the last one is not empty |
| Ordering.Less | OSINT-DomainResolutionsDiscovery.py:62 | Python's `str` order: no string is below itself, and a proper prefix sorts before the longer string |
| Ordering.LessIrreflexive | OSINT-DomainResolutionsDiscovery.py:62 | no string sorts before itself |
| Ordering.LessTransitive | OSINT-DomainResolutionsDiscovery.py:62 | the string order used by `sorted` is transitive |
| Ordering.LessTotal | OSINT-DomainResolutionsDiscovery.py:62 | any two different strings are ordered one way or the other |
| Ordering.LessAsymmetric | OSINT-DomainResolutionsDiscovery.py:62 | if `a < b` then not `b < a` |
| Ordering.Insert | OSINT-DomainResolutionsDiscovery.py:62 | inserting into a strictly increasing list keeps it strictly increasing and adds exactly the new element |
| Ordering.SortedSet | OSINT-DomainResolutionsDiscovery.py:60-62 | `sorted(set(xs))` is strictly increasing and holds exactly the elements of `xs` |
| Ordering.StrictlyIncreasingUnique | OSINT-DomainResolutionsDiscovery.py:62 | two strictly increasing lists with the same elements are equal, so the sorted result is unique |
| Ordering.SortedSetDependsOnElements | OSINT-DomainResolutionsDiscovery.py:60-62 | the sorted list depends only on the set of inputs, not on their order or repetition |
| Ordering.DistinctCard | OSINT-DomainResolutionsDiscovery.py:64 | a list without duplicates has as many entries as its set of elements |
| Ordering.StrictlyIncreasingDistinct | OSINT-DomainResolutionsDiscovery.py:62 | a strictly increasing list has no duplicates |
| Ordering.EmptyOnlyFirst | OSINT-DomainResolutionsDiscovery.py:62-67 | in a sorted list of two or more entries the last entry is not the empty string |
| Aggregation.DnsReconDomains | OSINT-DomainResolutionsDiscovery.py:99-100 | the cleaned DNSRecon lines are single lines |
| Aggregation.CompareResults | OSINT-DomainResolutionsDiscovery.py:92-106 | the comparison fails exactly when one of the three files is missing, and it names the first missing one in opening order |
| Aggregation.CompareResultsMembers | OSINT-DomainResolutionsDiscovery.py:95-101 | a domain is in the union iff it is a stripped Amass line, a stripped Subfinder line, or a stripped DNSRecon line with `www.` removed; swapping the Amass and Subfinder files gives the same result |
| Aggregation.CombinedSingleLines | OSINT-DomainResolutionsDiscovery.py:95-101 | every combined domain is a single line |
| Aggregation.UpdatedWordlist | OSINT-DomainResolutionsDiscovery.py:101-106 | `updated_wordlist.txt` is untouched when a file was missing, and otherwise is `'\n'.join` of the combined set in the set's iteration order |
| Aggregation.DisplaySummary | OSINT-DomainResolutionsDiscovery.py:45-50 | the loop counts exactly the lines a file iteration yields; a missing file gives no count |
| Aggregation.SummaryAfterCompare | OSINT-DomainResolutionsDiscovery.py:47 | for the `updated_wordlist.txt` that a successful comparison writes, the count is the number of combined domains, one fewer when the empty string is iterated last; it is exactly that number when the empty string is not a domain |
| Validity.ResolvedSet | OSINT-DomainResolutionsDiscovery.py:60 | the set comprehension holds only single-line domains, and is empty exactly when stdout has no lines |
| Validity.CleanedLinesElements | OSINT-DomainResolutionsDiscovery.py:60 | the cleaned stdout lines form exactly the set comprehension, and each is a single line |
| Validity.ValidDomains | OSINT-DomainResolutionsDiscovery.py:60-62 | the written list is strictly increasing, holds exactly the cleaned stdout lines, has as many entries as that set, and each entry is a single line |
| Validity.RunPureDnsReport | OSINT-DomainResolutionsDiscovery.py:56-64 | an error is reported iff the exit code is non-zero; otherwise the count printed is the length of the written list, which is the size of the cleaned set |
| Validity.ValidFileAfter | OSINT-DomainResolutionsDiscovery.py:56-67 | on a non-zero exit `valid_domains.txt` is unchanged; otherwise it holds `'\n'.join` of the sorted list |
| Validity.ValidFileRoundTrip | OSINT-DomainResolutionsDiscovery.py:66-67 | reading `valid_domains.txt` back with `{line.strip() for line in f}` gives exactly the cleaned PureDNS set, provided the cleaned lines carry no outer whitespace and the list is not the empty string alone |
| Delta.FindDelta | OSINT-DomainResolutionsDiscovery.py:119-120 | the delta lies within the current set and is disjoint from the previous one; it holds every new domain when there is a previous set, and is empty when there is none |
| Delta.DeltaOfSelf | OSINT-DomainResolutionsDiscovery.py:119-120 | a set has no delta against itself |
| Delta.DomainsIn | OSINT-DomainResolutionsDiscovery.py:142-146 | a missing `valid_domains.txt` gives the empty set; otherwise the set is empty exactly when the file has no lines, and holds only trimmed single-line domains |
| Delta.ReportDelta | OSINT-DomainResolutionsDiscovery.py:174-183 | "previous scan data not found" iff the previous set is empty; a reported list is non-empty and is the current set minus the previous one; "no new domains" means the current set is contained in the previous one |
| Delta.PureDnsFailureReportsNothingNew | OSINT-DomainResolutionsDiscovery.py:174-181 | when PureDNS fails and there was a previous scan, the report is "no new domains" |
| Delta.ReportAcrossRuns | OSINT-DomainResolutionsDiscovery.py:142-183 | across two successful scans whose cleaned lines carry no outer whitespace, neither of whose sorted lists is the empty string alone, and whose first run resolved at least one domain, the report lists exactly the cleaned domains of the second run that the first did not have, or "no new domains" when there are none |
| Delta.RepeatedScanFindsNothingNew | OSINT-DomainResolutionsDiscovery.py:174-181 | the same successful PureDNS output twice in a row reports "no new domains", whatever whitespace its lines carry, provided it resolved at least one domain and its sorted list is not the empty string alone (otherwise the report is "previous scan data not found") |
| IpMap.Failed | OSINT-DomainResolutionsDiscovery.py:78-79 | the domains reported as `gaierror` failures all come from the input, and there are no more of them than input domains |
| IpMap.LookupsAccounted | OSINT-DomainResolutionsDiscovery.py:74-79 | when no lookup raised, every input domain is counted once, either among the successes or among the reported failures |
| IpMap.LastAddresses | OSINT-DomainResolutionsDiscovery.py:74-77 | a domain has a stored answer only if it was in the input |
| IpMap.FirstOccurrences | OSINT-DomainResolutionsDiscovery.py:77 | the dict's key order lists each successful domain exactly once |
| IpMap.LastAddressesSucceeded | OSINT-DomainResolutionsDiscovery.py:75-79 | a domain has a stored answer iff one of its lookups succeeded |
| IpMap.ResolvedMap | OSINT-DomainResolutionsDiscovery.py:72-80 | the dict's keys are exactly the domains whose lookup succeeded, all of them from the input |
| IpMap.LookupStep | OSINT-DomainResolutionsDiscovery.py:74-79 | one more lookup adds its domain to the successes or the failures and, on success, stores its addresses in the dict |
| IpMap.FirstOccurrencesStep | OSINT-DomainResolutionsDiscovery.py:77 | assigning to a dict key adds it at the end only when it is new |
| IpMap.RecordLookup | OSINT-DomainResolutionsDiscovery.py:75-79 | one turn of the loop keeps the dict, its key order and the failures equal to the specification functions of the lookups done so far |
| IpMap.ResolveDomainsToIp | OSINT-DomainResolutionsDiscovery.py:72-80 | the loop raises iff some lookup raised something other than `gaierror`; otherwise it returns exactly the specified dict, key order and reported failures |
| IpMap.ResolvedKeys | OSINT-DomainResolutionsDiscovery.py:72-80 | a domain is a key iff one of its lookups succeeded, its value is the answer of its last successful lookup, and the key order enumerates the keys |
| IpMap.ConsistentLookups | OSINT-DomainResolutionsDiscovery.py:74-79 | when DNS answers a domain the same way every time, that domain is a key iff it is in the input and its lookup succeeds, with that lookup's addresses as value; failures of other domains change nothing |
| IpMap.LastAddressesFrom | OSINT-DomainResolutionsDiscovery.py:76-77 | every stored value is the address list of one of the lookups |
| IpMap.ReportEntry | OSINT-DomainResolutionsDiscovery.py:192 | an entry starts with the domain followed by `": "`, and is a single line when the domain and its addresses are |
| IpMap.ReportText | OSINT-DomainResolutionsDiscovery.py:190-192 | the report is empty exactly when the dict is, and otherwise ends with a line ending |
| IpMap.WriteReport | OSINT-DomainResolutionsDiscovery.py:190-192 | the loop writes the specified report text, one entry per key in dict order |
| IpMap.JoinNoBreaks | OSINT-DomainResolutionsDiscovery.py:192 | `', '.join` of single-line addresses is a single line |
| IpMap.ReportEntries | OSINT-DomainResolutionsDiscovery.py:191-192 | there is one entry per key, the `k`-th being `domain: ip1, ip2, ...` for the `k`-th key |
| IpMap.ReportLines | OSINT-DomainResolutionsDiscovery.py:190-192 | read back line by line, `resolved-ip.txt` holds exactly those entries in dict order |
| IpMap.ResolveAndReport | OSINT-DomainResolutionsDiscovery.py:186-193 | nothing is written when `valid_domains.txt` is missing or a lookup raised; otherwise the report is the specified text over the stripped file lines, its key order enumerates the dict's keys, and with single-line addresses it has one line per resolved domain |

## Left out

- The external tools (`run_amass`, `run_subfinder`, `run_dnsrecon`, `run_httpx`, and the `subprocess.run` call in `run_puredns`) are not modelled. PureDNS's result enters as a `ToolRun` value (exit code, stdout, stderr); the other tools enter as the contents of their output files.
- `socket.gethostbyname_ex` is not modelled; each call is given by its answer, one `Lookup` per domain in input order. The address part of its result is kept and the host-name parts are not.
- File-system I/O (`open`, `os.path.exists`, `os.makedirs`, `store_results` and `shutil.copy`) is not modelled. A file is its contents as a string, or `None` when it does not exist; a write is the new contents returned.
- The order in which a Python set is iterated (`'\n'.join(combined_domains)`, the `', '.join(delta_domains)` message) is unspecified in Python; `Aggregation.UpdatedWordlist` takes it as a parameter that lists the set, and the delta report keeps the set itself.
- The printed console messages, their ANSI colours, the exception messages and stderr text are not modelled beyond which message is chosen.
- `argparse`, the hard-coded tool paths and the timing code (wall-clock time and float division) are not modelled.
- `Text.RemoveWww` and `Text.Strip` work on code points; Python's `str` is the same, but the text decoding that `open` performs on the file bytes is not modelled.
- A `FileNotFoundError` raised while reading `updated_wordlist.txt` in `display_summary` is modelled; other I/O errors (permissions, decoding) are not.
- `IpMap.ResolveDomainsToIp`: an exception other than `gaierror` leaves the function in the script and ends `main`; the model reports it as `raised`, its other results are then unspecified, and `IpMap.ResolveAndReport` writes nothing.
