# Certificate-subject domain extraction and endpoint enrichment

This project models the core of a small reconnaissance pipeline. For every
endpoint record (a JSON object with a `url`) the pipeline runs these steps:

- scan the url with the `tlsx` tool;
- read the certificate subject fields `subject_an`, `subject_dn` and
  `subject_cn` from the scan result;
- reduce every name found there to its second-level domain (the last two
  `.`-separated labels);
- expand each domain into fully qualified names with `subfinder`;
- write both lists back onto the record.

The repository has two versions of the parser:

- `parse_results.py`, the first version. Its extractor has no handling of `=`.
- `parse_results_tasks45.py`, the second version. Its extractor first cuts an
  attribute string such as `CN=sub.example.com` at the last `=`. Its `main`
  also runs the enrichment loop.

Both versions are modelled, each in its own module.

Modules:

- `PyStr` (`py_str.dfy`): the Python string operations the code relies on.
  - `str.split(sep)` keeps empty pieces.
  - `sep.join(parts)`.
  - `str.strip()` removes Python whitespace from both ends.
  - The lemmas relating split and join.
- `Collections` (`collections.dfy`): `list(set)`, as a method that returns the
  elements of a set without repetition, in an unspecified order.
- `Tlsx` (`tlsx.dfy`): the scan result and the walk over its subject fields
  that both parsers perform.
  - A field value is either a list of names or one comma-separated string.
  - The walk takes the extractor as a parameter, because that is the only
    difference between the two parsers.
  - `Candidates`, `Harvest` and `Domains` are the reference definitions.
    The nested loops in `ParseWith` are proved against them.
- `ParseResults` (`parse_results.dfy`): the first `extract_domain_level_2`
  and the first `parse_tlsx_results`.
- `ParseResultsTasks45` (`parse_results_tasks45.dfy`): the second
  `extract_domain_level_2` and the second `parse_tlsx_results`. It also holds:
  - `get_urls`;
  - the records, modelled as objects that are updated in place;
  - the enrichment loop of `main`.

The external tools are parameters of the model:

- `tlsx: string -> Option<TlsxData>` stands for `run_tlsx`. `None` is the
  tool failing or its output not decoding.
- `subfinder: string -> seq<string>` stands for `run_subfinder`. It is the
  list of hosts reported for a domain; failures give the empty list.

Behaviour of the code that the model keeps:

- **A failed scan aborts the run.** `run_tlsx` returns `None`, and
  `parse_tlsx_results(None)` evaluates `field in None`, which raises
  `TypeError`. Nothing catches it in `main`, so the run stops at that record.
  `EnrichEntries` models this as `Raised(TypeError)`: the records before it
  are enriched and it and the records after it are left untouched.
- **Whitespace after `=` is kept.** The item is stripped before the `=` cut,
  never after it, so whitespace right after `=` stays in the domain
  (`SpaceAfterEqualsKept`).
- **The first version has no `=` handling.** Only the second version cuts at
  `=`. In the first, `CN=example.com` is returned unchanged
  (`AttributeStringKept`).
- **The extractor's parameter is a string**, because every caller passes one.

`get_urls` runs before the loop. A record without `url` therefore raises
`KeyError` before any record is changed.

## Model

| member | source | states |
|---|---|---|
| PyStr.Split | parse_results.py:24 | `str.split` gives one more piece than there are separators, and no piece holds the separator |
| PyStr.JoinSplit | parse_results.py:24-26 | `PyStr.Join` models `sep.join(parts)`: joining the pieces of a split with the same separator gives the original string back |
| PyStr.SplitJoin | parse_results_tasks45.py:48 | splitting a join of separator-free pieces gives the pieces back |
| PyStr.SplitAfterPiece | parse_results_tasks45.py:48 | a string that starts with a separator-free piece and a separator splits into that piece followed by the split of the rest |
| PyStr.LastPiece | parse_results_tasks45.py:35-36 | `split(sep)[-1]` is the separator-free suffix after the last separator, or the whole string when it has no separator |
| PyStr.LastPieceAfter | parse_results_tasks45.py:36 | for `a + sep + b` with `b` separator-free, `split(sep)[-1]` is `b` |
| PyStr.JoinLastTwo | parse_results.py:26 | the join of three or more pieces ends with the join of its last two pieces, after a separator |
| PyStr.StripTrims | parse_results.py:38 | `PyStr.Strip` models `item.strip()`: it removes only whitespace, from both ends, until neither end is whitespace |
| PyStr.StripUnspaced | parse_results_tasks45.py:50 | a string that neither starts nor ends with whitespace is unchanged by `strip()` |
| Collections.ListOf | parse_results.py:41 | `list(set)` holds exactly the set's elements, each once |
| Tlsx.Candidates | parse_results_tasks45.py:46-48 | `Tlsx.Items` models the `isinstance(..., list)` / `split(',')` choice; the candidates are those of `subject_an`, then `subject_dn`, then `subject_cn`; an absent field gives none, a list gives its elements and a string gives its `,`-pieces |
| Tlsx.OtherKeysIgnored | parse_results_tasks45.py:46-47 | keys other than the three subject fields do not change the candidates |
| Tlsx.HarvestSound | parse_results_tasks45.py:49-52 | every collected domain is non-empty and is what some stripped candidate extracts to |
| Tlsx.HarvestComplete | parse_results_tasks45.py:49-52 | every non-empty domain that a stripped candidate extracts to is collected |
| Tlsx.HarvestMembers | parse_results_tasks45.py:45-52 | `Tlsx.Harvest` models the set built by the item loop, with `Tlsx.Kept` modelling `if domain: domains.add(domain)` (None and the empty string are skipped); a domain is collected if and only if it is non-empty and some stripped candidate extracts to it |
| Tlsx.HarvestConcat | parse_results_tasks45.py:46-52 | collecting over two runs of candidates is the union of collecting over each |
| Tlsx.AltAndCommonNames | parse_results_tasks45.py:46-52 | a scan result with one alternative name and a common name holding two comma-separated names yields the union of what each of the three names yields |
| Tlsx.DomainsMembers | parse_results_tasks45.py:44-53 | `Tlsx.Domains` is the set the whole field walk builds; a domain is in a scan result's domains if and only if it is non-empty and some stripped candidate extracts to it |
| Tlsx.ParseWith | parse_results_tasks45.py:44-53 | the nested field and item loops return, without repetition, exactly the scan result's domains |
| ParseResults.ExtractDomainLevel2 | parse_results.py:19-27 | None if and only if the name is empty or has no `.`; otherwise the last two `.`-labels of the name |
| ParseResults.LastTwoPieces | parse_results.py:24-26 | for a name with a `.`, joining the last two split pieces gives its last two labels |
| ParseResults.LastTwoLabelsUnique | parse_results.py:24-26 | a name has at most one last-two-labels suffix, so the extracted domain is determined by that property |
| ParseResults.TwoLabelsKept | parse_results.py:23-26 | a name of exactly two labels is its own second-level domain |
| ParseResults.LeadingLabelsDropped | parse_results.py:24-26 | `x.a.b` gives `a.b`; leading labels are dropped, so `foo.co.uk` gives `co.uk` |
| ParseResults.ExtractIdempotent | parse_results.py:19-27 | extracting from an extracted domain gives it back unchanged |
| ParseResults.AttributeStringKept | parse_results.py:19-27 | the first version returns `CN=example.com` unchanged, with the attribute name kept |
| ParseResults.TwoLabelExample | parse_results.py:23-26 | `example.com` gives `example.com` |
| ParseResults.NoDotExamples | parse_results.py:23-27 | `com` and the empty string give None |
| ParseResults.ParseTlsxResults | parse_results.py:29-41 | the result has no repetitions; it holds a domain if and only if some stripped candidate extracts to it; every domain holds exactly one `.` |
| ParseResultsTasks45.AfterLastEquals | parse_results_tasks45.py:35-36 | the text after the last `=`: a `=`-free suffix that follows a `=`, or the whole name when it has no `=` |
| ParseResultsTasks45.ExtractDomainLevel2 | parse_results_tasks45.py:34-41 | None if and only if the text after the last `=` is empty or has no `.`; otherwise that text's last two labels, a `=`-free suffix of the input |
| ParseResultsTasks45.ExtractIdempotent | parse_results_tasks45.py:34-41 | extracting from an extracted domain gives it back unchanged |
| ParseResultsTasks45.VersionsAgreeWithoutEquals | parse_results_tasks45.py:34-41 | on a name without `=` the two extractors agree |
| ParseResultsTasks45.AttributeValueRead | parse_results_tasks45.py:35-40 | `name=value` with a `=`-free value extracts as the value alone would in the first version |
| ParseResultsTasks45.SpaceAfterEqualsKept | parse_results_tasks45.py:35-40 | whitespace right after the `=` is kept in the extracted domain |
| ParseResultsTasks45.CommonNameExample | parse_results_tasks45.py:34-41 | `CN=sub.example.com` gives `example.com` |
| ParseResultsTasks45.ExtractNamed | parse_results_tasks45.py:50 | a stripped candidate `x.a.b` without `=` or surrounding whitespace gives `a.b` |
| ParseResultsTasks45.ParseTlsxResults | parse_results_tasks45.py:44-53 | the result has no repetitions and holds exactly the scan result's domains, i.e. those some stripped candidate extracts to; every domain has one `.` and no `=` |
| ParseResultsTasks45.GetUrls | parse_results_tasks45.py:60-61 | succeeds if and only if every record has a `url`, giving the urls in record order; otherwise raises `KeyError('url')` |
| ParseResultsTasks45.Reached | parse_results_tasks45.py:132-136 | `ParseResultsTasks45.Stops` models the two causes of `TypeError` at lines 135-136 (a url that is not a string, a scan that gave `None`); `Reached` is the number of records the loop gets through: every earlier record has a string url and a successful scan, and the record at that index (if any) does not |
| ParseResultsTasks45.SubdomainsMembers | parse_results_tasks45.py:138-140 | `ParseResultsTasks45.Subdomains` models the `fqdns` set the loop builds; a name is among the FQDNs if and only if subfinder reports it for one of the domains |
| ParseResultsTasks45.EnrichRecord | parse_results_tasks45.py:133-144 | one turn of the loop either raises `TypeError` with the record untouched (url not a string, or scan failed) or sets `domains` to the scan's domains and `fqdns` to the union of subfinder's reports, each without repetition, all other keys unchanged; no other record changes |
| ParseResultsTasks45.EnrichEntries | parse_results_tasks45.py:128-146 | a missing `url` raises `KeyError` with nothing changed; otherwise the records up to the first failing one are enriched in place and the rest are untouched, and the outcome is the list of all records in order when none failed, else `TypeError` |

## Left out

- `run_tlsx` and `run_subfinder` are parameters of the model. Their process
  handling is not modelled: the tool invocation, JSON decoding, and the
  catching of `CalledProcessError` and `JSONDecodeError`. The parameters return
  the caught outcome (`None`, or `[]`).
  - An uncaught failure inside them is not modelled either. Examples are a
    missing binary, or a subfinder line without `host`, which raises
    `KeyError`.
- `load_urls_from_file`, the `json.dump` of the enriched records and all
  console output are left out: they are file I/O and logging.
- `save_to_db` is left out: it is database I/O through psycopg2.
- The first version's `main` is left out. It only loads urls, calls the
  modelled parser and prints.
- Field values other than a list or a string are left out, as are list
  elements that are not strings. In the source these raise `AttributeError`.
  The scan result is modelled as a map from field names to list-or-string
  values.
- Scan outputs that decode to something other than a JSON object are left out.
  JSON numbers are modelled as integers only.
- ParseTlsxResults, ParseWith and Collections.ListOf: the order of the
  returned list, which comes from Python's set iteration order, is not
  modelled. Only its elements and the absence of repetitions are stated.
- EnrichEntries: the records are required to be distinct objects, as
  `json.load` produces them. A list that holds the same dictionary twice is
  not modelled.
- EnrichEntries: `get_urls`' result is only used for its `KeyError`, because
  `main` does not use the list it returns.
- Public-suffix awareness (`co.uk`) is absent from the source, and the model
  keeps that behaviour (`LeadingLabelsDropped`).
