/** parse_results_tasks45.py: the second version of the parser and the
    enrichment run. Its extractor first cuts an attribute string such as
    `CN=sub.example.com` at the last `=`. Its `main` loads the endpoint
    records, checks that each has a `url`, and then, record by record, scans
    the url with tlsx, parses the second-level domains out of the scan result,
    expands each domain with subfinder, and writes `domains` and `fqdns` onto
    the record in place. The tlsx and subfinder runs are parameters. */
module ParseResultsTasks45 {
  import opened PyStr
  import opened Collections
  import opened Tlsx
  import ParseResults

  /** `hostname.split('=')[-1]` when `hostname` holds a `=`, else `hostname`:
      the text after the last `=`. */
  function AfterLastEquals(hostname: string): (c: string)
    ensures '=' !in c
    ensures IsSuffix(c, hostname)
    ensures '=' in hostname ==> hostname[|hostname| - |c| - 1] == '='
    ensures '=' !in hostname ==> c == hostname
  {
    if '=' in hostname then
      LastPiece(hostname, '=');
      var parts := Split(hostname, '=');
      parts[|parts| - 1]
    else
      hostname
  }

  /** `extract_domain_level_2`: the first version's extraction applied to the
      text after the last `=`. None exactly when that text is empty or has no
      `.`; otherwise its last two labels, which hold no `=`. */
  function ExtractDomainLevel2(hostname: string): (r: Option<string>)
    ensures var c := AfterLastEquals(hostname);
      r.None? <==> c == [] || '.' !in c
    ensures r.Some? ==> ParseResults.IsLastTwoLabels(AfterLastEquals(hostname), r.value)
    ensures r.Some? ==> IsSuffix(r.value, hostname) && '=' !in r.value
  {
    var c := AfterLastEquals(hostname);
    var r := ParseResults.ExtractDomainLevel2(c);
    if r.Some? then
      assert forall k :: 0 <= k < |r.value| ==> r.value[k] == c[|c| - |r.value| + k];
      r
    else
      r
  }

  /** Extracting from an extracted domain gives it back unchanged. */
  lemma ExtractIdempotent(hostname: string)
    requires ExtractDomainLevel2(hostname).Some?
    ensures ExtractDomainLevel2(ExtractDomainLevel2(hostname).value) == ExtractDomainLevel2(hostname)
  {
    var d := ExtractDomainLevel2(hostname).value;
    assert AfterLastEquals(d) == d;
    ParseResults.ExtractIdempotent(AfterLastEquals(hostname));
  }

  /** Without a `=` in the input the two versions agree. */
  lemma VersionsAgreeWithoutEquals(hostname: string)
    requires '=' !in hostname
    ensures ExtractDomainLevel2(hostname) == ParseResults.ExtractDomainLevel2(hostname)
  {
  }

  /** An attribute string `name=value` is read by its value alone. */
  lemma AttributeValueRead(name: string, value: string)
    requires '=' !in value
    ensures ExtractDomainLevel2(name + ['='] + value) == ParseResults.ExtractDomainLevel2(value)
  {
    var host := name + ['='] + value;
    assert host[|name|] == '=';
    LastPieceAfter(name, value, '=');
  }

  /** The text after the `=` is not stripped again: whitespace that follows
      the `=` stays in the extracted domain. */
  lemma SpaceAfterEqualsKept(name: string, a: string, b: string)
    requires '=' !in a && '=' !in b && '.' !in a && '.' !in b
    ensures ExtractDomainLevel2(name + ['=', ' '] + a + ['.'] + b) == Some([' '] + a + ['.'] + b)
  {
    var value := [' '] + a + ['.'] + b;
    assert name + ['=', ' '] + a + ['.'] + b == name + ['='] + value;
    assert '=' !in value by {
      assert forall k :: 0 <= k < |value| ==> value[k] == ' ' || value[k] in a || value[k] == '.' || value[k] in b;
    }
    assert value == ([' '] + a) + ['.'] + b;
    assert '.' !in [' '] + a;
    AttributeValueRead(name, value);
    ParseResults.TwoLabelsKept([' '] + a, b);
  }

  /** `extract_domain_level_2("CN=sub.example.com")` is `example.com`. */
  lemma CommonNameExample()
    ensures ExtractDomainLevel2("CN=sub.example.com") == Some("example.com")
  {
    var domain := "example" + ['.'] + "com";
    var value := "sub" + ['.'] + domain;
    assert domain == "example.com";
    assert value == "sub.example.com";
    assert "CN" + ['='] + value == "CN=sub.example.com";
    assert '=' !in value by {
      assert forall k :: 0 <= k < |value| ==> value[k] != '=';
    }
    assert "sub" + ['.'] + "example" + ['.'] + "com" == value;
    ParseResults.LeadingLabelsDropped("sub", "example", "com");
    AttributeValueRead("CN", value);
  }

  /** A name `first.a.b` free of `=`, `.` inside labels and surrounding
      whitespace extracts to `a.b`. */
  lemma ExtractNamed(host: string, first: string, a: string, b: string)
    requires host == first + ['.'] + a + ['.'] + b
    requires '=' !in host && '.' !in a && '.' !in b
    requires !IsSpace(host[0]) && !IsSpace(host[|host| - 1])
    ensures ExtractStripped(host, ExtractDomainLevel2) == Some(a + ['.'] + b)
  {
    StripUnspaced(host);
    VersionsAgreeWithoutEquals(host);
    ParseResults.LeadingLabelsDropped(first, a, b);
  }

  /** `parse_tlsx_results`: every second-level domain extracted from a stripped
      candidate of `subject_an`, `subject_dn` or `subject_cn`, each once. */
  method ParseTlsxResults(tlsxData: TlsxData) returns (domains: seq<string>)
    ensures NoDuplicates(domains)
    ensures Elems(domains) == Domains(tlsxData, ExtractDomainLevel2)
    ensures forall d :: d in domains <==>
              exists c :: c in Candidates(tlsxData) && ExtractDomainLevel2(Strip(c)) == Some(d)
    ensures forall d :: d in domains ==> Count(d, '.') == 1 && '=' !in d
  {
    domains := ParseWith(tlsxData, ExtractDomainLevel2);
    forall d
      ensures d in domains <==>
                exists c :: c in Candidates(tlsxData) && ExtractDomainLevel2(Strip(c)) == Some(d)
    {
      assert d in domains <==> d in Elems(domains);
      DomainsMembers(tlsxData, ExtractDomainLevel2, d);
    }
  }

  /** A JSON value as `json.load` produces it (numbers restricted to integers). */
  datatype Json =
    | JNull
    | JBool(b: bool)
    | JNumber(n: int)
    | JString(s: string)
    | JArray(items: seq<Json>)
    | JObject(members: map<string, Json>)

  /** An endpoint record: a JSON object. */
  type Record = map<string, Json>

  /** The exceptions `main` lets escape. */
  datatype Exception = KeyError(key: string) | TypeError

  datatype Result<T> = Ok(value: T) | Raised(error: Exception)

  /** `get_urls`: the `url` of every record, in order; a record without one
      raises KeyError. */
  function GetUrls(data: seq<Record>): (r: Result<seq<Json>>)
    ensures r.Ok? <==> forall i :: 0 <= i < |data| ==> "url" in data[i]
    ensures r.Ok? ==> |r.value| == |data| && forall i :: 0 <= i < |data| ==> r.value[i] == data[i]["url"]
    ensures r.Raised? ==> r.error == KeyError("url")
  {
    if data == [] then Ok([])
    else if "url" !in data[0] then Raised(KeyError("url"))
    else
      match GetUrls(data[1..])
      case Ok(rest) => Ok([data[0]["url"]] + rest)
      case Raised(e) => Raised(e)
  }

  /** A Python list of strings as a JSON array. */
  function StrArray(xs: seq<string>): (v: Json)
    ensures v.JArray? && |v.items| == |xs|
    ensures forall i :: 0 <= i < |xs| ==> v.items[i] == JString(xs[i])
  {
    JArray(seq(|xs|, i requires 0 <= i < |xs| => JString(xs[i])))
  }

  /** The strings of a JSON array (other elements read as empty). */
  function Texts(v: Json): seq<string>
  {
    if v.JArray? then seq(|v.items|, i requires 0 <= i < |v.items| =>
                            if v.items[i].JString? then v.items[i].s else [])
    else []
  }

  lemma TextsOfStrArray(xs: seq<string>)
    ensures Texts(StrArray(xs)) == xs
  {
  }

  /** An endpoint record, a dictionary the run updates in place. The records
      come from `json.load` of the input file, which is not part of this model;
      the constructor only stands for that. */
  class Entry {
    var fields: Record

    constructor (fields: Record)
      ensures this.fields == fields
    {
      this.fields := fields;
    }
  }

  /** The current contents of the records. */
  function Snapshot(data: seq<Entry>): (r: seq<Record>)
    reads data
    ensures |r| == |data| && forall i :: 0 <= i < |data| ==> r[i] == data[i].fields
  {
    if data == [] then [] else [data[0].fields] + Snapshot(data[1..])
  }

  /** What makes the loop raise at a record: its url is not a string (the
      tlsx command line cannot hold it) or its scan failed, so that
      `parse_tlsx_results(None)` raises TypeError. */
  predicate Stops(record: Record, tlsx: string -> Option<TlsxData>)
  {
    "url" !in record || !record["url"].JString? || tlsx(record["url"].s).None?
  }

  /** The scan result of a record the loop gets through. */
  function ScanOf(record: Record, tlsx: string -> Option<TlsxData>): TlsxData
    requires !Stops(record, tlsx)
  {
    tlsx(record["url"].s).value
  }

  /** How many records the loop enriches before it raises: the index of the
      first record it stops at, or all of them. */
  function Reached(records: seq<Record>, tlsx: string -> Option<TlsxData>): (k: nat)
    ensures k <= |records|
    ensures forall i :: 0 <= i < k ==> !Stops(records[i], tlsx)
    ensures k < |records| ==> Stops(records[k], tlsx)
  {
    if records == [] || Stops(records[0], tlsx) then 0
    else 1 + Reached(records[1..], tlsx)
  }

  /** The FQDNs subfinder reports for the domains, united. */
  function Subdomains(domains: seq<string>, subfinder: string -> seq<string>): set<string>
  {
    if domains == [] then {}
    else Subdomains(domains[..|domains| - 1], subfinder) + Elems(subfinder(domains[|domains| - 1]))
  }

  /** A name is among the FQDNs exactly when subfinder reports it for one of
      the domains. */
  lemma {:induction false} SubdomainsMembers(domains: seq<string>, subfinder: string -> seq<string>, f: string)
    ensures f in Subdomains(domains, subfinder) <==> exists i :: 0 <= i < |domains| && f in subfinder(domains[i])
  {
    if domains != [] {
      var n := |domains| - 1;
      var prefix := domains[..n];
      SubdomainsMembers(prefix, subfinder, f);
      if f in Subdomains(prefix, subfinder) {
        var i :| 0 <= i < |prefix| && f in subfinder(prefix[i]);
        assert domains[i] == prefix[i];
      }
      if exists i :: 0 <= i < |domains| && f in subfinder(domains[i]) {
        var i :| 0 <= i < |domains| && f in subfinder(domains[i]);
        if i < n {
          assert prefix[i] == domains[i];
        }
      }
    }
  }

  /** `after` is `before` with `domains` set to the scan's second-level
      domains and `fqdns` to the names subfinder reports for them, both lists
      without repetition; every other key is as it was. */
  ghost predicate EnrichedFrom(before: Record, after: Record, scan: TlsxData, subfinder: string -> seq<string>)
  {
    && "domains" in after && "fqdns" in after
    && var ds, fs := Texts(after["domains"]), Texts(after["fqdns"]);
    && after == before["domains" := StrArray(ds)]["fqdns" := StrArray(fs)]
    && NoDuplicates(ds) && Elems(ds) == Domains(scan, ExtractDomainLevel2)
    && NoDuplicates(fs) && Elems(fs) == Subdomains(ds, subfinder)
  }

  /** Record `before` got through the loop (its url is a string and its
      scan succeeded) and became `after` by enrichment from that scan. */
  ghost predicate Enriched(before: Record, after: Record,
                           tlsx: string -> Option<TlsxData>, subfinder: string -> seq<string>)
  {
    !Stops(before, tlsx) && EnrichedFrom(before, after, ScanOf(before, tlsx), subfinder)
  }

  /** `after` holds the records of `before`, the first `k` of them enriched
      from their scans and the rest unchanged. */
  ghost predicate EnrichedUpTo(before: seq<Record>, after: seq<Record>, k: nat,
                               tlsx: string -> Option<TlsxData>, subfinder: string -> seq<string>)
  {
    && |after| == |before|
    && k <= |before|
    && (forall i :: 0 <= i < k ==> Enriched(before[i], after[i], tlsx, subfinder))
    && (forall i :: k <= i < |before| ==> after[i] == before[i])
  }

  /** The records from `k` on are still as they were. */
  lemma NotYetEnriched(before: seq<Record>, after: seq<Record>, k: nat,
                       tlsx: string -> Option<TlsxData>, subfinder: string -> seq<string>)
    requires EnrichedUpTo(before, after, k, tlsx, subfinder) && k < |before|
    ensures after[k] == before[k]
  {
  }

  /** Enriching record `k` extends the enriched prefix by one. */
  lemma EnrichedUpToStep(before: seq<Record>, after: seq<Record>, k: nat, record: Record,
                         tlsx: string -> Option<TlsxData>, subfinder: string -> seq<string>)
    requires EnrichedUpTo(before, after, k, tlsx, subfinder)
    requires k < |before| && Enriched(before[k], record, tlsx, subfinder)
    ensures EnrichedUpTo(before, after[k := record], k + 1, tlsx, subfinder)
  {
    var updated := after[k := record];
    forall i | 0 <= i < k + 1
      ensures Enriched(before[i], updated[i], tlsx, subfinder)
    {
      if i < k {
        assert updated[i] == after[i];
      }
    }
  }

  /** One turn of the loop of `main`, on record `i`: scan its url, parse the
      domains, unite what subfinder reports for each, and write `domains` and
      `fqdns` onto the record. `raised` says the turn raised TypeError
      instead, the record untouched. No other record changes. */
  method EnrichRecord(data: seq<Entry>, i: int, tlsx: string -> Option<TlsxData>, subfinder: string -> seq<string>)
    returns (raised: bool)
    requires 0 <= i < |data| && "url" in data[i].fields
    requires forall j, k :: 0 <= j < k < |data| ==> data[j] != data[k]
    modifies data[i]
    ensures raised == Stops(old(data[i].fields), tlsx)
    ensures raised ==> data[i].fields == old(data[i].fields)
    ensures !raised ==> Enriched(old(data[i].fields), data[i].fields, tlsx, subfinder)
    ensures Snapshot(data) == old(Snapshot(data))[i := data[i].fields]
  {
    ghost var snapshot := Snapshot(data);
    var entry := data[i];
    var url := entry.fields["url"];
    if !url.JString? {
      UpdatedAt(snapshot, Snapshot(data), i, entry.fields);
      return true;
    }
    var scan := tlsx(url.s);
    if scan.None? {
      UpdatedAt(snapshot, Snapshot(data), i, entry.fields);
      return true;
    }
    var domains := ParseTlsxResults(scan.value);
    var fqdns: set<string> := {};
    var d := 0;
    while d < |domains|
      invariant 0 <= d <= |domains|
      invariant fqdns == Subdomains(domains[..d], subfinder)
    {
      assert domains[..d + 1][..d] == domains[..d];
      fqdns := fqdns + Elems(subfinder(domains[d]));
      d := d + 1;
    }
    assert domains[..d] == domains;
    var fqdnList := ListOf(fqdns);
    TextsOfStrArray(domains);
    TextsOfStrArray(fqdnList);
    entry.fields := entry.fields["domains" := StrArray(domains)]["fqdns" := StrArray(fqdnList)];
    forall j | 0 <= j < |data| && j != i
      ensures Snapshot(data)[j] == snapshot[j]
    {
      assert data[j] != entry;
    }
    UpdatedAt(snapshot, Snapshot(data), i, entry.fields);
    raised := false;
  }

  /** The loop of `main` after `get_urls`. A record the loop reaches is
      enriched in place and appended to `enriched_data`; the run raises at the
      first record whose url is not a string or whose scan failed, leaving it
      and the records after it untouched. A record without `url` makes
      `get_urls` raise before the loop starts. */
  method EnrichEntries(data: seq<Entry>, tlsx: string -> Option<TlsxData>, subfinder: string -> seq<string>)
    returns (outcome: Result<seq<Entry>>)
    requires forall i, j :: 0 <= i < j < |data| ==> data[i] != data[j]
    modifies data
    ensures var before := old(Snapshot(data));
      GetUrls(before).Raised? ==> outcome == Raised(KeyError("url")) && Snapshot(data) == before
    ensures var before := old(Snapshot(data));
      GetUrls(before).Ok? ==>
        var k := Reached(before, tlsx);
        && EnrichedUpTo(before, Snapshot(data), k, tlsx, subfinder)
        && outcome == if k == |data| then Ok(data) else Raised(TypeError)
  {
    ghost var before := Snapshot(data);
    assert before == old(Snapshot(data));
    var urls := GetUrls(Snapshot(data));
    if urls.Raised? {
      return Raised(urls.error);
    }
    var enriched: seq<Entry> := [];
    var i := 0;
    while i < |data|
      invariant 0 <= i <= |data|
      invariant i <= Reached(before, tlsx)
      invariant enriched == data[..i]
      invariant EnrichedUpTo(before, Snapshot(data), i, tlsx, subfinder)
    {
      var entry := data[i];
      PrefixSnoc(data, i);
      NotYetEnriched(before, Snapshot(data), i, tlsx, subfinder);
      assert entry.fields == before[i];
      ghost var snapshot := Snapshot(data);
      var raised := EnrichRecord(data, i, tlsx, subfinder);
      if raised {
        assert snapshot[i := entry.fields] == snapshot;
        assert Reached(before, tlsx) == i;
        return Raised(TypeError);
      }
      EnrichedUpToStep(before, snapshot, i, entry.fields, tlsx, subfinder);
      enriched := enriched + [entry];
      i := i + 1;
    }
    assert enriched == data;
    assert Reached(before, tlsx) == |data|;
    assert EnrichedUpTo(before, Snapshot(data), Reached(before, tlsx), tlsx, subfinder);
    assert GetUrls(before).Ok?;
    outcome := Ok(enriched);
  }
}
