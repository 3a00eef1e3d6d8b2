/** parse_results.py: the first version of the certificate-subject parser. Its
    extractor keeps the last two `.`-separated labels of a hostname and has no
    handling of `=`, so an attribute string such as `CN=example.com` comes back
    unchanged. */
module ParseResults {
  import opened PyStr
  import opened Collections
  import opened Tlsx

  /** `domain` is the last two dot-separated labels of `host`, empty labels
      included: the suffix of `host` that holds exactly one `.` and is either
      all of `host` or follows a `.`. */
  predicate IsLastTwoLabels(host: string, domain: string)
  {
    && IsSuffix(domain, host)
    && Count(domain, '.') == 1
    && (|domain| == |host| || host[|host| - |domain| - 1] == '.')
  }

  /** `extract_domain_level_2`: None for an empty string or one without a `.`,
      otherwise `'.'.join(hostname.split('.')[-2:])`. */
  function ExtractDomainLevel2(hostname: string): (r: Option<string>)
    ensures r.None? <==> hostname == [] || '.' !in hostname
    ensures r.Some? ==> IsLastTwoLabels(hostname, r.value)
  {
    if hostname != [] then
      var parts := Split(hostname, '.');
      if |parts| >= 2 then
        CountAbsent(hostname, '.');
        LastTwoPieces(hostname);
        Some(Join(parts[|parts| - 2..], '.'))
      else
        CountAbsent(hostname, '.');
        None
    else
      None
  }

  /** Joining the last two `.`-pieces of a string with a `.` in it gives its
      last two labels. */
  lemma LastTwoPieces(host: string)
    requires '.' in host
    ensures var parts := Split(host, '.');
      |parts| >= 2 && IsLastTwoLabels(host, Join(parts[|parts| - 2..], '.'))
  {
    var parts := Split(host, '.');
    CountAbsent(host, '.');
    JoinSplit(host, '.');
    LastTwoOfJoin(parts);
  }

  /** Of at least two pieces, the last two `.`-free, the last two joined are
      the last two labels of all of them joined. */
  lemma LastTwoOfJoin(parts: seq<string>)
    requires |parts| >= 2 && '.' !in parts[|parts| - 2] && '.' !in parts[|parts| - 1]
    ensures IsLastTwoLabels(Join(parts, '.'), Join(parts[|parts| - 2..], '.'))
  {
    JoinLastPair(parts);
    if |parts| == 2 {
      LastTwoOfPair(parts);
    } else {
      LastTwoOfLonger(parts);
    }
  }

  /** The last two pieces joined. */
  lemma JoinLastPair(parts: seq<string>)
    requires |parts| >= 2
    ensures var n := |parts|; Join(parts[n - 2..], '.') == parts[n - 2] + ['.'] + parts[n - 1]
  {
    var n := |parts|;
    assert parts[n - 2..] == [parts[n - 2], parts[n - 1]];
    JoinPair(parts[n - 2], parts[n - 1]);
  }

  /** Two `.`-free pieces joined are their own last two labels. */
  lemma LastTwoOfPair(parts: seq<string>)
    requires |parts| == 2 && '.' !in parts[0] && '.' !in parts[1]
    ensures IsLastTwoLabels(Join(parts, '.'), parts[0] + ['.'] + parts[1])
  {
    var a, b := parts[0], parts[1];
    assert parts == [a, b];
    JoinPair(a, b);
    LabelsOfTwo([], a, b);
    assert [] + (a + ['.'] + b) == a + ['.'] + b;
  }

  /** With more than two pieces, their join ends in a `.` and the last two
      pieces joined. */
  lemma LastTwoOfLonger(parts: seq<string>)
    requires |parts| > 2 && '.' !in parts[|parts| - 2] && '.' !in parts[|parts| - 1]
    ensures var a, b := parts[|parts| - 2], parts[|parts| - 1];
      IsLastTwoLabels(Join(parts, '.'), a + ['.'] + b)
  {
    var n := |parts|;
    var a, b := parts[n - 2], parts[n - 1];
    var front := Join(parts[..n - 2], '.') + ['.'];
    assert Join(parts, '.') == front + (a + ['.'] + b) by {
      JoinLastTwo(parts, '.');
    }
    LabelsOfTwo(front, a, b);
  }

  /** `a.b` is the last two labels of itself and of anything ending in `.a.b`. */
  lemma LabelsOfTwo(front: string, a: string, b: string)
    requires '.' !in a && '.' !in b
    requires front == [] || front[|front| - 1] == '.'
    ensures IsLastTwoLabels(front + (a + ['.'] + b), a + ['.'] + b)
  {
    var domain := a + ['.'] + b;
    var host := front + domain;
    OneDot(a, b);
    assert host[|front|..] == domain;
    if front != [] {
      assert host[|host| - |domain| - 1] == front[|front| - 1];
    }
  }

  lemma JoinPair(a: string, b: string)
    ensures Join([a, b], '.') == a + ['.'] + b
  {
    assert [a, b][1..] == [b];
  }

  lemma OneDot(a: string, b: string)
    requires '.' !in a && '.' !in b
    ensures Count(a + ['.'] + b, '.') == 1
  {
    CountAppend(a + ['.'], b, '.');
    CountAppend(a, ['.'], '.');
    CountAbsent(a, '.');
    CountAbsent(b, '.');
  }

  /** At most one string is the last two labels of a given host. */
  lemma LastTwoLabelsUnique(host: string, l1: string, l2: string)
    requires IsLastTwoLabels(host, l1) && IsLastTwoLabels(host, l2)
    ensures l1 == l2
  {
    if |l1| < |l2| {
      LongerHoldsTwoDots(host, l1, l2);
      assert false;
    } else if |l2| < |l1| {
      LongerHoldsTwoDots(host, l2, l1);
      assert false;
    }
  }

  /** A suffix longer than the last two labels holds the `.` that precedes
      them, so it holds two dots. */
  lemma LongerHoldsTwoDots(host: string, short: string, long: string)
    requires IsLastTwoLabels(host, short) && IsSuffix(long, host)
    requires |short| < |long|
    ensures Count(long, '.') >= 2
  {
    SuffixOfSuffix(host, short, long);
    CountAround(long[..|long| - |short| - 1], short, '.');
  }

  /** A string of exactly two labels is its own second-level domain. */
  lemma TwoLabelsKept(a: string, b: string)
    requires '.' !in a && '.' !in b
    ensures ExtractDomainLevel2(a + ['.'] + b) == Some(a + ['.'] + b)
  {
    var host := a + ['.'] + b;
    OneDot(a, b);
    assert host[|a|] == '.';
    assert IsLastTwoLabels(host, host);
    LastTwoLabelsUnique(host, host, ExtractDomainLevel2(host).value);
  }

  /** Extracting from an extracted domain gives it back unchanged. */
  lemma ExtractIdempotent(hostname: string)
    requires ExtractDomainLevel2(hostname).Some?
    ensures ExtractDomainLevel2(ExtractDomainLevel2(hostname).value) == ExtractDomainLevel2(hostname)
  {
    var d := ExtractDomainLevel2(hostname).value;
    CountAbsent(d, '.');
    assert IsLastTwoLabels(d, d);
    LastTwoLabelsUnique(d, d, ExtractDomainLevel2(d).value);
  }

  /** Leading labels are dropped: only the last two remain. */
  lemma LeadingLabelsDropped(prefix: string, a: string, b: string)
    requires '.' !in a && '.' !in b
    ensures ExtractDomainLevel2(prefix + ['.'] + a + ['.'] + b) == Some(a + ['.'] + b)
  {
    var domain := a + ['.'] + b;
    var host := prefix + ['.'] + domain;
    assert prefix + ['.'] + a + ['.'] + b == host;
    OneDot(a, b);
    assert host[|prefix|] == '.';
    assert IsLastTwoLabels(host, domain);
    LastTwoLabelsUnique(host, domain, ExtractDomainLevel2(host).value);
  }

  /** `extract_domain_level_2("CN=example.com")` keeps the attribute name. */
  lemma AttributeStringKept()
    ensures ExtractDomainLevel2("CN=example.com") == Some("CN=example.com")
  {
    assert "CN=example.com" == "CN=example" + ['.'] + "com";
    TwoLabelsKept("CN=example", "com");
  }

  /** A bare two-label name is its own second-level domain. */
  lemma TwoLabelExample()
    ensures ExtractDomainLevel2("example.com") == Some("example.com")
  {
    assert "example.com" == "example" + ['.'] + "com";
    TwoLabelsKept("example", "com");
  }

  /** A single label and the empty string have no second-level domain. */
  lemma NoDotExamples()
    ensures ExtractDomainLevel2("com") == None
    ensures ExtractDomainLevel2("") == None
  {
    assert "com" == ['c', 'o', 'm'];
  }

  /** `parse_tlsx_results`: every second-level domain extracted from a stripped
      candidate of `subject_an`, `subject_dn` or `subject_cn`, each once. */
  method ParseTlsxResults(tlsxData: TlsxData) returns (domains: seq<string>)
    ensures NoDuplicates(domains)
    ensures forall d :: d in domains <==>
              exists c :: c in Candidates(tlsxData) && ExtractDomainLevel2(Strip(c)) == Some(d)
    ensures forall d :: d in domains ==> Count(d, '.') == 1
  {
    domains := ParseWith(tlsxData, ExtractDomainLevel2);
    forall d
      ensures d in domains <==>
                exists c :: c in Candidates(tlsxData) && ExtractDomainLevel2(Strip(c)) == Some(d)
    {
      assert d in domains <==> d in Elems(domains);
      DomainsMembers(tlsxData, ExtractDomainLevel2, d);
    }
  }
}
