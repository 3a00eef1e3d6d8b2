/** The certificate scan result the tlsx tool reports for one endpoint, and the
    walk over its subject fields that both versions of `parse_tlsx_results`
    perform. The two versions differ only in the extractor they apply to each
    candidate, so the walk takes the extractor as a parameter. */
module Tlsx {
  import opened PyStr
  import opened Collections

  datatype Option<T> = None | Some(value: T)

  /** The value of a subject field: a JSON list of names, or one
      comma-separated string. */
  datatype FieldValue = Names(names: seq<string>) | Joined(text: string)

  /** A decoded scan result: a JSON object; only the subject fields are read. */
  type TlsxData = map<string, FieldValue>

  /** The fields read, in the order they are read. */
  const SubjectFields: seq<string> := ["subject_an", "subject_dn", "subject_cn"]

  /** The candidates a field value contributes: the list elements, or the
      `,`-pieces of the string. */
  function Items(v: FieldValue): seq<string>
  {
    match v
    case Names(names) => names
    case Joined(text) => Split(text, ',')
  }

  /** The candidates of one field; an absent field contributes none. */
  function FieldCandidates(data: TlsxData, field: string): seq<string>
  {
    if field in data then Items(data[field]) else []
  }

  /** The candidates of `fields`, field after field. */
  function CandidatesOf(data: TlsxData, fields: seq<string>): seq<string>
  {
    if fields == [] then []
    else CandidatesOf(data, fields[..|fields| - 1]) + FieldCandidates(data, fields[|fields| - 1])
  }

  /** Every candidate of the scan result: those of `subject_an`, then
      `subject_dn`, then `subject_cn`. */
  function Candidates(data: TlsxData): (cs: seq<string>)
    ensures cs == FieldCandidates(data, "subject_an") + FieldCandidates(data, "subject_dn")
                  + FieldCandidates(data, "subject_cn")
  {
    var an, dn := FieldCandidates(data, "subject_an"), FieldCandidates(data, "subject_dn");
    assert CandidatesOf(data, SubjectFields[..1]) == an by {
      assert SubjectFields[..1][..0] == [];
    }
    assert CandidatesOf(data, SubjectFields[..2]) == an + dn by {
      assert SubjectFields[..2][..1] == SubjectFields[..1];
    }
    assert SubjectFields[..3][..2] == SubjectFields[..2];
    assert SubjectFields[..3] == SubjectFields;
    CandidatesOf(data, SubjectFields)
  }

  /** Keys other than the subject fields contribute nothing. */
  lemma OtherKeysIgnored(data: TlsxData, key: string, v: FieldValue)
    requires key !in SubjectFields
    ensures Candidates(data[key := v]) == Candidates(data)
  {
    assert FieldCandidates(data[key := v], "subject_an") == FieldCandidates(data, "subject_an");
    assert FieldCandidates(data[key := v], "subject_dn") == FieldCandidates(data, "subject_dn");
    assert FieldCandidates(data[key := v], "subject_cn") == FieldCandidates(data, "subject_cn");
  }

  /** What `if domain: domains.add(domain)` adds: the extracted value when it
      is not None and, being a string, not empty. */
  function Kept(domain: Option<string>): set<string>
  {
    if domain.Some? && domain.value != [] then {domain.value} else {}
  }

  /** What one candidate yields: `extract(item.strip())`. */
  function ExtractStripped(item: string, extract: string -> Option<string>): Option<string>
  {
    extract(Strip(item))
  }

  /** The set of domains collected from `items`, each stripped and then extracted. */
  function Harvest(items: seq<string>, extract: string -> Option<string>): set<string>
  {
    if items == [] then {}
    else Harvest(items[..|items| - 1], extract) + Kept(ExtractStripped(items[|items| - 1], extract))
  }

  /** Every collected domain comes from some candidate (soundness). */
  lemma {:induction false} HarvestSound(items: seq<string>, extract: string -> Option<string>, d: string)
    requires d in Harvest(items, extract)
    ensures d != [] && exists i :: 0 <= i < |items| && ExtractStripped(items[i], extract) == Some(d)
  {
    var n := |items| - 1;
    var prefix := items[..n];
    if d in Harvest(prefix, extract) {
      HarvestSound(prefix, extract, d);
      var i :| 0 <= i < |prefix| && ExtractStripped(prefix[i], extract) == Some(d);
      assert prefix[i] == items[i];
    } else {
      assert ExtractStripped(items[n], extract) == Some(d);
    }
  }

  /** Every candidate that extracts to a non-empty domain has it collected
      (completeness). */
  lemma {:induction false} HarvestComplete(items: seq<string>, extract: string -> Option<string>, i: int)
    requires 0 <= i < |items|
    requires ExtractStripped(items[i], extract).Some? && ExtractStripped(items[i], extract).value != []
    ensures ExtractStripped(items[i], extract).value in Harvest(items, extract)
  {
    var n := |items| - 1;
    if i < n {
      var prefix := items[..n];
      assert prefix[i] == items[i];
      HarvestComplete(prefix, extract, i);
    }
  }

  /** A domain is collected exactly when some candidate, once stripped,
      extracts to it and it is not empty. */
  lemma HarvestMembers(items: seq<string>, extract: string -> Option<string>, d: string)
    ensures d in Harvest(items, extract)
            <==> d != [] && exists i :: 0 <= i < |items| && ExtractStripped(items[i], extract) == Some(d)
  {
    if d in Harvest(items, extract) {
      HarvestSound(items, extract, d);
    }
    if d != [] && exists i :: 0 <= i < |items| && ExtractStripped(items[i], extract) == Some(d) {
      var i :| 0 <= i < |items| && ExtractStripped(items[i], extract) == Some(d);
      HarvestComplete(items, extract, i);
    }
  }

  lemma HarvestAppend(items: seq<string>, item: string, extract: string -> Option<string>)
    ensures Harvest(items + [item], extract) == Harvest(items, extract) + Kept(ExtractStripped(item, extract))
  {
    assert (items + [item])[..|items|] == items;
  }

  /** Collecting from two runs of candidates collects from each. */
  lemma {:induction false} HarvestConcat(a: seq<string>, b: seq<string>, extract: string -> Option<string>)
    ensures Harvest(a + b, extract) == Harvest(a, extract) + Harvest(b, extract)
  {
    if b == [] {
      assert a + b == a;
    } else {
      var n := |b| - 1;
      HarvestConcat(a, b[..n], extract);
      assert a + b == (a + b[..n]) + [b[n]];
      HarvestAppend(a + b[..n], b[n], extract);
    }
  }

  /** The domains a scan result yields under `extract`. */
  function Domains(tlsxData: TlsxData, extract: string -> Option<string>): set<string>
  {
    Harvest(Candidates(tlsxData), extract)
  }

  /** A scan result with one alternative name and a common name holding two
      comma-separated names yields what each of the three names yields. */
  lemma {:induction false} AltAndCommonNames(an: string, cn1: string, cn2: string, extract: string -> Option<string>)
    requires ',' !in cn1 && ',' !in cn2
    ensures var scan := map["subject_cn" := Joined(cn1 + [','] + cn2), "subject_an" := Names([an])];
      Domains(scan, extract)
      == Kept(ExtractStripped(an, extract)) + Kept(ExtractStripped(cn1, extract))
         + Kept(ExtractStripped(cn2, extract))
  {
    var scan := map["subject_cn" := Joined(cn1 + [','] + cn2), "subject_an" := Names([an])];
    SplitAfterPiece(cn1, cn2, ',');
    SplitJoin([cn2], ',');
    var cs := [an, cn1, cn2];
    assert Candidates(scan) == cs;
    assert Harvest([an], extract) == Kept(ExtractStripped(an, extract)) by {
      assert [an][..0] == [];
    }
    HarvestAppend([an], cn1, extract);
    HarvestAppend([an] + [cn1], cn2, extract);
    assert [an] + [cn1] + [cn2] == cs;
  }

  /** A domain is yielded exactly when it is not empty and some stripped
      candidate of the scan result extracts to it. */
  lemma DomainsMembers(tlsxData: TlsxData, extract: string -> Option<string>, d: string)
    ensures d in Domains(tlsxData, extract) <==>
              d != [] && exists c :: c in Candidates(tlsxData) && extract(Strip(c)) == Some(d)
  {
    var cs := Candidates(tlsxData);
    HarvestMembers(cs, extract, d);
    if exists c :: c in cs && extract(Strip(c)) == Some(d) {
      var c :| c in cs && extract(Strip(c)) == Some(d);
      var i :| 0 <= i < |cs| && cs[i] == c;
      assert ExtractStripped(cs[i], extract) == Some(d);
    }
  }

  /** The nested loops of `parse_tlsx_results`, with the extractor a parameter:
      for each subject field present, each candidate (a list element or a
      `,`-piece) is stripped and extracted, and a non-empty result is added to
      a set, which is finally turned into a list. */
  method ParseWith(tlsxData: TlsxData, extract: string -> Option<string>) returns (domains: seq<string>)
    ensures NoDuplicates(domains)
    ensures Elems(domains) == Domains(tlsxData, extract)
  {
    var found: set<string> := {};
    var f := 0;
    while f < |SubjectFields|
      invariant 0 <= f <= |SubjectFields|
      invariant found == Harvest(CandidatesOf(tlsxData, SubjectFields[..f]), extract)
    {
      var field := SubjectFields[f];
      ghost var before := found;
      if field in tlsxData {
        var items := Items(tlsxData[field]);
        var j := 0;
        while j < |items|
          invariant 0 <= j <= |items|
          invariant found == before + Harvest(items[..j], extract)
        {
          var domain := extract(Strip(items[j]));
          HarvestStep(items, j, extract);
          if domain.Some? && domain.value != [] {
            found := found + {domain.value};
          }
          j := j + 1;
        }
        assert items[..j] == items;
      }
      FieldStep(tlsxData, f, extract);
      f := f + 1;
    }
    assert SubjectFields[..f] == SubjectFields;
    domains := ListOf(found);
  }

  /** One turn of the inner loop collects what candidate `j` yields. */
  lemma HarvestStep(items: seq<string>, j: int, extract: string -> Option<string>)
    requires 0 <= j < |items|
    ensures var domain := extract(Strip(items[j]));
            Harvest(items[..j + 1], extract)
            == Harvest(items[..j], extract) + (if domain.Some? && domain.value != [] then {domain.value} else {})
  {
    assert items[..j + 1] == items[..j] + [items[j]];
    HarvestAppend(items[..j], items[j], extract);
  }

  /** One turn of the outer loop collects what the candidates of field `f` yield. */
  lemma FieldStep(tlsxData: TlsxData, f: int, extract: string -> Option<string>)
    requires 0 <= f < |SubjectFields|
    ensures Harvest(CandidatesOf(tlsxData, SubjectFields[..f + 1]), extract)
            == Harvest(CandidatesOf(tlsxData, SubjectFields[..f]), extract)
               + Harvest(FieldCandidates(tlsxData, SubjectFields[f]), extract)
  {
    assert SubjectFields[..f + 1][..f] == SubjectFields[..f];
    HarvestConcat(CandidatesOf(tlsxData, SubjectFields[..f]), FieldCandidates(tlsxData, SubjectFields[f]), extract);
  }
}
