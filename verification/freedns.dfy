/** The FreeDNS side of the client (`update_public_ip_freedns`): the
    credential string that is hashed, the record-lookup URL, the choice of a
    record among the provider's newline-separated answer, and the update URL
    taken from the chosen record. */
module FreeDns {
  import opened Results
  import opened Text

  /** Endpoint listing the account's dynamic records, protocol version 2;
      the SHA-1 digest of the credentials is appended. */
  const LookupEndpoint: string := "https://freedns.afraid.org/api/?action=getdyndns&v=2&sha="

  /** Separator between records in the provider's answer. */
  const RecordSeparator: char := '\n'

  /** Separator between the fields of one record; the update URL is the last field. */
  const FieldSeparator: char := '|'

  /** Ways the update step stops the program (each ends in `sys.exit(1)`). */
  datatype DdnsError =
    | MissingCredentials        // `username` or `passwd` unset
    | MissingDomain             // several records but `domain` unset
    | DomainNotFound(domain: string)
    | NoDomainsFound            // zero records: cannot happen, see SelectRecord

  /** The string fed to SHA-1: `username|passwd`, or the missing-credential stop. */
  function PreHashToken(username: Option<string>, passwd: Option<string>): (r: Result<string, DdnsError>)
    ensures r.Failure? <==> username.None? || passwd.None?
    ensures r.Failure? ==> r.error == MissingCredentials
    ensures r.Success? ==>
      && |r.value| == |username.value| + 1 + |passwd.value|
      && IsPrefix(username.value, r.value)
      && r.value[|username.value|] == FieldSeparator
      && IsSuffix(passwd.value, r.value)
  {
    if username.None? || passwd.None? then Failure(MissingCredentials)
    else Success(username.value + [FieldSeparator] + passwd.value)
  }

  /** A username without `|` is recovered from the token as its first field, and the
      password as the remaining fields rejoined. */
  lemma TokenSplitsIntoCredentials(username: string, passwd: string)
    requires FieldSeparator !in username
    ensures PreHashToken(Some(username), Some(passwd)).Success?
    ensures var fields := Split(PreHashToken(Some(username), Some(passwd)).value, FieldSeparator);
      fields[0] == username && Join(fields[1..], FieldSeparator) == passwd
  {
    SplitAtFirstSeparator(username, FieldSeparator, passwd);
    SplitJoinRoundTrip(passwd, FieldSeparator);
    assert ([username] + Split(passwd, FieldSeparator))[1..] == Split(passwd, FieldSeparator);
  }

  /** The record-lookup URL for a credential digest. */
  function LookupUrl(digest: string): (url: string)
    ensures IsPrefix(LookupEndpoint, url) && IsSuffix(digest, url)
    ensures |url| == |LookupEndpoint| + |digest|
  {
    LookupEndpoint + digest
  }

  /** The provider's answer split into candidate records, `resp.text.split("\n")`. */
  function Candidates(body: string): (cands: seq<string>)
    ensures |cands| >= 1
  {
    Split(body, RecordSeparator)
  }

  /** Candidate `i` is the last one mentioning `domain`. */
  ghost predicate IsLastMatch(cands: seq<string>, domain: string, i: int)
  {
    && 0 <= i < |cands|
    && Contains(cands[i], domain)
    && forall j :: i < j < |cands| ==> !Contains(cands[j], domain)
  }

  /** No candidate mentions `domain`. */
  ghost predicate NoMatch(cands: seq<string>, domain: string)
  {
    forall j :: 0 <= j < |cands| ==> !Contains(cands[j], domain)
  }

  /** The `for candidate in candidates` loop: `acc` is overwritten by every
      candidate that mentions `domain`. */
  function ScanCandidates(cands: seq<string>, domain: string, acc: string): (r: string)
    ensures r == acc || (r in cands && Contains(r, domain))
    ensures (exists i :: 0 <= i < |cands| && Contains(cands[i], domain)) ==> r in cands && Contains(r, domain)
    decreases |cands|
  {
    if |cands| == 0 then acc
    else ScanCandidates(cands[1..], domain, if Contains(cands[0], domain) then cands[0] else acc)
  }

  /** The overwriting loop ends holding the last matching candidate, or its
      starting value when nothing matches. */
  lemma {:induction false} ScanFindsLastMatch(cands: seq<string>, domain: string, acc: string)
    ensures forall i :: IsLastMatch(cands, domain, i) ==> ScanCandidates(cands, domain, acc) == cands[i]
    ensures NoMatch(cands, domain) ==> ScanCandidates(cands, domain, acc) == acc
    decreases |cands|
  {
    if |cands| > 0 {
      var acc' := if Contains(cands[0], domain) then cands[0] else acc;
      ScanFindsLastMatch(cands[1..], domain, acc');
      forall i | IsLastMatch(cands, domain, i)
        ensures ScanCandidates(cands, domain, acc) == cands[i]
      {
        if i == 0 {
          assert NoMatch(cands[1..], domain);
        } else {
          assert IsLastMatch(cands[1..], domain, i - 1);
        }
      }
      if NoMatch(cands, domain) {
        assert NoMatch(cands[1..], domain);
      }
    }
  }

  /** Either some candidate is the last match or none matches. */
  lemma LastMatchOrNoMatch(cands: seq<string>, domain: string)
    ensures (exists i :: IsLastMatch(cands, domain, i)) || NoMatch(cands, domain)
  {
    if !NoMatch(cands, domain) {
      var k :| 0 <= k < |cands| && Contains(cands[k], domain);
      while k < |cands| - 1 && exists j :: k < j < |cands| && Contains(cands[j], domain)
        invariant 0 <= k < |cands| && Contains(cands[k], domain)
        decreases |cands| - k
      {
        var j :| k < j < |cands| && Contains(cands[j], domain);
        k := j;
      }
      assert IsLastMatch(cands, domain, k);
    }
  }

  /** Picks the record to update from the provider's answer: the whole answer
      when it has one line; otherwise the last line mentioning `domain`, which
      must be set, the empty string standing for "not found". */
  function SelectRecord(body: string, domain: Option<string>): (r: Result<string, DdnsError>)
    ensures r != Failure(NoDomainsFound)
    ensures RecordSeparator !in body ==> r == Success(body)
    ensures RecordSeparator in body && domain.None? ==> r == Failure(MissingDomain)
    ensures RecordSeparator in body && domain.Some? ==>
      forall i :: IsLastMatch(Split(body, RecordSeparator), domain.value, i) ==>
        r == (if Split(body, RecordSeparator)[i] == "" then Failure(DomainNotFound(domain.value))
              else Success(Split(body, RecordSeparator)[i]))
    ensures RecordSeparator in body && domain.Some? && NoMatch(Split(body, RecordSeparator), domain.value) ==>
      r == Failure(DomainNotFound(domain.value))
  {
    var cands := Candidates(body);
    SplitSingleIffNoSeparator(body, RecordSeparator);
    if |cands| > 1 then
      if domain.None? then Failure(MissingDomain)
      else
        var urlText := ScanCandidates(cands, domain.value, "");
        ScanFindsLastMatch(cands, domain.value, "");
        if urlText == "" then Failure(DomainNotFound(domain.value)) else Success(urlText)
    else if |cands| == 1 then Success(body)
    else Failure(NoDomainsFound)
  }

  /** The answer holds several candidate records exactly when it contains a newline. */
  lemma SeveralCandidatesIffNewline(body: string)
    ensures |Candidates(body)| == Count(body, RecordSeparator) + 1
    ensures |Candidates(body)| > 1 <==> RecordSeparator in body
  {
    SplitSingleIffNoSeparator(body, RecordSeparator);
  }

  /** One record followed by a newline yields two candidates, the second empty:
      the domain is then required, and a non-empty domain found in the record
      selects that record. */
  lemma {:induction false} TrailingNewlineNeedsDomain(record: string, domain: string)
    requires RecordSeparator !in record
    ensures SelectRecord(record + [RecordSeparator], None) == Failure(MissingDomain)
    ensures Contains(record, domain) && domain != "" ==>
      SelectRecord(record + [RecordSeparator], Some(domain)) == Success(record)
  {
    var body := record + [RecordSeparator];
    assert RecordSeparator in body by { assert body[|record|] == RecordSeparator; }
    SplitAtFirstSeparator(record, RecordSeparator, "");
    assert body == record + [RecordSeparator] + "";
    var cands := Split(body, RecordSeparator);
    assert cands == [record, ""];
    if Contains(record, domain) && domain != "" {
      ContainsEmpty(record, domain);
      assert IsLastMatch(cands, domain, 0);
    }
  }

  /** With several candidates and a non-empty domain, selection fails exactly
      when no candidate mentions the domain, and otherwise yields a candidate
      that mentions it. */
  lemma NonEmptyDomainFailsIffUnmentioned(body: string, domain: string)
    requires RecordSeparator in body
    requires domain != ""
    ensures SelectRecord(body, Some(domain)).Failure? <==> NoMatch(Candidates(body), domain)
    ensures SelectRecord(body, Some(domain)).Failure? ==>
      SelectRecord(body, Some(domain)).error == DomainNotFound(domain)
    ensures SelectRecord(body, Some(domain)).Success? ==>
      Contains(SelectRecord(body, Some(domain)).value, domain)
      && SelectRecord(body, Some(domain)).value in Candidates(body)
  {
    var cands := Candidates(body);
    LastMatchOrNoMatch(cands, domain);
    if i :| IsLastMatch(cands, domain, i) {
      ContainsEmpty(cands[i], domain);
      assert cands[i] != "";
    }
  }

  /** An empty `domain` is mentioned by every candidate, so the last candidate
      is chosen; when the answer ends with a newline that candidate is empty
      and selection reports the domain as not found. */
  lemma EmptyDomainPicksLastCandidate(body: string)
    requires RecordSeparator in body
    ensures var cands := Candidates(body);
      SelectRecord(body, Some("")) ==
        (if cands[|cands| - 1] == "" then Failure(DomainNotFound("")) else Success(cands[|cands| - 1]))
    ensures body[|body| - 1] == RecordSeparator ==> SelectRecord(body, Some("")) == Failure(DomainNotFound(""))
  {
    var cands := Candidates(body);
    ContainsEmpty(cands[|cands| - 1], "");
    assert IsLastMatch(cands, "", |cands| - 1);
    if body[|body| - 1] == RecordSeparator {
      LastPieceFollowsLastSeparator(body, RecordSeparator);
    }
  }

  /** The update URL of a selected record, `url_text.split("|")[-1]`. */
  function UpdateUrl(record: string): (url: string)
    ensures FollowsLastSeparator(url, record, FieldSeparator)
    ensures FieldSeparator !in url
    ensures FieldSeparator !in record ==> url == record
  {
    LastField(record, FieldSeparator)
  }

  /** A one-line answer `name|url` sends the update to `url`, whatever the
      domain setting. */
  lemma SingleRecordUpdatesItsUrl(name: string, url: string, domain: Option<string>)
    requires RecordSeparator !in name && RecordSeparator !in url
    requires FieldSeparator !in url
    ensures SelectRecord(name + [FieldSeparator] + url, domain) == Success(name + [FieldSeparator] + url)
    ensures UpdateUrl(name + [FieldSeparator] + url) == url
  {
    var record := name + [FieldSeparator] + url;
    assert RecordSeparator !in record;
    assert FollowsLastSeparator(url, record, FieldSeparator) by {
      assert record[|name| + 1..] == url;
    }
    FollowsLastSeparatorUnique(UpdateUrl(record), url, record, FieldSeparator);
  }
}
