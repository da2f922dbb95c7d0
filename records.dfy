/**
 * The record check of the updater (`checkRecord` in main.go): among the
 * records the DNS provider lists for the root domain, find the "A" record of
 * the configured name and decide whether it already holds the machine's
 * address.
 */
module Records {
  import opened Wrappers
  import opened Domains

  /** One DNS record as the provider lists it. */
  datatype DomainRecord = DomainRecord(id: int, recordType: string, name: string, data: string)

  /**
   * The address operations the check relies on, left uninterpreted: parsing
   * a textual address (`net.ParseIP`, None for nil), address equality
   * (`net.IP.Equal`) and the text form of an address (`net.IP.String`).
   */
  datatype NetIP<!Addr> = NetIP(parse: string -> Option<Addr>, equal: (Addr, Addr) -> bool, format: Addr -> string)

  /** Why a check ends the cycle with an error. */
  datatype CheckError =
    | ListFailed(message: string)      // the listing call returned an error
    | UnparsableRecord(data: string)   // the matching record does not hold an address
    | RecordNotFound(name: string)     // no "A" record has the expected name

  /**
   * The three answers of `checkRecord`: an error, nil (the record is up to
   * date), or the record that is out of date.
   */
  datatype CheckResult = CheckFailed(error: CheckError) | UpToDate | OutOfDate(record: DomainRecord)

  /** The record name to look for: the subdomain when there is one, else the root. */
  function TargetName(domain: SplitDomain): string
  {
    if domain.sub != "" then domain.sub else domain.root
  }

  /** The record is an "A" record of the given name. */
  predicate IsMatch(rec: DomainRecord, name: string)
  {
    rec.recordType == "A" && rec.name == name
  }

  /** Index `i` holds the first "A" record of the given name. */
  predicate IsFirstMatch(records: seq<DomainRecord>, name: string, i: int)
  {
    && 0 <= i < |records|
    && IsMatch(records[i], name)
    && forall j :: 0 <= j < i ==> !IsMatch(records[j], name)
  }

  /** The position of the first "A" record of the given name, in list order. */
  function FirstMatch(records: seq<DomainRecord>, name: string): (r: Option<nat>)
    ensures r.Some? ==> IsFirstMatch(records, name, r.value)
    ensures r.None? ==> forall j :: 0 <= j < |records| ==> !IsMatch(records[j], name)
  {
    if |records| == 0 then None
    else if IsMatch(records[0], name) then Some(0)
    else match FirstMatch(records[1..], name)
      case None => None
      case Some(k) => Some(k + 1)
  }

  /** The first match is unique: any index with the first-match property is the one found. */
  lemma FirstMatchUnique(records: seq<DomainRecord>, name: string, i: int)
    requires IsFirstMatch(records, name, i)
    ensures FirstMatch(records, name) == Some(i)
  {
  }

  /** The decision taken on the matching record, given the resolved address. */
  function Decide<Addr>(ip: NetIP<Addr>, rec: DomainRecord, addr: Addr): CheckResult
  {
    match ip.parse(rec.data)
    case None => CheckFailed(UnparsableRecord(rec.data))
    case Some(recordAddr) => if !ip.equal(addr, recordAddr) then OutOfDate(rec) else UpToDate
  }

  /** The answer of `checkRecord` for a given outcome of the listing call. */
  function Check<Addr>(ip: NetIP<Addr>, listing: Result<seq<DomainRecord>, string>,
                       domain: SplitDomain, addr: Addr): CheckResult
  {
    match listing
    case Failure(message) => CheckFailed(ListFailed(message))
    case Success(records) =>
      var name := TargetName(domain);
      match FirstMatch(records, name)
      case None => CheckFailed(RecordNotFound(name))
      case Some(i) => Decide(ip, records[i], addr)
  }

  /**
   * `checkRecord` after the listing call: a scan in list order that answers
   * on the first "A" record of the target name.
   */
  method CheckRecord<Addr>(ip: NetIP<Addr>, listing: Result<seq<DomainRecord>, string>,
                           domain: SplitDomain, addr: Addr) returns (r: CheckResult)
    ensures r == Check(ip, listing, domain, addr)
  {
    if listing.Failure? {
      return CheckFailed(ListFailed(listing.error));
    }
    var records := listing.value;
    var name := domain.root;
    if domain.sub != "" {
      name := domain.sub;
    }
    for i := 0 to |records|
      invariant forall j :: 0 <= j < i ==> !IsMatch(records[j], name)
    {
      var rec := records[i];
      if rec.recordType == "A" && rec.name == name {
        FirstMatchUnique(records, name, i);
        var recordAddr := ip.parse(rec.data);
        if recordAddr.None? {
          return CheckFailed(UnparsableRecord(rec.data));
        }
        if !ip.equal(addr, recordAddr.value) {
          return OutOfDate(rec);
        }
        return UpToDate;
      }
    }
    return CheckFailed(RecordNotFound(name));
  }

  /**
   * The outcomes of a check on a successful listing, stated without the
   * search: not found exactly when no "A" record has the target name;
   * otherwise the first such record decides, by whether its data parses and
   * whether the parsed address equals the resolved one.
   */
  lemma CheckOutcomes<Addr>(ip: NetIP<Addr>, records: seq<DomainRecord>, domain: SplitDomain, addr: Addr)
    ensures var r, name := Check(ip, Success(records), domain, addr), TargetName(domain);
      && (r == CheckFailed(RecordNotFound(name)) <==>
            forall j :: 0 <= j < |records| ==> !IsMatch(records[j], name))
      && (r.CheckFailed? && r.error.UnparsableRecord? <==>
            exists i :: IsFirstMatch(records, name, i) && ip.parse(records[i].data).None?)
      && (r.UpToDate? <==>
            exists i :: IsFirstMatch(records, name, i) && ip.parse(records[i].data).Some?
                        && ip.equal(addr, ip.parse(records[i].data).value))
      && (forall rec :: r == OutOfDate(rec) <==>
            exists i :: IsFirstMatch(records, name, i) && records[i] == rec
                        && ip.parse(rec.data).Some? && !ip.equal(addr, ip.parse(rec.data).value))
  {
    var name := TargetName(domain);
    match FirstMatch(records, name)
    case None =>
      forall i | IsFirstMatch(records, name, i) ensures false {
        FirstMatchUnique(records, name, i);
      }
    case Some(k) =>
      forall i | IsFirstMatch(records, name, i) ensures i == k {
        FirstMatchUnique(records, name, i);
      }
  }

  /**
   * Only the first match decides: whatever follows the first "A" record of
   * the target name can be replaced without changing the answer.
   */
  lemma {:induction false} LaterRecordsIgnored<Addr>(ip: NetIP<Addr>, records: seq<DomainRecord>,
                                                     i: nat, tail: seq<DomainRecord>,
                                                     domain: SplitDomain, addr: Addr)
    requires IsFirstMatch(records, TargetName(domain), i)
    ensures Check(ip, Success(records[..i + 1] + tail), domain, addr) == Check(ip, Success(records), domain, addr)
  {
    var name := TargetName(domain);
    var other := records[..i + 1] + tail;
    assert IsFirstMatch(other, name, i) by {
      assert forall j :: 0 <= j <= i ==> other[j] == records[j];
    }
    FirstMatchUnique(records, name, i);
    FirstMatchUnique(other, name, i);
  }

  /** Records that are not "A" records of the target name never change the answer. */
  lemma NonMatchingIgnored<Addr>(ip: NetIP<Addr>, rec: DomainRecord, records: seq<DomainRecord>,
                                 domain: SplitDomain, addr: Addr)
    requires !IsMatch(rec, TargetName(domain))
    ensures Check(ip, Success([rec] + records), domain, addr) == Check(ip, Success(records), domain, addr)
  {
    assert ([rec] + records)[1..] == records;
  }

  /**
   * For "sub.example.com" the record looked for is named "sub", not the full
   * name; for "example.com" it is "example.com".
   */
  lemma TargetNameExamples()
    ensures NewSplitDomain("sub.example.com").Some?
    ensures TargetName(NewSplitDomain("sub.example.com").value) == "sub"
    ensures NewSplitDomain("example.com").Some?
    ensures TargetName(NewSplitDomain("example.com").value) == "example.com"
  {
    SplitSubdomainExample();
    SplitRootExample();
  }
}
