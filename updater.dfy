/**
 * One update cycle of the updater (`update` and `updateRecord` in main.go):
 * resolve the public address, check the record, and edit it only when it is
 * out of date. The two services are abstracted: what they answer in this
 * cycle is an input, and the calls the cycle makes on the DNS provider are
 * its output.
 */
module Updater {
  import opened Wrappers
  import opened Domains
  import opened Records

  /** A call the cycle makes on the DNS provider. */
  datatype Call =
    | ListRecords(root: string)                        // list the records of the root domain
    | EditRecord(root: string, id: int, data: string)  // set the data of one record

  /**
   * What the outside world answers during one cycle: the address the IP-echo
   * service resolves (or its error), the listing of records (or its error),
   * and the error of the edit call, if it fails.
   */
  datatype Replies<!Addr> = Replies(resolved: Result<Addr, string>,
                                    listing: Result<seq<DomainRecord>, string>,
                                    editError: Option<string>)

  /** How a cycle ends; every ending but `Updated` and `AlreadyCurrent` is logged as an error. */
  datatype CycleOutcome =
    | ResolveFailed(message: string)
    | CheckRecordFailed(error: CheckError)
    | AlreadyCurrent
    | EditFailed(message: string)
    | Updated

  /** The number of edit calls in a sequence of calls. */
  function EditCount(calls: seq<Call>): nat
  {
    if |calls| == 0 then 0
    else (if calls[0].EditRecord? then 1 else 0) + EditCount(calls[1..])
  }

  /** The edit request of `updateRecord`: the record's ID on the root domain, the new address as data. */
  method UpdateRecord<Addr>(ip: NetIP<Addr>, domain: SplitDomain, rec: DomainRecord, addr: Addr,
                            editError: Option<string>) returns (call: Call, err: Option<string>)
    ensures call == EditRecord(domain.root, rec.id, ip.format(addr))
    ensures err == editError
  {
    call := EditRecord(domain.root, rec.id, ip.format(addr));
    err := editError;
  }

  /**
   * `update`: a short-circuiting sequence. A failed resolution ends the cycle
   * before any call to the provider; otherwise the records are listed and
   * checked, and the record is edited, with its ID and the resolved address,
   * exactly when the check finds it out of date.
   */
  method Update<Addr>(ip: NetIP<Addr>, domain: SplitDomain, replies: Replies<Addr>)
    returns (calls: seq<Call>, outcome: CycleOutcome)
    ensures EditCount(calls) <= 1
    ensures replies.resolved.Failure? ==>
      calls == [] && outcome == ResolveFailed(replies.resolved.error)
    ensures replies.resolved.Success? ==>
      var addr := replies.resolved.value;
      match Check(ip, replies.listing, domain, addr)
      case CheckFailed(e) =>
        calls == [ListRecords(domain.root)] && outcome == CheckRecordFailed(e)
      case UpToDate =>
        calls == [ListRecords(domain.root)] && outcome == AlreadyCurrent
      case OutOfDate(rec) =>
        && calls == [ListRecords(domain.root), EditRecord(domain.root, rec.id, ip.format(addr))]
        && outcome == (if replies.editError.Some? then EditFailed(replies.editError.value) else Updated)
  {
    calls := [];
    if replies.resolved.Failure? {
      return calls, ResolveFailed(replies.resolved.error);
    }
    var addr := replies.resolved.value;
    calls := calls + [ListRecords(domain.root)];
    var record := CheckRecord(ip, replies.listing, domain, addr);
    if record.CheckFailed? {
      return calls, CheckRecordFailed(record.error);
    }
    if record.UpToDate? {
      return calls, AlreadyCurrent;
    }
    var edit, err := UpdateRecord(ip, domain, record.record, addr, replies.editError);
    calls := calls + [edit];
    assert calls[1..] == [edit] && EditCount(calls[1..]) == 1;
    if err.Some? {
      return calls, EditFailed(err.value);
    }
    return calls, Updated;
  }
}
