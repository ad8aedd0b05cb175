/** The two operations of the `hello` service over its one table: the intake
    (`Ask`, `StoreMessage`) and the periodic digest (`SendEmail`). The SQL
    store and the mail relay are outside the model: each call receives, as an
    `Outcome` or a `Read`, what they report back. */
module Apis {
  import opened Types
  import opened Render

  /** The intake's check of a submission. On success it yields the values the
      INSERT binds: the submission itself, with the name dropped when it is
      anonymous. An empty message is refused before anything else is looked
      at. */
  function Validate(p: AskParams): (r: Result<AskParams, Error>)
    ensures r.Ok? <==> p.ask != "" && (p.anon || p.name != "")
    ensures p.ask == "" ==> r == Err(InvalidArgument("Empty Ask"))
    ensures p.ask != "" && !p.anon && p.name == "" ==> r == Err(InvalidArgument("Empty Name"))
    ensures r.Ok? ==> r.value.id == p.id && r.value.ask == p.ask && r.value.anon == p.anon
    ensures r.Ok? && p.anon ==> r.value.name == ""
    ensures r.Ok? && !p.anon ==> r.value.name == p.name
  {
    if p.ask == "" then Err(InvalidArgument("Empty Ask"))
    else if p.anon then Ok(p.(name := ""))
    else if p.name == "" then Err(InvalidArgument("Empty Name"))
    else Ok(p)
  }

  /** The row the store holds after inserting the values `v`: the four bound
      columns, and the timestamp the store adds. It satisfies the table's
      invariant exactly when the values do. */
  function Stored(v: AskParams, created: string): (e: Entry)
    ensures e.created == created
    ensures e.WellFormed() <==> v.ask != "" && (v.anon <==> v.name == "")
  {
    Entry(v.id, v.ask, v.anon, v.name, created)
  }

  /** Every row the intake writes satisfies the table's invariant. */
  lemma ValidatedIsWellFormed(p: AskParams, created: string)
    requires Validate(p).Ok?
    ensures Stored(Validate(p).value, created).WellFormed()
  {
  }

  /** The error, if any, that reading `n` rows under `read` runs into. A
      failed query and a cursor error are always errors; a failed scan is one
      when it names an existing row. */
  function ReadFault(read: Read, n: nat): (f: Option<Error>)
    ensures read.QueryFails? ==> f == Some(Failure(QueryTable, read.cause))
    ensures read.ScanFailsAt? && read.at < n ==> f == Some(Failure(ScanRow, read.cause))
    ensures read.ScanFailsAt? && read.at >= n ==> f == None
    ensures read.IterationFailsAt? ==> f == Some(Failure(IterateRows, read.cause))
    ensures read.AllRows? ==> f == None
  {
    match read
    case QueryFails(c) => Some(Failure(QueryTable, c))
    case ScanFailsAt(k, c) => if k < n then Some(Failure(ScanRow, c)) else None
    case IterationFailsAt(_, c) => Some(Failure(IterateRows, c))
    case AllRows => None
  }

  /** The read-and-render half of the digest: query the table, then append the
      block of each row as the cursor delivers it. The result is the digest of
      every row, or the first error the read runs into. */
  method Compose(rows: seq<Entry>, read: Read) returns (r: Result<string, Error>)
    ensures ReadFault(read, |rows|).Some? ==> r == Err(ReadFault(read, |rows|).value)
    ensures ReadFault(read, |rows|).None? ==> r == Ok(Digest(rows))
  {
    if read.QueryFails? {
      return Err(Failure(QueryTable, read.cause));
    }
    var mail := "";
    var i := 0;
    while i < |rows|
      invariant 0 <= i <= |rows|
      invariant mail == Digest(rows[..i])
      invariant read.ScanFailsAt? ==> i <= read.at
      invariant read.IterationFailsAt? ==> i <= read.at
    {
      if read.IterationFailsAt? && read.at == i {
        // the cursor reports no further row; its error is looked at below
        break;
      }
      if read.ScanFailsAt? && read.at == i {
        return Err(Failure(ScanRow, read.cause));
      }
      DigestSnoc(rows, i);
      mail := mail + Block(rows[i]);
      i := i + 1;
    }
    if read.IterationFailsAt? {
      // rows.Err() reports what stopped the cursor
      return Err(Failure(IterateRows, read.cause));
    }
    assert rows[..|rows|] == rows;
    return Ok(mail);
  }

  /** The service and the `entries` table it owns. */
  class Service {
    var entries: seq<Entry>

    /** Every row was written by the intake. */
    ghost predicate Valid()
      reads this
    {
      forall e :: e in entries ==> e.WellFormed()
    }

    /** The table as the migrations create it. */
    constructor ()
      ensures Valid() && entries == []
    {
      entries := [];
    }

    /** Validate a submission and insert it as one row; `created` is the
        timestamp the store gives the row, `insert` what the INSERT reports. */
    method StoreMessage(p: AskParams, created: string, insert: Outcome) returns (err: Option<Error>)
      requires Valid()
      modifies this
      ensures Valid()
      ensures p.ask == "" ==> err == Some(InvalidArgument("Empty Ask"))
      ensures p.ask != "" && !p.anon && p.name == "" ==> err == Some(InvalidArgument("Empty Name"))
      ensures Validate(p).Ok? && insert.Failed? ==> err == Some(Failure(UpdateTable, insert.cause))
      ensures err.None? <==> Validate(p).Ok? && insert.Succeeded?
      ensures err.None? ==>
        entries == old(entries) + [Entry(p.id, p.ask, p.anon, if p.anon then "" else p.name, created)]
      ensures err.Some? ==> entries == old(entries)
    {
      var v := Validate(p);
      if v.Err? {
        return Some(v.error);
      }
      if insert.Failed? {
        return Some(Failure(UpdateTable, insert.cause));
      }
      ValidatedIsWellFormed(p, created);
      entries := entries + [Stored(v.value, created)];
      return None;
    }

    /** The intake call: store the submission and confirm it, or pass the
        store's error through. */
    method Ask(p: AskParams, created: string, insert: Outcome) returns (r: Result<AskResponse, Error>)
      requires Valid()
      modifies this
      ensures Valid()
      ensures r.Ok? <==> Validate(p).Ok? && insert.Succeeded?
      ensures r.Ok? ==> r.value == AskResponse("Successfully Submitted")
      ensures r.Ok? ==> entries == old(entries) + [Stored(Validate(p).value, created)]
      ensures r.Err? && Validate(p).Err? ==> r.error == Validate(p).error
      ensures r.Err? && Validate(p).Ok? ==> r.error == Failure(UpdateTable, insert.cause)
      ensures r.Err? ==> entries == old(entries)
    {
      var err := StoreMessage(p, created, insert);
      if err.Some? {
        return Err(err.value);
      }
      return Ok(AskResponse("Successfully Submitted"));
    }

    /** The digest: render every row into one body; with no row stop without
        sending; otherwise send the body once and, only once the relay has
        accepted it, delete every row. `sent` is the text handed to the relay,
        when a send was attempted. */
    method SendEmail(read: Read, send: Outcome, delete: Outcome) returns (err: Option<Error>, sent: Option<string>)
      requires Valid()
      modifies this
      ensures Valid()
      ensures ReadFault(read, |old(entries)|).Some? ==>
        err == ReadFault(read, |old(entries)|) && sent == None && entries == old(entries)
      ensures ReadFault(read, |old(entries)|).None? && old(entries) == [] ==>
        err == None && sent == None && entries == old(entries)
      ensures sent.Some? <==> ReadFault(read, |old(entries)|).None? && old(entries) != []
      ensures sent.Some? ==> sent.value == SmtpMessage(Digest(old(entries)))
      // every block names the submitter, or "Anonymous" for an anonymous row
      ensures sent.Some? ==> sent.value == SmtpMessage(ConcatMap(SpeakerBlock, old(entries)))
      ensures sent.Some? && send.Failed? ==>
        err == Some(Failure(SendMail, send.cause)) && entries == old(entries)
      ensures sent.Some? && send.Succeeded? && delete.Failed? ==>
        err == Some(Failure(DeleteTable, delete.cause)) && entries == old(entries)
      ensures sent.Some? && send.Succeeded? && delete.Succeeded? ==> err == None && entries == []
      // a row leaves the table only after a mail holding it was accepted
      ensures entries != old(entries) ==>
        entries == [] && send.Succeeded? && sent == Some(SmtpMessage(Digest(old(entries))))
    {
      DigestBySubmitter(entries);
      var composed := Compose(entries, read);
      if composed.Err? {
        return Some(composed.error), None;
      }
      var mail := composed.value;
      if mail == "" {
        // "No messages": nothing to send, nothing to delete
        return None, None;
      }
      sent := Some(SmtpMessage(mail));
      if send.Failed? {
        return Some(Failure(SendMail, send.cause)), sent;
      }
      if delete.Failed? {
        return Some(Failure(DeleteTable, delete.cause)), sent;
      }
      entries := [];
      return None, sent;
    }
  }

  /** The body for the two rows of the scenario below. */
  lemma ScenarioDigest(al: Entry, yo: Entry)
    requires al == Entry("1", "hi", false, "Al", "t1") && yo == Entry("2", "yo", true, "", "t2")
    ensures Digest([al] + [yo]) == "Al asked hi\nat t1\n\n" + "Anonymous asked yo\nat t2\n\n"
  {
    DigestAppend([al], [yo]);
    DigestSingle(al);
    DigestSingle(yo);
    assert Block(al) == "Al asked hi\nat t1\n\n";
    assert Block(yo) == "Anonymous asked yo\nat t2\n\n";
  }

  /** Two submissions, one named and one anonymous, then a digest: the mail
      holds both blocks in submission order and the table is left empty. */
  method TwoSubmissionsThenDigest() returns (sent: Option<string>, remaining: seq<Entry>)
    ensures sent == Some(SmtpMessage("Al asked hi\nat t1\n\n" + "Anonymous asked yo\nat t2\n\n"))
    ensures remaining == []
  {
    var service := new Service();
    var first := service.Ask(AskParams("1", "hi", false, "Al"), "t1", Succeeded);
    var second := service.Ask(AskParams("2", "yo", true, "X"), "t2", Succeeded);
    var al, yo := Entry("1", "hi", false, "Al", "t1"), Entry("2", "yo", true, "", "t2");
    assert service.entries == [al] + [yo];
    ScenarioDigest(al, yo);
    var err;
    err, sent := service.SendEmail(AllRows, Succeeded, Succeeded);
    remaining := service.entries;
  }
}
