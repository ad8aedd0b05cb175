/** The digest as hello/apis.go writes it, where the loop over the selected
    rows ends on the first `rows.Next()` that reports false and the cursor's
    own error is never consulted. The model the service uses
    (`Apis.Compose`, `Apis.Service.SendEmail`) reports that error instead. */
module Findings {
  import opened Types
  import opened Render
  import opened Apis

  /** What one digest cycle reports, hands to the relay and leaves in the
      table. */
  datatype Cycle = Cycle(err: Option<Error>, sent: Option<string>, after: seq<Entry>)

  /** The read as written: a cursor that stops on an error looks like the end
      of the table, so the body holds only the rows delivered before it. */
  function ReadAsWritten(table: seq<Entry>, read: Read): (r: Result<string, Error>)
    // without a cursor error this is the corrected read
    ensures !read.IterationFailsAt? ==>
      r == (if ReadFault(read, |table|).Some? then Err(ReadFault(read, |table|).value) else Ok(Digest(table)))
    // a cursor error is never reported: the body is that of the rows delivered
    ensures read.IterationFailsAt? && read.at < |table| ==> r == Ok(Digest(table[..read.at]))
    ensures read.IterationFailsAt? && read.at >= |table| ==> r == Ok(Digest(table))
  {
    match read
    case QueryFails(c) => Err(Failure(QueryTable, c))
    case ScanFailsAt(k, c) => if k < |table| then Err(Failure(ScanRow, c)) else Ok(Digest(table))
    case IterationFailsAt(k, _) => if k < |table| then Ok(Digest(table[..k])) else Ok(Digest(table))
    case AllRows => Ok(Digest(table))
  }

  /** The whole cycle as written: the empty early exit, one send, then a
      DELETE of every row of the table. */
  function CycleAsWritten(table: seq<Entry>, read: Read, send: Outcome, delete: Outcome): (c: Cycle)
    ensures ReadAsWritten(table, read).Err? ==>
      c == Cycle(Some(ReadAsWritten(table, read).error), None, table)
    ensures c.sent.Some? <==> ReadAsWritten(table, read).Ok? && ReadAsWritten(table, read).value != ""
    ensures c.sent.Some? ==> c.sent.value == SmtpMessage(ReadAsWritten(table, read).value)
    ensures ReadAsWritten(table, read).Ok? && ReadAsWritten(table, read).value == "" ==>
      c == Cycle(None, None, table)
    ensures c.sent.Some? && send.Failed? ==>
      c.err == Some(Failure(SendMail, send.cause)) && c.after == table
    ensures c.sent.Some? && send.Succeeded? && delete.Failed? ==>
      c.err == Some(Failure(DeleteTable, delete.cause)) && c.after == table
    // the table is kept or emptied, and emptied exactly after a send and a delete that succeed
    ensures c.after == table || c.after == []
    ensures c.after != table <==> c.sent.Some? && send.Succeeded? && delete.Succeeded?
    ensures c.after != table ==> c.err == None
  {
    match ReadAsWritten(table, read)
    case Err(e) => Cycle(Some(e), None, table)
    case Ok(mail) =>
      if mail == "" then Cycle(None, None, table)
      else if send.Failed? then Cycle(Some(Failure(SendMail, send.cause)), Some(SmtpMessage(mail)), table)
      else if delete.Failed? then Cycle(Some(Failure(DeleteTable, delete.cause)), Some(SmtpMessage(mail)), table)
      else Cycle(None, Some(SmtpMessage(mail)), [])
  }

  /** Without a cursor error the cycle as written is the corrected
      `Apis.Service.SendEmail`: it sends exactly when the read succeeds on a
      non-empty table, sends the digest of every row, reports the same send
      and delete errors, and empties the table exactly when that mail was
      accepted and the DELETE succeeded. */
  lemma AsWrittenAgreesWithoutCursorError(table: seq<Entry>, read: Read, send: Outcome, delete: Outcome)
    requires !read.IterationFailsAt?
    ensures CycleAsWritten(table, read, send, delete).sent.Some? <==>
      ReadFault(read, |table|).None? && table != []
    ensures CycleAsWritten(table, read, send, delete).sent.Some? ==>
      CycleAsWritten(table, read, send, delete).sent == Some(SmtpMessage(Digest(table)))
    ensures ReadFault(read, |table|).Some? ==>
      CycleAsWritten(table, read, send, delete).err == ReadFault(read, |table|)
    ensures ReadFault(read, |table|).None? && table == [] ==>
      CycleAsWritten(table, read, send, delete) == Cycle(None, None, table)
    ensures ReadFault(read, |table|).None? && table != [] && send.Failed? ==>
      CycleAsWritten(table, read, send, delete).err == Some(Failure(SendMail, send.cause))
    ensures ReadFault(read, |table|).None? && table != [] && send.Succeeded? && delete.Failed? ==>
      CycleAsWritten(table, read, send, delete).err == Some(Failure(DeleteTable, delete.cause))
    ensures CycleAsWritten(table, read, send, delete).after != table <==>
      ReadFault(read, |table|).None? && table != [] && send.Succeeded? && delete.Succeeded?
    ensures CycleAsWritten(table, read, send, delete).after != table ==>
      CycleAsWritten(table, read, send, delete).after == [] &&
      CycleAsWritten(table, read, send, delete).sent == Some(SmtpMessage(Digest(table)))
  {
  }

  /** A cursor that fails after delivering some rows still ends in a sent
      mail, of the delivered rows only, and an empty table. */
  lemma CutReadIsSent(table: seq<Entry>, k: nat, cause: string)
    requires 0 < k < |table|
    ensures CycleAsWritten(table, IterationFailsAt(k, cause), Succeeded, Succeeded)
      == Cycle(None, Some(SmtpMessage(Digest(table[..k]))), [])
  {
  }

  /** When the cursor fails after delivering `k` of the rows, the cycle as
      written reports success, mails only the first `k` blocks and still
      empties the table: the rows from `k` on are deleted without ever having
      been mailed. */
  lemma UncheckedIterationLosesEntries(table: seq<Entry>, k: nat, cause: string)
    requires 0 < k < |table|
    ensures CycleAsWritten(table, IterationFailsAt(k, cause), Succeeded, Succeeded)
      == Cycle(None, Some(SmtpMessage(Digest(table[..k]))), [])
    ensures Digest(table) == Digest(table[..k]) + Digest(table[k..])
    ensures Digest(table[k..]) != ""
  {
    var mailed, dropped := table[..k], table[k..];
    assert table == mailed + dropped;
    DigestAppend(mailed, dropped);
    CutReadIsSent(table, k, cause);
  }

  /** A concrete instance: two rows, the cursor failing before the second. */
  lemma SecondRowLost(first: Entry, second: Entry)
    ensures CycleAsWritten([first, second], IterationFailsAt(1, "conn reset"), Succeeded, Succeeded)
      == Cycle(None, Some(SmtpMessage(Block(first))), [])
  {
    assert [first, second][..1] == [first];
    UncheckedIterationLosesEntries([first, second], 1, "conn reset");
    DigestSingle(first);
  }
}
