# hello: message intake and periodic digest

A Dafny model of the `hello` service of the `query` repository. The whole
service is two operations over one SQL table, `entries`:

- the **intake** (`Ask`, which wraps `storeMessage`) checks a submission
  `{ID, Ask, Anon, Name}` and inserts exactly one row. The stored name is
  forced to empty when the submission is anonymous;
- the **digest** (`SendEmail`, run by a cron job every six hours) reads every
  row and renders each one as a text block. It stops quietly when there is
  nothing to report. Otherwise it hands one mail to the relay and, once the
  relay accepts it, deletes every row.

The table is the field `entries: seq<Entry>` of the class `Apis.Service`. The
intake appends to it and the digest clears it. The database and the mail relay
are not modelled. Each call takes what they report as a parameter:

- `created` is the timestamp the store gives a new row;
- an `Outcome` (`Succeeded` or `Failed(cause)`) stands for the INSERT, the
  send and the DELETE;
- a `Read` stands for the SELECT and its cursor: the query fails, the scan of
  row `k` fails, the cursor stops with an error after delivering `k` rows, or
  every row arrives.

Files:

- `types.dfy` (module `Types`): the submission, the stored entry and its
  invariant, error kinds, collaborator outcomes;
- `render.dfy` (module `Render`): the block for one row, the digest body,
  the subject header, and their lemmas;
- `apis.dfy` (module `Apis`): validation, the render loop, and the class
  `Service` with `StoreMessage`, `Ask` and `SendEmail`;
- `findings.dfy` (module `Findings`): the digest cycle exactly as written,
  with the rows it can lose.

The table invariant `Service.Valid()` says that every row has a non-empty
message and that its name is empty exactly when it was submitted anonymously.
The intake establishes it and the digest keeps it. Under that invariant, the
digest's test "name is empty" is the same as the submission's anonymity flag,
for one block (`Render.BlockBySubmitter`) and for the whole mail
(`Render.DigestBySubmitter`, used by `Apis.Service.SendEmail`).

The digest model departs from the code in one place: it reports a cursor
error instead of passing over it (see "## Findings"). For every other read,
`Findings.AsWrittenAgreesWithoutCursorError` proves that the code as written
and the model send the same mail, report the same read, send and delete
errors, and empty the table under exactly the same condition: a non-empty
table whose mail was accepted and whose DELETE succeeded.

## Model

| member | source | states |
|---|---|---|
| `Apis.Validate` | hello/apis.go:56-73 | Validation is a decision table. It accepts exactly when the message is non-empty and the submission is anonymous or named. An empty message gives InvalidArgument "Empty Ask" whatever `Anon` and `Name` are. A named submission without a name gives InvalidArgument "Empty Name". An accepted submission keeps its id, message and flag. Its name is dropped when anonymous and kept otherwise. |
| `Apis.ValidatedIsWellFormed` | hello/apis.go:56-73 | Every row the intake would insert satisfies the table invariant: the message is non-empty, and the name is empty exactly when the submission is anonymous. |
| `Apis.Service.constructor` | hello/apis.go:187-189 | The service starts with an empty table that satisfies the invariant. |
| `Apis.Service.StoreMessage` | hello/apis.go:55-81 | Empty `Ask` gives "Empty Ask" and leaves the table unchanged. A named submission with an empty name gives "Empty Name" and leaves the table unchanged. A valid submission whose INSERT fails gives the wrapped update error and appends nothing. Otherwise exactly one row `(ID, Ask, Anon, Anon ? "" : Name, created)` is appended and nothing else changes. The invariant is kept. |
| `Apis.Service.Ask` | hello/apis.go:47-53 | The call returns "Successfully Submitted" exactly when the store reports no error, and then the table holds the one new row. Otherwise the call returns the store's own error and the table is unchanged. |
| `Apis.Stored` | hello/apis.go:61-73 | The row the INSERT leaves: the four bound values plus the store's timestamp. The row satisfies the table invariant exactly when the bound message is non-empty and the name is empty exactly when anonymous. |
| `Apis.ReadFault` | hello/apis.go:86-98 | The error a read runs into. A failed query gives the wrapped query error. A failed scan gives the wrapped scan error when it names an existing row, and no error otherwise. A complete read has no error. A cursor error always gives the wrapped iteration error, even after the last row or on an empty table; that branch has no counterpart in these lines and is the correction listed under "## Findings". |
| `Apis.Compose` | hello/apis.go:85-105 | The query and the render loop together return either the first read error or exactly `Digest` of all rows in read order. The loop invariant is that the text so far is the digest of the rows read so far. |
| `Apis.Service.SendEmail` | hello/apis.go:84-123 | A read error is returned before any send, with the table unchanged. With no rows the call succeeds without sending or deleting. Otherwise exactly one message, `SmtpMessage(Digest(rows))`, goes to the relay. Because the table invariant holds, that message is also the blocks rendered by each row's anonymity flag. A failed send returns the send error and keeps every row. A failed delete returns the delete error and keeps every row. Only a successful send followed by a successful delete empties the table. A row leaves the table only after a mail holding all the rows was accepted. |
| `Apis.TwoSubmissionsThenDigest` | hello/apis.go:47-122 | A named submission ("Al", "hi"), then an anonymous one ("yo", name "X"), then a digest. The mail holds `Al asked hi` and then `Anonymous asked yo` with their timestamps, and the table ends up empty. |
| `Render.Block` | hello/apis.go:99-103 | The block for one row is `Anonymous asked <ask>\nat <created>\n\n` when the stored name is empty and `<name> asked <ask>\nat <created>\n\n` otherwise. Its contract: it starts with "Anonymous" or with the name, and it ends with a blank line. |
| `Render.BlockBySubmitter` | hello/apis.go:99-103 | For a row that satisfies the invariant, the block is `<speaker> asked <ask>\nat <created>\n\n`. The speaker is "Anonymous" when the row was submitted anonymously and its name otherwise. |
| `Render.Digest` | hello/apis.go:93-110 | The body is the concatenation of the rows' blocks in read order. It has at least two characters per row, so it is empty exactly when there are no rows. That makes the "No messages" exit the same as an empty table. |
| `Render.DigestBySubmitter` | hello/apis.go:93-104 | On a table whose rows satisfy the invariant, the whole body is the blocks rendered by the anonymity flag. A block is anonymous exactly when its row was submitted anonymously. |
| `Render.DigestAppend` | hello/apis.go:93-104 | The digest of two row sequences read one after the other is the concatenation of their digests. |
| `Render.DigestLayout` | hello/apis.go:93-104 | In the body, row `i` contributes exactly its own block. That block sits between the blocks of the earlier rows and the blocks of the later rows. |
| `Render.SmtpMessage` | hello/apis.go:139 | The text given to the relay is the header `Subject: Today's Messages`, a blank line, and then the body unchanged. |
| `Types.Error.Text` | hello/apis.go:58-119 | The error text a caller sees. A rejected submission shows its message ("Empty Ask", "Empty Name"). A wrapped error shows the step's text, ": ", and the collaborator's own error, as `fmt.Errorf("could not ...: %v", err)` builds it. |
| `Types.StageText` | hello/apis.go:77-119 | Each failed step's text starts with "could not ": update table, query table, scan row, send email, delete table, and the model's iterate rows. |
| `Types.StageTextNamesStage` | hello/apis.go:77-119 | No two steps share a text, so the text of an error names the step that failed. |
| `Findings.ReadAsWritten` | hello/apis.go:85-105 | The read as written. Without a cursor error it is the corrected read: the same error, or the digest of every row. A cursor error is never reported: the body is the digest of the rows delivered before it. |
| `Findings.CycleAsWritten` | hello/apis.go:84-122 | The cycle as written. A read error is returned with the table kept. An empty body ends the cycle with no error, no send and the table kept. A send is made exactly when the read gives a non-empty body, and the message is that body after the subject header. A failed send gives the send error and a failed delete the delete error, both with the table kept. The table is either kept or emptied, and it is emptied exactly when the send and the delete both succeed. |
| `Findings.AsWrittenAgreesWithoutCursorError` | hello/apis.go:84-122 | Unless the cursor fails, the code as written behaves like the model. It sends exactly when the read succeeds on a non-empty table. It sends the digest of every row and returns the read error when there is one. On an empty table it neither sends nor deletes. It returns the same send and delete errors as the model. It empties the table exactly when the table is non-empty, the read succeeds and the send and the delete both succeed, and then the mail held every row. |
| `Findings.CutReadIsSent` | hello/apis.go:93-122 | As written, a cursor error after `k > 0` rows still ends in success. The relay gets the digest of those `k` rows, and the table is emptied. |
| `Findings.UncheckedIterationLosesEntries` | hello/apis.go:93-122 | As written, that cycle mails `Digest(rows[..k])`. The full digest is that text plus a non-empty digest of `rows[k..]`, and those rows are deleted without ever being mailed. |
| `Findings.SecondRowLost` | hello/apis.go:93-122 | Concretely: two rows, and the cursor fails before the second. The cycle succeeds, the mail holds only the first block, and the table is empty afterwards. |

## Findings

| source | as written | input that shows it | evidently intended | confidence | as-written member | corrected member |
|---|---|---|---|---|---|---|
| hello/apis.go:93-122 | `for rows.Next()` ends the same way on the last row and on a cursor error, and `rows.Err()` is never checked. A cursor error looks like the end of the table, and a successful send is then followed by `DELETE FROM entries` over every row. | A table of two rows whose cursor fails before the second row, with a send and a delete that both succeed. The mail holds only the first block, the call returns success, and the table is empty. | Any read failure is an error for the cycle, and no row is deleted unless it was mailed. | medium (not executed; rests on the Go cursor convention that `Next` returns false on error and `Err` reports it) | `Findings.UncheckedIterationLosesEntries` | `Apis.Service.SendEmail` |

The rest of the model uses the corrected definitions, `Apis.ReadFault`,
`Apis.Compose` and `Apis.Service.SendEmail`. They return an `IterateRows` error for any cursor
error, as a check of `rows.Err()` after the loop would. That includes an error
reported after the last row and an error on an empty table. The code has no such error text. The model uses "could
not iterate rows", in the style of the code's other messages.

## Left out

- SMTP delivery (`smtp.PlainAuth`, `smtp.SendMail`, hello/apis.go:141-142) is a network call. It becomes the `send` outcome. The relay host, port 587, sender and recipient are not modelled.
- The credentials file (hello/apis.go:126-137) is file I/O and positional string splitting. If the file is missing, the code logs and then indexes past the end of the split, which panics at run time. The model does not capture that panic, or a malformed configuration. The code has no separate configuration error.
- The SQL text, the provisioning of the database and its migrations (hello/apis.go:187-189) are not modelled. The table starts empty in `Service.constructor`.
- The encore error builder and `fmt.Errorf` wrapping become `Error`: `InvalidArgument(msg)`, or `Failure(stage, cause)` for a wrapped collaborator error. The exact text that encore prints for an error code is not modelled.
- The `created` timestamp is assigned by the database and printed with `%v`. The model takes it as an opaque string.
- Row order: the SELECT has no ORDER BY, so the database may return rows in any order. The model reads them in table (insertion) order.
- A NULL name would print as `<nil>` rather than be treated as empty. The intake never stores NULL, so this case is not modelled.
- The cron schedule (hello/apis.go:18-22) is a platform trigger. `SendEmail` is modelled as a direct call.
- The commented-out `Submit` and `InsertIP` (hello/apis.go:146-181) are dead code.
- Concurrency is not modelled. Intake calls running between the digest's read and its DELETE could be deleted without being mailed. The model runs calls one at a time, so "delete all" clears exactly the rows that were read.
- Logging (`log.Printf`), `rows.Close()` and context cancellation have no effect on the result and are not modelled.
