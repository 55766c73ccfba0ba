# A Dafny model of the transactional CSV server (`servidor.c`)

The server accepts TCP clients and serves a small product database kept in
one comma-separated file (`output.csv`). The file has a header line, then
one record per line: `id,name,quantity,price`. This project models the
server's logic in three layers.

- **Admission** (`admission.dfy`, module `Admission`) models the parent
  process. It keeps a count of running workers and a FIFO waiting room. Every
  new connection gets `OK_CONNECT`, `WAIT` or `REJECT`. When a worker exits,
  the `SIGCHLD` handler promotes the oldest waiting socket and shifts the
  waiting array left.
- **Session** (`session.dfy`, module `Session`) models one worker's command
  loop, `manejar_cliente`. The worker's own state is its in-transaction flag.
  It shares an advisory `flock` lock and the file with the other workers. The
  commands are `BEGIN TRANSACTION`, `COMMIT TRANSACTION`, `GET`, `UPDATE`,
  `ADD`, `DELETE`, `EXIT` and `HELP`. `Handle` maps one command line to the
  answer line, the new flag, the new lock and the new file.
- **Record store** (`store.dfy`, module `RecordStore`) holds the five file
  operations: lookup, field update with validation, highest id, validated
  append, and delete. Each is a pure function from the old file to an
  `Outcome`. A `Done` outcome carries the file that replaces the old one,
  either by the temporary-file copy-and-rename or by the append. A `Refused`
  outcome leaves the file untouched.

`filelock.dfy` (module `FileLocks`) models the lock the way the kernel keeps
it. `flock` locks the inode behind a worker's descriptor, and that descriptor
is opened once per session. A successful `UPDATE` or `DELETE` then renames a
new file into place. `Session` keeps one lock for the table instead.
`FileLocks` shows where the two part ways (see Findings).

`scan.dfy` (module `Scan`) models the C library conversions these layers rely
on:

- the `%ld`/`%d` conversions of `sscanf`, and `atoi`;
- the decimal output of `%ld`;
- the line cut `buf[strcspn(buf, "\r\n")] = 0`;
- a decimal-string test for `atof(s) < 0.0`.

`wrappers.dfy` holds `Option`.

The model reproduces these behaviours of the code on purpose:

- `UPDATE` rewrites every line that carries the id, because its scan has no
  `break`.
- A line that carries the id but does not split into four fields is dropped
  from the rewritten file, so such an update acts as a delete.
- A field number outside 1..3 reports success and changes nothing.
- The highest id is -1 for a file with a header only, so the first `ADD`
  gets id 0. It is 0 for a file with no line at all, so the first `ADD` gets
  id 1, and that line then sits where every scan expects the header.
- `ADD` checks for a transaction before it parses its arguments. `UPDATE`
  and `DELETE` parse first, so a malformed line gets the usage error even
  outside a transaction.
- A `GET` outside a transaction takes the shared lock and releases it at
  once. Inside a transaction it reads under the worker's own exclusive lock.
  `BEGIN TRANSACTION` inside a transaction succeeds again, because `flock` on
  the holder's own descriptor succeeds.

Two things are parameters rather than code:

- `fmtPrice`, the `%.2f` rendering of `atof(price)`, used when `ADD` writes
  its line;
- the connection ids.

Sockets, `fork` and the file system become events and values.

## Model

| member | source | states |
|---|---|---|
| Scan.UpToNewline | servidor.c:257 | the `%[^\n]` conversion keeps a prefix that holds no line feed and stops exactly at the first one |
| Scan.UpToNewlineWhole | servidor.c:257 | a text without a line feed is read whole by `%[^\n]` |
| Scan.CutLine | servidor.c:202 | the line handed to the command chain is a prefix of the bytes read, holds no `\r` or `\n`, and stops exactly at the first of them |
| Scan.SkipSpaces | servidor.c:231 | a conversion skips exactly the leading blanks: every character it drops is a blank, what is left is the end of the text and starts with a non-blank |
| Scan.ParseLong | servidor.c:231 | a successful `%ld` conversion consumes a prefix ending in a digit and leaves text that does not start with a digit |
| Scan.Atoi | servidor.c:356 | `atoi` is negative exactly when a minus sign follows the blanks and the digits after it are not all zero (so `-0` is not refused); it is 0 when no number is found |
| Scan.DigitsValuePositive | servidor.c:356 | a run of digits has a positive value exactly when one of its digits is nonzero |
| Scan.AtoiOfIntToString | servidor.c:443-459 | `atoi` reads back what `%d` printed |
| Scan.PriceNegative | servidor.c:364 | a price counts as negative only when a minus sign follows its blanks and some digit of it is nonzero |
| Scan.PriceNegativeOfInt | servidor.c:364 | a price written as a whole number counts as negative exactly when that number is negative |
| Scan.ParseLongSkipsBlank | servidor.c:257 | a blank in front of a number does not change what `%ld` reads |
| Scan.ParseLongOfIntToString | servidor.c:459 | reading an id back with `%ld` after `%ld` printed it yields the same number and stops right after it |
| Scan.ParseValueStops | servidor.c:326 | the `%ld,` scan of a line reads the same id whatever follows the first comma |
| RecordStore.Find | servidor.c:324-332 | a line is found exactly when some record line carries the id, and the line found carries it |
| RecordStore.FindIsFirst | servidor.c:324-331 | the scan stops at the first line carrying the id |
| RecordStore.Lookup | servidor.c:319-335 | the header is never searched; a miss means no record line carries the id (or the file has no line) |
| RecordStore.GetReply | servidor.c:319-335 | the answer is the first line carrying the id cut at its line end: a prefix of it with no `\r` or `\n` that stops exactly at the first of them; with no such line it is the not-found error naming the id |
| RecordStore.RemoveRows | servidor.c:482-489 | the copy loop of a delete keeps no line that carries the id and never adds a line |
| RecordStore.RemoveRowsMembers | servidor.c:482-489 | the lines kept by a delete are exactly the record lines that do not carry the id |
| RecordStore.RemoveRowsAppend | servidor.c:482-489 | the delete keeps the surviving lines in their original order |
| RecordStore.FindIgnoresOtherIds | servidor.c:482-489 | removing the lines of one id does not change what another id finds |
| RecordStore.Delete | servidor.c:465-499 | the file is replaced exactly when a line carries the id, by the header plus the other lines; otherwise the answer is the delete-specific not-found error |
| RecordStore.DeleteThenLookup | servidor.c:465-499 | after a delete the id is not found and every other id finds what it found before |
| RecordStore.Cut | servidor.c:350 | one `%[^,],` conversion succeeds only on a non-empty comma-free field followed by a comma, and the field, the comma and the rest make up the input |
| RecordStore.CutOf | servidor.c:350 | a non-empty comma-free field followed by a comma is cut back into that field and the rest |
| RecordStore.SplitFields | servidor.c:350 | a successful four-field split yields three non-empty comma-free fields and a non-empty last field that join back to the line |
| RecordStore.JoinThenSplit | servidor.c:350 | splitting a line joined from well-formed fields gives the same fields back |
| RecordStore.JoinedId | servidor.c:374 | a line rebuilt from fields carries the id of its first field |
| RecordStore.UpdateError | servidor.c:352-368 | a quantity is refused exactly when it holds `.` or `,` or is negative; a price exactly when it holds `,` or is negative; other fields are not checked |
| RecordStore.SetField | servidor.c:371-373 | only field 1, 2 or 3 is overwritten; field 0 (the id) and the other fields are kept |
| RecordStore.Update | servidor.c:336-395 | the file is replaced exactly when the id is present and, if a line for it splits, the value passes validation; an unknown id answers not-found; a refusal answers the validation error |
| RecordStore.RewriteRow | servidor.c:347-378 | a line for another id is copied unchanged; a line for the id is dropped exactly when it does not split into four fields, and otherwise becomes one line |
| RecordStore.RewriteRows | servidor.c:345-382 | the temporary file never has more lines than the old one |
| RecordStore.RewriteEveryMatch | servidor.c:345-382 | when every line for the id splits, every line stays in place: each line for the id, not only the first, becomes its fields with the chosen field replaced, and each other line is copied |
| RecordStore.RewriteRowKeepsId | servidor.c:347-374 | a rewritten line still carries the id of the line it replaces |
| RecordStore.RewriteKeepsOtherRows | servidor.c:345-382 | an update leaves every line that does not carry the id untouched and in order |
| RecordStore.UpdateKeepsOthers | servidor.c:336-395 | after an update the other lines are unchanged in order and every other id finds what it found before |
| RecordStore.RewriteFindsTarget | servidor.c:345-378 | in the rewritten rows the first line for the id is the old one with only the chosen field replaced |
| RecordStore.UpdateThenLookup | servidor.c:336-395 | a `GET` after a successful update finds the line with only the chosen field replaced |
| RecordStore.RewriteOutsideFieldRange | servidor.c:370-374 | when every line carrying the id splits into four fields, a field number outside 1..3 gives back the old rows |
| RecordStore.UpdateOutsideFieldRange | servidor.c:370-387 | when the id is present and every line carrying it splits into four fields, a field number outside 1..3 reports success and leaves the file byte-identical |
| RecordStore.RewriteMalformedDrops | servidor.c:347-378 | when no line for the id splits, the rewrite removes exactly the lines for the id |
| RecordStore.UpdateOfMalformedIsDelete | servidor.c:347-387 | when no line for the id splits, the update succeeds and leaves the same file a delete would |
| RecordStore.MaxRowId | servidor.c:402-415 | the result is at least -1, at least every id read, and is either -1 or an id that occurs |
| RecordStore.MaxId | servidor.c:398-418 | a file with no line gives 0; otherwise the result is the highest record id: it bounds every id from above and is either -1 or an id that occurs |
| RecordStore.ParseAdd | servidor.c:429 | a parse succeeds only with a 1-255 character comma-free name, a 1-49 character comma-free quantity and a 1-49 character price |
| RecordStore.ParseAddOf | servidor.c:429 | a name of 1-255 comma-free characters, a quantity of 1-49 comma-free characters and a price of 1-49 non-blank characters, sent as `name,quantity,price`, are read back as exactly those fields |
| RecordStore.AddError | servidor.c:434-450 | a new record is accepted exactly when its quantity has no `.` or `,`, its price no `,`, and neither is negative |
| RecordStore.RecordLine | servidor.c:459 | the line `ADD` writes reads back, with `%ld,`, as the id it was given |
| RecordStore.RecordLineSplits | servidor.c:459 | with a non-empty comma-free name and a non-empty rendered price, the line `ADD` writes splits, as `UPDATE` reads lines, into the id, the name, the quantity as `%d` printed it and the rendered price |
| RecordStore.Append | servidor.c:454-459 | appending adds exactly one line at the end of the file |
| RecordStore.Add | servidor.c:421-462 | a format error or a validation error leaves the file; a success keeps the old lines as a prefix, adds exactly one line with id = highest id + 1, and announces that id |
| RecordStore.AddAssignsFreshId | servidor.c:452-459 | the appended line reads back as the new id, which is greater than every id already in the file |
| RecordStore.AddThenLookup | servidor.c:452-461 | a `GET` of the announced id finds the appended line |
| RecordStore.AddToEmptyFileIsHidden | servidor.c:405-407 | on a file with no line the new record gets id 1, becomes the header, and no `GET` finds it |
| Session.LockExclusive | servidor.c:207 | the non-blocking exclusive lock is granted exactly when the lock is free or already held exclusively by the same worker |
| Session.LockShared | servidor.c:238 | the non-blocking shared lock is refused exactly when another worker holds it exclusively |
| Session.UnlockShared | servidor.c:241 | a reader's unlock drops one reader, freeing the lock after the last |
| Session.Unlock | servidor.c:219 | the holder's unlock frees the exclusive lock and changes nothing else |
| Session.ParseCommand | servidor.c:204-307 | `BEGIN TRANSACTION`, `COMMIT TRANSACTION`, `EXIT` and `HELP` are recognised exactly for their lines |
| Session.ParseUpdateArgs | servidor.c:257 | a successful `%ld %d %[^\n]` scan yields a non-empty value that starts with a non-blank, holds no line feed, and is a piece of the text that ends at a line feed or at the end |
| Session.Line | servidor.c:309 | the answer is the text followed by one newline |
| Session.Answer | servidor.c:309-311 | a plain answer changes neither the worker nor the shared state |
| Session.Apply | servidor.c:259-283 | a store operation replaces the file only when it is done, and never touches the lock |
| Session.BeginCommand | servidor.c:204-213 | a granted lock enters the transaction with the exclusive lock; a refused one answers the busy error and changes nothing |
| Session.CommitCommand | servidor.c:216-224 | inside a transaction the lock is released and the flag cleared; outside, the answer is the no-transaction error and nothing changes |
| Session.GetCommand | servidor.c:228-249 | a read never changes the file or the flag; outside a transaction an exclusive lock held by another worker answers the busy error |
| Session.MutateCommand | servidor.c:257-287 | `UPDATE`, `ADD` and `DELETE` run the store operation only inside a transaction, else answer the transaction-required error |
| Session.Handle | servidor.c:194-311 | every command keeps the worker, changes the file only inside a transaction, moves the lock only between free and the worker's own exclusive hold, keeps flag and lock in agreement, and answers one newline-terminated line; the loop ends exactly on `EXIT` |
| Session.Teardown | servidor.c:313 | a worker ending inside a transaction releases its exclusive lock; otherwise nothing changes |
| Session.BeginWhileLocked | servidor.c:204-213 | `BEGIN TRANSACTION` while another worker holds the lock answers the busy error and leaves flag and lock unchanged |
| Session.BeginGranted | servidor.c:204-213 | `BEGIN TRANSACTION` on a free lock, or by its holder, enters the transaction |
| Session.CommitOutside | servidor.c:216-224 | `COMMIT TRANSACTION` outside a transaction answers the error and leaves the lock unchanged |
| Session.CommitInside | servidor.c:216-224 | `COMMIT TRANSACTION` inside a transaction frees the lock and clears the flag |
| Session.MutationNeedsTransaction | servidor.c:253-291 | a well-formed `UPDATE` or `DELETE`, or any `ADD`, outside a transaction answers the transaction-required error and leaves the file |
| Session.MalformedBeforeTransaction | servidor.c:257-289 | a malformed `UPDATE` or `DELETE` gets its usage error whether or not a transaction is open |
| Session.UnknownChangesNothing | servidor.c:304-307 | an unknown command changes nothing |
| Session.GetOutside | servidor.c:236-247 | outside a transaction, `GET` is refused while another worker holds the exclusive lock, and otherwise answers the record with the lock as it was |
| Session.TeardownReleases | servidor.c:313 | tearing down inside a transaction frees the lock |
| Session.MutualExclusion | servidor.c:207 | while every worker's flag agrees with the lock, at most one worker is inside a transaction |
| Session.HandleKeepsCoherent | servidor.c:194-311 | a command of one worker keeps every worker's flag in agreement with the shared lock |
| Session.TeardownKeepsCoherent | servidor.c:313 | a worker that ends leaves the others in agreement with the lock |
| Session.ClassifyAdd | servidor.c:269-272 | a line starting with `ADD ` is an `ADD` whose data is the rest of the line |
| Session.ClassifyGet | servidor.c:228-231 | a line starting with `GET ` is a `GET` of the id `%ld` reads after it |
| Session.ClassifyUpdate | servidor.c:253-257 | a line starting with `UPDATE ` is an `UPDATE` of the id, field and value `sscanf` reads after it |
| Session.ClassifyDelete | servidor.c:278-281 | a line starting with `DELETE ` is a `DELETE` of the id `%ld` reads after it |
| Session.HandleAdd | servidor.c:269-272 | inside a transaction an `ADD` line runs the store's append on its data |
| Session.HandleGet | servidor.c:228-249 | a well-formed `GET` line performs the locked read of its id |
| Session.AddLine | servidor.c:269-272 | an `ADD ` line without line ends is classified as `ADD` with the rest of the line as its data |
| Session.GetLine | servidor.c:228-231 | `GET ` followed by a printed id is classified as a `GET` of that id |
| Session.AddThenGet | servidor.c:269-272 | inside a transaction, `ADD` then `GET` of the announced id answers the appended line |
| Session.UpdateArgsRoundTrip | servidor.c:257 | `%ld %d %[^\n]` reads back any printed id and field number and a value that starts with a non-blank, printed with one blank between them; the value is read up to its first line feed, so one without a line feed is read whole |
| Session.UpdateArgsOf | servidor.c:257 | after `UPDATE `, a printed id followed by ` 2 -5` is read as that id, field 2 and value `-5` |
| Session.UpdateLine | servidor.c:253-257 | `UPDATE <id> 2 -5` is read as the id, field 2 and value `-5` |
| Session.NegativeQuantityRefused | servidor.c:253-259 | `UPDATE <id> 2 -5` on a record that splits answers the negative-quantity error and leaves the file |
| Admission.Capacity | servidor.c:20 | the waiting room holds the configured number of sockets, never more than the 256 slots of its array |
| Admission.Wire | servidor.c:141-162 | each handshake is written as one line ending in its only line feed |
| Admission.WireDistinct | servidor.c:141-162 | the lines `OK_CONNECT`, `WAIT` and `REJECT` differ, so a client can tell the three answers apart |
| Admission.Arrive | servidor.c:139-165 | a connection is admitted exactly when a worker slot is free, queued exactly when the room has space, and rejected otherwise; rejection changes nothing |
| Admission.ArriveAsWritten | servidor.c:139-165 | the code admits exactly when a worker slot is free, and otherwise queues exactly when the waiting count is below the configured limit, whatever that limit is; a queued socket goes into the slot indexed by the waiting count |
| Admission.WaitingRoomOverflow | servidor.c:155-160 | with a waiting limit of 257 the code writes the 257th waiting socket into slot 256 of the 256-slot array |
| Admission.ArriveAgrees | servidor.c:139-165 | whenever the waiting limit fits the array, the capped scheduler and the code agree |
| Admission.ChildExit | servidor.c:37-60 | with an empty queue the active count drops by one; otherwise the head of the queue is promoted, the rest keep their order, and the active count is unchanged |
| Admission.Promote | servidor.c:48-50 | the array shift hands out slot 0 and moves the used slots one place left, leaving the rest |
| Admission.PromoteMatchesChildExit | servidor.c:43-50 | after the shift the used slots hold exactly the queue that remains after a promotion |
| Admission.InitialValid | servidor.c:20-22 | the starting state satisfies the invariant |
| Admission.ArriveKeepsValid | servidor.c:139-165 | an arrival raises exactly one counter by one or changes nothing, and neither limit is exceeded |
| Admission.ChildExitKeepsValid | servidor.c:37-60 | the exit of a running worker keeps both limits and keeps the queue empty while a slot is free |
| Admission.Step | servidor.c:37-165 | each connection is answered with exactly one handshake notice about that connection |
| Admission.HandshakeOfStep | servidor.c:37-165 | a connection gets exactly one handshake notice about itself and a `SIGCHLD` gets none |
| Admission.Run | servidor.c:37-165 | over any run, the handshakes answer exactly the connections that arrived, one each, in arrival order |
| Admission.StepFifo | servidor.c:37-165 | one event keeps the queue discipline: waiting plus queued equals promoted plus still waiting |
| Admission.RunFifo | servidor.c:37-165 | over any run, the sockets waiting at the start plus those queued equal those promoted plus those still waiting, in order |
| Admission.PromotionsInOrder | servidor.c:43-50 | the promotions of a run come in queue order: nobody is promoted ahead of an earlier waiter |
| Admission.RunKeepsValid | servidor.c:37-165 | the invariant holds along every run of events |
| Admission.OneSlotOneSeat | servidor.c:139-165 | with one slot and one seat, three clients get `OK_CONNECT`, `WAIT` and `REJECT`, and the waiter is promoted when the first worker exits |
| FileLocks.SetLock | servidor.c:207 | `flock` on one inode sets that inode's lock and no other |
| FileLocks.Open | servidor.c:184 | a worker's descriptor refers to the inode the path names when its session starts |
| FileLocks.BeginAsWritten | servidor.c:204-213 | `BEGIN TRANSACTION` locks the inode of the worker's own descriptor, and is granted exactly when that inode's lock is free or already the worker's |
| FileLocks.Replace | servidor.c:386 | after `remove` and `rename` the path names a new unlocked inode, and the older inodes keep their locks |
| FileLocks.SameInodeExcludes | servidor.c:204-213 | among workers whose descriptors share an inode, a held exclusive lock refuses another worker's `BEGIN TRANSACTION` |
| FileLocks.TwoTransactionsAfterRename | servidor.c:184-213 | a worker that starts a transaction and renames the file, and a worker that connects afterwards and begins, are both inside a transaction at once |

## Left out

- Sockets, `select`, `accept`, `read` and `write` are not modelled. Each client line arrives as one string, and the answer is the text `Handle` returns.
- A multi-line `read` is not modelled: each read is taken to carry one command.
- Partial reads and NUL bytes are not modelled.
- `fork` is left out. A spawned worker is an abstract event, so a failed `fork` that still increments the count is not modelled.
- `waitpid` is left out. Each reaped child is one `ChildDone` event.
- Signal-handler re-entrancy and races on `clientes_activos` are left out, because they are concurrency.
- The `CLOSE` console command and the `kill(0, SIGTERM)` shutdown are left out, because they are process control.
- `printf` logging is left out.
- `flock` is modelled in `Session` as one abstract lock value shared by all workers. Blocking and the kernel's per-descriptor bookkeeping are left out. The kernel locks the inode a descriptor refers to; `FileLocks` models that separately (see Findings).
- Session.MutualExclusion: holds for the one shared lock of `Session`, not for the program as written. After a successful `UPDATE` or `DELETE` the holder's lock stays on the renamed-away inode, so a worker that connects later can start a second transaction (`FileLocks.TwoTransactionsAfterRename`).
- Session.HandleKeepsCoherent: keeps every flag in agreement with the one shared lock of `Session`. In the program as written a rename splits the lock across two inodes, and that agreement is not what the program keeps.
- Failures of `open`, `fopen`, `remove` and `rename` are left out. Examples are "ERROR|No se pudo abrir la BD" and the -1 that `obtener_max_id` returns when it cannot open the file. The file is a value that is always readable.
- `atof` and the `%.2f` price rendering are left out, because they are floating point. The rendering is the parameter `fmtPrice`.
- Scan.PriceNegative: decides `atof(s) < 0.0` only for plain decimal notation. Exponents, hexadecimal floats, `inf` and `nan` are not recognised.
- Integer width is not modelled, because Dafny integers are unbounded. This covers overflow of `long` and `int` in `%ld`, `%d` and `atoi`, and in the highest id + 1.
- Buffer truncation is not modelled. This covers `fgets` lines longer than 1023 bytes, the 255-character `snprintf` of a new field value, and answers longer than 1024 bytes.
- The `%[^,]` and `%[^\n]` conversions of servidor.c:350 have no width, so a field of 256 or more characters overflows its 256-byte `partes` buffer. That is undefined behaviour and is not modelled: the model reads the whole field.
- Every line of the file is taken to end in a newline, and `Line` values hold none. A final line without a newline is not modelled separately.
- The file is either empty or a header plus record lines. `Store.Empty` models a file with no line at all.
- Negative or zero limits are allowed and behave as the comparisons in the code make them behave. The `listen` backlog is not modelled.
- `coordinador.c`, `generador.c`, `estructuras.h` and `cliente.c` are not part of this model. They are the shared-memory producer and consumer pipeline that generates the file, and the interactive client.

## Findings

| source | as written | input that shows it | evidently intended | confidence | as-written member | corrected member |
|---|---|---|---|---|---|---|
| servidor.c:155-160 | a socket is queued while the waiting count is below the user-supplied `max_clientes_espera`, and stored at `sockets_en_espera[clientes_en_espera_app++]`; the array has `MAX_CLIENTES_TOTAL` (256) slots | start with limits 1 active and 257 waiting; admit 1 client, queue 256 clients, then connect one more: it is queued into slot 256, past the end of the array | the waiting room never holds more sockets than its array: the limit is capped at 256 | medium; not executed | Admission.ArriveAsWritten, Admission.WaitingRoomOverflow | Admission.Arrive, Admission.Capacity, Admission.ArriveKeepsValid |
| servidor.c:184, 207, 386, 492-493 | each worker opens the table file once and `flock`s that descriptor; a successful `UPDATE` or `DELETE` removes the file and renames the temporary file into its place | worker 1 sends `BEGIN TRANSACTION`, then a `DELETE` of an existing id; worker 2 connects afterwards and sends `BEGIN TRANSACTION`: it is granted, because its lock is on the new inode, and both workers are inside a transaction | one lock for the table, so that at most one worker is inside a transaction | medium; not executed | FileLocks.BeginAsWritten, FileLocks.Replace, FileLocks.TwoTransactionsAfterRename | Session.LockExclusive, Session.MutualExclusion, Session.HandleKeepsCoherent |
