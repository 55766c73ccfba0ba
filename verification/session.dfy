/** One session worker (`manejar_cliente`): the command loop a forked child
    runs for one client. Its own state is the `en_transaccion` flag; the
    state it shares with every other worker is the advisory lock on the table
    file and the file itself. Each command line is handled atomically by
    `Handle`, which yields the one-line answer and the new state; `Teardown`
    is what the worker does once its loop ends. */
module Session {
  import opened Wrappers
  import opened Scan
  import RecordStore

  /** The process id of a worker. */
  type WorkerId = int

  type Positive = n: int | n > 0 witness 1

  /** The `flock` state of the table file: unlocked, held shared by some
      readers, or held exclusively by one worker. */
  datatype Lock = Free | Shared(readers: Positive) | Exclusive(holder: WorkerId)

  /** `flock(fd, LOCK_EX | LOCK_NB)` by worker `w`: granted when nobody holds
      the lock or `w` already holds it exclusively. */
  function LockExclusive(l: Lock, w: WorkerId): (r: Option<Lock>)
    ensures r.Some? <==> l == Free || l == Exclusive(w)
    ensures r.Some? ==> r.value == Exclusive(w)
  {
    match l
    case Free => Some(Exclusive(w))
    case Shared(_) => None
    case Exclusive(h) => if h == w then Some(l) else None
  }

  /** `flock(fd, LOCK_SH | LOCK_NB)` by worker `w`: refused only while another
      worker holds the lock exclusively; `w`'s own exclusive lock is converted. */
  function LockShared(l: Lock, w: WorkerId): (r: Option<Lock>)
    ensures r.Some? <==> !(l.Exclusive? && l.holder != w)
    ensures r.Some? ==> r.value.Shared?
  {
    match l
    case Free => Some(Shared(1))
    case Shared(n) => Some(Shared(n + 1))
    case Exclusive(h) => if h == w then Some(Shared(1)) else None
  }

  /** `flock(fd, LOCK_UN)` by a reader. */
  function UnlockShared(l: Lock): (r: Lock)
    requires l.Shared?
    ensures l.readers == 1 ==> r == Free
    ensures l.readers > 1 ==> r == Shared(l.readers - 1)
  {
    if l.readers == 1 then Free else Shared(l.readers - 1)
  }

  /** `flock(fd, LOCK_UN)` by a worker that holds no shared lock: its
      exclusive lock, if it has one, is released. */
  function Unlock(l: Lock, w: WorkerId): (r: Lock)
    ensures l == Exclusive(w) ==> r == Free
    ensures l != Exclusive(w) ==> r == l
  {
    if l == Exclusive(w) then Free else l
  }

  /** A worker's own state. */
  datatype Session = Session(worker: WorkerId, inTransaction: bool)

  /** The state shared by all workers. */
  datatype World = World(lock: Lock, store: RecordStore.Store)

  /** The result of one command: the text written back, the new states, and
      whether the loop goes on. */
  datatype Response = Response(text: string, session: Session, world: World, open: bool)

  /** A worker is inside a transaction exactly when it holds the exclusive lock. */
  predicate Holds(s: Session, l: Lock) {
    s.inTransaction <==> l == Exclusive(s.worker)
  }

  // ---------------------------------------------------------------------
  // Commands

  datatype UpdateArgs = UpdateArgs(id: int, field: int, value: string)

  /** A command line as the chain of `strcmp` / `strncmp` tests classifies
      it, with the arguments `sscanf` read (`None` when it matched fewer
      conversions than it needs). `ADD` keeps its raw text: it is parsed only
      inside a transaction. */
  datatype Command =
    | Begin
    | Commit
    | Get(id: Option<int>)
    | Update(args: Option<UpdateArgs>)
    | Add(data: string)
    | Delete(id: Option<int>)
    | Exit
    | Help
    | Unknown

  predicate StartsWith(s: string, prefix: string) {
    |prefix| <= |s| && s[..|prefix|] == prefix
  }

  /** `sscanf(rest, "%ld %d %[^\n]", ...) == 3`: an id, a field number and a
      non-empty value. The blank in the format skips every blank, line feeds
      included; the value then runs up to the next line feed or the end. */
  function ParseUpdateArgs(rest: string): (r: Option<UpdateArgs>)
    ensures r.Some? ==> |r.value.value| > 0 && !IsSpace(r.value.value[0])
    ensures r.Some? ==> '\n' !in r.value.value
    ensures r.Some? ==> |r.value.value| < |rest|
    ensures r.Some? ==> exists t :: IsSuffix(t, rest) && r.value.value <= t
                                     && (|r.value.value| < |t| ==> t[|r.value.value|] == '\n')
  {
    hide ParseLong, SkipSpaces, IsSuffix;
    match ParseLong(rest)
    case None => None
    case Some(a) =>
      match ParseLong(a.rest)
      case None => None
      case Some(b) =>
        var v := SkipSpaces(b.rest);
        if |v| == 0 then None
        else
          Scan.SuffixOfSuffix(rest, a.rest, b.rest);
          Scan.SuffixOfSuffix(rest, b.rest, v);
          var w := UpToNewline(v);
          assert w[0] == v[0];
          Some(UpdateArgs(a.value, b.value, w))
  }

  function ParseCommand(line: string): (c: Command)
    ensures c == Exit <==> line == "EXIT"
    ensures c == Begin <==> line == "BEGIN TRANSACTION"
    ensures c == Commit <==> line == "COMMIT TRANSACTION"
    ensures c == Help <==> line == "HELP"
  {
    if line == "BEGIN TRANSACTION" then Begin
    else if line == "COMMIT TRANSACTION" then Commit
    else if StartsWith(line, "GET ") then assert line[0] == 'G'; Get(ParseValue(line[4..]))
    else if StartsWith(line, "UPDATE ") then Update(ParseUpdateArgs(line[7..]))
    else if StartsWith(line, "ADD ") then assert line[0] == 'A'; Add(line[4..])
    else if StartsWith(line, "DELETE ") then Delete(ParseValue(line[7..]))
    else if line == "EXIT" then Exit
    else if line == "HELP" then Help
    else Unknown
  }

  const TxStarted := "Transacción iniciada."
  const TxBusy := "ERROR|Base de datos bloqueada por otra transacción."
  const TxCommitted := "Transacción confirmada."
  const NoTx := "ERROR|No hay transacción activa."
  const ReadBusy := "ERROR|Base de datos bloqueada por una transacción."
  const GetUsage := "ERROR|Uso: GET <ID>"
  const UpdateUsage := "ERROR|Uso: UPDATE <ID> <Nro_Campo> <Valor>"
  const DeleteUsage := "ERROR|Uso: DELETE <ID>"
  const NeedTx := "ERROR|Operación requiere una transacción."
  const Farewell := "Saliendo...\n"
  const HelpText := "Comandos: GET, UPDATE, ADD, DELETE, BEGIN TRANSACTION, COMMIT TRANSACTION, EXIT"
  const UnknownCommand := "ERROR|Comando desconocido. Escriba HELP para ver la lista de comandos."

  /** The answer line: the text and the newline `strncat` appends. */
  function Line(text: string): (l: string)
    ensures |l| == |text| + 1 && l[..|text|] == text && l[|text|] == '\n'
  {
    text + "\n"
  }

  /** What every command keeps, whatever it answers: the worker is the same,
      the file changes only inside a transaction, the lock is either left
      alone, taken from free or given back, a worker's flag keeps agreeing with
      the lock, and the answer is one newline-terminated line. */
  predicate Lawful(s: Session, w: World, r: Response) {
    && r.session.worker == s.worker
    && (r.world.store != w.store ==> s.inTransaction && r.session.inTransaction)
    && (|| r.world.lock == w.lock
        || (w.lock == Free && r.world.lock == Exclusive(s.worker))
        || (w.lock == Exclusive(s.worker) && r.world.lock == Free))
    && (Holds(s, w.lock) ==> Holds(r.session, r.world.lock))
    && |r.text| > 0 && r.text[|r.text| - 1] == '\n'
  }

  /** An answer that changes nothing. */
  function Answer(text: string, s: Session, w: World): (r: Response)
    ensures r.open && r.text == Line(text) && r.session == s && r.world == w
    ensures Lawful(s, w, r)
  {
    Response(Line(text), s, w, true)
  }

  /** A store operation's outcome, inside a transaction: only a `Done`
      replaces the file. */
  function Apply(s: Session, w: World, o: RecordStore.Outcome): (r: Response)
    requires s.inTransaction
    ensures r.open && r.text == Line(o.reply) && r.session == s && r.world.lock == w.lock
    ensures r.world.store == (if o.Done? then o.store else w.store)
    ensures Lawful(s, w, r)
  {
    match o
    case Done(st, text) => Response(Line(text), s, w.(store := st), true)
    case Refused(text) => Answer(text, s, w)
  }

  /** `BEGIN TRANSACTION`: the non-blocking exclusive lock decides. */
  function BeginCommand(s: Session, w: World): (r: Response)
    ensures r.open && Lawful(s, w, r) && r.world.store == w.store
    ensures LockExclusive(w.lock, s.worker).Some? ==>
              r == Answer(TxStarted, s.(inTransaction := true), w.(lock := Exclusive(s.worker)))
    ensures LockExclusive(w.lock, s.worker).None? ==> r == Answer(TxBusy, s, w)
  {
    match LockExclusive(w.lock, s.worker)
    case Some(l) => Answer(TxStarted, s.(inTransaction := true), w.(lock := l))
    case None => Answer(TxBusy, s, w)
  }

  /** `COMMIT TRANSACTION`: unlock and leave the transaction, if in one. */
  function CommitCommand(s: Session, w: World): (r: Response)
    ensures r.open && Lawful(s, w, r) && r.world.store == w.store && !r.session.inTransaction
    ensures s.inTransaction ==> r == Answer(TxCommitted, s.(inTransaction := false), w.(lock := Unlock(w.lock, s.worker)))
    ensures !s.inTransaction ==> r == Answer(NoTx, s, w)
  {
    if s.inTransaction then
      Answer(TxCommitted, s.(inTransaction := false), w.(lock := Unlock(w.lock, s.worker)))
    else Answer(NoTx, s, w)
  }

  /** `GET id`: inside a transaction the worker reads under its own exclusive
      lock; outside one it takes a shared lock, reads and unlocks at once. */
  function GetCommand(s: Session, w: World, id: int): (r: Response)
    ensures r.open && Lawful(s, w, r) && r.session == s && r.world.store == w.store
    ensures r.world.lock == w.lock || (w.lock == Exclusive(s.worker) && r.world.lock == Free)
    ensures !s.inTransaction && LockShared(w.lock, s.worker).None? ==> r == Answer(ReadBusy, s, w)
    ensures s.inTransaction || LockShared(w.lock, s.worker).Some? ==>
              r.text == Line(RecordStore.GetReply(w.store, id))
  {
    if s.inTransaction then Answer(RecordStore.GetReply(w.store, id), s, w)
    else
      match LockShared(w.lock, s.worker)
      case None => Answer(ReadBusy, s, w)
      case Some(l) => Answer(RecordStore.GetReply(w.store, id), s, w.(lock := UnlockShared(l)))
  }

  /** `UPDATE`, `ADD` and `DELETE`, once their arguments are read: the store
      operation runs only inside a transaction. */
  function MutateCommand(s: Session, w: World, o: RecordStore.Outcome): (r: Response)
    ensures r.open && Lawful(s, w, r) && r.session == s && r.world.lock == w.lock
    ensures s.inTransaction ==> r == Apply(s, w, o)
    ensures !s.inTransaction ==> r == Answer(NeedTx, s, w)
  {
    if s.inTransaction then Apply(s, w, o) else Answer(NeedTx, s, w)
  }

  /** One pass of the worker loop on the bytes `input` read from the client.
      `fmtPrice` renders a price as `%.2f` does (see `RecordStore.RecordLine`). */
  function Handle(s: Session, w: World, fmtPrice: string -> string, input: string): (r: Response)
    ensures Lawful(s, w, r)
    ensures !r.open <==> CutLine(input) == "EXIT"
    ensures !r.open ==> r == Response(Farewell, s, w, false)
  {
    hide ParseCommand, CutLine, ParseValue, ParseLong, Atoi, PriceNegative, Line,
      RecordStore.Update, RecordStore.Add, RecordStore.Delete, RecordStore.GetReply,
      Answer, Apply, BeginCommand, CommitCommand, GetCommand, MutateCommand;
    match ParseCommand(CutLine(input))
    case Begin => BeginCommand(s, w)
    case Commit => CommitCommand(s, w)
    case Get(id) =>
      (match id
       case None => Answer(GetUsage, s, w)
       case Some(n) => GetCommand(s, w, n))
    case Update(args) =>
      (match args
       case None => Answer(UpdateUsage, s, w)
       case Some(a) =>
         if s.inTransaction then MutateCommand(s, w, RecordStore.Update(w.store, a.id, a.field, a.value))
         else Answer(NeedTx, s, w))
    case Add(data) =>
      if s.inTransaction then MutateCommand(s, w, RecordStore.Add(w.store, data, fmtPrice))
      else Answer(NeedTx, s, w)
    case Delete(id) =>
      (match id
       case None => Answer(DeleteUsage, s, w)
       case Some(n) =>
         if s.inTransaction then MutateCommand(s, w, RecordStore.Delete(w.store, n))
         else Answer(NeedTx, s, w))
    case Exit => Response(Farewell, s, w, false)
    case Help => Answer(HelpText, s, w)
    case Unknown => Answer(UnknownCommand, s, w)
  }

  /** What the worker does once its loop ends (`EXIT` or a closed
      connection): a worker inside a transaction unlocks the file. */
  function Teardown(s: Session, w: World): (r: World)
    ensures r.store == w.store
    ensures s.inTransaction && w.lock == Exclusive(s.worker) ==> r.lock == Free
    ensures !s.inTransaction ==> r == w
    ensures r.lock == w.lock || (w.lock == Exclusive(s.worker) && r.lock == Free)
  {
    if s.inTransaction then w.(lock := Unlock(w.lock, s.worker)) else w
  }

  // ---------------------------------------------------------------------
  // Properties of single commands

  /** `BEGIN TRANSACTION` while another worker holds the exclusive lock, or
      a reader holds it shared, answers the busy error and changes nothing. */
  lemma BeginWhileLocked(s: Session, w: World, fmtPrice: string -> string, input: string)
    requires CutLine(input) == "BEGIN TRANSACTION"
    requires w.lock.Shared? || (w.lock.Exclusive? && w.lock.holder != s.worker)
    ensures Handle(s, w, fmtPrice, input) == Response(Line(TxBusy), s, w, true)
  {
  }

  /** `BEGIN TRANSACTION` on a free lock enters the transaction; inside one
      it succeeds again and changes nothing. */
  lemma BeginGranted(s: Session, w: World, fmtPrice: string -> string, input: string)
    requires CutLine(input) == "BEGIN TRANSACTION"
    requires w.lock == Free || w.lock == Exclusive(s.worker)
    ensures Handle(s, w, fmtPrice, input) == Response(Line(TxStarted), s.(inTransaction := true), w.(lock := Exclusive(s.worker)), true)
  {
  }

  /** `COMMIT TRANSACTION` outside a transaction is an error and leaves the
      lock as it was. */
  lemma CommitOutside(s: Session, w: World, fmtPrice: string -> string, input: string)
    requires CutLine(input) == "COMMIT TRANSACTION" && !s.inTransaction
    ensures Handle(s, w, fmtPrice, input) == Response(Line(NoTx), s, w, true)
  {
  }

  /** `COMMIT TRANSACTION` inside a transaction frees the lock and leaves it. */
  lemma CommitInside(s: Session, w: World, fmtPrice: string -> string, input: string)
    requires CutLine(input) == "COMMIT TRANSACTION" && s.inTransaction && Holds(s, w.lock)
    ensures Handle(s, w, fmtPrice, input) == Response(Line(TxCommitted), s.(inTransaction := false), w.(lock := Free), true)
  {
  }

  /** A well-formed `UPDATE` or `DELETE`, or any `ADD`, outside a
      transaction is refused and the file is untouched. */
  lemma MutationNeedsTransaction(s: Session, w: World, fmtPrice: string -> string, input: string)
    requires !s.inTransaction
    requires ParseCommand(CutLine(input)).Add?
          || (ParseCommand(CutLine(input)).Update? && ParseCommand(CutLine(input)).args.Some?)
          || (ParseCommand(CutLine(input)).Delete? && ParseCommand(CutLine(input)).id.Some?)
    ensures Handle(s, w, fmtPrice, input) == Response(Line(NeedTx), s, w, true)
  {
  }

  /** A malformed `UPDATE` or `DELETE` gets its usage error whether or not a
      transaction is open, before the transaction is checked. */
  lemma MalformedBeforeTransaction(s: Session, w: World, fmtPrice: string -> string, input: string)
    requires ParseCommand(CutLine(input)) == Update(None) || ParseCommand(CutLine(input)) == Delete(None)
    ensures Handle(s, w, fmtPrice, input).session == s && Handle(s, w, fmtPrice, input).world == w
    ensures Handle(s, w, fmtPrice, input).text == Line(if ParseCommand(CutLine(input)).Update? then UpdateUsage else DeleteUsage)
  {
  }

  /** An unrecognised line changes nothing. */
  lemma UnknownChangesNothing(s: Session, w: World, fmtPrice: string -> string, input: string)
    requires ParseCommand(CutLine(input)) == Unknown
    ensures Handle(s, w, fmtPrice, input) == Response(Line(UnknownCommand), s, w, true)
  {
  }

  /** `GET` outside a transaction while another worker is inside one is
      refused; otherwise it answers the record (or not-found) and leaves the
      lock as it found it. */
  lemma GetOutside(s: Session, w: World, fmtPrice: string -> string, input: string, id: int)
    requires ParseCommand(CutLine(input)) == Get(Some(id)) && !s.inTransaction && Holds(s, w.lock)
    ensures w.lock.Exclusive? ==> Handle(s, w, fmtPrice, input) == Response(Line(ReadBusy), s, w, true)
    ensures !w.lock.Exclusive? ==> Handle(s, w, fmtPrice, input) == Response(Line(RecordStore.GetReply(w.store, id)), s, w, true)
  {
  }

  /** Tearing down inside a transaction releases the lock. */
  lemma TeardownReleases(s: Session, w: World)
    requires s.inTransaction && Holds(s, w.lock)
    ensures Teardown(s, w) == w.(lock := Free)
  {
  }

  // ---------------------------------------------------------------------
  // Many workers

  /** Every worker's flag agrees with the lock, and an exclusive holder is a
      live worker. */
  predicate Coherent(flags: map<WorkerId, bool>, l: Lock) {
    && (forall v :: v in flags ==> (flags[v] <==> l == Exclusive(v)))
    && (l.Exclusive? ==> l.holder in flags)
  }

  /** At most one worker is inside a transaction. */
  lemma MutualExclusion(flags: map<WorkerId, bool>, l: Lock, a: WorkerId, b: WorkerId)
    requires Coherent(flags, l)
    requires a in flags && b in flags && flags[a] && flags[b]
    ensures a == b
  {
  }

  /** A command of one worker keeps every worker's flag in agreement with the lock. */
  lemma HandleKeepsCoherent(flags: map<WorkerId, bool>, w: World, v: WorkerId, fmtPrice: string -> string, input: string)
    requires Coherent(flags, w.lock) && v in flags
    ensures var r := Handle(Session(v, flags[v]), w, fmtPrice, input);
            Coherent(flags[v := r.session.inTransaction], r.world.lock)
  {
    var r := Handle(Session(v, flags[v]), w, fmtPrice, input);
    assert Holds(Session(v, flags[v]), w.lock);
    assert Holds(r.session, r.world.lock);
  }

  /** A worker that ends leaves the others coherent with the lock. */
  lemma TeardownKeepsCoherent(flags: map<WorkerId, bool>, w: World, v: WorkerId)
    requires Coherent(flags, w.lock) && v in flags
    ensures Coherent(flags - {v}, Teardown(Session(v, flags[v]), w).lock)
  {
  }

  // ---------------------------------------------------------------------
  // Scenarios

  /** A line without line ends is read whole. */
  predicate Unbroken(line: string) {
    forall i :: 0 <= i < |line| ==> line[i] != '\r' && line[i] != '\n'
  }

  lemma UnbrokenAppend(a: string, b: string)
    requires Unbroken(a) && Unbroken(b)
    ensures Unbroken(a + b)
  {
    forall i | 0 <= i < |a + b| ensures (a + b)[i] != '\r' && (a + b)[i] != '\n' {
      if i >= |a| { assert (a + b)[i] == b[i - |a|]; }
    }
  }

  lemma {:induction false} CutLineOfLine(line: string)
    requires Unbroken(line)
    ensures CutLine(line) == line
  {
    if |line| > 0 {
      assert forall i :: 0 <= i < |line[1..]| ==> line[1..][i] == line[i + 1];
      CutLineOfLine(line[1..]);
      assert line == [line[0]] + line[1..];
    }
  }

  /** The first characters of a line decide which `strncmp` tests fail. */
  lemma NotPrefix(line: string, prefix: string)
    requires |prefix| > 0 && |line| > 0 && line[0] != prefix[0]
    ensures !StartsWith(line, prefix)
  {
    if |prefix| <= |line| {
      assert line[..|prefix|][0] == line[0];
    }
  }

  /** A line that starts with `ADD ` is an `ADD` of the rest of the line. */
  lemma ClassifyAdd(line: string)
    requires |line| >= 4 && line[..4] == "ADD "
    ensures ParseCommand(line) == Add(line[4..])
  {
    hide ParseValue, ParseUpdateArgs;
    assert line[0] == 'A';
    assert line != "BEGIN TRANSACTION" && line != "COMMIT TRANSACTION";
    NotPrefix(line, "GET ");
    NotPrefix(line, "UPDATE ");
  }

  /** A line that starts with `GET ` is a `GET` of what `%ld` reads after it. */
  lemma ClassifyGet(line: string)
    requires |line| >= 4 && line[..4] == "GET "
    ensures ParseCommand(line) == Get(ParseValue(line[4..]))
  {
    hide ParseValue, ParseUpdateArgs;
    assert line[0] == 'G';
    assert line != "BEGIN TRANSACTION" && line != "COMMIT TRANSACTION";
  }

  /** A line that starts with `UPDATE ` is an `UPDATE` of what `sscanf` reads
      after it. */
  lemma ClassifyUpdate(line: string)
    requires |line| >= 7 && line[..7] == "UPDATE "
    ensures ParseCommand(line) == Update(ParseUpdateArgs(line[7..]))
  {
    hide ParseValue, ParseUpdateArgs;
    assert line[0] == 'U';
    assert line != "BEGIN TRANSACTION" && line != "COMMIT TRANSACTION";
    NotPrefix(line, "GET ");
  }

  /** A line that starts with `DELETE ` is a `DELETE` of the id `%ld` reads
      after it. */
  lemma ClassifyDelete(line: string)
    requires |line| >= 7 && line[..7] == "DELETE "
    ensures ParseCommand(line) == Delete(ParseValue(line[7..]))
  {
    hide ParseValue, ParseUpdateArgs;
    assert line[0] == 'D';
    assert line != "BEGIN TRANSACTION" && line != "COMMIT TRANSACTION";
    NotPrefix(line, "GET ");
    NotPrefix(line, "UPDATE ");
    NotPrefix(line, "ADD ");
  }

  lemma AddLine(data: string)
    requires Unbroken(data)
    ensures CutLine("ADD " + data) == "ADD " + data
    ensures ParseCommand("ADD " + data) == Add(data)
  {
    var line := "ADD " + data;
    UnbrokenAppend("ADD ", data);
    CutLineOfLine(line);
    assert line[..4] == "ADD " && line[4..] == data;
    ClassifyAdd(line);
  }

  lemma IntToStringUnbroken(n: int)
    ensures Unbroken(IntToString(n))
  {
    var d := NatToString(if n < 0 then -n else n);
    assert forall i :: 0 <= i < |d| ==> IsDigit(d[i]);
    if n < 0 {
      UnbrokenAppend("-", d);
    }
  }

  lemma GetLine(n: int)
    ensures CutLine("GET " + IntToString(n)) == "GET " + IntToString(n)
    ensures ParseCommand("GET " + IntToString(n)) == Get(Some(n))
  {
    var d := IntToString(n);
    var line := "GET " + d;
    IntToStringUnbroken(n);
    UnbrokenAppend("GET ", d);
    CutLineOfLine(line);
    assert line[..4] == "GET " && line[4..] == d + [];
    ClassifyGet(line);
    ParseValueOfIntToString(n, []);
  }

  /** An `ADD` inside a transaction is the store's append. */
  lemma HandleAdd(s: Session, w: World, fmtPrice: string -> string, input: string, data: string)
    requires ParseCommand(CutLine(input)) == Add(data) && s.inTransaction
    ensures Handle(s, w, fmtPrice, input) == Apply(s, w, RecordStore.Add(w.store, data, fmtPrice))
  {
    hide CutLine, ParseValue, ParseLong, Atoi, PriceNegative, RecordStore.Add;
  }

  /** A well-formed `GET` is the read of `GetCommand`. */
  lemma HandleGet(s: Session, w: World, fmtPrice: string -> string, input: string, id: int)
    requires ParseCommand(CutLine(input)) == Get(Some(id))
    ensures Handle(s, w, fmtPrice, input) == GetCommand(s, w, id)
  {
    hide CutLine, ParseValue, ParseLong, Atoi, PriceNegative, GetCommand;
  }

  /** `ADD` inside a transaction, then `GET` of the id it announced, answers
      the line that was appended: the id, the name as sent, the quantity as
      `%d` prints it, and the rendered price. */
  lemma AddThenGet(s: Session, w: World, fmtPrice: string -> string, data: string)
    requires s.inTransaction && w.store.Table?
    requires Unbroken(data)
    requires RecordStore.Add(w.store, data, fmtPrice).Done?
    ensures var n := RecordStore.MaxId(w.store) + 1;
            var r1 := Handle(s, w, fmtPrice, "ADD " + data);
            var r2 := Handle(r1.session, r1.world, fmtPrice, "GET " + IntToString(n));
            r2.text == Line(CutLine(RecordStore.RecordLine(n, RecordStore.ParseAdd(data).value, fmtPrice)))
  {
    hide Handle, ParseCommand, CutLine, ParseValue, ParseLong, Atoi, PriceNegative, Line, IntToString,
      RecordStore.Add, RecordStore.ParseAdd, RecordStore.RecordLine, RecordStore.MaxId,
      GetCommand, Lawful, RecordStore.Lookup;
    var n := RecordStore.MaxId(w.store) + 1;
    AddLine(data);
    HandleAdd(s, w, fmtPrice, "ADD " + data, data);
    var o := RecordStore.Add(w.store, data, fmtPrice);
    var r1 := Handle(s, w, fmtPrice, "ADD " + data);
    assert r1.session == s && r1.world.store == o.store;
    RecordStore.AddThenLookup(w.store, data, fmtPrice);
    GetLine(n);
    HandleGet(r1.session, r1.world, fmtPrice, "GET " + IntToString(n), n);
    var r2 := Handle(r1.session, r1.world, fmtPrice, "GET " + IntToString(n));
    assert r2.text == Line(RecordStore.GetReply(o.store, n));
  }

  lemma UpdateLine(id: int, rest: string)
    requires rest == " 2 -5"
    ensures CutLine("UPDATE " + IntToString(id) + rest) == "UPDATE " + IntToString(id) + rest
    ensures ParseCommand("UPDATE " + IntToString(id) + rest) == Update(Some(UpdateArgs(id, 2, "-5")))
  {
    var d := IntToString(id);
    var line := "UPDATE " + d + rest;
    IntToStringUnbroken(id);
    UnbrokenAppend("UPDATE ", d);
    UnbrokenAppend("UPDATE " + d, rest);
    CutLineOfLine(line);
    assert line[..7] == "UPDATE " && line[7..] == d + rest;
    ClassifyUpdate(line);
    UpdateArgsOf(id, rest);
  }

  /** How `ParseUpdateArgs` reads a text whose two conversions are known. */
  lemma ParseUpdateArgsSteps(rest: string, a: Parsed, b: Parsed)
    requires ParseLong(rest) == Some(a) && ParseLong(a.rest) == Some(b) && |SkipSpaces(b.rest)| > 0
    ensures ParseUpdateArgs(rest) == Some(UpdateArgs(a.value, b.value, UpToNewline(SkipSpaces(b.rest))))
  {
    hide ParseLong, SkipSpaces, IsSuffix, UpToNewline;
  }

  /** The arguments of `UPDATE id field value` are read back: a printed id,
      a blank, a printed field number, a blank and a value that starts with
      a non-blank give that id and field and the value up to its first line
      feed; a value without a line feed is read whole. */
  lemma UpdateArgsRoundTrip(id: int, field: int, value: string)
    requires |value| > 0 && !IsSpace(value[0])
    ensures ParseUpdateArgs(IntToString(id) + (" " + (IntToString(field) + (" " + value))))
            == Some(UpdateArgs(id, field, UpToNewline(value)))
    ensures '\n' !in value ==>
              ParseUpdateArgs(IntToString(id) + (" " + (IntToString(field) + (" " + value))))
              == Some(UpdateArgs(id, field, value))
  {
    if '\n' !in value {
      UpToNewlineWhole(value);
    }
    var tail := " " + value;
    assert SkipSpaces(tail) == value by {
      SkipSpacesNone(value);
      assert tail[1..] == value;
      assert SpaceRun(tail) == 1 + SpaceRun(value);
    }
    hide ParseUpdateArgs, ParseLong, SkipSpaces, IsSuffix, IntToString, Atoi, ParseValue, UpToNewline;
    var rest1 := " " + (IntToString(field) + tail);
    assert rest1[0] == ' ' && tail[0] == ' ';
    ParseLongOfIntToString(id, rest1);
    ParseLongSkipsBlank(IntToString(field) + tail);
    ParseLongOfIntToString(field, tail);
    ParseUpdateArgsSteps(IntToString(id) + rest1, Parsed(id, rest1), Parsed(field, tail));
  }

  lemma UpdateArgsOf(id: int, rest: string)
    requires rest == " 2 -5"
    ensures ParseUpdateArgs(IntToString(id) + rest) == Some(UpdateArgs(id, 2, "-5"))
  {
    hide ParseLong, SkipSpaces, IntToString;
    ParseLongOfIntToString(id, rest);
    QuantityTail();
    assert '\n' !in "-5";
    UpToNewlineWhole("-5");
  }

  lemma QuantityTail()
    ensures ParseLong(" 2 -5") == Some(Parsed(2, " -5"))
    ensures SkipSpaces(" -5") == "-5"
  {
    hide Atoi, PriceNegative, HasNonzeroDigit, IntToString, NatToString, UpToNewline, ParseUpdateArgs, ParseLong,
      SkipSpaces, SpaceRun, DigitRun, DigitsValue, StripSign, IsSuffix;
    BlankBeforeDigits();
    BlankBeforeMinus();
    DigitTwo();
    ParseLongSteps(" 2 -5", "2 -5", "2 -5", 1);
  }

  lemma BlankBeforeDigits()
    ensures SkipSpaces(" 2 -5") == "2 -5" && StripSign("2 -5") == "2 -5"
  {
    assert SpaceRun(" 2 -5") == 1;
  }

  lemma BlankBeforeMinus()
    ensures SkipSpaces(" -5") == "-5"
  {
    assert SpaceRun(" -5") == 1;
  }

  lemma DigitTwo()
    ensures DigitRun("2 -5") == 1 && DigitsValue("2 -5"[..1]) == 2 && "2 -5"[1..] == " -5"
  {
    assert "2 -5"[..1] == "2";
  }


  lemma PrintMinusFive()
    ensures IntToString(-5) == "-5"
  {
    assert NatToString(5) == "5";
  }

  lemma MinusFive()
    ensures Atoi("-5") == -5
  {
    hide SkipSpaces, StripSign, DigitRun, HasNonzeroDigit, PriceNegative, IntToString, NatToString,
      ParseLong, ParseValue, Atoi, IsSuffix;
    PrintMinusFive();
    AtoiOfIntToString(-5);
  }

  /** `-5` is refused as a quantity because it is negative. */
  lemma MinusFiveRefused()
    ensures RecordStore.UpdateError(2, "-5") == Some(RecordStore.QuantityNegative)
  {
    hide SkipSpaces, StripSign, DigitRun, HasNonzeroDigit, PriceNegative, ParseLong, ParseValue, Atoi,
      IsSuffix, IsMinus;
    MinusFive();
    assert '.' !in "-5" && ',' !in "-5";
  }

  /** `UPDATE id 2 -5` on a record that splits into fields answers the
      negative-quantity error and leaves the file as it was. */
  lemma NegativeQuantityRefused(s: Session, w: World, fmtPrice: string -> string, id: int)
    requires s.inTransaction && w.store.Table?
    requires RecordStore.Lookup(w.store, id).Some? && RecordStore.SplitFields(RecordStore.Lookup(w.store, id).value).Some?
    ensures var r := Handle(s, w, fmtPrice, "UPDATE " + IntToString(id) + " 2 -5");
            r.text == Line(RecordStore.QuantityNegative) && r.world == w
  {
    hide ParseCommand, CutLine, ParseValue, ParseLong, PriceNegative, Line, IntToString,
      RecordStore.Update, RecordStore.Lookup, RecordStore.SplitFields,
      Atoi, SkipSpaces, StripSign, DigitRun, HasNonzeroDigit, RecordStore.UpdateError;
    UpdateLine(id, " 2 -5");
    MinusFiveRefused();
    var v := RecordStore.Lookup(w.store, id).value;
    var i :| 0 <= i < |w.store.rows| && w.store.rows[i] == v;
    assert RecordStore.SplittingMatch(w.store.rows, id);
    var o := RecordStore.Update(w.store, id, 2, "-5");
    assert o == RecordStore.Refused(RecordStore.QuantityNegative);
  }
}
