/** The advisory lock as the kernel keeps it. `flock` locks the inode a
    descriptor refers to, not the path. A worker opens the table file once,
    when its session starts (servidor.c:184), and takes every lock through
    that descriptor. A successful `UPDATE` or `DELETE` removes the file and
    renames the temporary file into its place, so from then on the path names
    a new inode that nobody has locked. This module models that as written;
    `Session` keeps one lock for the table, which is the behaviour the
    transactions are meant to have. */
module FileLocks {
  import opened Wrappers
  import opened Session

  /** Inodes are numbered in the order they come to be named by the path. */
  type Inode = nat

  /** The locks of the inodes the path named before, oldest first, and the
      lock of the inode it names now, which is inode `|past|`. */
  datatype Disk = Disk(past: seq<Lock>, current: Lock)

  /** One worker: its process id, the inode its descriptor refers to, and its
      `en_transaccion` flag. */
  datatype Worker = Worker(id: WorkerId, inode: Inode, inTransaction: bool)

  function PathInode(d: Disk): Inode {
    |d.past|
  }

  /** The lock of an inode; an inode not yet created is unlocked. */
  function LockOf(d: Disk, i: Inode): Lock {
    if i < |d.past| then d.past[i] else if i == |d.past| then d.current else Free
  }

  /** `flock` on inode `i` leaves every other inode's lock alone. */
  function SetLock(d: Disk, i: Inode, l: Lock): (r: Disk)
    ensures PathInode(r) == PathInode(d)
    ensures i <= PathInode(d) ==> LockOf(r, i) == l
    ensures forall j: Inode :: j != i ==> LockOf(r, j) == LockOf(d, j)
  {
    if i < |d.past| then Disk(d.past[i := l], d.current)
    else if i == |d.past| then Disk(d.past, l)
    else d
  }

  /** `open(NOMBRE_ARCHIVO_BD, O_RDWR)` at the start of a session: the
      descriptor refers to the inode the path names at that moment. */
  function Open(d: Disk, id: WorkerId): (w: Worker)
    ensures w.id == id && w.inode == PathInode(d) && !w.inTransaction
  {
    Worker(id, PathInode(d), false)
  }

  /** `BEGIN TRANSACTION` as written: `flock(fd_bd, LOCK_EX | LOCK_NB)` locks
      the inode of the worker's own descriptor. */
  function BeginAsWritten(d: Disk, w: Worker): (r: (Disk, Worker))
    ensures PathInode(r.0) == PathInode(d) && r.1.id == w.id && r.1.inode == w.inode
    ensures r.1.inTransaction <==> w.inTransaction || LockExclusive(LockOf(d, w.inode), w.id).Some?
    ensures LockExclusive(LockOf(d, w.inode), w.id).Some? && w.inode <= PathInode(d) ==>
              LockOf(r.0, w.inode) == Exclusive(w.id)
    ensures LockExclusive(LockOf(d, w.inode), w.id).None? ==> r == (d, w)
  {
    match LockExclusive(LockOf(d, w.inode), w.id)
    case Some(l) => (SetLock(d, w.inode, l), w.(inTransaction := true))
    case None => (d, w)
  }

  /** `remove` then `rename` after a successful `UPDATE` or `DELETE`: the path
      names a new, unlocked inode; the old inode keeps its lock. */
  function Replace(d: Disk): (r: Disk)
    ensures PathInode(r) == PathInode(d) + 1
    ensures LockOf(r, PathInode(r)) == Free
    ensures forall i: Inode :: i <= PathInode(d) ==> LockOf(r, i) == LockOf(d, i)
  {
    Disk(d.past + [d.current], Free)
  }

  /** Among workers whose descriptors refer to the same inode, the lock does
      exclude: while one of them holds it, another one's `BEGIN TRANSACTION`
      is refused. */
  lemma SameInodeExcludes(d: Disk, a: Worker, b: Worker)
    requires a.inode == b.inode && a.id != b.id
    requires a.inTransaction && LockOf(d, a.inode) == Exclusive(a.id)
    ensures BeginAsWritten(d, b) == (d, b)
  {
  }

  /** Worker 1 opens the file and starts a transaction, and its `DELETE`
      succeeds. Worker 2 connects afterwards and sends `BEGIN TRANSACTION`:
      its lock is on the new inode, so it is granted, and both workers are
      inside a transaction at once. */
  lemma TwoTransactionsAfterRename()
    ensures var d0 := Disk([], Free);
            var a := BeginAsWritten(d0, Open(d0, 1));
            var d2 := Replace(a.0);
            var c := BeginAsWritten(d2, Open(d2, 2));
            a.1.inTransaction && c.1.inTransaction && a.1.id != c.1.id
            && LockOf(c.0, a.1.inode) == Exclusive(1) && LockOf(c.0, c.1.inode) == Exclusive(2)
  {
    var d0 := Disk([], Free);
    var a := BeginAsWritten(d0, Open(d0, 1));
    assert a.1.inTransaction && a.1.inode == 0;
    var d2 := Replace(a.0);
    assert LockOf(d2, 1) == Free;
    var c := BeginAsWritten(d2, Open(d2, 2));
    assert c.1.inode == 1;
  }
}
