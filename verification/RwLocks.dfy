/**
  The reader-writer lock of POSIX.1-2008 (pages `pthread_rwlock_rdlock`,
  `pthread_rwlock_wrlock` and `pthread_rwlock_unlock` of the System Interfaces volume), as
  a value: who holds it, and the effect of each successful operation.
 */
module RwLocks {
  import opened Options

  type Tid = nat

  datatype Lock = Lock(writer: Option<Tid>, readers: multiset<Tid>) {
    predicate CanRead() {
      writer.None?
    }

    predicate CanWrite() {
      writer.None? && readers == multiset{}
    }

    /** A writer excludes every other holder. */
    predicate Exclusive() {
      writer.Some? ==> readers == multiset{}
    }

    predicate Holds(t: Tid) {
      writer == Some(t) || t in readers
    }

    function Read(t: Tid): Lock {
      this.(readers := readers + multiset{t})
    }

    function Write(t: Tid): Lock {
      this.(writer := Some(t))
    }

    function Unlock(t: Tid): Lock {
      if writer == Some(t) then this.(writer := None) else this.(readers := readers - multiset{t})
    }
  }

  const FREE := Lock(None, multiset{})
}
