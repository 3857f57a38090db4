/**
  Input and output failures.

  Every call into the operating system may fail.  `Io.Try` stands for one such call: it
  returns `None` when the call succeeds and an arbitrary error kind when it does not.  The
  ghost flag `faulted` remembers that some call of this process has failed, and `count` how
  many have, so a contract can say what a process does when nothing fails without saying
  which call might.
 */
module Faults {
  import opened Wrappers

  /** The error kinds that the storage code tells apart.  `Denied(true)` carries a raw operating-system code. */
  datatype ErrorKind = InvalidData | NotFound | Denied(raw: bool) | Other

  class Io {
    ghost var faulted: bool
    ghost var count: nat

    constructor ()
      ensures !faulted && count == 0
    {
      faulted, count := false, 0;
    }

    method Try() returns (e: Option<ErrorKind>)
      modifies this
      ensures old(faulted) ==> faulted
      ensures e.Some? ==> faulted
      ensures e.None? ==> faulted == old(faulted)
      ensures count == old(count) + if e.Some? then 1 else 0
    {
      e := *;
      if e.Some? {
        faulted, count := true, count + 1;
      }
    }

    /** A read-only check: the call may fail, and otherwise `verdict` is what the check finds. */
    method Check(verdict: Option<ErrorKind>) returns (e: Option<ErrorKind>)
      modifies this
      ensures old(faulted) ==> faulted
      ensures !faulted ==> e == verdict
      ensures e.None? ==> verdict.None? && faulted == old(faulted)
      ensures count >= old(count) && (count == old(count) ==> e == verdict)
      ensures e.None? ==> count == old(count)
    {
      e := Try();
      if e.None? {
        e := verdict;
      }
    }
  }
}
