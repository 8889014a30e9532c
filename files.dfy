/**
 * The records that travel from the scanner to the workers (`MyFile`),
 * the work queue that carries them (`SegQueue<MyFile>`, here sequential),
 * and the crate-wide constants.
 */
module Files {
  import opened Utf8

  /** `MAX_FILESIZE`: the largest plain file or archive entry that is counted. */
  const MAX_FILESIZE: nat := 10_000_000

  /** `ARCH_EXT`: the extensions the scanner treats as archives. */
  const ARCH_EXT: seq<string> := ["zip", "tar", "gz", "tar.gz", "7z"]

  /** A classified file: an archive or a regular file with its path and bytes, or the end-of-input sentinel. */
  datatype MyFile = Archive(path: string, content: seq<byte>)
                  | Regular(path: string, content: seq<byte>)
                  | Poisoned

  /** The index of the first sentinel in `q`. */
  function FirstPoisoned(q: seq<MyFile>): (k: nat)
    requires Poisoned in q
    ensures k < |q| && q[k] == Poisoned && Poisoned !in q[..k]
  {
    if q[0] == Poisoned then 0 else 1 + FirstPoisoned(q[1..])
  }

  /** The first-in first-out work queue shared by the scanner and the workers. */
  class WorkQueue {
    var items: seq<MyFile>
    /** How many times a consumer has taken the sentinel off the queue. */
    ghost var sentinelPops: nat

    constructor ()
      ensures items == [] && sentinelPops == 0
    {
      items := [];
      sentinelPops := 0;
    }

    method Push(f: MyFile)
      modifies this
      ensures items == old(items) + [f]
      ensures sentinelPops == old(sentinelPops)
    {
      items := items + [f];
    }

    /** Takes the oldest record, or returns `None` when the queue is momentarily empty. */
    method Pop() returns (r: Option<MyFile>)
      modifies this
      ensures old(items) == [] ==> r == None && items == []
      ensures old(items) != [] ==> r == Some(old(items)[0]) && items == old(items)[1..]
      ensures sentinelPops == old(sentinelPops) + if r == Some(Poisoned) then 1 else 0
    {
      if items == [] {
        r := None;
      } else {
        r := Some(items[0]);
        if items[0] == Poisoned {
          sentinelPops := sentinelPops + 1;
        }
        items := items[1..];
      }
    }
  }
}
