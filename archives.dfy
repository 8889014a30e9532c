/**
 * `ArchiveManager`: a cursor over the headers of one archive that skips
 * entries the counter does not want, and hands out the bytes of the current
 * entry. libarchive itself is replaced by an abstract `HeaderStream`: the
 * (status, entry) pairs `archive_read_next_header` would return in order
 * (ARCHIVE_EOF once they run out) and whether `archive_read_free` succeeds.
 */
module Archives {
  import opened Utf8
  import opened Files

  /** libarchive's status codes. */
  const ARCHIVE_EOF: int := 1
  const ARCHIVE_OK: int := 0
  const ARCHIVE_RETRY: int := -10
  const ARCHIVE_WARN: int := -20
  const ARCHIVE_FAILED: int := -25
  const ARCHIVE_FATAL: int := -30

  const CLOSE_ERROR: string := "Could not close the archive"
  /** `prepare_next`'s error for any other status: ARCHIVE_RETRY, ARCHIVE_FAILED or ARCHIVE_FATAL. */
  const READ_ERROR: string := "Could not read entry in archive"
  const EOF_ERROR: string := "Archive EOF"

  datatype Result<T, E> = Ok(value: T) | Err(error: E)

  /** What a call does when it may panic: returns normally, or panics. */
  datatype Outcome<T> = Returned(value: T) | Panicked(message: string)

  /** An archive entry header and the bytes `archive_read_data` would deliver for it. */
  datatype Entry = Entry(name: string, size: nat, data: seq<byte>)

  /** The result of one `archive_read_next_header` call. */
  datatype Step = Step(status: int, entry: Entry)

  /** An opened archive: its header results in order, and whether freeing it succeeds. */
  datatype HeaderStream = HeaderStream(steps: seq<Step>, freeOk: bool)

  /** `archive_read_open_memory` on some bytes: the opened stream, or `None` when opening fails. */
  type Opener = seq<byte> -> Option<HeaderStream>

  /** The `arch` pointer: null, allocated but not opened, opened at a header position, or freed. */
  datatype Handle = Null | Unopened | Opened(stream: HeaderStream, cursor: nat) | Freed

  /** An entry after `archive_entry_clear`. */
  const CLEARED: Entry := Entry("", 0, [])

  /** The `i`-th header result; past the last one the stream reports end of archive. */
  function StepAt(a: HeaderStream, i: nat): Step {
    if i < |a.steps| then a.steps[i] else Step(ARCHIVE_EOF, CLEARED)
  }

  predicate EndsWith(s: string, suffix: string) {
    |suffix| <= |s| && s[|s| - |suffix|..] == suffix
  }

  /** A status under which there is a current entry to read. */
  predicate IsEntryStatus(status: int) {
    status == ARCHIVE_OK || status == ARCHIVE_WARN
  }

  /** A header the skip loop of `prepare_next` passes over: OK, but too large or not named "*.txt". */
  predicate Skipped(st: Step) {
    st.status == ARCHIVE_OK && (st.entry.size > MAX_FILESIZE || !EndsWith(st.entry.name, ".txt"))
  }

  /** The position of the first header at or after `i` that the skip loop stops at. */
  function NextStop(a: HeaderStream, i: nat): (j: nat)
    ensures i <= j && (i <= |a.steps| ==> j <= |a.steps|)
    ensures !Skipped(StepAt(a, j))
    ensures forall k :: i <= k < j ==> Skipped(StepAt(a, k))
    decreases |a.steps| - i
  {
    if Skipped(StepAt(a, i)) then NextStop(a, i + 1) else i
  }

  /** A run of skipped headers ended by one that is not skipped is exactly what `NextStop` finds. */
  lemma {:induction false} NextStopIs(a: HeaderStream, i: nat, j: nat)
    requires i <= j && !Skipped(StepAt(a, j))
    requires forall k :: i <= k < j ==> Skipped(StepAt(a, k))
    ensures NextStop(a, i) == j
    decreases j - i
  {
    if i < j {
      NextStopIs(a, i + 1, j);
    }
  }

  /** What `prepare_next` returns once the skip loop has stopped on a header with `status`. */
  function PrepareResult(status: int, freeOk: bool): (r: Result<bool, string>)
    ensures r == Ok(false) <==> status == ARCHIVE_EOF && freeOk
    ensures r == Ok(true) <==> IsEntryStatus(status)
    ensures r == Err(CLOSE_ERROR) <==> !IsEntryStatus(status) && !freeOk
    ensures r == Err(READ_ERROR) <==> !IsEntryStatus(status) && status != ARCHIVE_EOF && freeOk
  {
    if status == ARCHIVE_EOF then
      if freeOk then Ok(false) else Err(CLOSE_ERROR)
    else if IsEntryStatus(status) then Ok(true)
    else if freeOk then Err(READ_ERROR)
    else Err(CLOSE_ERROR)
  }

  /**
   * The buffer `get_next` returns for an entry: `size` bytes, holding the
   * entry's data. Bytes the archive does not deliver (the source leaves them
   * uninitialised) are zero here.
   */
  function ReadBuffer(size: nat, data: seq<byte>): (r: seq<byte>)
    ensures |r| == size
    ensures forall k :: 0 <= k < size && k < |data| ==> r[k] == data[k]
  {
    if size <= |data| then data[..size] else data + seq(size - |data|, _ => 0 as byte)
  }

  /** As written, `get_next` takes `&mut result[0]` of a buffer of `size` bytes, which panics when `size` is 0. */
  function ReadBufferAsWritten(size: nat, data: seq<byte>): (r: Outcome<seq<byte>>)
    ensures r.Panicked? <==> size == 0
    ensures r.Returned? ==> r.value == ReadBuffer(size, data)
  {
    if size == 0 then Panicked("index out of bounds: the len is 0 but the index is 0")
    else Returned(ReadBuffer(size, data))
  }

  /** An empty entry named "*.txt" passes the filter and then crashes `get_next` as written. */
  lemma EmptyTxtEntryPanics(name: string, data: seq<byte>)
    requires EndsWith(name, ".txt")
    ensures !Skipped(Step(ARCHIVE_OK, Entry(name, 0, data)))
    ensures ReadBufferAsWritten(0, data).Panicked?
    ensures ReadBuffer(0, data) == []
  {
  }

  /** An OK ".txt" entry of exactly `MAX_FILESIZE` bytes is kept; one byte more and it is skipped. */
  lemma EntrySizeBoundary(name: string, data: seq<byte>)
    requires EndsWith(name, ".txt")
    ensures !Skipped(Step(ARCHIVE_OK, Entry(name, MAX_FILESIZE, data)))
    ensures Skipped(Step(ARCHIVE_OK, Entry(name, MAX_FILESIZE + 1, data)))
  {
  }

  /** As written, `set_archive` takes `&mut arch_data[0]`, which panics on an empty archive file. */
  function OpenAsWritten(content: seq<byte>, open: Opener): (r: Outcome<Option<HeaderStream>>)
    ensures r.Panicked? <==> content == []
    ensures r.Returned? ==> r.value == open(content)
  {
    if content == [] then Panicked("index out of bounds: the len is 0 but the index is 0")
    else Returned(open(content))
  }

  /**
   * The buffers a worker obtains from the stream from header `i` on, calling
   * `prepare_next` and `get_next` until `prepare_next` stops returning `Ok(true)`.
   */
  function ArchiveYield(a: HeaderStream, i: nat): (r: seq<seq<byte>>)
    ensures |r| <= if i <= |a.steps| then |a.steps| - i else 0
    decreases |a.steps| - i
  {
    var j := NextStop(a, i);
    var st := StepAt(a, j);
    if IsEntryStatus(st.status) then [ReadBuffer(st.entry.size, st.entry.data)] + ArchiveYield(a, j + 1)
    else []
  }

  /** `b` is the buffer `get_next` reads for a header with a current entry that the skip loop keeps. */
  predicate FromHeader(b: seq<byte>, st: Step) {
    IsEntryStatus(st.status) && !Skipped(st) && b == ReadBuffer(st.entry.size, st.entry.data)
  }

  /** Every buffer a pass yields is read from a header at or after `i` that has an entry and is not skipped. */
  lemma {:induction false} ArchiveYieldFromHeaders(a: HeaderStream, i: nat)
    ensures forall n :: 0 <= n < |ArchiveYield(a, i)| ==>
              exists k :: i <= k < |a.steps| && FromHeader(ArchiveYield(a, i)[n], a.steps[k])
    decreases |a.steps| - i
  {
    var j := NextStop(a, i);
    var st := StepAt(a, j);
    if IsEntryStatus(st.status) {
      ArchiveYieldFromHeaders(a, j + 1);
      var r := ArchiveYield(a, i);
      var rest := ArchiveYield(a, j + 1);
      assert r == [ReadBuffer(st.entry.size, st.entry.data)] + rest;
      forall n | 0 <= n < |r| ensures exists k :: i <= k < |a.steps| && FromHeader(r[n], a.steps[k]) {
        if n == 0 {
          assert FromHeader(r[0], a.steps[j]);
        } else {
          assert r[n] == rest[n - 1];
        }
      }
    } else {
      assert ArchiveYield(a, i) == [];
    }
  }

  /**
   * Every header the skip loop keeps is counted, provided no header between
   * the cursor and it ends the archive loop (EOF or an error status).
   */
  lemma {:induction false} ArchiveYieldKeeps(a: HeaderStream, i: nat, k: nat)
    requires i <= k < |a.steps| && IsEntryStatus(a.steps[k].status) && !Skipped(a.steps[k])
    requires forall m :: i <= m < k ==> IsEntryStatus(a.steps[m].status) || Skipped(a.steps[m])
    ensures ReadBuffer(a.steps[k].entry.size, a.steps[k].entry.data) in ArchiveYield(a, i)
    decreases k - i
  {
    var j := NextStop(a, i);
    assert StepAt(a, k) == a.steps[k];
    assert j <= k;
    assert StepAt(a, j) == a.steps[j];
    if j < k {
      ArchiveYieldKeeps(a, j + 1, k);
    }
  }

  /** When no header carries ARCHIVE_WARN, no buffer larger than `MAX_FILESIZE` is ever yielded. */
  lemma {:induction false} ArchiveYieldWithinLimit(a: HeaderStream, i: nat)
    requires forall k :: 0 <= k < |a.steps| ==> a.steps[k].status != ARCHIVE_WARN
    ensures forall b :: b in ArchiveYield(a, i) ==> |b| <= MAX_FILESIZE
    decreases |a.steps| - i
  {
    var j := NextStop(a, i);
    var st := StepAt(a, j);
    if IsEntryStatus(st.status) {
      ArchiveYieldWithinLimit(a, j + 1);
      assert st.status == ARCHIVE_OK;
    }
  }

  /**
   * A header with ARCHIVE_WARN is not filtered, wherever it sits in the stream:
   * the skip loop stops at it and it is read whatever its size and name.
   */
  lemma WarnHeaderNotFiltered(a: HeaderStream, i: nat)
    requires StepAt(a, i).status == ARCHIVE_WARN
    ensures NextStop(a, i) == i
    ensures ArchiveYield(a, i) == [ReadBuffer(StepAt(a, i).entry.size, StepAt(a, i).entry.data)] + ArchiveYield(a, i + 1)
  {
  }

  class ArchiveManager {
    var arch: Handle
    /** The current entry; `None` is the null pointer. */
    var entry: Option<Entry>
    var lastStatus: int

    /** `ArchiveManager::new()`: null archive, null entry, status 0. */
    constructor ()
      ensures arch == Null && entry == None && lastStatus == 0
    {
      arch := Null;
      entry := None;
      lastStatus := 0;
    }

    /**
     * `set_archive`: allocate a reader and open it on `content`. An empty
     * `content` is refused (the source panics on it; see `OpenAsWritten`).
     */
    method SetArchive(content: seq<byte>, open: Opener) returns (r: Result<(), ()>)
      modifies this
      ensures entry == old(entry) && lastStatus == old(lastStatus)
      ensures content == [] ==> r.Err? && arch == Unopened
      ensures content != [] && open(content).None? ==> r.Err? && arch == Unopened
      ensures content != [] && open(content).Some? ==> r.Ok? && arch == Opened(open(content).value, 0)
    {
      arch := Unopened;
      if content == [] {
        return Err(());
      }
      var stream := open(content);
      if stream.None? {
        return Err(());
      }
      arch := Opened(stream.value, 0);
      r := Ok(());
    }

    /** `entry_name`: the current entry's name, only while there is one and the last status is OK or WARN. */
    method EntryName() returns (r: Result<string, ()>)
      ensures r.Ok? <==> entry.Some? && IsEntryStatus(lastStatus)
      ensures r.Ok? ==> r.value == entry.value.name
    {
      if entry.Some? && (lastStatus == ARCHIVE_OK || lastStatus == ARCHIVE_WARN) {
        return Ok(entry.value.name);
      }
      return Err(());
    }

    /** `archive_read_next_header(self.arch, &mut self.entry)`. */
    method ReadNextHeader()
      requires arch.Opened?
      modifies this
      ensures arch == Opened(old(arch).stream, old(arch).cursor + 1)
      ensures lastStatus == StepAt(old(arch).stream, old(arch).cursor).status
      ensures entry == Some(StepAt(old(arch).stream, old(arch).cursor).entry)
    {
      var st := StepAt(arch.stream, arch.cursor);
      lastStatus := st.status;
      entry := Some(st.entry);
      arch := Opened(arch.stream, arch.cursor + 1);
    }

    /** `archive_read_free(self.arch) == ARCHIVE_OK`; the pointer is left dangling. */
    method ReadFree() returns (ok: bool)
      requires arch.Opened?
      modifies this
      ensures ok == old(arch).stream.freeOk && arch == Freed
      ensures entry == old(entry) && lastStatus == old(lastStatus)
    {
      ok := arch.stream.freeOk;
      arch := Freed;
    }

    /** The guard of the skip loop: an OK header that is too large or not named "*.txt". */
    method SkipCurrent() returns (skip: bool)
      requires lastStatus == ARCHIVE_OK ==> entry.Some?
      ensures skip <==> lastStatus == ARCHIVE_OK && Skipped(Step(lastStatus, entry.value))
    {
      if lastStatus != ARCHIVE_OK {
        return false;
      }
      if entry.value.size > MAX_FILESIZE {
        return true;
      }
      var name := EntryName();
      skip := !EndsWith(name.value, ".txt");
    }

    /**
     * `prepare_next`: read headers until one is not skipped, then report an
     * entry (`Ok(true)`), the end of the archive (`Ok(false)`), or an error;
     * the archive is freed at its end and on an error.
     */
    method PrepareNext() returns (r: Result<bool, string>)
      requires arch.Opened?
      modifies this
      ensures var a := old(arch).stream;
              var j := NextStop(a, old(arch).cursor);
              && lastStatus == StepAt(a, j).status
              && entry == Some(StepAt(a, j).entry)
              && r == PrepareResult(lastStatus, a.freeOk)
              && arch == if IsEntryStatus(lastStatus) then Opened(a, j + 1) else Freed
      ensures r == Ok(true) && lastStatus == ARCHIVE_OK ==>
                entry.value.size <= MAX_FILESIZE && EndsWith(entry.value.name, ".txt")
      ensures arch.Opened? ==> arch.cursor > old(arch).cursor
    {
      ghost var a := arch.stream;
      ghost var c0 := arch.cursor;
      ReadNextHeader();
      var skip := SkipCurrent();
      while skip
        invariant arch.Opened? && arch.stream == a && c0 < arch.cursor
        invariant lastStatus == StepAt(a, arch.cursor - 1).status
        invariant entry == Some(StepAt(a, arch.cursor - 1).entry)
        invariant skip <==> Skipped(StepAt(a, arch.cursor - 1))
        invariant forall k :: c0 <= k < arch.cursor - 1 ==> Skipped(StepAt(a, k))
        decreases |a.steps| + 1 - arch.cursor
      {
        ReadNextHeader();
        skip := SkipCurrent();
      }
      NextStopIs(a, c0, arch.cursor - 1);

      if lastStatus == ARCHIVE_EOF {
        var ok := ReadFree();
        if !ok {
          return Err(CLOSE_ERROR);
        }
        return Ok(false);
      }
      if lastStatus == ARCHIVE_WARN || lastStatus == ARCHIVE_OK {
        return Ok(true);
      }
      var ok := ReadFree();
      if !ok {
        return Err(CLOSE_ERROR);
      }
      return Err(READ_ERROR);
    }

    /**
     * `get_next`: the current entry's bytes, a buffer of its declared size,
     * unless the last status is neither OK nor WARN. The entry is cleared.
     * A zero-size entry yields an empty buffer (the source panics on it; see
     * `ReadBufferAsWritten`).
     */
    method GetNext() returns (r: Result<seq<byte>, string>)
      requires IsEntryStatus(lastStatus) ==> entry.Some?
      modifies this
      ensures arch == old(arch) && lastStatus == old(lastStatus)
      ensures !IsEntryStatus(lastStatus) ==> r == Err(EOF_ERROR) && entry == old(entry)
      ensures IsEntryStatus(lastStatus) ==>
                && r == Ok(ReadBuffer(old(entry).value.size, old(entry).value.data))
                && |r.value| == old(entry).value.size
                && entry == Some(CLEARED)
    {
      if lastStatus != ARCHIVE_OK && lastStatus != ARCHIVE_WARN {
        return Err(EOF_ERROR);
      }
      var e := entry.value;
      var result := ReadBuffer(e.size, e.data);
      entry := Some(CLEARED);
      r := Ok(result);
    }
  }
}
