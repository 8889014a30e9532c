/**
 * The directory scanner (`read_files_recur`): for each walked entry, keep
 * regular files whose extension equals the plain-text suffix and whose size
 * is within `MAX_FILESIZE`, keep files whose extension is in `ARCH_EXT`
 * whatever their size, drop everything else; then push the sentinel.
 *
 * The walk itself is an input: the entries it yields, in order, each with
 * the outcome of reading the file. The suffix is a parameter: the code
 * compares with the literal ".txt" (`PLAIN_EXT_AS_WRITTEN`), which
 * `Path::extension` can never return; "txt" (`PLAIN_EXT`) is the suffix
 * evidently intended.
 */
module Scanner {
  import opened Utf8
  import opened Files

  const PLAIN_EXT_AS_WRITTEN: string := ".txt"
  const PLAIN_EXT: string := "txt"

  /**
   * One entry of the walk: its displayed path, its final component, whether
   * it is a regular file, its size from the metadata, and the bytes read
   * (`None` when `fs::read` fails).
   */
  datatype FileInfo = FileInfo(path: string, name: string, isFile: bool, size: nat, content: Option<seq<byte>>)

  datatype FileClass = PlainText | ArchiveFile | Ignored

  /** The index of the last '.' in `s`, or -1 when there is none. */
  function LastDot(s: string): (k: int)
    ensures -1 <= k < |s|
    ensures k >= 0 ==> s[k] == '.'
    ensures forall i :: k < i < |s| ==> s[i] != '.'
    decreases |s|
  {
    if s == [] then -1
    else if s[|s| - 1] == '.' then |s| - 1
    else LastDot(s[..|s| - 1])
  }

  /**
   * `Path::extension` of a file name: the text after the last '.', unless
   * there is no '.', the only '.' is the first character, or the name is "..".
   */
  function Extension(name: string): (r: Option<string>)
    ensures r.None? <==> name == ".." || forall i :: 0 < i < |name| ==> name[i] != '.'
    ensures r.Some? ==> '.' !in r.value
    ensures r.Some? ==> |r.value| + 1 < |name| && name == name[..|name| - |r.value| - 1] + "." + r.value
  {
    if name == ".." then None
    else
      var k := LastDot(name);
      if k <= 0 then None
      else
        var ext := name[k + 1..];
        assert name == name[..k] + "." + ext;
        Some(ext)
  }

  /** The classification test inside the scanner loop. */
  function Classify(f: FileInfo, plainExt: string): (r: FileClass)
    ensures r == PlainText <==> f.isFile && Extension(f.name) == Some(plainExt) && f.size <= MAX_FILESIZE
    ensures r == ArchiveFile <==> f.isFile && Extension(f.name).Some? && Extension(f.name).value != plainExt
                                  && Extension(f.name).value in ARCH_EXT
  {
    if !f.isFile || Extension(f.name).None? then Ignored
    else
      var ext := Extension(f.name).value;
      if ext == plainExt then
        if f.size > MAX_FILESIZE then Ignored else PlainText
      else if ext in ARCH_EXT then ArchiveFile
      else Ignored
  }

  /** What the scanner pushes for one walked entry: nothing, or one record. */
  function RecordOf(f: FileInfo, plainExt: string): (r: seq<MyFile>)
    ensures |r| <= 1
    ensures Classify(f, plainExt) == PlainText && f.content.Some? ==> r == [Regular(f.path, f.content.value)]
    ensures Classify(f, plainExt) == ArchiveFile && f.content.Some? ==> r == [Archive(f.path, f.content.value)]
    ensures r == [] <==> Classify(f, plainExt) == Ignored || f.content.None?
  {
    match Classify(f, plainExt)
    case PlainText => if f.content.Some? then [Regular(f.path, f.content.value)] else []
    case ArchiveFile => if f.content.Some? then [Archive(f.path, f.content.value)] else []
    case Ignored => []
  }

  /** `RecordOf` along the branches of the scanner loop. */
  lemma RecordOfBranches(f: FileInfo, plainExt: string)
    ensures !f.isFile || Extension(f.name).None? ==> RecordOf(f, plainExt) == []
    ensures f.isFile && Extension(f.name).Some? ==>
      var ext := Extension(f.name).value;
      RecordOf(f, plainExt) ==
        if ext == plainExt then
          if f.size > MAX_FILESIZE || f.content.None? then [] else [Regular(f.path, f.content.value)]
        else if ext in ARCH_EXT && f.content.Some? then [Archive(f.path, f.content.value)]
        else []
  {
  }

  /** The records the scanner pushes for a walk, in walk order. */
  function Records(files: seq<FileInfo>, plainExt: string): seq<MyFile>
    decreases |files|
  {
    if files == [] then []
    else Records(files[..|files| - 1], plainExt) + RecordOf(files[|files| - 1], plainExt)
  }

  lemma RecordsPrefix(files: seq<FileInfo>, i: nat, plainExt: string)
    requires i < |files|
    ensures Records(files[..i + 1], plainExt) == Records(files[..i], plainExt) + RecordOf(files[i], plainExt)
  {
    assert files[..i + 1][..i] == files[..i];
  }

  /** `read_files_recur`: classify and push every walked entry, then push exactly one sentinel. */
  method ReadFilesRecur(files: seq<FileInfo>, plainExt: string, queue: WorkQueue)
    modifies queue
    ensures queue.items == old(queue.items) + Records(files, plainExt) + [Poisoned]
    ensures queue.sentinelPops == old(queue.sentinelPops)
  {
    for i := 0 to |files|
      invariant queue.items == old(queue.items) + Records(files[..i], plainExt)
      invariant queue.sentinelPops == old(queue.sentinelPops)
    {
      ScanOne(files[i], plainExt, queue);
      RecordsPrefix(files, i, plainExt);
    }
    assert files[..|files|] == files;
    queue.Push(Poisoned);
  }

  /** The body of the scanner loop for one walked entry. */
  method ScanOne(f: FileInfo, plainExt: string, queue: WorkQueue)
    modifies queue
    ensures queue.items == old(queue.items) + RecordOf(f, plainExt)
    ensures queue.sentinelPops == old(queue.sentinelPops)
  {
    RecordOfBranches(f, plainExt);
    var ext := Extension(f.name);
    if !f.isFile || ext.None? {
      return;
    }
    if ext.value == plainExt {
      if f.size > MAX_FILESIZE {
        return;
      }
      match f.content {
        case Some(c) => queue.Push(Regular(f.path, c));
        case None =>
      }
    } else if ext.value in ARCH_EXT {
      match f.content {
        case Some(c) => queue.Push(Archive(f.path, c));
        case None =>
      }
    }
  }

  /** The scanner never pushes a sentinel for a file, and every record comes from a walked entry. */
  lemma {:induction false} RecordsFromFiles(files: seq<FileInfo>, plainExt: string)
    ensures Poisoned !in Records(files, plainExt)
    ensures |Records(files, plainExt)| <= |files|
    ensures forall r :: r in Records(files, plainExt) ==> exists f :: f in files && r in RecordOf(f, plainExt)
    decreases |files|
  {
    if files != [] {
      var init := files[..|files| - 1];
      var last := files[|files| - 1];
      RecordsFromFiles(init, plainExt);
      forall r | r in Records(files, plainExt)
        ensures exists f :: f in files && r in RecordOf(f, plainExt)
      {
        if r in Records(init, plainExt) {
          var f :| f in init && r in RecordOf(f, plainExt);
          assert f in files;
        } else {
          assert r in RecordOf(last, plainExt);
        }
      }
    }
  }

  /** What the scanner leaves behind holds exactly one sentinel, and it comes after every record. */
  lemma ScanPushesOneSentinel(files: seq<FileInfo>, plainExt: string)
    ensures multiset(Records(files, plainExt) + [Poisoned])[Poisoned] == 1
    ensures FirstPoisoned(Records(files, plainExt) + [Poisoned]) == |Records(files, plainExt)|
  {
    var recs := Records(files, plainExt);
    RecordsFromFiles(files, plainExt);
    assert multiset(recs)[Poisoned] == 0;
    var q := recs + [Poisoned];
    assert q[..|recs|] == recs;
  }

  /** As written: comparing with ".txt" never classifies a file as plain text, so no plain file is ever counted. */
  lemma DotTxtNeverPlain(f: FileInfo)
    ensures Classify(f, PLAIN_EXT_AS_WRITTEN) != PlainText
  {
    assert '.' in PLAIN_EXT_AS_WRITTEN;
  }

  /** "tar.gz" in `ARCH_EXT` is never an extension; such a file is classified through "gz" instead. */
  lemma TarGzNeverExtension(name: string)
    ensures Extension(name) != Some("tar.gz")
    ensures |name| > 7 && name[|name| - 7..] == ".tar.gz" ==> Extension(name) == Some("gz")
  {
    assert '.' in "tar.gz";
    if |name| > 7 && name[|name| - 7..] == ".tar.gz" {
      var n := |name|;
      assert name[n - 3] == '.' && name[n - 2] == 'g' && name[n - 1] == 'z';
      var k := LastDot(name);
      assert k == n - 3;
      assert name[k + 1..] == "gz";
    }
  }

  /** With the intended suffix "txt", a file is plain text exactly when its name ends in ".txt" after a non-empty stem and it is within the size limit. */
  lemma TxtSuffixIsPlain(f: FileInfo)
    ensures Classify(f, PLAIN_EXT) == PlainText <==>
            f.isFile && |f.name| > 4 && f.name[|f.name| - 4..] == ".txt" && f.size <= MAX_FILESIZE
  {
    var n := |f.name|;
    if f.isFile && n > 4 && f.name[n - 4..] == ".txt" {
      assert f.name[n - 4] == '.' && f.name[n - 3..] == "txt";
      var k := LastDot(f.name);
      assert k == n - 4;
      assert f.name != "..";
      assert Extension(f.name) == Some("txt");
    }
    if Extension(f.name) == Some(PLAIN_EXT) {
      var m := n - 4;
      assert f.name == f.name[..m] + "." + "txt";
      assert f.name[m..] == ".txt";
    }
  }

  /** A plain file of exactly `MAX_FILESIZE` bytes is kept; one byte more and it is dropped. */
  lemma PlainSizeBoundary(f: FileInfo, plainExt: string)
    requires f.isFile && Extension(f.name) == Some(plainExt)
    ensures f.size == MAX_FILESIZE ==> Classify(f, plainExt) == PlainText
    ensures f.size == MAX_FILESIZE + 1 ==> Classify(f, plainExt) == Ignored
  {
  }

  /** Archives are kept whatever their size. */
  lemma ArchiveIgnoresSize(f: FileInfo, plainExt: string, size: nat)
    ensures Classify(f, plainExt) == ArchiveFile ==> Classify(f.(size := size), plainExt) == ArchiveFile
  {
  }
}
