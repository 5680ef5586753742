/**
 The job enumeration of `deepdirsCompression` in main.go: a depth-first walk that
 dispatches one `compression` request per non-directory entry. The directory tree is
 a value: each directory either lists its entries in the order `ioutil.ReadDir`
 returns them, or cannot be listed. The goroutines and the WaitGroup are not part
 of the model; a walk's result is the sequence of requests in dispatch order.
 */
module Walk {
  import opened GoLib
  import opened Compress

  /** What listing a directory yields. */
  datatype Listing = Listed(entries: seq<Entry>) | Unlistable

  /** A directory entry: a directory with its own listing, or anything else (`IsDir()` false). */
  datatype Entry = File(name: string) | Dir(name: string, listing: Listing)

  /** The requests dispatched for the directory at `dirPath` with the given listing. */
  function WalkDir(dirPath: string, listing: Listing, outputDir: string, quality: int): seq<Request>
    decreases listing, 1
  {
    match listing
    case Unlistable => []
    case Listed(entries) => WalkEntries(dirPath, entries, outputDir, quality)
  }

  /** The loop over a directory's entries: a subdirectory is walked in full before the next entry. */
  function WalkEntries(dirPath: string, entries: seq<Entry>, outputDir: string, quality: int): seq<Request>
    decreases entries, 0
  {
    if entries == [] then []
    else EntryJobs(dirPath, entries[0], outputDir, quality) + WalkEntries(dirPath, entries[1..], outputDir, quality)
  }

  /** One iteration of the loop: recurse into a directory, or dispatch one request for anything else. */
  function EntryJobs(dirPath: string, entry: Entry, outputDir: string, quality: int): seq<Request>
    decreases entry, 2
  {
    match entry
    case File(name) => [Request(dirPath, name, outputDir, "", quality)]
    case Dir(name, listing) => WalkDir(Join(dirPath, name), listing, outputDir, quality)
  }

  /** `File(n)` is listed in a listable directory that the walk from `dirPath` reaches at path `d`. */
  ghost predicate HasFile(dirPath: string, listing: Listing, d: string, n: string)
    decreases listing, 1
  {
    match listing
    case Unlistable => false
    case Listed(entries) => HasFileIn(dirPath, entries, d, n)
  }

  ghost predicate HasFileIn(dirPath: string, entries: seq<Entry>, d: string, n: string)
    decreases entries, 0
  {
    entries != [] && (HasFileAt(dirPath, entries[0], d, n) || HasFileIn(dirPath, entries[1..], d, n))
  }

  ghost predicate HasFileAt(dirPath: string, entry: Entry, d: string, n: string)
    decreases entry, 2
  {
    match entry
    case File(name) => d == dirPath && name == n
    case Dir(name, listing) => HasFile(Join(dirPath, name), listing, d, n)
  }

  /** The number of non-directory entries reachable through listable directories. */
  function FileCount(listing: Listing): nat
    decreases listing, 1
  {
    match listing
    case Unlistable => 0
    case Listed(entries) => FileCountEntries(entries)
  }

  function FileCountEntries(entries: seq<Entry>): nat
    decreases entries, 0
  {
    if entries == [] then 0
    else
      (match entries[0]
       case File(_) => 1
       case Dir(_, listing) => FileCount(listing))
      + FileCountEntries(entries[1..])
  }

  /** Exactly one request per non-directory entry, whatever its extension. */
  lemma {:induction false} WalkDirCount(dirPath: string, listing: Listing, outputDir: string, quality: int)
    ensures |WalkDir(dirPath, listing, outputDir, quality)| == FileCount(listing)
    decreases listing, 1
  {
    match listing
    case Unlistable =>
    case Listed(entries) => WalkEntriesCount(dirPath, entries, outputDir, quality);
  }

  lemma {:induction false} WalkEntriesCount(dirPath: string, entries: seq<Entry>, outputDir: string, quality: int)
    ensures |WalkEntries(dirPath, entries, outputDir, quality)| == FileCountEntries(entries)
    decreases entries, 0
  {
    if entries != [] {
      WalkEntriesCount(dirPath, entries[1..], outputDir, quality);
      match entries[0]
      case File(_) =>
      case Dir(name, listing) => WalkDirCount(Join(dirPath, name), listing, outputDir, quality);
    }
  }

  /**
   Every dispatched request asks for the default output name, carries the caller's
   output directory and quality, and reads from `dirPath` or a directory below it.
   */
  ghost predicate WellFormedJobs(dirPath: string, jobs: seq<Request>, outputDir: string, quality: int)
  {
    forall k :: 0 <= k < |jobs| ==>
      && jobs[k].outFilename == ""
      && jobs[k].outdir == outputDir
      && jobs[k].quality == quality
      && (jobs[k].inputDir == dirPath || dirPath + "/" <= jobs[k].inputDir)
  }

  lemma {:induction false} WalkDirJobs(dirPath: string, listing: Listing, outputDir: string, quality: int)
    ensures WellFormedJobs(dirPath, WalkDir(dirPath, listing, outputDir, quality), outputDir, quality)
    decreases listing, 1
  {
    match listing
    case Unlistable =>
    case Listed(entries) => WalkEntriesJobs(dirPath, entries, outputDir, quality);
  }

  lemma {:induction false} WalkEntriesJobs(dirPath: string, entries: seq<Entry>, outputDir: string, quality: int)
    ensures WellFormedJobs(dirPath, WalkEntries(dirPath, entries, outputDir, quality), outputDir, quality)
    decreases entries, 0
  {
    if entries != [] {
      WalkEntriesJobs(dirPath, entries[1..], outputDir, quality);
      match entries[0]
      case File(_) =>
      case Dir(name, listing) =>
        var sub := Join(dirPath, name);
        WalkDirJobs(sub, listing, outputDir, quality);
        assert dirPath + "/" <= sub;
    }
  }

  /** Every dispatched request names a file entry of the tree, in the directory where it is listed. */
  lemma {:induction false} WalkDirSound(dirPath: string, listing: Listing, outputDir: string, quality: int, k: nat)
    requires k < |WalkDir(dirPath, listing, outputDir, quality)|
    ensures var job := WalkDir(dirPath, listing, outputDir, quality)[k];
            HasFile(dirPath, listing, job.inputDir, job.inputFilename)
    decreases listing, 1
  {
    match listing
    case Listed(entries) => WalkEntriesSound(dirPath, entries, outputDir, quality, k);
  }

  lemma {:induction false} WalkEntriesSound(dirPath: string, entries: seq<Entry>, outputDir: string, quality: int, k: nat)
    requires k < |WalkEntries(dirPath, entries, outputDir, quality)|
    ensures var job := WalkEntries(dirPath, entries, outputDir, quality)[k];
            HasFileIn(dirPath, entries, job.inputDir, job.inputFilename)
    decreases entries, 0
  {
    var first := EntryJobs(dirPath, entries[0], outputDir, quality);
    var rest := WalkEntries(dirPath, entries[1..], outputDir, quality);
    if k < |first| {
      assert WalkEntries(dirPath, entries, outputDir, quality)[k] == first[k];
      match entries[0]
      case File(_) =>
      case Dir(name, listing) => WalkDirSound(Join(dirPath, name), listing, outputDir, quality, k);
    } else {
      assert WalkEntries(dirPath, entries, outputDir, quality)[k] == rest[k - |first|];
      WalkEntriesSound(dirPath, entries[1..], outputDir, quality, k - |first|);
    }
  }

  /** Every file entry reachable through listable directories gets its request. */
  lemma {:induction false} WalkDirComplete(dirPath: string, listing: Listing, outputDir: string, quality: int,
                                           d: string, n: string)
    requires HasFile(dirPath, listing, d, n)
    ensures Request(d, n, outputDir, "", quality) in WalkDir(dirPath, listing, outputDir, quality)
    decreases listing, 1
  {
    match listing
    case Listed(entries) => WalkEntriesComplete(dirPath, entries, outputDir, quality, d, n);
  }

  lemma {:induction false} WalkEntriesComplete(dirPath: string, entries: seq<Entry>, outputDir: string, quality: int,
                                               d: string, n: string)
    requires HasFileIn(dirPath, entries, d, n)
    ensures Request(d, n, outputDir, "", quality) in WalkEntries(dirPath, entries, outputDir, quality)
    decreases entries, 0
  {
    if HasFileAt(dirPath, entries[0], d, n) {
      match entries[0]
      case File(_) =>
      case Dir(name, listing) => WalkDirComplete(Join(dirPath, name), listing, outputDir, quality, d, n);
    } else {
      WalkEntriesComplete(dirPath, entries[1..], outputDir, quality, d, n);
    }
  }

  /**
   Dispatch follows listing order: the requests for a listing split at any point are
   those of the first part followed by those of the rest, so everything below a
   subdirectory comes before its later siblings.
   */
  lemma {:induction false} WalkEntriesAppend(dirPath: string, a: seq<Entry>, b: seq<Entry>, outputDir: string, quality: int)
    ensures WalkEntries(dirPath, a + b, outputDir, quality) ==
            WalkEntries(dirPath, a, outputDir, quality) + WalkEntries(dirPath, b, outputDir, quality)
    decreases a
  {
    if a == [] {
      assert a + b == b;
    } else {
      assert (a + b)[0] == a[0];
      assert (a + b)[1..] == a[1..] + b;
      WalkEntriesAppend(dirPath, a[1..], b, outputDir, quality);
    }
  }

  /** A subdirectory that cannot be listed contributes nothing; its siblings are still walked. */
  lemma UnlistableSubtreeSkipped(dirPath: string, before: seq<Entry>, name: string, after: seq<Entry>,
                                 outputDir: string, quality: int)
    ensures WalkEntries(dirPath, before + [Dir(name, Unlistable)] + after, outputDir, quality) ==
            WalkEntries(dirPath, before, outputDir, quality) + WalkEntries(dirPath, after, outputDir, quality)
  {
    var skipped := [Dir(name, Unlistable)];
    assert skipped[1..] == [];
    assert EntryJobs(dirPath, skipped[0], outputDir, quality) == [];
    assert WalkEntries(dirPath, skipped, outputDir, quality) == [];
    WalkEntriesAppend(dirPath, before + skipped, after, outputDir, quality);
    WalkEntriesAppend(dirPath, before, skipped, outputDir, quality);
  }

  /**
   Every dispatched request goes on to `compression` with an empty output name, so a
   plan for it writes under the request's own input name.
   */
  lemma WalkedJobsKeepInputName(dirPath: string, listing: Listing, outputDir: string, quality: int, cwd: string, k: nat)
    requires k < |WalkDir(dirPath, listing, outputDir, quality)|
    ensures var job := WalkDir(dirPath, listing, outputDir, quality)[k];
            Validate(job, cwd).Ready? ==>
              Validate(job, cwd).plan.outFilename == job.inputFilename &&
              Validate(job, cwd).plan.outdir == (if outputDir == "" then cwd else outputDir)
  {
    WalkDirJobs(dirPath, listing, outputDir, quality);
  }

  /**
   A root holding `a.png`, a subdirectory with `b.jpg` and `notes.txt`, and below that
   a subdirectory with `c.jpeg`: four requests are dispatched, depth first, and the
   text file's request is among them (it fails later, in `compression`).
   */
  lemma NestedExample()
    ensures var tree := Listed([File("a.png"),
                                Dir("sub", Listed([File("b.jpg"),
                                                   Dir("deep", Listed([File("c.jpeg")])),
                                                   File("notes.txt")]))]);
            WalkDir("root", tree, "out", 80) ==
              [Request("root", "a.png", "out", "", 80),
               Request("root/sub", "b.jpg", "out", "", 80),
               Request("root/sub/deep", "c.jpeg", "out", "", 80),
               Request("root/sub", "notes.txt", "out", "", 80)]
  {
    var deep := [File("c.jpeg")];
    var sub := [File("b.jpg"), Dir("deep", Listed(deep)), File("notes.txt")];
    assert WalkEntries("root/sub/deep", deep, "out", 80) == [Request("root/sub/deep", "c.jpeg", "out", "", 80)];
    assert Join("root", "sub") == "root/sub";
    assert Join("root/sub", "deep") == "root/sub/deep";
    assert WalkEntries("root/sub", sub[2..], "out", 80) == [Request("root/sub", "notes.txt", "out", "", 80)];
    assert WalkEntries("root/sub", sub[1..], "out", 80) ==
             [Request("root/sub/deep", "c.jpeg", "out", "", 80), Request("root/sub", "notes.txt", "out", "", 80)];
  }

  /** Of the four requests of `NestedExample`, the text file's fails with the unsupported-format error. */
  lemma NestedExampleOutcomes(cwd: string)
    ensures Validate(Request("root/sub", "notes.txt", "out", "", 80), cwd) == Rejected(UnsupportedFormat(".txt"))
  {
    ExtAt("notes.txt", 5);
    assert "notes.txt"[5..] == ".txt";
    assert ToLower(".txt") == ".txt";
    assert !IsImageExt(".txt");
  }

  /** The `c.jpeg` request of `NestedExample` is ready; its stem is empty, the byte before the dot being dropped. */
  lemma NestedExampleImage(cwd: string)
    ensures Validate(Request("root/sub/deep", "c.jpeg", "out", "", 80), cwd) == Ready(Plan("out", "c.jpeg", "", ".jpeg"))
  {
    ExtAt("c.jpeg", 1);
    assert ToLower(".jpeg") == ".jpeg";
  }

  /** The `a.png` request of `NestedExample` is ready; its stem is empty. */
  lemma NestedExampleRootImage(cwd: string)
    ensures Validate(Request("root", "a.png", "out", "", 80), cwd) == Ready(Plan("out", "a.png", "", ".png"))
  {
    ExtAt("a.png", 1);
    assert ToLower(".png") == ".png";
  }

  /** The `b.jpg` request of `NestedExample` is ready; its stem is empty. */
  lemma NestedExampleSubImage(cwd: string)
    ensures Validate(Request("root/sub", "b.jpg", "out", "", 80), cwd) == Ready(Plan("out", "b.jpg", "", ".jpg"))
  {
    ExtAt("b.jpg", 1);
    assert ToLower(".jpg") == ".jpg";
  }
}
