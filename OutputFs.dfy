/** The part of the filesystem the program writes to: the directories that exist and the
    regular files, each recorded with the source file its contents were copied from. */
module OutputFs {
  import opened Records

  /** Every non-empty prefix of `p`: the directories `create_directories(p)` ensures exist. */
  function Prefixes(p: Path): (r: set<Path>)
    ensures p != [] ==> p in r
    ensures forall d :: d in r ==> 1 <= |d| <= |p| && d == p[..|d|]
  {
    var r := set j | 1 <= j <= |p| :: p[..j];
    if p != [] then
      assert p[..|p|] == p && p[..|p|] in r;
      r
    else r
  }

  class FileSystem {
    var dirs: set<Path>
    var files: map<Path, Path>

    constructor (existingDirs: set<Path>, existingFiles: map<Path, Path>)
      ensures dirs == existingDirs && files == existingFiles
    {
      dirs := existingDirs;
      files := existingFiles;
    }

    /** `std::filesystem::exists` on a file path. */
    method FileExists(p: Path) returns (b: bool)
      ensures b <==> p in files
    {
      b := p in files;
    }

    /** `std::filesystem::create_directories`: the directory and all its ancestors exist afterwards. */
    method CreateDirectories(p: Path)
      modifies this
      ensures dirs == old(dirs) + Prefixes(p)
      ensures files == old(files)
    {
      dirs := dirs + Prefixes(p);
    }

    /** `std::filesystem::copy` of a regular file: the destination holds the source's contents. */
    method Copy(src: Path, dst: Path)
      modifies this
      ensures files == old(files)[dst := src]
      ensures dirs == old(dirs)
    {
      files := files[dst := src];
    }
  }

  // ---------------------------------------------------------------------------
  // A run of copies, as values: what the files and the two counters become.

  /** A copy to do: the destination, then the source. */
  type CopyJob = (Path, Path)

  /** The files, and how many copies were written and skipped so far. */
  datatype CopyOutcome = CopyOutcome(files: map<Path, Path>, written: nat, skipped: nat)

  /** The jobs done in order from `start`: a job whose destination exists is skipped unless
      overwriting is asked for; otherwise its source is copied to its destination. */
  function Copies(start: CopyOutcome, jobs: seq<CopyJob>, overwrite: bool): (r: CopyOutcome)
    ensures r.written + r.skipped == start.written + start.skipped + |jobs|
    ensures overwrite ==> r.skipped == start.skipped
    ensures start.files.Keys <= r.files.Keys
  {
    if jobs == [] then start
    else
      var r := Copies(start, jobs[..|jobs| - 1], overwrite);
      var job := jobs[|jobs| - 1];
      if job.0 in r.files && !overwrite then r.(skipped := r.skipped + 1)
      else CopyOutcome(r.files[job.0 := job.1], r.written + 1, r.skipped)
  }

  /** The destinations of the jobs. */
  function Destinations(jobs: seq<CopyJob>): (r: set<Path>)
    ensures forall p :: p in r <==> exists i :: 0 <= i < |jobs| && jobs[i].0 == p
  {
    set i | 0 <= i < |jobs| :: jobs[i].0
  }

  /** Each destination with the source of the last job that names it. */
  function LaterWins(jobs: seq<CopyJob>): (m: map<Path, Path>)
    ensures m.Keys == Destinations(jobs)
  {
    if jobs == [] then map[]
    else
      var init := jobs[..|jobs| - 1];
      assert jobs == init + [jobs[|jobs| - 1]];
      LaterWins(init)[jobs[|jobs| - 1].0 := jobs[|jobs| - 1].1]
  }

  /** Each destination with the source of the first job that names it. */
  function EarlierWins(jobs: seq<CopyJob>): (m: map<Path, Path>)
    ensures m.Keys == Destinations(jobs)
  {
    if jobs == [] then map[]
    else
      var init := jobs[..|jobs| - 1];
      assert jobs == init + [jobs[|jobs| - 1]];
      var m := EarlierWins(init);
      if jobs[|jobs| - 1].0 in m then m else m[jobs[|jobs| - 1].0 := jobs[|jobs| - 1].1]
  }

  /** How many jobs find their destination already there when their turn comes: it was among
      `files` at the start, or an earlier job names it too. */
  function Preexisting(files: map<Path, Path>, jobs: seq<CopyJob>): nat
  {
    if jobs == [] then 0
    else
      var init := jobs[..|jobs| - 1];
      var dst := jobs[|jobs| - 1].0;
      Preexisting(files, init) + (if dst in files || dst in Destinations(init) then 1 else 0)
  }

  /** Running two lists of jobs one after the other is running their concatenation. */
  lemma {:induction false} CopiesAppend(start: CopyOutcome, a: seq<CopyJob>, b: seq<CopyJob>, overwrite: bool)
    ensures Copies(start, a + b, overwrite) == Copies(Copies(start, a, overwrite), b, overwrite)
  {
    if b == [] {
      assert a + b == a;
    } else {
      assert (a + b)[..|a + b| - 1] == a + b[..|b| - 1];
      CopiesAppend(start, a, b[..|b| - 1], overwrite);
    }
  }

  /** The counters a run starts from are only added to. */
  lemma {:induction false} CopiesShift(files: map<Path, Path>, written: nat, skipped: nat, jobs: seq<CopyJob>, overwrite: bool)
    ensures var r := Copies(CopyOutcome(files, 0, 0), jobs, overwrite);
      Copies(CopyOutcome(files, written, skipped), jobs, overwrite) == CopyOutcome(r.files, r.written + written, r.skipped + skipped)
  {
    if jobs != [] {
      CopiesShift(files, written, skipped, jobs[..|jobs| - 1], overwrite);
    }
  }

  /** Overwriting, every destination ends up with the last source copied to it. */
  lemma {:induction false} CopiesOverwrite(start: CopyOutcome, jobs: seq<CopyJob>)
    ensures Copies(start, jobs, true).files == start.files + LaterWins(jobs)
  {
    if jobs != [] {
      var init := jobs[..|jobs| - 1];
      var job := jobs[|jobs| - 1];
      CopiesOverwrite(start, init);
      assert (start.files + LaterWins(init))[job.0 := job.1] == start.files + LaterWins(init)[job.0 := job.1];
    }
  }

  /** Without overwriting, a file that was there stays as it was and every other destination
      gets the first source named for it. */
  lemma {:induction false} CopiesKeep(start: CopyOutcome, jobs: seq<CopyJob>)
    ensures Copies(start, jobs, false).files == EarlierWins(jobs) + start.files
  {
    if jobs != [] {
      var init := jobs[..|jobs| - 1];
      var job := jobs[|jobs| - 1];
      CopiesKeep(start, init);
      var e := EarlierWins(init);
      if job.0 in e + start.files {
        if job.0 !in e {
          UpdateShadowed(e, start.files, job.0, job.1);
        }
      } else {
        UpdateUnion(e, start.files, job.0, job.1);
      }
    }
  }

  /** An entry added to the left map of a union is hidden by the right map's entry for that key. */
  lemma UpdateShadowed<K, V>(left: map<K, V>, right: map<K, V>, k: K, v: V)
    requires k in right
    ensures left[k := v] + right == left + right
  {
  }

  /** Updating a union at a key the right map lacks updates the left map. */
  lemma UpdateUnion<K, V>(left: map<K, V>, right: map<K, V>, k: K, v: V)
    requires k !in right
    ensures (left + right)[k := v] == left[k := v] + right
  {
  }

  /** Without overwriting, the skipped count is the number of jobs whose destination was
      already there when their turn came. */
  lemma {:induction false} CopiesSkipped(start: CopyOutcome, jobs: seq<CopyJob>)
    ensures Copies(start, jobs, false).skipped == start.skipped + Preexisting(start.files, jobs)
  {
    if jobs != [] {
      var init := jobs[..|jobs| - 1];
      CopiesSkipped(start, init);
      CopiesKeep(start, init);
    }
  }

  /** What a run from no counts leaves: overwriting, the last source of each destination;
      otherwise the old files, the first source of each new destination, and a skip for each
      job whose destination was already there. */
  lemma CopiesResult(files0: map<Path, Path>, jobs: seq<CopyJob>, overwrite: bool, r: CopyOutcome)
    requires r == Copies(CopyOutcome(files0, 0, 0), jobs, overwrite)
    ensures overwrite ==> r.files == files0 + LaterWins(jobs)
    ensures !overwrite ==> r.files == EarlierWins(jobs) + files0
    ensures !overwrite ==> r.skipped == Preexisting(files0, jobs)
  {
    CopiesOverwrite(CopyOutcome(files0, 0, 0), jobs);
    CopiesKeep(CopyOutcome(files0, 0, 0), jobs);
    CopiesSkipped(CopyOutcome(files0, 0, 0), jobs);
  }

  /** With distinct destinations none of which exists at the start, nothing is skipped. */
  lemma {:induction false} PreexistingNone(files: map<Path, Path>, jobs: seq<CopyJob>)
    requires forall i :: 0 <= i < |jobs| ==> jobs[i].0 !in files
    requires forall i, j :: 0 <= i < j < |jobs| ==> jobs[i].0 != jobs[j].0
    ensures Preexisting(files, jobs) == 0
  {
    if jobs != [] {
      var init := jobs[..|jobs| - 1];
      PreexistingNone(files, init);
      assert jobs[|jobs| - 1].0 !in Destinations(init);
    }
  }

  /** When every destination exists at the start, every job counts as already there. */
  lemma {:induction false} PreexistingAll(files: map<Path, Path>, jobs: seq<CopyJob>)
    requires forall i :: 0 <= i < |jobs| ==> jobs[i].0 in files
    ensures Preexisting(files, jobs) == |jobs|
  {
    if jobs != [] {
      PreexistingAll(files, jobs[..|jobs| - 1]);
    }
  }

  /** A job that no later job shares its destination with decides that destination in
      `LaterWins`. */
  lemma {:induction false} LaterWinsLast(jobs: seq<CopyJob>, i: nat)
    requires i < |jobs| && forall j :: i < j < |jobs| ==> jobs[j].0 != jobs[i].0
    ensures jobs[i].0 in LaterWins(jobs) && LaterWins(jobs)[jobs[i].0] == jobs[i].1
  {
    if i < |jobs| - 1 {
      LaterWinsLast(jobs[..|jobs| - 1], i);
    }
  }

  /** A job that no earlier job shares its destination with decides that destination in
      `EarlierWins`. */
  lemma {:induction false} EarlierWinsFirst(jobs: seq<CopyJob>, i: nat)
    requires i < |jobs| && forall j :: 0 <= j < i ==> jobs[j].0 != jobs[i].0
    ensures jobs[i].0 in EarlierWins(jobs) && EarlierWins(jobs)[jobs[i].0] == jobs[i].1
  {
    var init := jobs[..|jobs| - 1];
    if i < |jobs| - 1 {
      EarlierWinsFirst(init, i);
    } else {
      assert jobs[i].0 !in Destinations(init);
    }
  }
}
