/** The watcher of the output directory, beside the reconstruction that writes into it. */
module OutputWatching {
  import opened Common
  import FileNames
  import Schedule

  /** How image files are named, and how the watcher gets from one name to another. */
  datatype Naming = Naming(file: nat -> string, increment: (string, int) -> string)

  /** Names tell their numbers apart, and incrementing a name increments its number. */
  ghost predicate Lawful(naming: Naming) {
    (forall m, n :: m != n ==> naming.file(m) != naming.file(n)) &&
    (forall m: nat, k: int :: m + k >= 0 ==> naming.increment(naming.file(m), k) == naming.file(m + k))
  }

  /** The names of the program. */
  const REAL_SPACE := Naming((n: nat) => FileNames.RealSpaceFile(n), (file, k) => FileNames.IncrementFilename(file, k))

  lemma RealSpaceIsLawful()
    ensures Lawful(REAL_SPACE)
  {
    forall m: nat, n: nat | m != n ensures REAL_SPACE.file(m) != REAL_SPACE.file(n) {
      FileNames.RealSpaceDistinct(m, n);
    }
    forall m: nat, k: int | m + k >= 0
      ensures REAL_SPACE.increment(REAL_SPACE.file(m), k) == REAL_SPACE.file(m + k)
    {
      FileNames.RealSpaceIncrements(m, k);
    }
  }

  datatype FileInfo = FileInfo(name: string, created: int)

  /** The files of the directory with their times of creation. */
  type Disk = map<string, int>

  /** The names of the images with the numbers written. */
  function ImageFiles(naming: Naming, written: seq<nat>): (r: seq<string>)
    ensures |r| == |written| && forall k :: 0 <= k < |r| ==> r[k] == naming.file(written[k])
  {
    seq(|written|, k requires 0 <= k < |written| => naming.file(written[k]))
  }

  /** What the watcher remembers: the newest real space file, and the files it has announced. */
  datatype State = State(newest: Option<FileInfo>, announced: seq<string>)

  const NOTHING_YET := State(None, [])

  /** The file the watcher looks for. */
  function Sought(s: State, naming: Naming, increment: nat): string {
    if s.newest.Some? then naming.increment(s.newest.value.name, increment)
    else naming.increment(naming.file(0), increment - 1)
  }

  /** The code that processing a file ends with: 0 when it is announced. */
  function Code(s: State, disk: Disk, initTime: int, file: string): int {
    if file !in disk || disk[file] < initTime then -2
    else if s.newest.Some? && disk[file] < s.newest.value.created then -3
    else 0
  }

  function Processed(s: State, disk: Disk, initTime: int, file: string): State {
    if Code(s, disk, initTime, file) == 0
    then State(Some(FileInfo(file, disk[file])), s.announced + [file])
    else s
  }

  /** One pass of the watcher's loop. */
  function Look(s: State, disk: Disk, initTime: int, naming: Naming, increment: nat): State {
    Processed(s, disk, initTime, Sought(s, naming, increment))
  }

  /** The directory holds the files of this run, in the order of their times, and the other image files in it
      are older than the run. */
  ghost predicate Holds(disk: Disk, initTime: int, naming: Naming, files: seq<string>) {
    (forall k :: 0 <= k < |files| ==> files[k] in disk && initTime <= disk[files[k]]) &&
    (forall j, k :: 0 <= j < k < |files| ==> disk[files[j]] <= disk[files[k]]) &&
    (forall n :: naming.file(n) in disk && naming.file(n) !in files ==> disk[naming.file(n)] < initTime)
  }

  /** What was announced is the beginning of what was written, in order, without gaps or repeats. */
  ghost predicate Follows(s: State, disk: Disk, files: seq<string>) {
    |s.announced| <= |files| && s.announced == files[..|s.announced|] &&
    (s.newest.None? <==> s.announced == []) &&
    (s.newest.Some? ==>
       var last := files[|s.announced| - 1];
       last in disk && s.newest.value == FileInfo(last, disk[last]))
  }

  /** The n-th image is the k-th file of the run, or not in it when k is past the end. */
  ghost predicate IsNext(naming: Naming, n: nat, k: nat, files: seq<string>) {
    (k < |files| ==> naming.file(n) == files[k]) && (k >= |files| ==> naming.file(n) !in files)
  }

  /** Looking for the next file announces it when it is there, and otherwise changes nothing. */
  lemma LookAnnouncesNext(s: State, disk: Disk, initTime: int, naming: Naming, files: seq<string>, n: nat)
    requires Holds(disk, initTime, naming, files) && Follows(s, disk, files)
    requires IsNext(naming, n, |s.announced|, files)
    ensures Code(s, disk, initTime, naming.file(n)) == 0 <==> |s.announced| < |files|
    ensures Follows(Processed(s, disk, initTime, naming.file(n)), disk, files)
    ensures Processed(s, disk, initTime, naming.file(n)).announced ==
            files[..if |s.announced| < |files| then |s.announced| + 1 else |s.announced|]
  {
  }

  lemma WriteKeepsHolding(disk: Disk, initTime: int, clock: int, now: int, naming: Naming, files: seq<string>, n: nat)
    requires Holds(disk, initTime, naming, files) && naming.file(n) !in files && initTime <= clock <= now
    requires forall k :: 0 <= k < |files| ==> disk[files[k]] <= clock
    ensures Holds(disk[naming.file(n) := now], initTime, naming, files + [naming.file(n)])
    ensures forall k :: 0 <= k < |files| ==> disk[naming.file(n) := now][files[k]] <= clock
  {
  }

  lemma WriteKeepsFollowing(s: State, disk: Disk, files: seq<string>, file: string, now: int)
    requires Follows(s, disk, files) && file !in files
    ensures Follows(s, disk[file := now], files + [file])
  {
  }

  lemma AllAnnounced(s: State, disk: Disk, files: seq<string>)
    requires Follows(s, disk, files) && |s.announced| == |files|
    ensures s.announced == files
  {
  }

  // ---------------------------------------------------------------- the names in a run

  /** The numbers written are every multiple of the period less one. */
  ghost predicate Periodic(written: seq<nat>, period: nat)
    requires period > 0
  {
    forall k :: 0 <= k < |written| ==> written[k] == Schedule.Nth(period, k)
  }

  lemma SoughtIsNth(s: State, disk: Disk, naming: Naming, written: seq<nat>, period: nat)
    requires period > 0 && Lawful(naming) && Follows(s, disk, ImageFiles(naming, written)) && Periodic(written, period)
    ensures Sought(s, naming, period) == naming.file(Schedule.Nth(period, |s.announced|))
  {
    var m := |s.announced|;
    if m > 0 {
      assert s.newest.value.name == naming.file(written[m - 1]);
    }
  }

  lemma NthIsNext(naming: Naming, written: seq<nat>, period: nat, k: nat)
    requires period > 0 && Lawful(naming) && Periodic(written, period) && k <= |written|
    ensures IsNext(naming, Schedule.Nth(period, k), k, ImageFiles(naming, written))
  {
    if k == |written| {
      forall j | 0 <= j < |written| ensures ImageFiles(naming, written)[j] != naming.file(Schedule.Nth(period, k)) {
        Schedule.NthGrows(period, j, k);
      }
    }
  }

  /** A look at a directory that holds the run announces the next file when there is one. */
  lemma LookAtRun(v: State, disk: Disk, initTime: int, naming: Naming, written: seq<nat>, period: nat,
                  files: seq<string>)
    requires period > 0 && Lawful(naming) && Periodic(written, period) && files == ImageFiles(naming, written)
    requires Holds(disk, initTime, naming, files) && Follows(v, disk, files)
    ensures Code(v, disk, initTime, Sought(v, naming, period)) == 0 <==> |v.announced| < |files|
    ensures Follows(Look(v, disk, initTime, naming, period), disk, files)
    ensures Look(v, disk, initTime, naming, period).announced ==
            files[..if |v.announced| < |files| then |v.announced| + 1 else |v.announced|]
    ensures v.newest.Some? && |v.announced| < |files| ==>
            Look(v, disk, initTime, naming, period).newest != v.newest
  {
    SoughtIsNth(v, disk, naming, written, period);
    NthIsNext(naming, written, period, |v.announced|);
    assert v.newest.Some? ==> v.newest.value.name == naming.file(Schedule.Nth(period, |v.announced| - 1));
    LookAnnouncesNext(v, disk, initTime, naming, files, Schedule.Nth(period, |v.announced|));
  }

  // ---------------------------------------------------------------- a poll

  /** The name the watcher looks from. */
  function LookedFrom(s: State, naming: Naming): string {
    if s.newest.Some? then s.newest.value.name else naming.file(0)
  }

  /** The passes of a poll: it ends when the newest file is the one it looked from in the pass before, or when
      nothing is announced. */
  ghost function Poll(s: State, previous: Option<string>, disk: Disk, initTime: int, naming: Naming, increment: nat,
                      written: seq<nat>): (end: State)
    requires increment > 0 && Lawful(naming) && Periodic(written, increment)
    requires Holds(disk, initTime, naming, ImageFiles(naming, written))
    requires Follows(s, disk, ImageFiles(naming, written))
    ensures Follows(end, disk, ImageFiles(naming, written))
    decreases |written| - |s.announced|
  {
    if s.newest.Some? && previous == Some(s.newest.value.name) then s
    else
      LookAtRun(s, disk, initTime, naming, written, increment, ImageFiles(naming, written));
      if Code(s, disk, initTime, Sought(s, naming, increment)) != 0 then s
      else
        Poll(Look(s, disk, initTime, naming, increment), Some(LookedFrom(s, naming)), disk, initTime, naming, increment,
             written)
  }

  /** The newest file has the name of the last number announced. */
  lemma NewestName(s: State, disk: Disk, naming: Naming, written: seq<nat>, period: nat)
    requires period > 0 && Periodic(written, period) && Follows(s, disk, ImageFiles(naming, written))
    ensures s.newest.Some? ==>
      s.announced != [] && s.newest.value.name == naming.file(Schedule.Nth(period, |s.announced| - 1))
  {
  }

  /** From a newest file on, a poll announces everything. */
  lemma {:induction false} PollGoesOn(s: State, previous: Option<string>, disk: Disk, initTime: int, naming: Naming,
                                      increment: nat, written: seq<nat>)
    requires increment > 0 && Lawful(naming) && Periodic(written, increment)
    requires Holds(disk, initTime, naming, ImageFiles(naming, written))
    requires Follows(s, disk, ImageFiles(naming, written))
    requires s.newest.Some? && previous != Some(s.newest.value.name)
    ensures Poll(s, previous, disk, initTime, naming, increment, written).announced == ImageFiles(naming, written)
    decreases |written| - |s.announced|
  {
    var files := ImageFiles(naming, written);
    LookAtRun(s, disk, initTime, naming, written, increment, files);
    if |s.announced| < |files| {
      var next := Look(s, disk, initTime, naming, increment);
      NewestName(s, disk, naming, written, increment);
      NewestName(next, disk, naming, written, increment);
      Schedule.NthGrows(increment, |s.announced| - 1, |s.announced|);
      PollGoesOn(next, Some(LookedFrom(s, naming)), disk, initTime, naming, increment, written);
    } else {
      AllAnnounced(s, disk, files);
    }
  }

  /** A first poll looks from file 0: with a period of 1 that is the first file, where the poll then stops. */
  predicate StopsShort(s: State, increment: nat, written: seq<nat>) {
    increment == 1 && s.newest.None? && |written| >= 2
  }

  /** A poll announces everything that has been written exactly when it is not a first one that finds two
      files or more with a period of 1; then it announces the first file only. */
  lemma PollAnnouncesAllExactly(s: State, disk: Disk, initTime: int, naming: Naming, increment: nat,
                                written: seq<nat>)
    requires increment > 0 && Lawful(naming) && Periodic(written, increment)
    requires Holds(disk, initTime, naming, ImageFiles(naming, written))
    requires Follows(s, disk, ImageFiles(naming, written))
    ensures var end := Poll(s, None, disk, initTime, naming, increment, written);
            (end.announced == ImageFiles(naming, written) <==> !StopsShort(s, increment, written)) &&
            (StopsShort(s, increment, written) ==> end.announced == [naming.file(0)])
  {
    var files := ImageFiles(naming, written);
    if s.newest.Some? {
      PollGoesOn(s, None, disk, initTime, naming, increment, written);
    } else {
      LookAtRun(s, disk, initTime, naming, written, increment, files);
      if |files| > 0 {
        var next := Look(s, disk, initTime, naming, increment);
        NewestName(next, disk, naming, written, increment);
        assert next.announced == files[..1] == [files[0]];
        if increment > 1 {
          PollGoesOn(next, Some(naming.file(0)), disk, initTime, naming, increment, written);
        }
      }
    }
  }

  lemma ThreeFilesHold(naming: Naming, disk: Disk, written: seq<nat>)
    requires Lawful(naming) && written == [0, 1, 2]
    requires disk == map[naming.file(0) := 10, naming.file(1) := 20, naming.file(2) := 30]
    ensures Periodic(written, 1) && Holds(disk, 5, naming, ImageFiles(naming, written))
    ensures Follows(NOTHING_YET, disk, ImageFiles(naming, written))
  {
    assert Schedule.Nth(1, 0) == 0 && Schedule.Nth(1, 1) == 1 && Schedule.Nth(1, 2) == 2;
    var files := ImageFiles(naming, written);
    assert files == [naming.file(0), naming.file(1), naming.file(2)];
  }

  /** Files 0, 1 and 2 on the disk, a period of 1 and a first poll: files 1 and 2 are not announced. */
  lemma FirstPollStopsShort(naming: Naming, disk: Disk, written: seq<nat>)
    requires Lawful(naming) && written == [0, 1, 2]
    requires disk == map[naming.file(0) := 10, naming.file(1) := 20, naming.file(2) := 30]
    ensures Periodic(written, 1) && Holds(disk, 5, naming, ImageFiles(naming, written))
    ensures Follows(NOTHING_YET, disk, ImageFiles(naming, written))
    ensures Poll(NOTHING_YET, None, disk, 5, naming, 1, written).announced == [naming.file(0)]
    ensures naming.file(0) != naming.file(1) && naming.file(1) in disk
  {
    ThreeFilesHold(naming, disk, written);
    PollAnnouncesAllExactly(NOTHING_YET, disk, 5, naming, 1, written);
  }

  // ---------------------------------------------------------------- the reconstruction and the watcher together

  /** A batch of the reconstruction, taking some time, or a look of the watcher. */
  datatype Event = Batch(elapsed: nat) | LookOnce

  datatype World = World(run: Schedule.Run, disk: Disk, clock: int, watcher: State)

  datatype Setting = Setting(output: nat, log: nat, initTime: int, naming: Naming)

  ghost predicate Sensible(s: Setting) {
    s.output > 0 && s.log > 0 && Lawful(s.naming)
  }

  /** The world after a batch: the file of a newly written image appears in the directory. */
  function Recorded(w: World, run: Schedule.Run, now: int, naming: Naming): World {
    World(run,
          if |run.written| > |w.run.written| then w.disk[naming.file(run.written[|w.run.written|]) := now] else w.disk,
          now, w.watcher)
  }

  function Next(w: World, e: Event, s: Setting): World
    requires s.output > 0 && s.log > 0
  {
    if e.LookOnce? then w.(watcher := Look(w.watcher, w.disk, s.initTime, s.naming, s.output))
    else Recorded(w, Schedule.Round(w.run, s.output, s.log), w.clock + e.elapsed, s.naming)
  }

  function After(w: World, events: seq<Event>, s: Setting): World
    requires s.output > 0 && s.log > 0
  {
    if events == [] then w else Next(After(w, events[..|events| - 1], s), events[|events| - 1], s)
  }

  /** How many batches there are. */
  function Batches(events: seq<Event>): nat {
    if events == [] then 0 else Batches(events[..|events| - 1]) + if events[|events| - 1].Batch? then 1 else 0
  }

  /** Before the run: whatever image files there are, they are older than the start. */
  ghost predicate Started(w: World, s: Setting) {
    w.run == Schedule.START && w.watcher == NOTHING_YET && w.clock >= s.initTime &&
    forall n :: s.naming.file(n) in w.disk ==> w.disk[s.naming.file(n)] < s.initTime
  }

  ghost predicate Together(w: World, s: Setting)
    requires s.output > 0 && s.log > 0
  {
    var files := ImageFiles(s.naming, w.run.written);
    Schedule.UpToDate(w.run, s.output, s.log) && Periodic(w.run.written, s.output) &&
    Holds(w.disk, s.initTime, s.naming, files) && w.clock >= s.initTime &&
    (forall k :: 0 <= k < |files| ==> w.disk[files[k]] <= w.clock) &&
    Follows(w.watcher, w.disk, files)
  }

  lemma LookKeepsTogether(w: World, s: Setting)
    requires Sensible(s) && Together(w, s)
    ensures Together(Next(w, LookOnce, s), s)
  {
    LookAtRun(w.watcher, w.disk, s.initTime, s.naming, w.run.written, s.output, ImageFiles(s.naming, w.run.written));
  }

  lemma RoundWritesAtMostOne(run: Schedule.Run, s: Setting)
    requires s.output > 0 && s.log > 0 && Schedule.UpToDate(run, s.output, s.log) && Periodic(run.written, s.output)
    ensures var written := Schedule.Round(run, s.output, s.log).written;
            written == run.written || written == run.written + [Schedule.Nth(s.output, |run.written|)]
    ensures Periodic(Schedule.Round(run, s.output, s.log).written, s.output)
  {
    var next := Schedule.Round(run, s.output, s.log);
    Schedule.RoundKeepsUpToDate(run, s.output, s.log);
    Schedule.IndicesAreMultiples(s.output, next.iteration);
  }

  lemma WriteKeepsTogether(w: World, run: Schedule.Run, now: int, s: Setting, n: nat)
    requires Sensible(s) && Together(w, s) && now >= w.clock
    requires Schedule.UpToDate(run, s.output, s.log) && Periodic(run.written, s.output)
    requires run.written == w.run.written + [n] && n == Schedule.Nth(s.output, |w.run.written|)
    ensures Together(World(run, w.disk[s.naming.file(n) := now], now, w.watcher), s)
  {
    var files := ImageFiles(s.naming, w.run.written);
    assert ImageFiles(s.naming, run.written) == files + [s.naming.file(n)];
    NthIsNext(s.naming, w.run.written, s.output, |w.run.written|);
    WriteKeepsHolding(w.disk, s.initTime, w.clock, now, s.naming, files, n);
    WriteKeepsFollowing(w.watcher, w.disk, files, s.naming.file(n), now);
  }

  lemma RecordedKeepsTogether(w: World, run: Schedule.Run, now: int, s: Setting, next: World)
    requires Sensible(s) && Together(w, s) && now >= w.clock
    requires Schedule.UpToDate(run, s.output, s.log) && Periodic(run.written, s.output)
    requires run.written == w.run.written || run.written == w.run.written + [Schedule.Nth(s.output, |w.run.written|)]
    requires next == Recorded(w, run, now, s.naming)
    ensures Together(next, s)
  {
    if run.written != w.run.written {
      WriteKeepsTogether(w, run, now, s, Schedule.Nth(s.output, |w.run.written|));
    }
  }

  lemma BatchKeepsTogether(w: World, elapsed: nat, s: Setting, next: World)
    requires Sensible(s) && Together(w, s) && next == Next(w, Batch(elapsed), s)
    ensures Together(next, s)
  {
    Schedule.RoundKeepsUpToDate(w.run, s.output, s.log);
    RoundWritesAtMostOne(w.run, s);
    RecordedKeepsTogether(w, Schedule.Round(w.run, s.output, s.log), w.clock + elapsed, s, next);
  }

  lemma {:induction false} StaysTogether(w: World, events: seq<Event>, s: Setting, end: World)
    requires Sensible(s) && Started(w, s) && end == After(w, events, s)
    ensures Together(end, s)
    decreases |events|
  {
    if events == [] {
      StartIsTogether(w, s);
    } else {
      var front, e := events[..|events| - 1], events[|events| - 1];
      var before := After(w, front, s);
      StaysTogether(w, front, s, before);
      NextKeepsTogether(before, e, s, end);
    }
  }

  lemma {:induction false} RunsItsBatches(w: World, events: seq<Event>, s: Setting)
    requires s.output > 0 && s.log > 0 && Started(w, s)
    ensures After(w, events, s).run == Schedule.Rounds(Batches(events), s.output, s.log)
    decreases |events|
  {
    if events != [] {
      RunsItsBatches(w, events[..|events| - 1], s);
    }
  }

  /** Over any interleaving of batches and looks, what the watcher has announced is the beginning of what
      the reconstruction has written, which is what the one-step loop writes. */
  lemma WatcherFollowsWriter(w: World, events: seq<Event>, s: Setting)
    requires Sensible(s) && Started(w, s)
    ensures Together(After(w, events, s), s)
    ensures After(w, events, s).run == Schedule.Rounds(Batches(events), s.output, s.log)
    ensures After(w, events, s).watcher.announced <= ImageFiles(s.naming, After(w, events, s).run.written)
  {
    var end := After(w, events, s);
    StaysTogether(w, events, s, end);
    RunsItsBatches(w, events, s);
    TogetherIsPrefix(end, s);
  }

  lemma StartIsTogether(w: World, s: Setting)
    requires s.output > 0 && s.log > 0 && Started(w, s)
    ensures Together(w, s)
  {
  }

  lemma NextKeepsTogether(w: World, e: Event, s: Setting, next: World)
    requires Sensible(s) && Together(w, s) && next == Next(w, e, s)
    ensures Together(next, s)
  {
    if e.LookOnce? {
      LookKeepsTogether(w, s);
    } else {
      BatchKeepsTogether(w, e.elapsed, s, next);
    }
  }

  lemma TogetherIsPrefix(w: World, s: Setting)
    requires s.output > 0 && s.log > 0 && Together(w, s)
    ensures w.watcher.announced <= ImageFiles(s.naming, w.run.written)
  {
  }

  // ---------------------------------------------------------------- the watcher

  class OutputWatcher {
    const naming: Naming
    const increment: nat
    const initTime: int
    var newest: Option<FileInfo>
    var announced: seq<string>

    constructor (naming: Naming, increment: nat, startTime: int)
      ensures this.naming == naming && this.increment == increment && initTime == startTime
      ensures View() == NOTHING_YET
    {
      this.naming, this.increment, this.initTime := naming, increment, startTime;
      newest, announced := None, [];
    }

    ghost function View(): State
      reads this
    {
      State(newest, announced)
    }

    method ProcessFile(disk: Disk, file: string) returns (code: int)
      modifies this
      ensures code == Code(old(View()), disk, initTime, file)
      ensures View() == Processed(old(View()), disk, initTime, file)
    {
      if file !in disk || disk[file] < initTime {
        return -2;
      }
      if newest.Some? {
        if disk[file] >= newest.value.created {
          announced := announced + [file];
          newest := Some(FileInfo(file, disk[file]));
          return 0;
        }
      } else {
        newest := Some(FileInfo(file, disk[file]));
        announced := announced + [file];
        return 0;
      }
      return -3;
    }

    /** A poll: announces everything that has been written, unless it is a first poll that finds several files
        with a period of 1. */
    method CheckForNewFiles(disk: Disk, ghost written: seq<nat>)
      requires increment > 0 && Lawful(naming) && Periodic(written, increment)
      requires Holds(disk, initTime, naming, ImageFiles(naming, written))
      requires Follows(View(), disk, ImageFiles(naming, written))
      modifies this
      ensures Follows(View(), disk, ImageFiles(naming, written))
      ensures View() == Poll(old(View()), None, disk, initTime, naming, increment, written)
      ensures announced == ImageFiles(naming, written) <==> !StopsShort(old(View()), increment, written)
      ensures StopsShort(old(View()), increment, written) ==> announced == [naming.file(0)]
    {
      PollAnnouncesAllExactly(View(), disk, initTime, naming, increment, written);
      ghost var goal := Poll(View(), None, disk, initTime, naming, increment, written);
      var previous: Option<string> := None;
      while true
        invariant Follows(View(), disk, ImageFiles(naming, written))
        invariant Poll(View(), previous, disk, initTime, naming, increment, written) == goal
        decreases |written| - |announced|
      {
        LookAtRun(View(), disk, initTime, naming, written, increment, ImageFiles(naming, written));
        var from, file;
        if newest.Some? {
          from := newest.value.name;
          if previous == Some(from) {
            return;
          }
          file := naming.increment(from, increment);
        } else {
          from := naming.file(0);
          file := naming.increment(from, increment - 1);
        }
        previous := Some(from);
        var code := ProcessFile(disk, file);
        if code != 0 {
          return;
        }
      }
    }
  }
}
