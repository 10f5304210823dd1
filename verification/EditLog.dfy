/** The edit log of an image: what undo and redo do to it, and when it agrees with replaying all edits. */
module EditLog {
  import opened Common

  /** The fields the eight recorded edits set; D is the pixel data, which only a resize touches. */
  datatype Settings<D> = Settings(
    data: D, width: int, height: int, phased: bool, shifted: bool, scaled: bool, wavelength: real,
    distance: real, pixelSize: (real, real), center: (real, real))

  datatype Edit =
    | ImageSize(width: int, height: int)
    | Phased(on: bool)
    | Shifted(on: bool)
    | Scaled(on: bool)
    | Wavelength(value: real)
    | DetectorDistance(value: real)
    | PixelSize(size: (real, real))
    | ImageCenter(at: (real, real))

  /** How the image library moves pixel data to a new size. */
  type Realloc<!D> = (D, int, int) -> D

  function Apply<D>(realloc: Realloc<D>, s: Settings<D>, e: Edit): Settings<D> {
    match e
    case ImageSize(w, h) => s.(data := realloc(s.data, w, h), width := w, height := h)
    case Phased(on) => s.(phased := on)
    case Shifted(on) => s.(shifted := on)
    case Scaled(on) => s.(scaled := on)
    case Wavelength(v) => s.(wavelength := v)
    case DetectorDistance(v) => s.(distance := v)
    case PixelSize(p) => s.(pixelSize := p)
    case ImageCenter(c) => s.(center := c)
  }

  /** Field by field: each takes its value from the edit of its own kind, and keeps it under any other; a resize
      moves the pixel data to the new size. */
  ghost predicate Assigned<D>(realloc: Realloc<D>, before: Settings<D>, e: Edit, after: Settings<D>) {
    after.width == (if e.ImageSize? then e.width else before.width) &&
    after.height == (if e.ImageSize? then e.height else before.height) &&
    after.data == (if e.ImageSize? then realloc(before.data, e.width, e.height) else before.data) &&
    after.phased == (if e.Phased? then e.on else before.phased) &&
    after.shifted == (if e.Shifted? then e.on else before.shifted) &&
    after.scaled == (if e.Scaled? then e.on else before.scaled) &&
    after.wavelength == (if e.Wavelength? then e.value else before.wavelength) &&
    after.distance == (if e.DetectorDistance? then e.value else before.distance) &&
    after.pixelSize == (if e.PixelSize? then e.size else before.pixelSize) &&
    after.center == (if e.ImageCenter? then e.at else before.center)
  }

  lemma ApplyAssigns<D>(realloc: Realloc<D>, s: Settings<D>, e: Edit)
    ensures Assigned(realloc, s, e, Apply(realloc, s, e))
  {
  }

  /** An entry of the log: a full copy of the image, or an edit. */
  datatype Entry<D> = Mark(s: Settings<D>) | Change(e: Edit)

  /** Both stacks with their tops last, and the image. */
  datatype Log<D> = Log(undo: seq<Entry<D>>, redo: seq<Entry<D>>, image: Settings<D>)

  const CHECKPOINT_PERIOD := 10

  // ---------------------------------------------------------------- replaying

  /** The original with every edit of a list applied in order; marks change nothing. */
  function Replay<D>(realloc: Realloc<D>, original: Settings<D>, entries: seq<Entry<D>>): Settings<D> {
    if entries == [] then original
    else
      var before := Replay(realloc, original, entries[..|entries| - 1]);
      match entries[|entries| - 1]
      case Mark(_) => before
      case Change(e) => Apply(realloc, before, e)
  }

  /** The last mark with the edits behind it applied: what undo computes. */
  function Rewound<D>(realloc: Realloc<D>, fallback: Settings<D>, entries: seq<Entry<D>>): Settings<D> {
    if entries == [] then fallback
    else
      match entries[|entries| - 1]
      case Mark(s) => s
      case Change(e) => Apply(realloc, Rewound(realloc, fallback, entries[..|entries| - 1]), e)
  }

  function Reverse<T>(s: seq<T>): (r: seq<T>)
    ensures |r| == |s| && forall i :: 0 <= i < |s| ==> r[i] == s[|s| - 1 - i]
  {
    seq(|s|, i requires 0 <= i < |s| => s[|s| - 1 - i])
  }

  /** Everything that was recorded, oldest first. */
  function Timeline<D>(log: Log<D>): seq<Entry<D>> {
    log.undo + Reverse(log.redo)
  }

  // ---------------------------------------------------------------- the three operations

  /** A fresh edit: a mark first when the undo stack is at a multiple of ten. The redo stack stays. */
  function Edited<D>(realloc: Realloc<D>, log: Log<D>, e: Edit): Log<D> {
    var marked := if |log.undo| % CHECKPOINT_PERIOD == 0 then log.undo + [Mark(log.image)] else log.undo;
    Log(marked + [Change(e)], log.redo, Apply(realloc, log.image, e))
  }

  /** What an undo is meant to do: the top moves to the redo stack; if it is an edit, the image is rebuilt
      from the last mark. */
  function TakenBack<D>(realloc: Realloc<D>, log: Log<D>): Log<D> {
    if log.undo == [] then log
    else
      var top, rest := log.undo[|log.undo| - 1], log.undo[..|log.undo| - 1];
      Log(rest, log.redo + [top], if top.Mark? then log.image else Rewound(realloc, log.image, rest))
  }

  /** The top of the redo stack applied and moved back. */
  function Reapplied<D>(realloc: Realloc<D>, log: Log<D>): Log<D>
    requires log.redo != []
  {
    var top, rest := log.redo[|log.redo| - 1], log.redo[..|log.redo| - 1];
    match top
    case Change(e) => Edited(realloc, Log(log.undo, rest, log.image), e)
    case Mark(s) => Log(log.undo + [top], rest, s)
  }

  /** Where the last mark of a list stands. */
  function LastMarkAt<D>(entries: seq<Entry<D>>): (c: nat)
    requires entries != [] && entries[0].Mark?
    ensures c < |entries| && entries[c].Mark? && forall k :: c < k < |entries| ==> entries[k].Change?
  {
    if entries[|entries| - 1].Mark? then |entries| - 1 else LastMarkAt(entries[..|entries| - 1])
  }

  /** The log with the undo stack cut at k and the rest moved to the redo stack. */
  function Rolled<D>(log: Log<D>, k: nat): Log<D>
    requires k <= |log.undo|
  {
    Log(log.undo[..k], log.redo + Reverse(log.undo[k..]), log.image)
  }

  /** The top of the undo stack moved to the redo stack. */
  function Moved<D>(log: Log<D>): Log<D>
    requires log.undo != []
  {
    Log(log.undo[..|log.undo| - 1], log.redo + [log.undo[|log.undo| - 1]], log.image)
  }

  /** Entries moved to the redo stack, up to and with the last mark. */
  function Back<D>(log: Log<D>): Log<D>
    requires log.undo != [] && Grounded(log)
    decreases |log.undo|
  {
    if log.undo[|log.undo| - 1].Mark? then Moved(log) else Back(Moved(log))
  }

  lemma RolledMoved<D>(log: Log<D>, c: nat)
    requires c < |log.undo|
    ensures Rolled(Moved(log), c) == Rolled(log, c)
  {
    var n := |log.undo|;
    assert log.undo[..n - 1][..c] == log.undo[..c];
    assert log.undo[c..] == log.undo[..n - 1][c..] + [log.undo[n - 1]];
    assert Reverse(log.undo[c..]) == [log.undo[n - 1]] + Reverse(log.undo[..n - 1][c..]);
  }

  /** All that is moved is still there. */
  lemma {:induction false} BackIsRolled<D>(log: Log<D>)
    requires log.undo != [] && Grounded(log)
    ensures Back(log) == Rolled(log, LastMarkAt(log.undo))
    decreases |log.undo|
  {
    RolledMoved(log, LastMarkAt(log.undo));
    if log.undo[|log.undo| - 1].Change? {
      BackIsRolled(Moved(log));
    } else {
      RolledWhole(Moved(log));
    }
  }

  /** The redo stack applied until the undo stack has the given size. */
  function Forwarded<D>(realloc: Realloc<D>, log: Log<D>, size: int): Log<D>
    requires |log.undo| + |log.redo| >= size
    decreases size - |log.undo|
  {
    if |log.undo| < size then Forwarded(realloc, Reapplied(realloc, log), size) else log
  }

  lemma BackKeepsEntries<D>(log: Log<D>)
    requires log.undo != [] && Grounded(log)
    ensures |Back(log).undo| == LastMarkAt(log.undo)
    ensures |Back(log).undo| + |Back(log).redo| == |log.undo| + |log.redo|
    ensures Back(log).redo != [] && Back(log).redo[|Back(log).redo| - 1] == log.undo[LastMarkAt(log.undo)]
    ensures Back(log).redo[0] == if log.redo == [] then log.undo[|log.undo| - 1] else log.redo[0]
    ensures Grounded(Back(log))
  {
    BackIsRolled(log);
  }

  /** One undo as the program does it: back to the last mark, and forward to one entry short of the start. */
  function Undone<D>(realloc: Realloc<D>, log: Log<D>): Log<D>
    requires Grounded(log)
  {
    if log.undo == [] then log
    else
      BackKeepsEntries(log);
      Forwarded(realloc, Back(log), |log.undo| - 1)
  }

  /** One redo: marks move back for free, up to and with the next edit. */
  function Redone<D>(realloc: Realloc<D>, log: Log<D>): Log<D>
    decreases |log.redo|
  {
    if log.redo == [] then log
    else
      var next := Reapplied(realloc, log);
      if log.redo[|log.redo| - 1].Mark? then Redone(realloc, next) else next
  }

  // ---------------------------------------------------------------- sessions that never run a stack dry

  /** The undo stack starts with a mark. */
  predicate Grounded<D>(log: Log<D>) {
    log.undo != [] ==> log.undo[0].Mark?
  }

  /** Besides, the redo stack starts with an edit, and is not empty while a mark is on top of the undo stack. */
  predicate Safe<D>(log: Log<D>) {
    Grounded(log) && (log.redo != [] ==> log.redo[0].Change?) &&
    (log.undo != [] && log.undo[|log.undo| - 1].Mark? ==> log.redo != [])
  }

  lemma ReapplyStaysGrounded<D>(realloc: Realloc<D>, log: Log<D>)
    requires Grounded(log) && log.redo != []
    ensures var next := Reapplied(realloc, log);
            Grounded(next) && next.undo != [] && next.redo == log.redo[..|log.redo| - 1] &&
            |next.undo| <= |log.undo| + 2 && (next.undo[|next.undo| - 1].Mark? <==> log.redo[|log.redo| - 1].Mark?)
  {
  }

  /** Going forward leaves the bottom of the redo stack alone as long as one entry more is there. */
  lemma {:induction false} ForwardedStaysSafe<D>(realloc: Realloc<D>, log: Log<D>, size: int)
    requires Grounded(log) && |log.undo| + |log.redo| > size && log.redo != [] && log.redo[0].Change?
    ensures Safe(Forwarded(realloc, log, size))
    decreases size - |log.undo|
  {
    if |log.undo| < size {
      ReapplyStaysGrounded(realloc, log);
      ForwardedStaysSafe(realloc, Reapplied(realloc, log), size);
    }
  }

  lemma UndoStaysSafe<D>(realloc: Realloc<D>, log: Log<D>)
    requires Safe(log)
    ensures Safe(Undone(realloc, log))
  {
    if log.undo != [] {
      BackKeepsEntries(log);
      ForwardedStaysSafe(realloc, Back(log), |log.undo| - 1);
    }
  }

  lemma {:induction false} RedoStaysSafe<D>(realloc: Realloc<D>, log: Log<D>)
    requires Grounded(log) && (log.redo != [] ==> log.redo[0].Change?)
    requires log.undo != [] && log.undo[|log.undo| - 1].Mark? ==> log.redo != []
    ensures Safe(Redone(realloc, log))
    decreases |log.redo|
  {
    if log.redo != [] {
      ReapplyStaysGrounded(realloc, log);
      if log.redo[|log.redo| - 1].Mark? {
        RedoStaysSafe(realloc, Reapplied(realloc, log));
      }
    }
  }

  /** A full copy is due every ten entries. */
  lemma MarksEveryTen<D>(realloc: Realloc<D>, log: Log<D>, e: Edit)
    ensures Edited(realloc, log, e).undo ==
            if |log.undo| % 10 == 0 then log.undo + [Mark(log.image), Change(e)] else log.undo + [Change(e)]
  {
    assert log.undo + [Mark(log.image)] + [Change(e)] == log.undo + [Mark(log.image), Change(e)];
  }

  // ---------------------------------------------------------------- agreement

  /** Marks stand exactly at the multiples of ten, and none is the last entry. */
  ghost predicate Placed<D>(t: seq<Entry<D>>) {
    (forall i :: 0 <= i < |t| ==> (t[i].Mark? <==> i % CHECKPOINT_PERIOD == 0)) &&
    |t| % CHECKPOINT_PERIOD != 1
  }

  /** Every mark holds the replay of the entries before it. */
  ghost predicate Exact<D>(realloc: Realloc<D>, original: Settings<D>, t: seq<Entry<D>>) {
    forall i :: 0 <= i < |t| && t[i].Mark? ==> t[i].s == Replay(realloc, original, t[..i])
  }

  ghost predicate Ordered<D>(realloc: Realloc<D>, original: Settings<D>, t: seq<Entry<D>>) {
    Placed(t) && Exact(realloc, original, t)
  }

  /** The image is the original with the edits on the undo stack. */
  ghost predicate ImageAgrees<D>(realloc: Realloc<D>, original: Settings<D>, log: Log<D>) {
    log.image == Replay(realloc, original, log.undo)
  }

  /** The log is in order, with every checkpoint of both stacks in its place and right, and so is the image. */
  ghost predicate Agrees<D>(realloc: Realloc<D>, original: Settings<D>, log: Log<D>) {
    Ordered(realloc, original, Timeline(log)) && ImageAgrees(realloc, original, log)
  }

  function Start<D>(original: Settings<D>): Log<D> {
    Log([], [], original)
  }

  /** In an ordered list, rewinding from the last mark is the same as replaying everything. */
  lemma {:induction false} RewoundIsReplay<D>(realloc: Realloc<D>, original: Settings<D>, fallback: Settings<D>,
                                              t: seq<Entry<D>>, n: nat)
    requires 0 < n <= |t| && Ordered(realloc, original, t)
    ensures Rewound(realloc, fallback, t[..n]) == Replay(realloc, original, t[..n])
    decreases n
  {
    var front := t[..n];
    assert front[..n - 1] == t[..n - 1];
    if front[n - 1].Change? {
      assert n - 1 > 0;
      RewoundIsReplay(realloc, original, fallback, t, n - 1);
    }
  }

  lemma TimelineOfMove<D>(undo: seq<Entry<D>>, x: Entry<D>, redo: seq<Entry<D>>)
    ensures undo + [x] + Reverse(redo) == undo + Reverse(redo + [x])
  {
    assert Reverse(redo + [x]) == [x] + Reverse(redo);
  }

  lemma PrefixOfTimeline<D>(log: Log<D>)
    ensures Timeline(log)[..|log.undo|] == log.undo
  {
  }

  lemma EndsOfTimeline<D>(log: Log<D>)
    ensures log.undo != [] ==> Timeline(log)[0] == log.undo[0]
    ensures log.undo != [] ==> Timeline(log)[|log.undo| - 1] == log.undo[|log.undo| - 1]
    ensures log.redo != [] ==> Timeline(log)[|Timeline(log)| - 1] == log.redo[0]
    ensures log.redo == [] ==> |Timeline(log)| == |log.undo|
  {
  }

  lemma AfterMultiple(n: nat)
    requires n > 0
    ensures (n - 1) % CHECKPOINT_PERIOD == 0 ==> n % CHECKPOINT_PERIOD == 1
  {
  }

  lemma LastIsEdit<D>(t: seq<Entry<D>>)
    requires Placed(t) && t != []
    ensures t[|t| - 1].Change?
  {
    AfterMultiple(|t|);
  }

  /** An ordered log is safe. */
  lemma OrderedIsSafe<D>(log: Log<D>)
    requires Placed(Timeline(log))
    ensures Safe(log)
  {
    EndsOfTimeline(log);
    if Timeline(log) != [] {
      LastIsEdit(Timeline(log));
    }
  }

  lemma TakenBackTimeline<D>(realloc: Realloc<D>, log: Log<D>)
    ensures Timeline(TakenBack(realloc, log)) == Timeline(log)
    ensures log.undo != [] ==>
      Timeline(log)[..|log.undo| - 1] == log.undo[..|log.undo| - 1] &&
      Timeline(log)[|log.undo| - 1] == log.undo[|log.undo| - 1]
  {
    if log.undo != [] {
      var top, rest := log.undo[|log.undo| - 1], log.undo[..|log.undo| - 1];
      assert log.undo == rest + [top];
      TimelineOfMove(rest, top, log.redo);
    }
  }

  /** What an undo is meant to do keeps the timeline and the agreement. */
  lemma TakenBackAgrees<D>(realloc: Realloc<D>, original: Settings<D>, log: Log<D>)
    requires Agrees(realloc, original, log)
    ensures Agrees(realloc, original, TakenBack(realloc, log))
    ensures Timeline(TakenBack(realloc, log)) == Timeline(log)
  {
    TakenBackTimeline(realloc, log);
    if log.undo != [] && log.undo[|log.undo| - 1].Change? {
      RewoundIsReplay(realloc, original, log.image, Timeline(log), |log.undo| - 1);
    }
  }

  /** On an ordered log the program does what an undo is meant to do. */
  lemma UndoTakesBack<D>(realloc: Realloc<D>, log: Log<D>)
    requires Placed(Timeline(log))
    ensures Grounded(log) && Undone(realloc, log) == TakenBack(realloc, log)
  {
    OrderedIsSafe(log);
    if log.undo != [] {
      var c := LastMarkAt(log.undo);
      BackIsRolled(log);
      ForwardFrom(realloc, log, c, c);
      ForwardIsTakenBack(realloc, log, c);
    }
  }

  /** An undo keeps the timeline and the agreement. */
  lemma UndoAgrees<D>(realloc: Realloc<D>, original: Settings<D>, log: Log<D>)
    requires Agrees(realloc, original, log)
    ensures Grounded(log) && Agrees(realloc, original, Undone(realloc, log))
    ensures Timeline(Undone(realloc, log)) == Timeline(log)
  {
    UndoTakesBack(realloc, log);
    TakenBackAgrees(realloc, original, log);
  }

  /** The top of the redo stack is the next entry of the timeline. */
  lemma NextOnTimeline<D>(log: Log<D>)
    requires log.redo != []
    ensures var n, m, t := |log.undo|, |log.redo|, Timeline(log);
            t[n] == log.redo[m - 1] && t[..n] == log.undo && |t| == n + m &&
            log.undo + [log.redo[m - 1]] + Reverse(log.redo[..m - 1]) == t &&
            (m > 1 ==> t[n + 1] == log.redo[m - 2])
  {
    var m := |log.redo|;
    assert log.redo == log.redo[..m - 1] + [log.redo[m - 1]];
    TimelineOfMove(log.undo, log.redo[m - 1], log.redo[..m - 1]);
  }

  /** Moving one entry back keeps the timeline and the agreement; behind a mark there is an edit. */
  lemma ReapplyAgrees<D>(realloc: Realloc<D>, original: Settings<D>, log: Log<D>)
    requires Agrees(realloc, original, log) && log.redo != []
    ensures var next := Reapplied(realloc, log);
            Agrees(realloc, original, next) && Timeline(next) == Timeline(log) &&
            (log.redo[|log.redo| - 1].Mark? ==> next.redo != [] && next.redo[|next.redo| - 1].Change?)
  {
    ReappliedTimeline(realloc, log);
    ReappliedImage(realloc, original, log);
  }

  lemma ReappliedTimeline<D>(realloc: Realloc<D>, log: Log<D>)
    requires Placed(Timeline(log)) && log.redo != []
    ensures Timeline(Reapplied(realloc, log)) == Timeline(log)
    ensures var rest := log.redo[..|log.redo| - 1];
            log.redo[|log.redo| - 1].Mark? ==> rest != [] && rest[|rest| - 1].Change?
  {
    NextOnTimeline(log);
  }

  lemma ReappliedImage<D>(realloc: Realloc<D>, original: Settings<D>, log: Log<D>)
    requires Agrees(realloc, original, log) && log.redo != []
    ensures ImageAgrees(realloc, original, Reapplied(realloc, log))
  {
    NextOnTimeline(log);
    var top := log.redo[|log.redo| - 1];
    assert (log.undo + [top])[..|log.undo|] == log.undo;
  }

  /** A redo keeps the timeline and the agreement. */
  lemma RedoAgrees<D>(realloc: Realloc<D>, original: Settings<D>, log: Log<D>)
    requires Agrees(realloc, original, log)
    ensures Agrees(realloc, original, Redone(realloc, log))
    ensures Timeline(Redone(realloc, log)) == Timeline(log)
    decreases |log.redo|
  {
    if log.redo != [] {
      ReapplyAgrees(realloc, original, log);
      if log.redo[|log.redo| - 1].Mark? {
        RedoAgrees(realloc, original, Reapplied(realloc, log));
      }
    }
  }

  /** When a fresh edit leaves the log consistent: nothing to redo, or both stacks within one block of ten. */
  predicate FreshEditFits<D>(log: Log<D>) {
    log.redo == [] ||
    (|log.undo| % CHECKPOINT_PERIOD != 0 && |log.undo| % CHECKPOINT_PERIOD + |log.redo| < CHECKPOINT_PERIOD)
  }

  /** The next multiple of ten, one block on. */
  function NextMultiple(n: nat): (k: nat)
    ensures n < k <= n + CHECKPOINT_PERIOD && k % CHECKPOINT_PERIOD == 0 && (k + 1) % CHECKPOINT_PERIOD == 1
    ensures k == n - n % CHECKPOINT_PERIOD + CHECKPOINT_PERIOD
  {
    (n / CHECKPOINT_PERIOD + 1) * CHECKPOINT_PERIOD
  }

  lemma NoMultipleWithin(n: nat, i: nat)
    requires n % CHECKPOINT_PERIOD != 0 && n <= i < NextMultiple(n)
    ensures i % CHECKPOINT_PERIOD != 0
  {
    assert i == n / CHECKPOINT_PERIOD * CHECKPOINT_PERIOD + (n % CHECKPOINT_PERIOD + (i - n));
  }

  /** An edit put into a list away from the multiples of ten leaves the marks in place exactly when no
      later entry crosses one. */
  lemma InsertOne<D>(t: seq<Entry<D>>, n: nat, x: Entry<D>)
    requires n <= |t| && Placed(t) && n % CHECKPOINT_PERIOD != 0 && x.Change?
    ensures Placed(t[..n] + [x] + t[n..]) <==> n == |t| || |t| < NextMultiple(n)
  {
    var u := t[..n] + [x] + t[n..];
    assert forall i :: 0 <= i < n ==> u[i] == t[i];
    assert u[n] == x && forall i :: n < i < |u| ==> u[i] == t[i - 1];
    var k := NextMultiple(n);
    if |t| < k {
      InsertWithinBlock(t, n, x, u);
    } else if n < |t| {
      if k < |t| {
        assert t[k].Mark? && u[k + 1] == t[k];
      } else {
        assert t[k - 1].Change? && u[k] == t[k - 1];
      }
    }
  }

  lemma InsertWithinBlock<D>(t: seq<Entry<D>>, n: nat, x: Entry<D>, u: seq<Entry<D>>)
    requires n <= |t| < NextMultiple(n) && Placed(t) && n % CHECKPOINT_PERIOD != 0 && x.Change?
    requires |u| == |t| + 1 && (forall i :: 0 <= i < n ==> u[i] == t[i]) && u[n] == x
    requires forall i :: n < i < |u| ==> u[i] == t[i - 1]
    ensures Placed(u)
  {
    forall i | 0 <= i < |u| ensures u[i].Mark? <==> i % CHECKPOINT_PERIOD == 0 {
      if i >= n {
        NoMultipleWithin(n, i);
        if i > n {
          NoMultipleWithin(n, i - 1);
        }
      }
    }
    NoMultipleWithin(n, |t|);
  }

  /** A mark and an edit put into a list at a multiple of ten fit exactly at its end. */
  lemma InsertTwo<D>(t: seq<Entry<D>>, n: nat, m: Entry<D>, x: Entry<D>)
    requires n <= |t| && Placed(t) && n % CHECKPOINT_PERIOD == 0 && m.Mark? && x.Change?
    ensures Placed(t[..n] + [m, x] + t[n..]) <==> n == |t|
  {
    var u := t[..n] + [m, x] + t[n..];
    assert forall i :: 0 <= i < n ==> u[i] == t[i];
    if n < |t| {
      assert t[n].Mark? && u[n + 2] == t[n];
    }
  }

  /** The timeline after a fresh edit. */
  lemma EditedTimeline<D>(realloc: Realloc<D>, log: Log<D>, e: Edit)
    ensures var n := |log.undo|;
            var added := if n % CHECKPOINT_PERIOD == 0 then [Mark(log.image), Change(e)] else [Change(e)];
            Timeline(Edited(realloc, log, e)) == Timeline(log)[..n] + added + Timeline(log)[n..]
  {
    PrefixOfTimeline(log);
    assert Timeline(log)[|log.undo|..] == Reverse(log.redo);
  }

  lemma PlacedExactlyWhenItFits<D>(realloc: Realloc<D>, log: Log<D>, e: Edit)
    requires Placed(Timeline(log))
    ensures Placed(Timeline(Edited(realloc, log, e))) <==> FreshEditFits(log)
  {
    var n, t := |log.undo|, Timeline(log);
    EditedTimeline(realloc, log, e);
    if n % CHECKPOINT_PERIOD == 0 {
      InsertTwo(t, n, Mark(log.image), Change(e));
    } else {
      InsertOne(t, n, Change(e));
    }
  }

  /** Later entries do not disturb what marks before them hold. */
  lemma ExactPrefix<D>(realloc: Realloc<D>, original: Settings<D>, t: seq<Entry<D>>, u: seq<Entry<D>>, n: nat)
    requires n <= |t| && n <= |u| && t[..n] == u[..n] && Exact(realloc, original, t)
    requires forall i :: n <= i < |u| && u[i].Mark? ==> u[i].s == Replay(realloc, original, u[..i])
    ensures Exact(realloc, original, u)
  {
    forall i | 0 <= i < n && u[i].Mark? ensures u[i].s == Replay(realloc, original, u[..i]) {
      assert u[i] == t[..n][i] == t[i];
      assert u[..i] == u[..n][..i] == t[..i];
    }
  }

  /** A fresh edit that fits is recorded consistently. */
  lemma FittingEditAgrees<D>(realloc: Realloc<D>, original: Settings<D>, log: Log<D>, e: Edit)
    requires Agrees(realloc, original, log) && FreshEditFits(log)
    ensures Agrees(realloc, original, Edited(realloc, log, e))
  {
    var next := Edited(realloc, log, e);
    var n, t, u := |log.undo|, Timeline(log), Timeline(next);
    PlacedExactlyWhenItFits(realloc, log, e);
    EditedTimeline(realloc, log, e);
    PrefixOfTimeline(log);
    assert u[..n] == log.undo;
    forall i | n <= i < |u| && u[i].Mark? ensures u[i].s == Replay(realloc, original, u[..i]) {
      NoMarkBehindFit(realloc, log, e, i);
    }
    ExactPrefix(realloc, original, t, u, n);
    var marked := next.undo[..|next.undo| - 1];
    if n % CHECKPOINT_PERIOD == 0 {
      assert marked == log.undo + [Mark(log.image)] && marked[..n] == log.undo;
    } else {
      assert marked == log.undo;
    }
  }

  /** Behind a fitting edit the only mark is the one it brings. */
  lemma NoMarkBehindFit<D>(realloc: Realloc<D>, log: Log<D>, e: Edit, i: nat)
    requires FreshEditFits(log) && Placed(Timeline(Edited(realloc, log, e)))
    requires var u := Timeline(Edited(realloc, log, e)); |log.undo| <= i < |u| && u[i].Mark?
    ensures i == |log.undo| && Timeline(Edited(realloc, log, e))[i].s == log.image
  {
    var n := |log.undo|;
    if n % CHECKPOINT_PERIOD != 0 && i < NextMultiple(n) {
      NoMultipleWithin(n, i);
    }
  }

  /** The redo stack is never cleared, so a fresh edit keeps the log in order exactly when it fits. */
  lemma EditAgreesExactlyWhenItFits<D>(realloc: Realloc<D>, original: Settings<D>, log: Log<D>, e: Edit)
    requires Agrees(realloc, original, log)
    ensures Agrees(realloc, original, Edited(realloc, log, e)) <==> FreshEditFits(log)
  {
    PlacedExactlyWhenItFits(realloc, log, e);
    if FreshEditFits(log) {
      FittingEditAgrees(realloc, original, log, e);
    }
  }

  lemma UndoShortens<D>(realloc: Realloc<D>, original: Settings<D>, log: Log<D>)
    requires Agrees(realloc, original, log) && log.undo != []
    ensures Grounded(log) && Agrees(realloc, original, Undone(realloc, log))
    ensures |Undone(realloc, log).undo| == |log.undo| - 1 && Undone(realloc, log).redo != []
  {
    UndoAgrees(realloc, original, log);
    UndoTakesBack(realloc, log);
  }

  /** One edit, undone with its checkpoint, and then another edit: a mark is out of its place. */
  lemma EditOverUndoneMisplacesMark<D>(realloc: Realloc<D>, original: Settings<D>, e: Edit, f: Edit)
    ensures var once := Edited(realloc, Start(original), e);
            Grounded(once) && Grounded(Undone(realloc, once)) &&
            var undone := Undone(realloc, Undone(realloc, once));
            Agrees(realloc, original, undone) && !Placed(Timeline(Edited(realloc, undone, f)))
  {
    StartAgrees(realloc, original);
    EditAgreesExactlyWhenItFits(realloc, original, Start(original), e);
    TwoUndosThenEdit(realloc, original, Edited(realloc, Start(original), e), f);
  }

  lemma StartAgrees<D>(realloc: Realloc<D>, original: Settings<D>)
    ensures Agrees(realloc, original, Start(original))
  {
    assert Timeline(Start(original)) == [];
  }

  lemma TwoUndosThenEdit<D>(realloc: Realloc<D>, original: Settings<D>, once: Log<D>, f: Edit)
    requires Agrees(realloc, original, once) && |once.undo| == 2
    ensures Grounded(once) && Grounded(Undone(realloc, once))
    ensures var undone := Undone(realloc, Undone(realloc, once));
            Agrees(realloc, original, undone) && !Placed(Timeline(Edited(realloc, undone, f)))
  {
    UndoShortens(realloc, original, once);
    var twice := Undone(realloc, once);
    UndoShortens(realloc, original, twice);
    PlacedExactlyWhenItFits(realloc, Undone(realloc, twice), f);
  }

  // ---------------------------------------------------------------- whole sessions

  datatype Command = Fresh(e: Edit) | Undo | Redo

  function After<D>(realloc: Realloc<D>, log: Log<D>, c: Command): (next: Log<D>)
    requires Safe(log)
    ensures Safe(next)
  {
    match c
    case Fresh(e) => Edited(realloc, log, e)
    case Undo =>
      UndoStaysSafe(realloc, log);
      Undone(realloc, log)
    case Redo =>
      RedoStaysSafe(realloc, log);
      Redone(realloc, log)
  }

  /** Any session whatsoever: it never takes anything from an empty stack. */
  function Session<D>(realloc: Realloc<D>, log: Log<D>, cs: seq<Command>): (next: Log<D>)
    requires Safe(log)
    ensures Safe(next)
  {
    if cs == [] then log else After(realloc, Session(realloc, log, cs[..|cs| - 1]), cs[|cs| - 1])
  }

  /** Every fresh edit of the session fits where it is made. */
  predicate EditsFit<D>(realloc: Realloc<D>, log: Log<D>, cs: seq<Command>)
    requires Safe(log)
  {
    cs == [] ||
    var front := cs[..|cs| - 1];
    EditsFit(realloc, log, front) &&
    (cs[|cs| - 1].Fresh? ==> FreshEditFits(Session(realloc, log, front)))
  }

  /** The log is in order and agrees with full replay at the start and after every command. */
  ghost predicate AgreesThroughout<D>(realloc: Realloc<D>, original: Settings<D>, cs: seq<Command>) {
    Agrees(realloc, original, Session(realloc, Start(original), cs)) &&
    (cs != [] ==> AgreesThroughout(realloc, original, cs[..|cs| - 1]))
  }

  /** Over every session, the log is in order and agrees at every point exactly when every fresh edit fits. */
  lemma {:induction false} SessionAgreesExactlyWhenEditsFit<D>(realloc: Realloc<D>, original: Settings<D>,
                                                               cs: seq<Command>)
    ensures AgreesThroughout(realloc, original, cs) <==> EditsFit(realloc, Start(original), cs)
    decreases |cs|
  {
    var start := Start(original);
    if cs == [] {
      assert Timeline(start) == [];
    } else {
      var front, c := cs[..|cs| - 1], cs[|cs| - 1];
      SessionAgreesExactlyWhenEditsFit(realloc, original, front);
      var log := Session(realloc, start, front);
      if Agrees(realloc, original, log) {
        match c
        case Fresh(e) => EditAgreesExactlyWhenItFits(realloc, original, log, e);
        case Undo => UndoAgrees(realloc, original, log);
        case Redo => RedoAgrees(realloc, original, log);
      }
    }
  }

  /** A redo takes an undo back exactly when the undo took back an edit: a mark on top travels alone. */
  lemma RedoAfterUndo<D>(realloc: Realloc<D>, original: Settings<D>, log: Log<D>)
    requires Agrees(realloc, original, log) && log.undo != []
    ensures Grounded(log)
    ensures Redone(realloc, Undone(realloc, log)) == log <==> log.undo[|log.undo| - 1].Change?
  {
    UndoTakesBack(realloc, log);
    var n := |log.undo|;
    var top, rest := log.undo[n - 1], log.undo[..n - 1];
    assert log.undo == rest + [top];
    assert Timeline(log)[n - 1] == top;
    assert (log.redo + [top])[..|log.redo|] == log.redo;
    if top.Change? {
      RedoOfEdit(realloc, original, log);
    } else {
      RedoOfMarkGoesOn(realloc, log);
    }
  }

  lemma RedoOfEdit<D>(realloc: Realloc<D>, original: Settings<D>, log: Log<D>)
    requires Agrees(realloc, original, log) && log.undo != [] && log.undo[|log.undo| - 1].Change?
    ensures Redone(realloc, TakenBack(realloc, log)) == log
  {
    var n := |log.undo|;
    var top, rest := log.undo[n - 1], log.undo[..n - 1];
    assert log.undo == rest + [top] && Timeline(log)[n - 1] == top;
    var back := TakenBack(realloc, log);
    TakenBackAgrees(realloc, original, log);
    assert back.redo == log.redo + [top] && back.redo[..|log.redo|] == log.redo;
    assert log.undo[..n - 1] == rest;
  }

  lemma RedoOfMarkGoesOn<D>(realloc: Realloc<D>, log: Log<D>)
    requires Placed(Timeline(log)) && log.undo != [] && log.undo[|log.undo| - 1].Mark?
    ensures |Redone(realloc, TakenBack(realloc, log)).undo| > |log.undo|
  {
    var n, t := |log.undo|, Timeline(log);
    assert t[n - 1] == log.undo[n - 1];
    assert |t| > n && t[n] == Reverse(log.redo)[0];
    var back := TakenBack(realloc, log);
    assert back.redo[..|log.redo|] == log.redo;
  }

  // ---------------------------------------------------------------- the image item

  /** An image as the program holds it: one object, changed in place. */
  class Picture<D> {
    var s: Settings<D>

    constructor (s: Settings<D>)
      ensures this.s == s
    {
      this.s := s;
    }
  }

  /** A stack entry of the program: a checkpoint owns a copy of the image. */
  datatype EditStep<D> = Checkpoint(copy: Picture<D>) | Step(e: Edit)

  ghost function Copies<D>(steps: seq<EditStep<D>>): set<object> {
    set i | 0 <= i < |steps| && steps[i].Checkpoint? :: steps[i].copy
  }

  ghost predicate Shows<D>(step: EditStep<D>, entry: Entry<D>)
    reads if step.Checkpoint? then {step.copy} else {}
  {
    match step
    case Checkpoint(copy) => entry == Mark(copy.s)
    case Step(e) => entry == Change(e)
  }

  ghost predicate ShowsAll<D>(steps: seq<EditStep<D>>, entries: seq<Entry<D>>)
    reads Copies(steps)
  {
    |steps| == |entries| &&
    forall i :: 0 <= i < |steps| ==>
      (steps[i].Checkpoint? ==> steps[i].copy in Copies(steps)) && Shows(steps[i], entries[i])
  }

  class ImageItem<D> {
    const realloc: Realloc<D>
    ghost const original: Settings<D>
    var image: Picture<D>
    var undoStack: seq<EditStep<D>>
    var redoStack: seq<EditStep<D>>
    ghost var undoLog: seq<Entry<D>>
    ghost var redoLog: seq<Entry<D>>

    /** The stacks show the logs, and no checkpoint shares the image being edited. */
    ghost predicate Valid()
      reads this, image, Copies(undoStack), Copies(redoStack)
    {
      ShowsAll(undoStack, undoLog) && ShowsAll(redoStack, redoLog) &&
      image !in Copies(undoStack) && image !in Copies(redoStack)
    }

    ghost function View(): Log<D>
      reads this, image
    {
      Log(undoLog, redoLog, image.s)
    }

    constructor (realloc: Realloc<D>, s: Settings<D>)
      ensures Valid() && View() == Start(s) && original == s && this.realloc == realloc && fresh(image)
    {
      this.realloc := realloc;
      original := s;
      image := new Picture(s);
      undoStack, redoStack := [], [];
      undoLog, redoLog := [], [];
    }

    /** Records an edit, with a checkpoint in front of every tenth entry. */
    method AddToStack(e: Edit)
      requires Valid()
      modifies this`undoStack, this`undoLog
      ensures Valid()
      ensures undoLog == Edited(realloc, old(View()), e).undo
      ensures forall o :: o in Copies(undoStack) ==> o in old(Copies(undoStack)) || fresh(o)
    {
      if |undoStack| % CHECKPOINT_PERIOD == 0 {
        var copy := new Picture(image.s);
        undoStack := undoStack + [Checkpoint(copy)];
        undoLog := undoLog + [Mark(image.s)];
      }
      undoStack := undoStack + [Step(e)];
      undoLog := undoLog + [Change(e)];
    }

    /** One of the eight setters: records the edit, then changes the image where it stands. */
    method Set(e: Edit)
      requires Valid()
      modifies this`undoStack, this`undoLog, image
      ensures Valid() && image == old(image) && View() == Edited(realloc, old(View()), e)
      ensures Assigned(realloc, old(image.s), e, image.s)
      ensures forall o :: o in Copies(undoStack) ==> o in old(Copies(undoStack)) || fresh(o)
    {
      AddToStack(e);
      match e
      case ImageSize(w, h) => image.s := image.s.(data := realloc(image.s.data, w, h), width := w, height := h);
      case Phased(on) => image.s := image.s.(phased := on);
      case Shifted(on) => image.s := image.s.(shifted := on);
      case Scaled(on) => image.s := image.s.(scaled := on);
      case Wavelength(v) => image.s := image.s.(wavelength := v);
      case DetectorDistance(v) => image.s := image.s.(distance := v);
      case PixelSize(p) => image.s := image.s.(pixelSize := p);
      case ImageCenter(c) => image.s := image.s.(center := c);
    }

    /** Takes the top of the redo stack. */
    method PopRedo() returns (step: EditStep<D>)
      requires Valid() && redoStack != []
      modifies this`redoStack, this`redoLog
      ensures Valid() && Shows(step, old(redoLog)[|old(redoLog)| - 1])
      ensures redoLog == old(redoLog)[..|old(redoLog)| - 1]
      ensures step.Checkpoint? ==> step.copy != image && step.copy in old(Copies(redoStack))
    {
      step := redoStack[|redoStack| - 1];
      redoStack := redoStack[..|redoStack| - 1];
      redoLog := redoLog[..|redoLog| - 1];
    }

    /** A checkpoint replaces the image by a copy of its own and is pushed back by hand. */
    method Restore(step: EditStep<D>)
      requires Valid() && step.Checkpoint? && step.copy != image
      modifies this`image, this`undoStack, this`undoLog
      ensures Valid() && fresh(image)
      ensures View() == Log(old(undoLog) + [Mark(old(step.copy.s))], old(redoLog), old(step.copy.s))
    {
      image := new Picture(step.copy.s);
      undoStack := undoStack + [step];
      undoLog := undoLog + [Mark(step.copy.s)];
    }

    /** Takes the top of the redo stack and applies it. */
    method Reapply() returns (checkpoint: bool)
      requires Valid() && redoStack != []
      modifies this, image
      ensures Valid() && View() == Reapplied(realloc, old(View()))
      ensures checkpoint <==> old(redoLog)[|old(redoLog)| - 1].Mark?
      ensures image == old(image) || fresh(image)
    {
      var step := PopRedo();
      checkpoint := step.Checkpoint?;
      if checkpoint {
        Restore(step);
      } else {
        Set(step.e);
      }
    }

    /** One turn of the redo loop. */
    method RedoTurn() returns (checkpoint: bool)
      requires Valid() && Grounded(View()) && redoLog != [] && redoLog[0].Change?
      modifies this, image
      ensures Valid() && Grounded(View()) && |redoLog| < |old(redoLog)|
      ensures checkpoint ==>
        redoLog != [] && redoLog[0].Change? && Redone(realloc, View()) == Redone(realloc, old(View()))
      ensures !checkpoint ==> View() == Redone(realloc, old(View()))
      ensures image == old(image) || fresh(image)
    {
      ReapplyStaysGrounded(realloc, View());
      checkpoint := Reapply();
    }

    /** Redo by one step; checkpoints do not count as steps. */
    method RedoEditSteps()
      requires Valid() && Safe(View())
      modifies this, image
      ensures Valid() && Safe(View()) && View() == Redone(realloc, old(View()))
    {
      RedoStaysSafe(realloc, View());
      ghost var goal := Redone(realloc, View());
      var numSteps := 1;
      if numSteps > |redoStack| {
        return;
      }
      var i := 0;
      while i < numSteps
        invariant Valid() && (image == old(image) || fresh(image)) && i <= numSteps <= i + 1
        invariant i < numSteps ==>
          redoLog != [] && redoLog[0].Change? && Grounded(View()) && Redone(realloc, View()) == goal
        invariant i == numSteps ==> View() == goal
        decreases |redoLog|, numSteps - i
      {
        var checkpoint := RedoTurn();
        if checkpoint {
          numSteps := numSteps + 1;
        }
        i := i + 1;
      }
    }

    /** Moves the top of the undo stack to the redo stack. */
    method MoveTop() returns (checkpoint: bool)
      requires Valid() && undoStack != []
      modifies this`undoStack, this`undoLog, this`redoStack, this`redoLog
      ensures Valid() && checkpoint == Last(old(undoLog)).Mark?
      ensures View() == Moved(old(View()))
    {
      var top := undoStack[|undoStack| - 1];
      redoStack := redoStack + [top];
      redoLog := redoLog + [Last(undoLog)];
      undoStack := undoStack[..|undoStack| - 1];
      undoLog := Front(undoLog);
      return top.Checkpoint?;
    }

    /** The first loop of undo: pops down to and with the last checkpoint, and never runs dry. */
    method RollBack() returns (finalStackSize: int)
      requires Valid() && undoLog != [] && Grounded(View())
      modifies this`undoStack, this`undoLog, this`redoStack, this`redoLog
      ensures Valid() && View() == Back(old(View())) && finalStackSize == |old(undoLog)| - 1
    {
      ghost var goal := Back(View());
      var numSteps := 1;
      finalStackSize := |undoStack| - numSteps;
      while true
        invariant Valid() && undoLog != [] && Grounded(View()) && Back(View()) == goal
        invariant |undoLog| <= |old(undoLog)| && finalStackSize == |old(undoLog)| - 1
        decreases |undoLog|
      {
        var checkpoint := MoveTop();
        if checkpoint {
          if |undoStack| <= finalStackSize {
            return;
          }
          finalStackSize := finalStackSize - 1;
        }
        if undoStack == [] {
          assert false;
        }
      }
    }

    /** One turn of the second loop of undo. */
    method StepForward(ghost size: int) returns (checkpoint: bool)
      requires Valid() && |undoLog| < size <= |undoLog| + |redoLog|
      modifies this, image
      ensures Valid() && |undoLog| > |old(undoLog)| && size <= |undoLog| + |redoLog|
      ensures Forwarded(realloc, View(), size) == Forwarded(realloc, old(View()), size)
      ensures checkpoint <==> old(redoLog)[|old(redoLog)| - 1].Mark?
      ensures image == old(image) || fresh(image)
    {
      ghost var here := View();
      checkpoint := Reapply();
      StepsForward(realloc, here, View(), size);
    }

    /** The second loop of undo: applies the checkpoint and the edits behind it again. replayed counts the
        edits. */
    method RollForward(finalStackSize: int, ghost back: Log<D>) returns (ghost replayed: nat)
      requires Valid() && View() == back && |back.undo| + |back.redo| >= finalStackSize
      requires back.redo != [] && back.redo[|back.redo| - 1].Mark?
      modifies this, image
      ensures Valid() && View() == Forwarded(realloc, back, finalStackSize)
      ensures replayed == 0 || replayed < finalStackSize - |back.undo|
    {
      replayed := 0;
      ghost var start := |back.undo|;
      ghost var goal := Forwarded(realloc, back, finalStackSize);
      ghost var first := true;
      while |undoStack| < finalStackSize
        invariant Valid() && (image == old(image) || fresh(image))
        invariant |undoLog| + |redoLog| >= finalStackSize && Forwarded(realloc, View(), finalStackSize) == goal
        invariant first ==> replayed == 0 && redoLog != [] && redoLog[|redoLog| - 1].Mark?
        invariant |undoLog| >= start && (!first ==> replayed < |undoLog| - start)
        invariant replayed == 0 || replayed < finalStackSize - start
        decreases finalStackSize - |undoLog|
      {
        var checkpoint := StepForward(finalStackSize);
        if !checkpoint {
          replayed := replayed + 1;
        }
        first := false;
      }
    }

    /** Both loops of an undo. */
    method UndoTop(ghost back: Log<D>) returns (ghost replayed: nat)
      requires Valid() && undoLog != [] && Grounded(View()) && back == Back(View())
      requires |back.undo| + |back.redo| >= |undoLog| - 1
      requires back.redo != [] && back.redo[|back.redo| - 1].Mark?
      modifies this, image
      ensures Valid() && View() == Forwarded(realloc, back, |old(undoLog)| - 1)
      ensures replayed == 0 || replayed < |old(undoLog)| - 1 - |back.undo|
    {
      var finalStackSize := RollBack();
      replayed := RollForward(finalStackSize, back);
    }

    /** Undo by one step: back to the last checkpoint, then forward to one entry short of where it was. */
    method UndoEditSteps() returns (ghost replayed: nat)
      requires Valid() && Safe(View())
      modifies this, image
      ensures Valid() && Safe(View()) && View() == Undone(realloc, old(View()))
      ensures Placed(Timeline(old(View()))) ==> replayed <= 8
    {
      var numSteps := 1;
      if numSteps > |undoStack| {
        return 0;
      }
      UndoPlan(realloc, View());
      replayed := UndoTop(Back(View()));
    }
  }

  // ---------------------------------------------------------------- positions during an undo

  /** c is the position of the last mark on the undo stack. */
  ghost predicate LastMark<D>(log: Log<D>, c: nat) {
    c < |log.undo| && log.undo[c].Mark? && forall k :: c < k < |log.undo| ==> log.undo[k].Change?
  }

  /** The log while undo goes forward again from the mark at c. */
  function Forward<D>(realloc: Realloc<D>, log: Log<D>, c: nat, k: nat): Log<D>
    requires c <= k <= |log.undo|
  {
    Rolled(log, k).(image := if k == c then log.image else Rewound(realloc, log.image, log.undo[..k]))
  }

  lemma RolledWhole<D>(log: Log<D>)
    ensures Rolled(log, |log.undo|) == log
  {
    assert log.undo[..|log.undo|] == log.undo && log.redo + Reverse(log.undo[|log.undo|..]) == log.redo;
  }

  lemma RolledStep<D>(log: Log<D>, k: nat)
    requires 0 < k <= |log.undo|
    ensures Rolled(log, k - 1).undo == Front(Rolled(log, k).undo)
    ensures Rolled(log, k - 1).redo == Rolled(log, k).redo + [log.undo[k - 1]]
    ensures Last(Rolled(log, k).undo) == log.undo[k - 1]
  {
    assert Reverse(log.undo[k - 1..]) == Reverse(log.undo[k..]) + [log.undo[k - 1]];
  }

  lemma RolledTop<D>(log: Log<D>)
    requires log.undo != []
    ensures Rolled(log, |log.undo| - 1).redo == log.redo + [Last(log.undo)]
  {
    RolledWhole(log);
    RolledStep(log, |log.undo|);
  }

  lemma ForwardStep<D>(realloc: Realloc<D>, log: Log<D>, c: nat, k: nat)
    requires LastMark(log, c) && Placed(Timeline(log)) && c <= k < |log.undo|
    ensures var here := Forward(realloc, log, c, k);
            here.redo != [] && Last(here.redo) == log.undo[k] &&
            Reapplied(realloc, here) == Forward(realloc, log, c, k + 1)
  {
    RolledStep(log, k + 1);
    var here := Rolled(log, k);
    assert here.redo[..|here.redo| - 1] == Rolled(log, k + 1).redo;
    assert log.undo[..k + 1] == log.undo[..k] + [log.undo[k]];
    assert Timeline(log)[k] == log.undo[k];
    assert log.undo[..k + 1][..k] == log.undo[..k];
  }

  /** Where the way forward ends is where an undo is meant to lead. */
  lemma ForwardIsTakenBack<D>(realloc: Realloc<D>, log: Log<D>, c: nat)
    requires LastMark(log, c)
    ensures Forward(realloc, log, c, |log.undo| - 1) == TakenBack(realloc, log)
  {
    RolledTop(log);
  }

  /** The way forward from the last mark, one entry after the other. */
  lemma {:induction false} ForwardFrom<D>(realloc: Realloc<D>, log: Log<D>, c: nat, k: nat)
    requires LastMark(log, c) && Placed(Timeline(log)) && c <= k < |log.undo|
    ensures |Forward(realloc, log, c, k).undo| == k
    ensures |Forward(realloc, log, c, k).undo| + |Forward(realloc, log, c, k).redo| >= |log.undo| - 1
    ensures Forwarded(realloc, Forward(realloc, log, c, k), |log.undo| - 1) ==
            Forward(realloc, log, c, |log.undo| - 1)
    decreases |log.undo| - k
  {
    if k < |log.undo| - 1 {
      ForwardStep(realloc, log, c, k);
      ForwardFrom(realloc, log, c, k + 1);
      StepsForward(realloc, Forward(realloc, log, c, k), Forward(realloc, log, c, k + 1), |log.undo| - 1);
    }
  }

  /** What an undo has before it when the last mark has been reached. */
  lemma UndoPlan<D>(realloc: Realloc<D>, log: Log<D>)
    requires Safe(log) && log.undo != []
    ensures var back := Back(log);
            |back.undo| + |back.redo| >= |log.undo| - 1 && back.redo != [] && back.redo[|back.redo| - 1].Mark?
    ensures Safe(Undone(realloc, log)) && Undone(realloc, log) == Forwarded(realloc, Back(log), |log.undo| - 1)
    ensures Placed(Timeline(log)) ==> |log.undo| <= |Back(log).undo| + CHECKPOINT_PERIOD
  {
    UndoStaysSafe(realloc, log);
    BackKeepsEntries(log);
    if Placed(Timeline(log)) {
      LastMarkIsNear(log, LastMarkAt(log.undo));
    }
  }

  lemma StepsForward<D>(realloc: Realloc<D>, here: Log<D>, next: Log<D>, size: int)
    requires here.redo != [] && next == Reapplied(realloc, here) && |here.undo| < size <= |here.undo| + |here.redo|
    ensures |next.undo| + |next.redo| >= size && |next.undo| > |here.undo|
    ensures Forwarded(realloc, here, size) == Forwarded(realloc, next, size)
  {
  }

  /** Marks repeat with the period. */
  lemma MarksRepeat<D>(log: Log<D>, c: nat)
    requires Placed(Timeline(log)) && c + CHECKPOINT_PERIOD < |log.undo| && log.undo[c].Mark?
    ensures log.undo[c + CHECKPOINT_PERIOD].Mark?
  {
    assert Timeline(log)[c] == log.undo[c];
    assert Timeline(log)[c + CHECKPOINT_PERIOD] == log.undo[c + CHECKPOINT_PERIOD];
  }

  /** The last mark is at most ten entries from the top. */
  lemma LastMarkIsNear<D>(log: Log<D>, c: nat)
    requires LastMark(log, c) && Placed(Timeline(log))
    ensures |log.undo| <= c + CHECKPOINT_PERIOD
  {
    if c + CHECKPOINT_PERIOD < |log.undo| {
      MarksRepeat(log, c);
    }
  }
}
