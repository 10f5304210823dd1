/** The image and the undo stack over every session: when the image is the original with the edits on the
    undo stack, whether or not checkpoints stand in their places. */
module EditReplay {
  import opened EditLog

  /** The image is the replay of the undo stack, and so is what every checkpoint on it holds. */
  ghost predicate Truthful<D>(realloc: Realloc<D>, original: Settings<D>, log: Log<D>) {
    ImageAgrees(realloc, original, log) && Exact(realloc, original, log.undo)
  }

  lemma ReplayOneMore<D>(realloc: Realloc<D>, original: Settings<D>, t: seq<Entry<D>>, x: Entry<D>)
    ensures Replay(realloc, original, t + [x]) ==
            if x.Mark? then Replay(realloc, original, t) else Apply(realloc, Replay(realloc, original, t), x.e)
  {
    assert (t + [x])[..|t|] == t;
  }

  lemma ExactOneMore<D>(realloc: Realloc<D>, original: Settings<D>, t: seq<Entry<D>>, x: Entry<D>)
    ensures Exact(realloc, original, t + [x]) <==>
            Exact(realloc, original, t) && (x.Mark? ==> x.s == Replay(realloc, original, t))
  {
    var u := t + [x];
    assert u[..|t|] == t && u[|t|] == x;
    forall i | 0 <= i < |t| ensures u[i] == t[i] && u[..i] == t[..i] {
    }
  }

  lemma ExactFront<D>(realloc: Realloc<D>, original: Settings<D>, t: seq<Entry<D>>, n: nat)
    requires n <= |t| && Exact(realloc, original, t)
    ensures Exact(realloc, original, t[..n])
  {
    forall i | 0 <= i < n ensures t[..n][i] == t[i] && t[..n][..i] == t[..i] {
    }
  }

  // ---------------------------------------------------------------- fresh edits

  /** A fresh edit keeps the image and the checkpoints right, whatever there is to redo. */
  lemma EditStaysTruthful<D>(realloc: Realloc<D>, original: Settings<D>, log: Log<D>, e: Edit)
    requires Truthful(realloc, original, log)
    ensures Truthful(realloc, original, Edited(realloc, log, e))
  {
    var marked := if |log.undo| % CHECKPOINT_PERIOD == 0 then log.undo + [Mark(log.image)] else log.undo;
    ReplayOneMore(realloc, original, log.undo, Mark(log.image));
    ExactOneMore(realloc, original, log.undo, Mark(log.image));
    ReplayOneMore(realloc, original, marked, Change(e));
    ExactOneMore(realloc, original, marked, Change(e));
  }

  // ---------------------------------------------------------------- undo

  /** The next entries to be redone, down to the given size of the undo stack, are edits. */
  ghost predicate EditsAhead<D>(log: Log<D>, size: int) {
    |log.undo| + |log.redo| >= size &&
    forall i :: 0 <= i < |log.redo| && |log.redo| - (size - |log.undo|) <= i ==> log.redo[i].Change?
  }

  lemma {:induction false} ForwardedStaysTruthful<D>(realloc: Realloc<D>, original: Settings<D>, log: Log<D>,
                                                     size: int)
    requires Truthful(realloc, original, log) && EditsAhead(log, size)
    ensures Truthful(realloc, original, Forwarded(realloc, log, size))
    decreases size - |log.undo|
  {
    if |log.undo| < size {
      var top, rest := log.redo[|log.redo| - 1], log.redo[..|log.redo| - 1];
      EditStaysTruthful(realloc, original, Log(log.undo, rest, log.image), top.e);
      ForwardedStaysTruthful(realloc, original, Reapplied(realloc, log), size);
    }
  }

  /** The way forward starts with the last checkpoint, which holds what the image must become. */
  lemma CheckpointRestores<D>(realloc: Realloc<D>, original: Settings<D>, log: Log<D>, back: Log<D>, c: nat)
    requires Exact(realloc, original, log.undo) && log.undo != [] && Grounded(log)
    requires c == LastMarkAt(log.undo) < |log.undo| - 1 && back == Rolled(log, c)
    ensures back.redo != [] && |back.undo| == c && back.redo[|back.redo| - 1] == log.undo[c]
    ensures Truthful(realloc, original, Reapplied(realloc, back))
    ensures EditsAhead(Reapplied(realloc, back), |log.undo| - 1)
  {
    ExactFront(realloc, original, log.undo, c);
    ReplayOneMore(realloc, original, log.undo[..c], log.undo[c]);
    ExactOneMore(realloc, original, log.undo[..c], log.undo[c]);
  }

  /** An undo keeps the image and the checkpoints right, wherever the checkpoints stand. */
  lemma UndoStaysTruthful<D>(realloc: Realloc<D>, original: Settings<D>, log: Log<D>)
    requires Truthful(realloc, original, log) && Grounded(log)
    ensures Truthful(realloc, original, Undone(realloc, log))
  {
    if log.undo != [] {
      var n := |log.undo|;
      assert log.undo == log.undo[..n - 1] + [log.undo[n - 1]];
      if log.undo[n - 1].Mark? {
        ReplayOneMore(realloc, original, log.undo[..n - 1], log.undo[n - 1]);
        ExactFront(realloc, original, log.undo, n - 1);
      } else {
        var c := LastMarkAt(log.undo);
        BackIsRolled(log);
        CheckpointRestores(realloc, original, log, Back(log), c);
        ForwardedStaysTruthful(realloc, original, Reapplied(realloc, Back(log)), n - 1);
      }
    }
  }

  // ---------------------------------------------------------------- redo

  /** The edit that a redo ends with, behind the checkpoints on top of the stack. */
  function NextEdit<D>(redo: seq<Entry<D>>): Edit
    requires redo != [] && redo[0].Change?
  {
    match redo[|redo| - 1]
    case Change(e) => e
    case Mark(_) => NextEdit(redo[..|redo| - 1])
  }

  /** The image that edit is applied to: what the last of those checkpoints holds. */
  function Restored<D>(redo: seq<Entry<D>>, image: Settings<D>): Settings<D> {
    if redo == [] || redo[|redo| - 1].Change? then image
    else Restored(redo[..|redo| - 1], redo[|redo| - 1].s)
  }

  /** Every checkpoint on top of the redo stack holds the image. */
  predicate MarksHold<D(==)>(redo: seq<Entry<D>>, image: Settings<D>) {
    redo == [] || redo[|redo| - 1].Change? ||
    (redo[|redo| - 1].s == image && MarksHold(redo[..|redo| - 1], image))
  }

  /** What a redo makes of the image, and what the undo stack then says about it. */
  lemma {:induction false} RedoneImage<D>(realloc: Realloc<D>, original: Settings<D>, log: Log<D>)
    requires log.redo != [] && log.redo[0].Change?
    ensures Redone(realloc, log).image == Apply(realloc, Restored(log.redo, log.image), NextEdit(log.redo))
    ensures Replay(realloc, original, Redone(realloc, log).undo) ==
            Apply(realloc, Replay(realloc, original, log.undo), NextEdit(log.redo))
    decreases |log.redo|
  {
    var top := log.redo[|log.redo| - 1];
    match top {
      case Mark(s) =>
        ReplayOneMore(realloc, original, log.undo, top);
        RedoneImage(realloc, original, Reapplied(realloc, log));
      case Change(e) =>
        var marked := if |log.undo| % CHECKPOINT_PERIOD == 0 then log.undo + [Mark(log.image)] else log.undo;
        ReplayOneMore(realloc, original, log.undo, Mark(log.image));
        ReplayOneMore(realloc, original, marked, top);
    }
  }

  /** A redo keeps the image right exactly when the edit makes the same of what the checkpoints in front of
      it hold as of the image. */
  lemma RedoKeepsImageExactly<D>(realloc: Realloc<D>, original: Settings<D>, log: Log<D>)
    requires ImageAgrees(realloc, original, log) && log.redo != [] && log.redo[0].Change?
    ensures ImageAgrees(realloc, original, Redone(realloc, log)) <==>
            Apply(realloc, Restored(log.redo, log.image), NextEdit(log.redo)) ==
            Apply(realloc, log.image, NextEdit(log.redo))
  {
    RedoneImage(realloc, original, log);
  }

  lemma {:induction false} RedoExtends<D>(realloc: Realloc<D>, log: Log<D>)
    ensures log.undo <= Redone(realloc, log).undo
    decreases |log.redo|
  {
    if log.redo != [] && log.redo[|log.redo| - 1].Mark? {
      RedoExtends(realloc, Reapplied(realloc, log));
    }
  }

  /** A redo keeps the image and the checkpoints right exactly when the checkpoints it passes hold the image. */
  lemma {:induction false} RedoStaysTruthfulExactlyWhenMarksHold<D>(realloc: Realloc<D>, original: Settings<D>,
                                                                    log: Log<D>)
    requires Truthful(realloc, original, log)
    ensures Truthful(realloc, original, Redone(realloc, log)) <==> MarksHold(log.redo, log.image)
    decreases |log.redo|
  {
    if log.redo != [] {
      var top, rest := log.redo[|log.redo| - 1], log.redo[..|log.redo| - 1];
      match top {
        case Change(e) =>
          EditStaysTruthful(realloc, original, Log(log.undo, rest, log.image), e);
        case Mark(s) =>
          var next := Reapplied(realloc, log);
          ReplayOneMore(realloc, original, log.undo, top);
          ExactOneMore(realloc, original, log.undo, top);
          if s == log.image {
            RedoStaysTruthfulExactlyWhenMarksHold(realloc, original, next);
          } else {
            RedoExtends(realloc, next);
            WrongMarkStays(realloc, original, next.undo, Redone(realloc, next).undo);
          }
      }
    }
  }

  lemma WrongMarkStays<D>(realloc: Realloc<D>, original: Settings<D>, t: seq<Entry<D>>, u: seq<Entry<D>>)
    requires t <= u && !Exact(realloc, original, t)
    ensures !Exact(realloc, original, u)
  {
    assert u[..|t|] == t;
    if Exact(realloc, original, u) {
      ExactFront(realloc, original, u, |t|);
    }
  }

  // ---------------------------------------------------------------- whole sessions

  /** The checkpoints that the redos of the session pass hold the image at the time. */
  predicate RedosHold<D(==)>(realloc: Realloc<D>, log: Log<D>, cs: seq<Command>)
    requires Safe(log)
  {
    cs == [] ||
    var front := cs[..|cs| - 1];
    var before := Session(realloc, log, front);
    RedosHold(realloc, log, front) && (cs[|cs| - 1].Redo? ==> MarksHold(before.redo, before.image))
  }

  /** Image and checkpoints are right at the start and after every command. */
  ghost predicate TruthfulThroughout<D>(realloc: Realloc<D>, original: Settings<D>, cs: seq<Command>) {
    Truthful(realloc, original, Session(realloc, Start(original), cs)) &&
    (cs != [] ==> TruthfulThroughout(realloc, original, cs[..|cs| - 1]))
  }

  /** Over every session, with fresh edits wherever they are made: the image is the original with the edits
      on the undo stack, and every checkpoint there is right, at every point, exactly when no redo passes a
      checkpoint that holds anything but the image. */
  lemma {:induction false} SessionTruthfulExactlyWhenRedosHold<D>(realloc: Realloc<D>, original: Settings<D>,
                                                                  cs: seq<Command>)
    ensures TruthfulThroughout(realloc, original, cs) <==> RedosHold(realloc, Start(original), cs)
    decreases |cs|
  {
    if cs != [] {
      var front, c := cs[..|cs| - 1], cs[|cs| - 1];
      SessionTruthfulExactlyWhenRedosHold(realloc, original, front);
      var log := Session(realloc, Start(original), front);
      if Truthful(realloc, original, log) {
        match c
        case Fresh(e) => EditStaysTruthful(realloc, original, log, e);
        case Undo => UndoStaysTruthful(realloc, original, log);
        case Redo => RedoStaysTruthfulExactlyWhenMarksHold(realloc, original, log);
      }
    }
  }

  lemma OrderedIsTruthful<D>(realloc: Realloc<D>, original: Settings<D>, log: Log<D>)
    requires Agrees(realloc, original, log)
    ensures Truthful(realloc, original, log)
  {
    PrefixOfTimeline(log);
    ExactFront(realloc, original, Timeline(log), |log.undo|);
  }

  /** Fresh edits that fit leave no wrong checkpoint for a redo to pass. */
  lemma {:induction false} FittingEditsLetRedosHold<D>(realloc: Realloc<D>, original: Settings<D>, cs: seq<Command>)
    requires EditsFit(realloc, Start(original), cs)
    ensures RedosHold(realloc, Start(original), cs)
    decreases |cs|
  {
    SessionAgreesExactlyWhenEditsFit(realloc, original, cs);
    if cs != [] {
      var front := cs[..|cs| - 1];
      FittingEditsLetRedosHold(realloc, original, front);
      var before := Session(realloc, Start(original), front);
      OrderedIsTruthful(realloc, original, before);
      if cs[|cs| - 1].Redo? {
        OrderedIsTruthful(realloc, original, Redone(realloc, before));
        RedoStaysTruthfulExactlyWhenMarksHold(realloc, original, before);
      }
    }
  }

  // ---------------------------------------------------------------- a swallowed edit

  lemma SessionStep<D>(realloc: Realloc<D>, log: Log<D>, cs: seq<Command>, c: Command)
    requires Safe(log)
    ensures Session(realloc, log, cs + [c]) == After(realloc, Session(realloc, log, cs), c)
  {
    assert (cs + [c])[..|cs|] == cs;
  }

  /** After an edit and two undos everything is on the redo stack. */
  lemma UndoneTwice<D>(realloc: Realloc<D>, original: Settings<D>, e: Edit)
    ensures Session(realloc, Start(original), [Fresh(e)] + [Undo] + [Undo]) ==
            Log([], [Change(e), Mark(original)], original)
  {
    var start := Start(original);
    var once := Edited(realloc, start, e);
    assert Session(realloc, start, []) == start && [] + [Fresh(e)] == [Fresh(e)];
    SessionStep(realloc, start, [], Fresh(e));
    SessionStep(realloc, start, [Fresh(e)], Undo);
    SessionStep(realloc, start, [Fresh(e)] + [Undo], Undo);
    assert once.undo == [Mark(original), Change(e)];
    StartAgrees(realloc, original);
    EditAgreesExactlyWhenItFits(realloc, original, start, e);
    UndoTakesBack(realloc, once);
    UndoAgrees(realloc, original, once);
    UndoTakesBack(realloc, Undone(realloc, once));
    var mark: seq<Entry<D>> := [Mark(original)];
    assert Rewound(realloc, once.image, mark) == original;
  }

  /** A fresh edit after two undos, and one redo: the stale checkpoint takes the edit out of the image,
      while the undo stack still holds it. */
  lemma RedoSwallowsEdit<D>(realloc: Realloc<D>, original: Settings<D>, e: Edit, f: Edit)
    ensures var log := Session(realloc, Start(original), [Fresh(e)] + [Undo] + [Undo] + [Fresh(f)] + [Redo]);
            log.undo == [Mark(original), Change(f), Mark(original), Change(e)] &&
            log.image == Apply(realloc, original, e) &&
            Replay(realloc, original, log.undo) == Apply(realloc, Apply(realloc, original, f), e)
  {
    var start := Start(original);
    var cs := [Fresh(e)] + [Undo] + [Undo];
    UndoneTwice(realloc, original, e);
    SessionStep(realloc, start, cs, Fresh(f));
    SessionStep(realloc, start, cs + [Fresh(f)], Redo);
    var log := Session(realloc, start, cs + [Fresh(f)]);
    assert log.undo == [Mark(original), Change(f)];
    RedoneImage(realloc, original, log);
    var none: seq<Entry<D>> := [];
    ReplayOneMore(realloc, original, none, Mark(original));
    ReplayOneMore(realloc, original, [Mark(original)], Change(f));
    assert [Mark(original)] + [Change(f)] == log.undo;
    assert log.redo[..1] == [Change(e)];
  }

  /** With these edits: the image is not phased, although the undo stack says it has been made so. */
  lemma PhasedIsSwallowed<D>(realloc: Realloc<D>, original: Settings<D>, wavelength: real)
    requires !original.phased
    ensures var log := Session(realloc, Start(original),
                               [Fresh(Wavelength(wavelength))] + [Undo] + [Undo] + [Fresh(Phased(true))] + [Redo]);
            !log.image.phased && Change(Phased(true)) in log.undo && Replay(realloc, original, log.undo).phased &&
            !ImageAgrees(realloc, original, log)
  {
    RedoSwallowsEdit(realloc, original, Wavelength(wavelength), Phased(true));
  }
}
