/** What the fields of an image are after a session: each holds the argument of the last edit of its kind. */
module EditFields {
  import opened Common
  import opened EditLog
  import opened EditReplay

  /** The argument that an edit of the kind in question has, none for any other edit. */
  type Argument<!T> = Edit -> Option<T>

  /** The argument of the last edit of a kind, or else the original value. */
  function Latest<D, T>(entries: seq<Entry<D>>, argument: Argument<T>, original: T): T {
    if entries == [] then original
    else
      var before := Latest(entries[..|entries| - 1], argument, original);
      match entries[|entries| - 1]
      case Mark(_) => before
      case Change(e) => if argument(e).Some? then argument(e).value else before
  }

  /** The latest argument is what its meaning says: the argument of an edit behind which there is no other of
      the kind, or the original when there is none at all. */
  lemma {:induction false} LatestIsLast<D, T>(entries: seq<Entry<D>>, argument: Argument<T>, original: T, i: nat)
    requires i < |entries| && entries[i].Change? && argument(entries[i].e).Some?
    requires forall j :: i < j < |entries| && entries[j].Change? ==> argument(entries[j].e).None?
    ensures Latest(entries, argument, original) == argument(entries[i].e).value
    decreases |entries|
  {
    var n := |entries|;
    if i < n - 1 {
      LatestIsLast(entries[..n - 1], argument, original, i);
    }
  }

  lemma {:induction false} LatestIsOriginal<D, T>(entries: seq<Entry<D>>, argument: Argument<T>, original: T)
    requires forall j :: 0 <= j < |entries| && entries[j].Change? ==> argument(entries[j].e).None?
    ensures Latest(entries, argument, original) == original
    decreases |entries|
  {
    if entries != [] {
      LatestIsOriginal(entries[..|entries| - 1], argument, original);
    }
  }

  function WidthOf(e: Edit): Option<int> {
    if e.ImageSize? then Some(e.width) else None
  }

  function HeightOf(e: Edit): Option<int> {
    if e.ImageSize? then Some(e.height) else None
  }

  function PhasedOf(e: Edit): Option<bool> {
    if e.Phased? then Some(e.on) else None
  }

  function ShiftedOf(e: Edit): Option<bool> {
    if e.Shifted? then Some(e.on) else None
  }

  function ScaledOf(e: Edit): Option<bool> {
    if e.Scaled? then Some(e.on) else None
  }

  function WavelengthOf(e: Edit): Option<real> {
    if e.Wavelength? then Some(e.value) else None
  }

  function DistanceOf(e: Edit): Option<real> {
    if e.DetectorDistance? then Some(e.value) else None
  }

  function PixelSizeOf(e: Edit): Option<(real, real)> {
    if e.PixelSize? then Some(e.size) else None
  }

  function CenterOf(e: Edit): Option<(real, real)> {
    if e.ImageCenter? then Some(e.at) else None
  }

  /** The pixel data after the resizes among the entries, in order. */
  function Resized<D>(realloc: Realloc<D>, data: D, entries: seq<Entry<D>>): D {
    if entries == [] then data
    else
      var before := Resized(realloc, data, entries[..|entries| - 1]);
      match entries[|entries| - 1]
      case Mark(_) => before
      case Change(e) => if e.ImageSize? then realloc(before, e.width, e.height) else before
  }

  /** Every field is the latest argument of its kind, and the data has been through every resize. */
  ghost predicate FieldsFollow<D>(realloc: Realloc<D>, original: Settings<D>, entries: seq<Entry<D>>,
                                  image: Settings<D>) {
    image.data == Resized(realloc, original.data, entries) &&
    image.width == Latest(entries, e => WidthOf(e), original.width) &&
    image.height == Latest(entries, e => HeightOf(e), original.height) &&
    image.phased == Latest(entries, e => PhasedOf(e), original.phased) &&
    image.shifted == Latest(entries, e => ShiftedOf(e), original.shifted) &&
    image.scaled == Latest(entries, e => ScaledOf(e), original.scaled) &&
    image.wavelength == Latest(entries, e => WavelengthOf(e), original.wavelength) &&
    image.distance == Latest(entries, e => DistanceOf(e), original.distance) &&
    image.pixelSize == Latest(entries, e => PixelSizeOf(e), original.pixelSize) &&
    image.center == Latest(entries, e => CenterOf(e), original.center)
  }

  /** Replaying gives every field the argument of the last edit of its kind. */
  lemma {:induction false} ReplaySetsFields<D>(realloc: Realloc<D>, original: Settings<D>, entries: seq<Entry<D>>)
    ensures FieldsFollow(realloc, original, entries, Replay(realloc, original, entries))
    decreases |entries|
  {
    if entries != [] {
      var front, last := entries[..|entries| - 1], entries[|entries| - 1];
      ReplaySetsFields(realloc, original, front);
      if last.Change? {
        ApplyAssigns(realloc, Replay(realloc, original, front), last.e);
      }
    }
  }

  /** Over every session whose redos pass only checkpoints that hold the image: after every command, each field
      of the image holds the argument of the last edit of its kind on the undo stack, or the original value. */
  lemma SessionSetsFields<D>(realloc: Realloc<D>, original: Settings<D>, cs: seq<Command>)
    requires RedosHold(realloc, Start(original), cs)
    ensures var log := Session(realloc, Start(original), cs);
            FieldsFollow(realloc, original, log.undo, log.image)
  {
    SessionTruthfulExactlyWhenRedosHold(realloc, original, cs);
    ReplaySetsFields(realloc, original, Session(realloc, Start(original), cs).undo);
  }
}
