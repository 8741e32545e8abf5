/**
 * The undo log, modelled by its minimal contract: an enabled flag that the
 * callers test, and an append-only journal of actions. Transactions are
 * bracketed by Open and Close markers; a scalar action snapshots one integer
 * field of a cel, an image action snapshots the pixels of a rectangle.
 * Replaying (undoing) runs the actions in reverse order of recording.
 */
module Undo {
  import opened Wrappers
  import opened Images
  import opened Raster

  /** The integer fields of a cel that the edits record. */
  datatype CelField = X | Y

  datatype Action =
    | Open
    | Close
      /** undo_int: the value `value` the field held when recorded. */
    | IntField(cel: Cel, field: CelField, value: int)
      /** undo_image: the pixels of rectangle (x, y, w, h) when recorded. */
    | ImageRegion(image: Image, x: int, y: int, w: int, h: int, pixels: seq<seq<int>>)

  class UndoLog {
    var enabled: bool
    var log: seq<Action>

    constructor (enabled: bool)
      ensures this.enabled == enabled && log == []
    {
      this.enabled := enabled;
      log := [];
    }

    /** undo_is_enabled. */
    predicate IsEnabled()
      reads this
    {
      enabled
    }

    /** undo_open: starts a transaction. */
    method OpenTransaction()
      modifies this
      ensures log == old(log) + [Open] && enabled == old(enabled)
    {
      log := log + [Open];
    }

    /** undo_close: ends the open transaction. */
    method CloseTransaction()
      modifies this
      ensures log == old(log) + [Close] && enabled == old(enabled)
    {
      log := log + [Close];
    }

    /** undo_int: records the current value of one integer field of `cel`. */
    method RecordInt(cel: Cel, field: CelField)
      modifies this
      ensures log == old(log) + [IntField(cel, field, FieldValue(cel, field))]
      ensures enabled == old(enabled)
    {
      log := log + [IntField(cel, field, FieldValue(cel, field))];
    }

    /** undo_image: records the current pixels of a rectangle inside `img`. */
    method RecordImage(img: Image, x: int, y: int, w: nat, h: nat)
      requires 0 <= x && x + w <= img.Width() && 0 <= y && y + h <= img.Height()
      modifies this
      ensures log == old(log) + [ImageRegion(img, x, y, w, h, Crop(img, x, y, w, h))]
      ensures enabled == old(enabled)
    {
      log := log + [ImageRegion(img, x, y, w, h, Crop(img, x, y, w, h))];
    }
  }

  function FieldValue(cel: Cel, field: CelField): (r: int)
    reads cel
  {
    match field
    case X => cel.x
    case Y => cel.y
  }

  /**
   * The value `field` of `cel` takes when the actions are undone, last
   * recorded first, starting from `current`.
   */
  function ReplayField(actions: seq<Action>, cel: Cel, field: CelField, current: int): (r: int)
    ensures r == current || exists k :: 0 <= k < |actions| && actions[k] == IntField(cel, field, r)
  {
    if actions == [] then current
    else
      var last := actions[|actions| - 1];
      var restored := if last.IntField? && last.cel == cel && last.field == field then last.value else current;
      ReplayField(actions[..|actions| - 1], cel, field, restored)
  }

  /** The value held by the first recording of `field` of `cel`, if any. */
  function FirstRecorded(actions: seq<Action>, cel: Cel, field: CelField): (r: Option<int>)
  {
    if actions == [] then None
    else if actions[0].IntField? && actions[0].cel == cel && actions[0].field == field then Some(actions[0].value)
    else FirstRecorded(actions[1..], cel, field)
  }

  /**
   * Undoing in reverse order leaves each field at the value it had when it
   * was FIRST recorded, i.e. its value before the whole group of edits; a
   * field never recorded keeps its current value.
   */
  lemma {:induction false} ReplayRestoresFirstRecorded(actions: seq<Action>, cel: Cel, field: CelField, current: int)
    ensures ReplayField(actions, cel, field, current) ==
      match FirstRecorded(actions, cel, field)
      case Some(v) => v
      case None => current
  {
    if actions != [] {
      var n := |actions|;
      var last := actions[n - 1];
      var restored := if last.IntField? && last.cel == cel && last.field == field then last.value else current;
      ReplayRestoresFirstRecorded(actions[..n - 1], cel, field, restored);
      FirstRecordedSnoc(actions[..n - 1], last, cel, field);
      assert actions[..n - 1] + [last] == actions;
    }
  }

  /** Appending an action only matters to FirstRecorded when nothing earlier matched. */
  lemma {:induction false} FirstRecordedSnoc(actions: seq<Action>, a: Action, cel: Cel, field: CelField)
    ensures FirstRecorded(actions + [a], cel, field) ==
      if FirstRecorded(actions, cel, field).Some? then FirstRecorded(actions, cel, field)
      else FirstRecorded([a], cel, field)
  {
    if actions != [] {
      assert (actions + [a])[1..] == actions[1..] + [a];
      FirstRecordedSnoc(actions[1..], a, cel, field);
    }
  }
}
