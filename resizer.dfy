/**
 * The split-pane resizer between the preview (demo) section and the code
 * section.  A press on the handle starts a drag and records the pointer and
 * the sizes; each move while dragging either resizes both sections to
 * proportional sizes or, if the preview would leave `[200, total - 200]`, is
 * dropped whole; release ends the drag.  Heights are whole pixels and the
 * percentages exact reals.
 */
module Resizer {
  import opened Wrappers

  /** Neither section may become smaller than this many pixels. */
  const MinHeight: int := 200

  /** The two `flex-basis` percentages written to the sections. */
  datatype Split = Split(demoPercent: real, codePercent: real)

  /** The move handler's decision for a pointer `deltaY` pixels away from where the drag began. */
  function MoveOutcome(startDemoHeight: int, deltaY: int, totalHeight: int): (r: Option<Split>)
    ensures r.Some? <==> MinHeight <= startDemoHeight + deltaY <= totalHeight - MinHeight
    ensures r.Some? ==> r.value.demoPercent * (totalHeight as real)
                        == ((startDemoHeight + deltaY) as real) * 100.0
    ensures r.Some? ==> r.value.demoPercent + r.value.codePercent == 100.0
  {
    var newDemoHeight := startDemoHeight + deltaY;
    var maxHeight := totalHeight - MinHeight;
    if newDemoHeight >= MinHeight && newDemoHeight <= maxHeight then
      var demoPercent := (newDemoHeight as real / totalHeight as real) * 100.0;
      Some(Split(demoPercent, 100.0 - demoPercent))
    else
      None
  }

  /** An accepted move leaves both sections at least MinHeight pixels tall, and each strictly inside (0, 100) percent. */
  lemma AcceptedMoveKeepsMinimum(startDemoHeight: int, deltaY: int, totalHeight: int)
    requires MoveOutcome(startDemoHeight, deltaY, totalHeight).Some?
    ensures var split := MoveOutcome(startDemoHeight, deltaY, totalHeight).value;
            && split.demoPercent * (totalHeight as real) / 100.0 >= MinHeight as real
            && split.codePercent * (totalHeight as real) / 100.0 >= MinHeight as real
            && 0.0 < split.demoPercent < 100.0
            && 0.0 < split.codePercent < 100.0
  {
    var split := MoveOutcome(startDemoHeight, deltaY, totalHeight).value;
    var t := totalHeight as real;
    var h := (startDemoHeight + deltaY) as real;
    assert split.demoPercent * t == h * 100.0;
    assert split.codePercent * t == 100.0 * t - split.demoPercent * t;
    assert split.codePercent * t == (t - h) * 100.0;
    assert t > 0.0;
  }

  /** A move that would put the preview outside the bounds is dropped, not clamped to the boundary. */
  lemma RejectedMoveNotClamped(startDemoHeight: int, deltaY: int, totalHeight: int)
    requires startDemoHeight + deltaY < MinHeight || startDemoHeight + deltaY > totalHeight - MinHeight
    ensures MoveOutcome(startDemoHeight, deltaY, totalHeight) == None
  {
  }

  /** The drag state of one resize handle and what it last wrote to the page. */
  class ResizeHandle {
    /** `isResizing`: true between a press on the handle and the next release. */
    var isResizing: bool
    /** Pointer position and sizes captured by the press that started the drag. */
    var startY: int
    var startDemoHeight: int
    var totalHeight: int
    /** The sizes set by the last accepted move; None while the stylesheet's sizes hold. */
    var split: Option<Split>
    /** How many `editor.layout()` calls accepted moves have scheduled. */
    var layoutsScheduled: nat

    /** Every split the handle has written is proportional. */
    ghost predicate Valid()
      reads this
    {
      split.Some? ==> split.value.demoPercent + split.value.codePercent == 100.0
                      && 0.0 < split.value.demoPercent < 100.0
    }

    constructor ()
      ensures Valid()
      ensures !isResizing && split == None && layoutsScheduled == 0
    {
      isResizing := false;
      startY, startDemoHeight, totalHeight := 0, 0, 0;
      split := None;
      layoutsScheduled := 0;
    }

    /** Press on the handle: start dragging, capture the pointer and the heights. */
    method MouseDown(clientY: int, demoHeight: int, contentHeight: int, resizerHeight: int)
      requires Valid()
      modifies this
      ensures Valid()
      ensures isResizing
      ensures startY == clientY && startDemoHeight == demoHeight
      ensures totalHeight == contentHeight - resizerHeight
      ensures split == old(split) && layoutsScheduled == old(layoutsScheduled)
    {
      isResizing := true;
      startY := clientY;
      startDemoHeight := demoHeight;
      totalHeight := contentHeight - resizerHeight;
    }

    /** Pointer move: ignored unless dragging; otherwise resize if MoveOutcome accepts. */
    method MouseMove(clientY: int, editorReady: bool)
      requires Valid()
      modifies this
      ensures Valid()
      ensures isResizing == old(isResizing) && startY == old(startY)
      ensures startDemoHeight == old(startDemoHeight) && totalHeight == old(totalHeight)
      ensures var outcome := MoveOutcome(startDemoHeight, clientY - startY, totalHeight);
              if old(isResizing) && outcome.Some? then
                split == outcome
                && layoutsScheduled == old(layoutsScheduled) + (if editorReady then 1 else 0)
              else
                split == old(split) && layoutsScheduled == old(layoutsScheduled)
    {
      if !isResizing {
        return;
      }
      var outcome := MoveOutcome(startDemoHeight, clientY - startY, totalHeight);
      if outcome.Some? {
        AcceptedMoveKeepsMinimum(startDemoHeight, clientY - startY, totalHeight);
        split := outcome;
        if editorReady {
          layoutsScheduled := layoutsScheduled + 1;
        }
      }
    }

    /** Release: stop dragging; nothing else changes. */
    method MouseUp()
      requires Valid()
      modifies this
      ensures Valid()
      ensures !isResizing
      ensures startY == old(startY) && startDemoHeight == old(startDemoHeight)
      ensures totalHeight == old(totalHeight)
      ensures split == old(split) && layoutsScheduled == old(layoutsScheduled)
    {
      isResizing := false;
    }
  }
}
