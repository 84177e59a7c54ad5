/**
 * Document positions, ranges and selections as the editor host defines them, and the
 * overlap test the highlight store uses to decide whether a selection hits a highlight.
 */
module Positions {

  /** A zero-based (line, character) position in a document. */
  datatype Position = Position(line: nat, character: nat)

  /** `a.isBefore(b)`: `a` comes strictly earlier, ordered by line and then by character. */
  predicate IsBefore(a: Position, b: Position) {
    a.line < b.line || (a.line == b.line && a.character < b.character)
  }

  /** `a` is not after `b`. */
  predicate IsBeforeOrEqual(a: Position, b: Position) {
    !IsBefore(b, a)
  }

  /** Line-major order is a strict total order on positions. */
  lemma IsBeforeIsStrictTotalOrder(a: Position, b: Position, c: Position)
    ensures !IsBefore(a, a)
    ensures IsBefore(a, b) ==> !IsBefore(b, a)
    ensures IsBefore(a, b) && IsBefore(b, c) ==> IsBefore(a, c)
    ensures a == b || IsBefore(a, b) || IsBefore(b, a)
  {
  }

  /** A range from `start` to `end`; both ends belong to it. */
  datatype Range = Range(start: Position, end: Position)

  /** The host never builds a range whose end comes before its start. */
  predicate WellFormed(r: Range) {
    IsBeforeOrEqual(r.start, r.end)
  }

  /** `new Range(a, b)`: the host puts the earlier of the two positions first. */
  function MakeRange(a: Position, b: Position): (r: Range)
    ensures WellFormed(r)
    ensures {r.start, r.end} == {a, b}
    ensures IsBeforeOrEqual(a, b) ==> r == Range(a, b)
  {
    if IsBefore(b, a) then Range(b, a) else Range(a, b)
  }

  /** The range of a whole line whose text is `length` characters long (`lineAt(line).range`). */
  function LineRange(line: nat, length: nat): (r: Range)
    ensures WellFormed(r)
    ensures r.start.line == line && r.end.line == line
    ensures r.start.character == 0 && r.end.character == length
  {
    Range(Position(line, 0), Position(line, length))
  }

  /** A selection: where the user started selecting and where the cursor is now. */
  datatype Selection = Selection(anchor: Position, active: Position) {

    /** The selected range, with the anchor and the cursor put in order. */
    function AsRange(): (r: Range)
      ensures WellFormed(r)
      ensures {r.start, r.end} == {anchor, active}
    {
      MakeRange(anchor, active)
    }

    /** `selection.isEmpty`: nothing is selected, only a cursor is placed. */
    predicate IsEmpty() {
      AsRange().start == AsRange().end
    }
  }

  /** A selection is empty exactly when the cursor sits on the anchor. */
  lemma IsEmptyIffCursorOnAnchor(s: Selection)
    ensures s.IsEmpty() <==> s.anchor == s.active
  {
  }

  /**
   * `rangesOverlap`: neither range ends before the other starts. Ends count as part of a
   * range, so two ranges that only touch at one position overlap.
   */
  predicate RangesOverlap(a: Range, b: Range) {
    !IsBefore(a.end, b.start) && !IsBefore(b.end, a.start)
  }

  /** `p` lies in `r`, both ends included. */
  predicate Contains(r: Range, p: Position) {
    IsBeforeOrEqual(r.start, p) && IsBeforeOrEqual(p, r.end)
  }

  /** The overlap test does not depend on the order of its arguments. */
  lemma RangesOverlapSymmetric(a: Range, b: Range)
    ensures RangesOverlap(a, b) == RangesOverlap(b, a)
  {
  }

  /** Ranges where one ends exactly where the other starts are reported as overlapping. */
  lemma TouchingRangesOverlap(a: Range, b: Range)
    requires WellFormed(a) && WellFormed(b)
    requires a.end == b.start
    ensures RangesOverlap(a, b) && RangesOverlap(b, a)
  {
  }

  /** Every well-formed range overlaps itself. */
  lemma RangeOverlapsItself(r: Range)
    requires WellFormed(r)
    ensures RangesOverlap(r, r)
  {
  }

  /** The later of two positions. */
  function Later(a: Position, b: Position): (p: Position)
    ensures p == a || p == b
    ensures IsBeforeOrEqual(a, p) && IsBeforeOrEqual(b, p)
  {
    if IsBefore(a, b) then b else a
  }

  /**
   * For well-formed ranges the overlap test means: some position lies in both ranges.
   * The later of the two starts is such a position whenever they overlap.
   */
  lemma RangesOverlapIffSharedPosition(a: Range, b: Range)
    requires WellFormed(a) && WellFormed(b)
    ensures RangesOverlap(a, b) ==> Contains(a, Later(a.start, b.start)) && Contains(b, Later(a.start, b.start))
    ensures (exists p :: Contains(a, p) && Contains(b, p)) ==> RangesOverlap(a, b)
  {
    if exists p :: Contains(a, p) && Contains(b, p) {
      var p :| Contains(a, p) && Contains(b, p);
      IsBeforeIsStrictTotalOrder(b.start, p, a.end);
      IsBeforeIsStrictTotalOrder(a.start, p, b.end);
    }
  }
}
