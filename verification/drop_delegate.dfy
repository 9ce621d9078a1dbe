/** Uno/Helpers/DropDelegate.swift: the drag-to-reorder delegate attached to
    each file tag. The `@Binding` dragged item is state the delegate reads and
    may clear; the reorder handler is recorded as the call it would receive. */
module DropDelegate {
  import opened Wrappers

  /** `items.firstIndex(of: x)`. */
  function FirstIndex<T(==)>(items: seq<T>, x: T): (r: Option<nat>)
    ensures r.None? <==> x !in items
    ensures r.Some? ==> r.value < |items| && items[r.value] == x
    ensures r.Some? ==> forall j | 0 <= j < r.value :: items[j] != x
  {
    if |items| == 0 then None
    else if items[0] == x then Some(0)
    else match FirstIndex(items[1..], x)
      case None => None
      case Some(i) => Some(i + 1)
  }

  /** A call `reorderHandler(from, to)`. */
  datatype Reorder = Reorder(from: nat, to: nat)

  /** The outcome of `performDrop`: its return value, the handler call made
      (if any), and the dragged item afterwards. */
  datatype DropResult<T> = DropResult(accepted: bool, call: Option<Reorder>, draggedItem: Option<T>)

  /** The handler call a delegate for `target` makes for `dragged`, if both are
      in `items` and at different first-occurrence positions. */
  function ReorderCall<T(==)>(items: seq<T>, dragged: T, target: T): Option<Reorder> {
    match (FirstIndex(items, dragged), FirstIndex(items, target))
    case (Some(from), Some(to)) => if from != to then Some(Reorder(from, to)) else None
    case _ => None
  }

  /** `performDrop(info:)` on the delegate for `target`. */
  function PerformDrop<T(==)>(items: seq<T>, target: T, draggedItem: Option<T>): (r: DropResult<T>)
    ensures draggedItem.None? ==> r == DropResult(false, None, None)
    ensures draggedItem.Some? && (draggedItem.value !in items || target !in items) ==>
              r == DropResult(false, None, draggedItem)
    ensures r.accepted <==> draggedItem.Some? && draggedItem.value in items && target in items
    ensures r.accepted ==> r.draggedItem.None?
    ensures r.call.Some? <==>
              draggedItem.Some? && draggedItem.value in items && target in items && draggedItem.value != target
    ensures r.call.Some? ==>
              && draggedItem.Some?
              && r.call.value.from < |items| && r.call.value.to < |items|
              && items[r.call.value.from] == draggedItem.value
              && items[r.call.value.to] == target
              && (forall j | 0 <= j < r.call.value.from :: items[j] != draggedItem.value)
              && (forall j | 0 <= j < r.call.value.to :: items[j] != target)
  {
    match draggedItem
    case None => DropResult(false, None, None)
    case Some(d) =>
      if d !in items || target !in items then DropResult(false, None, draggedItem)
      else DropResult(true, ReorderCall(items, d, target), None)
  }

  /** `dropEntered(info:)`: the same handler call as a drop, made while hovering;
      the dragged item is never cleared here. */
  function DropEntered<T(==)>(items: seq<T>, target: T, draggedItem: Option<T>): (call: Option<Reorder>)
    ensures draggedItem.None? ==> call.None?
    ensures call.Some? ==> call.value.from != call.value.to
    ensures call.Some? <==>
              draggedItem.Some? && draggedItem.value in items && target in items && draggedItem.value != target
    ensures call.Some? ==>
              && draggedItem.Some?
              && call.value.from < |items| && call.value.to < |items|
              && items[call.value.from] == draggedItem.value && items[call.value.to] == target
  {
    match draggedItem
    case None => None
    case Some(d) => ReorderCall(items, d, target)
  }

  /** Entering and dropping on the same tag request the same move; only the
      drop clears the dragged item and reports acceptance. */
  lemma EnteredAgreesWithDrop<T>(items: seq<T>, target: T, draggedItem: Option<T>)
    ensures DropEntered(items, target, draggedItem) == PerformDrop(items, target, draggedItem).call
  {
  }

  /** Dropping an item on its own tag is accepted without a reorder call. */
  lemma DropOnItselfIsAcceptedSilently<T>(items: seq<T>, x: T)
    requires x in items
    ensures PerformDrop(items, x, Some(x)) == DropResult(true, None, None)
  {
  }

  /** The operations a drop may propose. */
  datatype DropOperation = Cancel | Forbidden | Copy | Move

  /** `dropUpdated(info:)`: whatever is hovering, the proposal is a move. */
  function DropUpdated<T>(items: seq<T>, target: T, draggedItem: Option<T>): (op: DropOperation)
    ensures op == Move
  {
    Move
  }
}
