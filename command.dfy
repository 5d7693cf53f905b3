/** `HistoryStack` (lette/Source/Editor/Command.cs): the editor's undo/redo
    history, a list of commands with a cursor `Index` that separates the
    applied commands from the undone ones. The commands' own `Apply`/`Undo`
    and the `OnChange` notifications are recorded in an event log. */
module EditorHistory {
  import opened Wrappers

  /** What the history does to the outside world: a command applied or
      undone, or `OnChange` raised with the stack and index. */
  datatype Event<C> = Applied(command: C) | Undone(command: C) | Notified(stack: seq<C>, index: int)

  /** The events of redoing the commands `stack[lo..hi]` one at a time. */
  function RedoEvents<C>(stack: seq<C>, lo: int, hi: int): (events: seq<Event<C>>)
    requires 0 <= lo <= hi <= |stack|
    ensures |events| == 2 * (hi - lo)
    decreases hi - lo
  {
    if lo == hi then []
    else [Applied(stack[lo]), Notified(stack, lo + 1)] + RedoEvents(stack, lo + 1, hi)
  }

  /** The events of undoing the commands `stack[bottom..top]` one at a time,
      the last first. */
  function UndoEvents<C>(stack: seq<C>, top: int, bottom: int): (events: seq<Event<C>>)
    requires 0 <= bottom <= top <= |stack|
    ensures |events| == 2 * (top - bottom)
    decreases top - bottom
  {
    if top == bottom then []
    else [Undone(stack[top - 1]), Notified(stack, top - 1)] + UndoEvents(stack, top - 1, bottom)
  }

  lemma {:induction false} RedoEventsSnoc<C>(stack: seq<C>, lo: int, hi: int)
    requires 0 <= lo < hi <= |stack|
    ensures RedoEvents(stack, lo, hi) == RedoEvents(stack, lo, hi - 1) + [Applied(stack[hi - 1]), Notified(stack, hi)]
    decreases hi - lo
  {
    if lo + 1 < hi {
      RedoEventsSnoc(stack, lo + 1, hi);
    }
  }

  lemma {:induction false} UndoEventsSnoc<C>(stack: seq<C>, top: int, bottom: int)
    requires 0 <= bottom < top <= |stack|
    ensures UndoEvents(stack, top, bottom) == UndoEvents(stack, top, bottom + 1) + [Undone(stack[bottom]), Notified(stack, bottom)]
    decreases top - bottom
  {
    if bottom + 1 < top {
      UndoEventsSnoc(stack, top - 1, bottom);
    }
  }

  class HistoryStack<C> {
    var Index: int
    var Stack: seq<C>
    var Log: seq<Event<C>>

    /** The cursor lies within the stack. */
    ghost predicate Valid()
      reads this
    {
      0 <= Index <= |Stack|
    }

    /** `new HistoryStack(window)`: empty, cursor at 0. */
    constructor()
      ensures Index == 0 && Stack == [] && Log == []
      ensures Valid()
    {
      Index := 0;
      Stack := [];
      Log := [];
    }

    /** `Push(command)`: `null` is ignored. Otherwise the undone commands are
        dropped, the command is appended and applied, and the cursor moves
        past it. */
    method Push(command: Option<C>)
      requires Valid()
      modifies this
      ensures Valid()
      ensures command.None? ==> Index == old(Index) && Stack == old(Stack) && Log == old(Log)
      ensures command.Some? ==>
        && Stack == old(Stack)[..old(Index)] + [command.value]
        && Index == |Stack|
        && Log == old(Log) + [Applied(command.value), Notified(Stack, Index)]
    {
      if command.None? {
        return;
      }
      Stack := Stack[..Index];
      Stack := Stack + [command.value];
      Index := Index + 1;
      Log := Log + [Applied(command.value)];
      Notify();
    }

    /** `Pop()`, also `Undo()`: at the bottom nothing happens and `null` is
        returned; otherwise the cursor steps back over the command below
        it, which is undone and returned. */
    method Pop() returns (command: Option<C>)
      requires Valid()
      modifies this
      ensures Valid() && Stack == old(Stack)
      ensures old(Index) == 0 ==> command.None? && Index == 0 && Log == old(Log)
      ensures old(Index) > 0 ==>
        && Index == old(Index) - 1
        && command == Some(Stack[Index])
        && Log == old(Log) + [Undone(Stack[Index]), Notified(Stack, Index)]
    {
      if Index == 0 {
        return None;
      }
      Index := Index - 1;
      var c := Stack[Index];
      Log := Log + [Undone(c)];
      Notify();
      return Some(c);
    }

    method Undo() returns (command: Option<C>)
      requires Valid()
      modifies this
      ensures Valid() && Stack == old(Stack)
      ensures old(Index) == 0 ==> command.None? && Index == 0 && Log == old(Log)
      ensures old(Index) > 0 ==>
        && Index == old(Index) - 1
        && command == Some(Stack[Index])
        && Log == old(Log) + [Undone(Stack[Index]), Notified(Stack, Index)]
    {
      command := Pop();
    }

    /** `Redo()`: at the top nothing happens and `null` is returned;
        otherwise the command at the cursor is applied and returned and the
        cursor moves past it. */
    method Redo() returns (command: Option<C>)
      requires Valid()
      modifies this
      ensures Valid() && Stack == old(Stack)
      ensures old(Index) == |Stack| ==> command.None? && Index == old(Index) && Log == old(Log)
      ensures old(Index) < |Stack| ==>
        && Index == old(Index) + 1
        && command == Some(Stack[old(Index)])
        && Log == old(Log) + [Applied(Stack[old(Index)]), Notified(Stack, Index)]
    {
      if Index >= |Stack| {
        return None;
      }
      var c := Stack[Index];
      Log := Log + [Applied(c)];
      Index := Index + 1;
      Notify();
      return Some(c);
    }

    /** `GoToIndex(index)`: redoes or undoes one command at a time until the
        cursor is at `index`. A target outside `0 .. Stack.Count` is never
        reached, since `Redo` and `Undo` stop moving at the ends, and the
        source then loops forever. */
    method GoToIndex(index: int)
      requires Valid() && 0 <= index <= |Stack|
      modifies this
      ensures Valid() && Index == index && Stack == old(Stack)
      ensures old(Index) <= index ==> Log == old(Log) + RedoEvents(Stack, old(Index), index)
      ensures old(Index) >= index ==> Log == old(Log) + UndoEvents(Stack, old(Index), index)
    {
      ghost var start, log := Index, Log;
      while Index < index
        invariant Valid() && Stack == old(Stack)
        invariant start <= Index && (Index <= index || Index == start)
        invariant Log == log + RedoEvents(Stack, start, Index)
        decreases index - Index
      {
        var redone := Redo();
        RedoEventsSnoc(Stack, start, Index);
      }
      ghost var turn := Index;
      while Index > index
        invariant Valid() && Stack == old(Stack)
        invariant index <= Index <= turn
        invariant Log == log + RedoEvents(Stack, start, turn) + UndoEvents(Stack, turn, Index)
        decreases Index
      {
        var undone := Undo();
        UndoEventsSnoc(Stack, turn, Index);
      }
    }

    /** `Clear()`: an empty history with the cursor at 0. */
    method Clear()
      modifies this
      ensures Valid() && Index == 0 && Stack == []
      ensures Log == old(Log) + [Notified([], 0)]
    {
      Index := 0;
      Stack := [];
      Notify();
    }

    /** `Notify()`: raises `OnChange` with the stack and the cursor. */
    method Notify()
      modifies this`Log
      ensures Log == old(Log) + [Notified(Stack, Index)]
    {
      Log := Log + [Notified(Stack, Index)];
    }
  }

  /** An undo followed by a redo returns the same command and puts the
      cursor back where it was. */
  method UndoThenRedo<C>(h: HistoryStack<C>) returns (undone: Option<C>, redone: Option<C>)
    requires h.Valid() && h.Index > 0
    modifies h
    ensures h.Valid() && h.Index == old(h.Index) && h.Stack == old(h.Stack)
    ensures undone == redone == Some(h.Stack[h.Index - 1])
    ensures h.Log == old(h.Log) + [Undone(undone.value), Notified(h.Stack, h.Index - 1), Applied(undone.value), Notified(h.Stack, h.Index)]
  {
    undone := h.Undo();
    redone := h.Redo();
  }
}
