/**
 The nine-slot task stack of the reader together with the reply objects it is
 building, updated in place. Its ghost `state` is the machine state it is in:
 nothing under way, an item being read inside some open arrays, or a finished
 reply.
 */
module TaskStack {
  import opened Bytes
  import opened Resp
  import opened ReaderMachine
  import opened ReplyObjects

  class TaskStack {
    const rstack: array<Task>
    var ridx: int
    var reply: Option<nat>
    var store: Store
    ghost var state: Option<State>

    /** The stack mirrors the open frames: the index is in range, every slot below it
        is an array task whose object has exactly the elements before the next
        task's index filled in, and the root object is the reply under way. */
    ghost predicate Working(frames: seq<Frame>, kind: Option<Kind>)
      reads this`ridx, this`reply, this`store, rstack
    {
      && rstack.Length == MAX_DEPTH + 1
      && 0 <= ridx == |frames|
      && OpenFrames(frames)
      && Stacked(store, rstack[..], frames, None)
      && rstack[ridx].kind == kind
      && reply == if ridx == 0 then None else rstack[0].obj
    }

    ghost predicate Valid()
      reads this, rstack
    {
      match state
      case Some(Working(frames, kind)) => Working(frames, kind)
      case Some(Finished(v)) =>
        rstack.Length == MAX_DEPTH + 1 && ridx == -1 && reply.Some? && Represents(store, reply.value, v)
      case None =>
        rstack.Length == MAX_DEPTH + 1 && ridx == -1 && reply.None?
    }

    ghost predicate Reading()
      reads this`state
    {
      state.Some? && state.value.Working?
    }

    constructor ()
      ensures Valid() && fresh(rstack) && state.None? && store == []
    {
      rstack := new Task[MAX_DEPTH + 1](_ => Task(None, 0, 0, None, None));
      ridx, reply, store := -1, None, [];
      state := None;
    }

    /** Sets the first task of an empty stack. */
    method Begin()
      requires Valid() && state.None?
      modifies this`ridx, this`state, rstack
      ensures Valid() && state == Some(START)
    {
      rstack[0] := Task(None, -1, -1, None, None);
      ridx := 0;
      state := Some(START);
    }

    /** Drops the reply under way. */
    method Reset()
      requires rstack.Length == MAX_DEPTH + 1
      modifies this`reply, this`ridx, this`state
      ensures Valid() && state.None?
    {
      reply := None;
      ridx := -1;
      state := None;
    }

    /** Hands out a finished reply. */
    method Take() returns (p: Option<nat>)
      requires Valid() && state.Some? && state.value.Finished?
      modifies this`reply, this`state
      ensures Valid() && state.None?
      ensures p.Some? && Represents(store, p.value, old(state.value.reply))
    {
      p := reply;
      reply := None;
      state := None;
    }

    /** Records the type of the current item. */
    method SetKind(kind: Kind)
      requires Valid() && Reading()
      modifies this`state, rstack
      ensures Valid() && state == Some(ReaderMachine.Working(old(state.value.frames), Some(kind)))
    {
      ghost var frames, stack := state.value.frames, rstack[..];
      KindFree(store, stack, frames, kind);
      rstack[ridx] := rstack[ridx].(kind := Some(kind));
      assert rstack[..] == stack[ridx := stack[ridx].(kind := Some(kind))];
      state := Some(ReaderMachine.Working(frames, Some(kind)));
    }

    /** Moves the current task to the next slot of the innermost open array. */
    method NextSlot(ghost frames: seq<Frame>, ghost p: nat, ghost v: Reply)
      requires rstack.Length == MAX_DEPTH + 1 && 0 < ridx == |frames|
      requires Delivering(store, rstack[..], frames, p, v)
      requires |frames[|frames| - 1].done| + 1 < frames[|frames| - 1].total
      requires reply == rstack[0].obj
      modifies rstack
      ensures Deliver(frames, v).Working?
      ensures Working(Deliver(frames, v).frames, Deliver(frames, v).kind)
    {
      DeliverNext(store, rstack[..], frames, p, v);
      ghost var stack := rstack[..];
      rstack[ridx] := rstack[ridx].(kind := None, elements := -1, idx := rstack[ridx].idx + 1);
      assert rstack[..] == stack[ridx := stack[ridx].(kind := None, elements := -1, idx := stack[ridx].idx + 1)];
    }

    /** Hands the current item, whose object `p` stands for `v`, to the stack. */
    method MoveToNextTask(ghost frames: seq<Frame>, ghost p: nat, ghost v: Reply)
      requires rstack.Length == MAX_DEPTH + 1 && 0 <= ridx == |frames|
      requires Delivering(store, rstack[..], frames, p, v)
      requires reply == if ridx == 0 then Some(p) else rstack[0].obj
      modifies this`ridx, this`state, rstack
      ensures Valid() && state == Some(Deliver(frames, v))
    {
      ghost var stack := rstack[..];
      ghost var fs, q, w := frames, p, v;
      state := Some(Deliver(frames, v));
      while ridx >= 0
        invariant rstack[..] == stack
        invariant 0 <= ridx == |fs| <= |frames|
        invariant Delivering(store, stack, fs, q, w)
        invariant state == Some(Deliver(fs, w)) == Some(Deliver(frames, v))
        invariant Some(q) == if ridx == |frames| then Some(p) else stack[ridx].obj
        decreases ridx
      {
        if ridx == 0 {
          ridx := ridx - 1;
          return;
        }
        TopLevel(store, stack, fs, q, w);
        var cur, prv := rstack[ridx], rstack[ridx - 1];
        assert prv.kind == Some(ArrayKind);
        if cur.idx == prv.elements - 1 {
          DeliverClose(store, stack, fs, q, w);
          ridx := ridx - 1;
          q, w := prv.obj.value, Array(fs[|fs| - 1].total, fs[|fs| - 1].done + [w]);
          fs := fs[..|fs| - 1];
        } else {
          assert cur.idx < prv.elements;
          NextSlot(fs, q, w);
          return;
        }
      }
    }

    /** The reader's createString, createInteger, createNil and createArray: allocates
        an object, stores it in its parent's slot and remembers it if it is the root. */
    method CreateObject(o: Object, ghost frames: seq<Frame>) returns (p: nat)
      requires 0 <= ridx < rstack.Length && Working(frames, rstack[ridx].kind)
      modifies this`store, this`reply
      ensures Keeps(old(store), store)
      ensures p < |store| && store[p] == o
      ensures Stacked(store, rstack[..], frames, Some(p))
      ensures reply == if ridx == 0 then Some(p) else rstack[0].obj
    {
      CreateKeeps(store, rstack[..], frames, o);
      CreateStacked(store, rstack[..], frames, o);
      p := |store|;
      store := Create(store, rstack[..], rstack[ridx], o);
      if ridx == 0 {
        reply := Some(p);
      }
    }

    /** Creates a complete item and moves on. */
    method Complete(o: Object, ghost v: Reply)
      requires Valid() && Reading()
      requires o == Leaf(v) || (v.Array? && v.items == [] && o == ArrayObject(v.count, []))
      modifies this, rstack
      ensures Valid() && state == Some(Deliver(old(state.value.frames), v))
      ensures Keeps(old(store), store)
    {
      ghost var frames := state.value.frames;
      var p := CreateObject(o, frames);
      MoveToNextTask(frames, p, v);
    }

    /** Creates an array of `n` elements and starts on the first of them. */
    method Push(n: nat)
      requires Valid() && Reading() && state.value.kind == Some(ArrayKind)
      requires 0 < n && |state.value.frames| < MAX_DEPTH
      modifies this, rstack
      ensures Valid() && state == Some(ReaderMachine.Working(old(state.value.frames) + [Frame(n, [])], None))
      ensures Keeps(old(store), store)
    {
      ghost var frames := state.value.frames;
      var p := CreateObject(ArrayObject(n, Slots(n)), frames);
      PushTask(p, n, frames);
    }

    /** The array of a header: nothing, an empty one, or one with elements to read. */
    method StartArray(n: int)
      requires Valid() && Reading() && state.value.kind == Some(ArrayKind) && |state.value.frames| < MAX_DEPTH
      modifies this, rstack
      ensures Valid() && Keeps(old(store), store)
      ensures state == Some(
        if n == -1 then Deliver(old(state.value.frames), Nil)
        else if n <= 0 then Deliver(old(state.value.frames), Array(n, []))
        else ReaderMachine.Working(old(state.value.frames) + [Frame(n, [])], None))
    {
      if n == -1 {
        Complete(Leaf(Nil), Nil);
      } else if n <= 0 {
        Complete(ArrayObject(n, []), Array(n, []));
      } else {
        Push(n);
      }
    }

    method PushTask(p: nat, n: nat, ghost frames: seq<Frame>)
      requires rstack.Length == MAX_DEPTH + 1 && 0 <= ridx == |frames| < MAX_DEPTH
      requires OpenFrames(frames) && Stacked(store, rstack[..], frames, Some(p))
      requires rstack[ridx].kind == Some(ArrayKind)
      requires 0 < n && p < |store| && store[p] == ArrayObject(n, Slots(n))
      requires reply == if ridx == 0 then Some(p) else rstack[0].obj
      modifies this`ridx, this`state, rstack
      ensures Valid() && state == Some(ReaderMachine.Working(frames + [Frame(n, [])], None))
    {
      OpenArray(store, rstack[..], frames, p, n);
      ghost var stack, k := rstack[..], ridx;
      rstack[ridx] := rstack[ridx].(elements := n, obj := Some(p));
      ridx := ridx + 1;
      rstack[ridx] := Task(None, -1, 0, None, Some((ridx - 1) as nat));
      assert rstack[..] == stack[k := stack[k].(elements := n, obj := Some(p))]
                                [k + 1 := Task(None, -1, 0, None, Some(k))];
      state := Some(ReaderMachine.Working(frames + [Frame(n, [])], None));
    }
  }
}
