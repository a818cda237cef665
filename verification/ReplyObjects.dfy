/**
 The reply objects under construction and the task stack that points into them.

 Objects live in a store; a pointer is an index into it. An array object is
 allocated with empty element slots, and each element is written into its
 parent's slot at the moment it is created, long before the array is complete.
 */
module ReplyObjects {
  import opened Bytes
  import opened Resp
  import opened ReaderMachine

  datatype Object =
    | Leaf(value: Reply)
    | ArrayObject(count: int, element: seq<Option<nat>>)

  type Store = seq<Object>

  /** A slot of the task stack. `parent` is the stack index of the enclosing task. */
  datatype Task = Task(kind: Option<Kind>, elements: int, idx: int, obj: Option<nat>, parent: Option<nat>)

  /** Object `p` is complete and stands for the reply `v`. */
  ghost predicate Represents(store: Store, p: nat, v: Reply)
    decreases v
  {
    && p < |store|
    && match store[p]
       case Leaf(value) => v == value
       case ArrayObject(count, element) =>
         && v.Array? && v.count == count && |v.items| == |element|
         && forall j :: 0 <= j < |element| ==>
              element[j].Some? && Represents(store, element[j].value, v.items[j])
  }

  ghost predicate HasHole(o: Object) {
    o.ArrayObject? && exists j :: 0 <= j < |o.element| && o.element[j].None?
  }

  /** Every complete object is still complete and stands for the same reply. */
  ghost predicate Keeps(store: Store, store': Store) {
    forall p: nat, v: Reply :: Represents(store, p, v) ==> Represents(store', p, v)
  }

  /** Writing into an object that still has a hole cannot touch a complete object. */
  lemma {:induction false} RepresentsStable(store: Store, store': Store, p: nat, v: Reply)
    requires |store| <= |store'|
    requires forall q :: 0 <= q < |store| ==> store'[q] == store[q] || HasHole(store[q])
    requires Represents(store, p, v)
    ensures Represents(store', p, v)
    decreases v
  {
    if store[p].ArrayObject? {
      var element := store[p].element;
      forall j | 0 <= j < |element|
        ensures Represents(store', element[j].value, v.items[j])
      {
        RepresentsStable(store, store', element[j].value, v.items[j]);
      }
    }
  }

  /** A complete object stands for one reply only. */
  lemma {:induction false} RepresentsUnique(store: Store, p: nat, v: Reply, w: Reply)
    requires Represents(store, p, v) && Represents(store, p, w)
    ensures v == w
    decreases v
  {
    if store[p].ArrayObject? {
      var element := store[p].element;
      forall j | 0 <= j < |element|
        ensures v.items[j] == w.items[j]
      {
        RepresentsUnique(store, element[j].value, v.items[j], w.items[j]);
      }
      assert v.items == w.items;
    }
  }

  // ---- The task stack ----

  /** An open array: `task` at its level, `child` one level deeper. Exactly the
      elements before the child's index are filled in; the child's own slot is
      `slot`, and the later ones are empty. */
  ghost predicate Level(store: Store, task: Task, child: Task, frame: Frame, slot: Option<nat>) {
    && task.kind == Some(ArrayKind)
    && task.obj.Some? && task.obj.value < |store|
    && var o := store[task.obj.value];
    && o.ArrayObject?
    && o.count == task.elements == frame.total == |o.element|
    && child.idx == |frame.done| < frame.total
    && o.element[child.idx] == slot
    && (forall j :: child.idx < j < |o.element| ==> o.element[j].None?)
    && (forall j :: 0 <= j < child.idx ==>
          o.element[j].Some? && Represents(store, o.element[j].value, frame.done[j]))
  }

  /** The stack below the current task mirrors the open frames, from the innermost
      one outwards; `slot` is what the innermost array holds for the current task.
      An object is always younger than the array it sits in. */
  ghost predicate Stacked(store: Store, stack: seq<Task>, frames: seq<Frame>, slot: Option<nat>)
    decreases |frames|
  {
    && |stack| == MAX_DEPTH + 1
    && |frames| <= MAX_DEPTH
    && if frames == [] then stack[0].parent.None?
       else
         var n := |frames|;
         && stack[n].parent == Some((n - 1) as nat)
         && Level(store, stack[n - 1], stack[n], frames[n - 1], slot)
         && (slot.Some? ==> stack[n - 1].obj.value < slot.value)
         && Stacked(store, stack, frames[..n - 1], stack[n - 1].obj)
  }

  /** Enclosing arrays do not notice changes to younger objects or deeper tasks. */
  lemma {:induction false} StackedFrame(store: Store, store': Store, stack: seq<Task>, stack': seq<Task>,
                                        frames: seq<Frame>, slot: nat)
    requires Stacked(store, stack, frames, Some(slot))
    requires |store| <= |store'| && Keeps(store, store')
    requires forall q :: 0 <= q < slot && q < |store| ==> store'[q] == store[q]
    requires |stack'| == |stack| && stack'[..|frames|] == stack[..|frames|]
    requires stack'[|frames|].idx == stack[|frames|].idx && stack'[|frames|].parent == stack[|frames|].parent
    ensures Stacked(store', stack', frames, Some(slot))
    decreases |frames|
  {
    if frames != [] {
      var n := |frames|;
      assert stack'[n - 1] == stack'[..n][n - 1] == stack[n - 1];
      assert stack'[..n - 1] == stack'[..n][..n - 1] == stack[..n - 1];
      LevelKept(store, store', stack[n - 1], stack[n], stack'[n], frames[n - 1], Some(slot));
      StackedFrame(store, store', stack, stack', frames[..n - 1], stack[n - 1].obj.value);
    }
  }

  /** A level whose own object did not change survives an update that keeps complete objects. */
  lemma LevelKept(store: Store, store': Store, task: Task, child: Task, child': Task, frame: Frame, slot: Option<nat>)
    requires Level(store, task, child, frame, slot) && Keeps(store, store') && |store| <= |store'|
    requires child'.idx == child.idx
    requires store'[task.obj.value] == store[task.obj.value]
    ensures Level(store', task, child', frame, slot)
  {
  }

  /** The invariant does not depend on the type of the current task. */
  lemma KindFree(store: Store, stack: seq<Task>, frames: seq<Frame>, kind: Kind)
    requires Stacked(store, stack, frames, None)
    ensures Stacked(store, stack[|frames| := stack[|frames|].(kind := Some(kind))], frames, None)
  {
    if frames != [] {
      var n := |frames|;
      StackedFrame(store, store, stack, stack[n := stack[n].(kind := Some(kind))], frames[..n - 1],
                   stack[n - 1].obj.value);
    }
  }

  /** Allocating `o` for `task` and storing it in the parent's slot. */
  function Create(store: Store, stack: seq<Task>, task: Task, o: Object): (r: Store)
    requires task.parent.Some? ==>
      && task.parent.value < |stack|
      && var obj := stack[task.parent.value].obj;
      && obj.Some? && obj.value < |store| && store[obj.value].ArrayObject?
      && 0 <= task.idx < |store[obj.value].element|
  {
    if task.parent.None? then store + [o]
    else
      var parent := stack[task.parent.value].obj.value;
      store[parent := store[parent].(element := store[parent].element[task.idx := Some(|store|)])] + [o]
  }

  lemma CreateKeeps(store: Store, stack: seq<Task>, frames: seq<Frame>, o: Object)
    requires Stacked(store, stack, frames, None)
    ensures
      var r := Create(store, stack, stack[|frames|], o);
      && |r| == |store| + 1
      && r[|store|] == o
      && Keeps(store, r)
  {
    var r := Create(store, stack, stack[|frames|], o);
    if frames != [] {
      assert HasHole(store[stack[|frames| - 1].obj.value]);
    }
    forall p: nat, v | Represents(store, p, v)
      ensures Represents(r, p, v)
    {
      RepresentsStable(store, r, p, v);
    }
  }

  lemma FillSlot(store: Store, store': Store, task: Task, child: Task, frame: Frame, p: nat)
    requires Level(store, task, child, frame, None) && Keeps(store, store') && |store| <= |store'|
    requires
      var o := store[task.obj.value];
      store'[task.obj.value] == o.(element := o.element[child.idx := Some(p)])
    ensures Level(store', task, child, frame, Some(p))
  {
  }

  /** Creating the current item fills exactly the current slot. */
  lemma CreateStacked(store: Store, stack: seq<Task>, frames: seq<Frame>, o: Object)
    requires Stacked(store, stack, frames, None)
    ensures Stacked(Create(store, stack, stack[|frames|], o), stack, frames, Some(|store|))
  {
    CreateKeeps(store, stack, frames, o);
    if frames != [] {
      CreateInside(store, Create(store, stack, stack[|frames|], o), stack, frames, o);
    }
  }

  lemma CreateInside(store: Store, r: Store, stack: seq<Task>, frames: seq<Frame>, o: Object)
    requires frames != [] && Stacked(store, stack, frames, None) && Keeps(store, r)
    requires r == Create(store, stack, stack[|frames|], o)
    ensures Stacked(r, stack, frames, Some(|store|))
  {
    var n := |frames|;
    var parent := stack[n - 1].obj.value;
    FillSlot(store, r, stack[n - 1], stack[n], frames[n - 1], |store|);
    StackedFrame(store, r, stack, stack, frames[..n - 1], parent);
  }

  function Slots(n: nat): seq<Option<nat>> {
    seq(n, _ => None)
  }

  /** A non-empty array becomes the innermost open level, with a fresh task above it. */
  lemma OpenArray(store: Store, stack: seq<Task>, frames: seq<Frame>, p: nat, n: nat)
    requires Stacked(store, stack, frames, Some(p)) && |frames| < MAX_DEPTH && 0 < n
    requires p < |store| && store[p] == ArrayObject(n, Slots(n))
    requires stack[|frames|].kind == Some(ArrayKind)
    ensures
      var k := |frames|;
      var stack' := stack[k := stack[k].(elements := n, obj := Some(p))]
                         [k + 1 := Task(None, -1, 0, None, Some(k))];
      Stacked(store, stack', frames + [Frame(n, [])], None)
  {
    var k := |frames|;
    var stack' := stack[k := stack[k].(elements := n, obj := Some(p))]
                       [k + 1 := Task(None, -1, 0, None, Some(k))];
    var frames' := frames + [Frame(n, [])];
    assert frames'[..k] == frames;
    assert Level(store, stack'[k], stack'[k + 1], frames'[k], None);
    StackedFrame(store, store, stack, stack', frames, p);
  }

  // ---- Handing a finished item to the stack ----

  /** Object `p` of the current task is complete and stands for `v`. */
  ghost predicate Delivering(store: Store, stack: seq<Task>, frames: seq<Frame>, p: nat, v: Reply) {
    OpenFrames(frames) && Stacked(store, stack, frames, Some(p)) && Represents(store, p, v)
  }

  /** What the stack says about the innermost open array. */
  lemma TopLevel(store: Store, stack: seq<Task>, frames: seq<Frame>, p: nat, v: Reply)
    requires Delivering(store, stack, frames, p, v) && frames != []
    ensures
      var n, top := |frames|, frames[|frames| - 1];
      && n < |stack| == MAX_DEPTH + 1
      && stack[n - 1].kind == Some(ArrayKind)
      && stack[n - 1].obj.Some?
      && stack[n - 1].elements == top.total
      && stack[n].idx == |top.done| < top.total
  {
  }

  /** The last element completes the innermost array, which sits already in its own parent. */
  lemma DeliverClose(store: Store, stack: seq<Task>, frames: seq<Frame>, p: nat, v: Reply)
    requires Delivering(store, stack, frames, p, v) && frames != []
    requires |frames[|frames| - 1].done| + 1 == frames[|frames| - 1].total
    ensures
      var outer, top := frames[..|frames| - 1], frames[|frames| - 1];
      var v' := Array(top.total, top.done + [v]);
      && stack[|outer|].obj.Some?
      && Delivering(store, stack, outer, stack[|outer|].obj.value, v')
      && Deliver(frames, v) == Deliver(outer, v')
  {
  }

  /** After an element that is not the last, the current task moves to the next slot. */
  lemma DeliverNext(store: Store, stack: seq<Task>, frames: seq<Frame>, p: nat, v: Reply)
    requires Delivering(store, stack, frames, p, v) && frames != []
    requires |frames[|frames| - 1].done| + 1 < frames[|frames| - 1].total
    ensures
      var n, st := |frames|, Deliver(frames, v);
      && st.Working? && |st.frames| == n && st.kind.None?
      && Stacked(store, stack[n := stack[n].(kind := None, elements := -1, idx := stack[n].idx + 1)], st.frames, None)
  {
    var n, outer, top := |frames|, frames[..|frames| - 1], frames[|frames| - 1];
    var stack' := stack[n := stack[n].(kind := None, elements := -1, idx := stack[n].idx + 1)];
    var frames' := outer + [Frame(top.total, top.done + [v])];
    assert Level(store, stack'[n - 1], stack'[n], frames'[n - 1], None);
    assert frames'[..n - 1] == outer;
    StackedFrame(store, store, stack, stack', outer, stack[n - 1].obj.value);
  }
}
