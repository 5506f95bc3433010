/**
 The bounded array stack: a fixed array of STACK_SIZE ints and the index
 `top` of the topmost occupied slot, -1 when the stack is empty. Push refuses
 to grow past the array and pop reports -1 on an empty stack; the diagnostic
 messages the program prints are not modelled.
 */
module SimpleStack {

  const STACK_SIZE: int := 100

  /** The program's `stack` array and its `top` index. */
  datatype Stack = Stack(slots: seq<int>, top: int)

  /** Index invariant: the array has its fixed size and `top` is -1 or a slot. */
  predicate Valid(st: Stack) {
    |st.slots| == STACK_SIZE && -1 <= st.top <= STACK_SIZE - 1
  }

  /** Program start: the array has static storage, so every slot is 0, and
      `top` is -1. */
  function Initial(): (st: Stack)
    ensures Valid(st) && st.top == -1
  {
    Stack(seq(STACK_SIZE, _ => 0), -1)
  }

  /** The occupied slots, bottom first. */
  function Contents(st: Stack): (c: seq<int>)
    requires Valid(st)
    ensures |c| == st.top + 1
  {
    st.slots[..st.top + 1]
  }

  /** push: on a full stack nothing changes (overflow); otherwise `top` moves
      up by one and `num` is stored there, every other slot keeping its value. */
  function Push(st: Stack, num: int): (r: Stack)
    requires Valid(st)
    ensures Valid(r)
    ensures st.top == STACK_SIZE - 1 ==> r == st
    ensures st.top < STACK_SIZE - 1 ==>
              && r.top == st.top + 1
              && r.slots[r.top] == num
              && forall i :: 0 <= i < STACK_SIZE && i != r.top ==> r.slots[i] == st.slots[i]
  {
    if st.top == STACK_SIZE - 1 then st
    else Stack(st.slots[st.top + 1 := num], st.top + 1)
  }

  /** The stack after a pop together with the value pop returned. */
  datatype Popped = Popped(stack: Stack, value: int)

  /** pop: on an empty stack -1 and no change (underflow, indistinguishable
      from popping a stored -1); otherwise the top slot's value, with `top`
      moved down by one and the array untouched. */
  function Pop(st: Stack): (r: Popped)
    requires Valid(st)
    ensures Valid(r.stack)
    ensures st.top == -1 ==> r == Popped(st, -1)
    ensures st.top != -1 ==>
              && r.value == st.slots[st.top]
              && r.stack.top == st.top - 1
              && r.stack.slots == st.slots
  {
    if st.top == -1 then Popped(st, -1)
    else Popped(Stack(st.slots, st.top - 1), st.slots[st.top])
  }

  /** Seen as a sequence, push appends `num` unless the stack is full. */
  lemma PushAppends(st: Stack, num: int)
    requires Valid(st)
    ensures st.top < STACK_SIZE - 1 ==> Contents(Push(st, num)) == Contents(st) + [num]
    ensures st.top == STACK_SIZE - 1 ==> Contents(Push(st, num)) == Contents(st)
  {
    if st.top < STACK_SIZE - 1 {
      var r := Push(st, num);
      assert forall i :: 0 <= i <= st.top ==> Contents(r)[i] == Contents(st)[i];
    }
  }

  /** Seen as a sequence, pop returns the last element and drops it. */
  lemma PopTakesLast(st: Stack)
    requires Valid(st) && st.top != -1
    ensures Pop(st).value == Contents(st)[st.top]
    ensures Contents(Pop(st).stack) == Contents(st)[..st.top]
  {
  }

  /** A pop right after a push on a non-full stack returns the pushed value
      and brings back the previous `top` and contents; only the array slot
      just above the contents still holds the pushed value. */
  lemma PushThenPop(st: Stack, num: int)
    requires Valid(st) && st.top < STACK_SIZE - 1
    ensures Pop(Push(st, num)).value == num
    ensures Pop(Push(st, num)).stack.top == st.top
    ensures Contents(Pop(Push(st, num)).stack) == Contents(st)
    ensures Pop(Push(st, num)).stack.slots == st.slots[st.top + 1 := num]
  {
  }

  /** A run of the program: the final stack and the values popped, in order. */
  datatype Run = Run(stack: Stack, popped: seq<int>)

  /** The loop `while (top != -1) pop();`: it empties the stack and yields the
      contents from top to bottom (last in, first out). */
  function DrainLoop(st: Stack): (r: Run)
    requires Valid(st)
    ensures Valid(r.stack) && r.stack.top == -1
    ensures |r.popped| == st.top + 1
    ensures forall i :: 0 <= i < |r.popped| ==> r.popped[i] == st.slots[st.top - i]
    decreases st.top + 1
  {
    if st.top == -1 then Run(st, [])
    else
      var p := Pop(st);
      var rest := DrainLoop(p.stack);
      Run(rest.stack, [p.value] + rest.popped)
  }

  /** main: push 5, 10 and 15; pop twice; push 20, 25 and 30; pop until empty.
      It pops 15 and 10, then 30, 25, 20 and 5, and ends with an empty stack. */
  function MainRun(): (r: Run)
    ensures r.popped == [15, 10, 30, 25, 20, 5]
    ensures Valid(r.stack) && r.stack.top == -1
  {
    var s1 := Push(Push(Push(Initial(), 5), 10), 15);
    assert s1.top == 2 && s1.slots[0] == 5 && s1.slots[1] == 10 && s1.slots[2] == 15;
    var p1 := Pop(s1);
    var p2 := Pop(p1.stack);
    assert p2.stack.top == 0 && p2.stack.slots[0] == 5;
    var s2 := Push(Push(Push(p2.stack, 20), 25), 30);
    assert s2.top == 3;
    assert s2.slots[0] == 5 && s2.slots[1] == 20 && s2.slots[2] == 25 && s2.slots[3] == 30;
    var d := DrainLoop(s2);
    assert d.popped == [30, 25, 20, 5];
    Run(d.stack, [p1.value, p2.value] + d.popped)
  }
}
