/** The hand-written singly-linked LIFO stack the engine is built on. */
module LinkedStack {
  import opened Outcomes

  /** One cell of the chain: a value and the cell beneath it. */
  class Node<T> {
    var data: T
    var next: Node?<T>

    constructor (data: T)
      ensures this.data == data && next == null
    {
      this.data := data;
      next := null;
    }
  }

  class MyStack<T> {
    var top: Node?<T>
    var count: int

    // Abstract view: the elements, top first, and the chain of nodes holding them.
    ghost var contents: seq<T>
    ghost var spine: seq<Node<T>>
    ghost var Repr: set<object>

    /** `count` is the length of the chain from `top`, the chain ends in null,
        and node i holds element i of `contents`. */
    ghost predicate Valid()
      reads this, Repr
      ensures Valid() ==> this in Repr
    {
      this in Repr &&
      |spine| == |contents| && count == |contents| &&
      top == (if spine == [] then null else spine[0]) &&
      (forall i | 0 <= i < |spine| :: spine[i] in Repr) &&
      (forall i | 0 <= i < |spine| :: spine[i].data == contents[i]) &&
      (forall i | 0 <= i < |spine| - 1 :: spine[i].next == spine[i + 1]) &&
      (spine != [] ==> spine[|spine| - 1].next == null)
    }

    constructor ()
      ensures Valid() && fresh(Repr)
      ensures contents == []
    {
      top := null;
      count := 0;
      contents := [];
      spine := [];
      Repr := {this};
    }

    /** True exactly when no node is linked from `top`. */
    predicate IsEmpty()
      reads this, Repr
      requires Valid()
      ensures IsEmpty() <==> contents == []
      ensures IsEmpty() <==> count == 0
    {
      top == null
    }

    /** The number of elements, kept in a field rather than counted. */
    function Count(): (n: int)
      reads this, Repr
      requires Valid()
      ensures n == |contents|
    {
      count
    }

    /** The top element without removing it; Underflow on an empty stack. */
    function Peek(): (r: Result<T>)
      reads this, Repr
      requires Valid()
      ensures contents == [] ==> r == Fail(Underflow)
      ensures contents != [] ==> r == Ok(contents[0])
    {
      if top == null then Fail(Underflow) else Ok(top.data)
    }

    /** Links a fresh node holding `data` above the old top. */
    method Push(data: T)
      requires Valid()
      modifies this
      ensures Valid() && fresh(Repr - old(Repr))
      ensures contents == [data] + old(contents)
    {
      var newNode := new Node<T>(data);
      newNode.next := top;
      top := newNode;
      count := count + 1;
      contents := [data] + contents;
      spine := [newNode] + spine;
      Repr := Repr + {newNode};
    }

    /** Unlinks and returns the top element; Underflow, and no change, on an empty stack. */
    method Pop() returns (r: Result<T>)
      requires Valid()
      modifies this
      ensures Valid() && Repr == old(Repr)
      ensures old(contents) == [] ==> r == Fail(Underflow) && contents == []
      ensures old(contents) != [] ==> r == Ok(old(contents)[0]) && contents == old(contents)[1..]
    {
      if top == null {
        return Fail(Underflow);
      }
      assert top == spine[0];
      r := Ok(top.data);
      top := top.next;
      count := count - 1;
      contents := contents[1..];
      spine := spine[1..];
    }
  }

  function Reverse<T>(s: seq<T>): (r: seq<T>)
    ensures |r| == |s|
  {
    if s == [] then [] else Reverse(s[1..]) + [s[0]]
  }

  /** A fresh stack onto which `xs` has been pushed from first to last. */
  method PushAll<T>(xs: seq<T>) returns (s: MyStack<T>)
    ensures s.Valid() && fresh(s.Repr)
    ensures s.contents == Reverse(xs)
  {
    s := new MyStack<T>();
    for i := 0 to |xs|
      invariant s.Valid() && fresh(s.Repr)
      invariant s.contents == Reverse(xs[..i])
    {
      ReverseSnoc(xs[..i], xs[i]);
      assert xs[..i + 1] == xs[..i] + [xs[i]];
      s.Push(xs[i]);
    }
    assert xs[..|xs|] == xs;
  }

  /** The LIFO law on one element: popping right after pushing `x` gives back
      `x` and leaves the stack as it was. */
  method PushThenPop<T>(s: MyStack<T>, x: T) returns (r: Result<T>)
    requires s.Valid()
    modifies s
    ensures s.Valid() && fresh(s.Repr - old(s.Repr))
    ensures r == Ok(x) && s.contents == old(s.contents) && s.Count() == old(s.Count())
  {
    s.Push(x);
    r := s.Pop();
  }

  /** Pushing `xs` one by one onto a fresh stack and then popping until the
      stack is empty gives back `xs` in reverse order, and one more pop is an
      Underflow. */
  method LastInFirstOut<T>(xs: seq<T>) returns (popped: seq<T>, last: Result<T>)
    ensures popped == Reverse(xs)
    ensures last == Fail(Underflow)
  {
    var s := PushAll(xs);
    popped := [];
    while !s.IsEmpty()
      invariant s.Valid() && fresh(s.Repr)
      invariant popped + s.contents == Reverse(xs)
      decreases |s.contents|
    {
      ghost var before := s.contents;
      var r := s.Pop();
      assert before == [r.value] + s.contents;
      popped := popped + [r.value];
    }
    last := s.Pop();
  }

  lemma {:induction false} ReverseSnoc<T>(s: seq<T>, x: T)
    ensures Reverse(s + [x]) == [x] + Reverse(s)
  {
    if s != [] {
      assert (s + [x])[1..] == s[1..] + [x];
      ReverseSnoc(s[1..], x);
    }
  }

  lemma {:induction false} ReverseInvolutive<T>(s: seq<T>)
    ensures Reverse(Reverse(s)) == s
  {
    if s != [] {
      ReverseInvolutive(s[1..]);
      ReverseSnoc(Reverse(s[1..]), s[0]);
    }
  }

  lemma {:induction false} ReverseAppend<T>(a: seq<T>, b: seq<T>)
    ensures Reverse(a + b) == Reverse(b) + Reverse(a)
  {
    if a == [] {
      assert a + b == b;
    } else {
      assert (a + b)[1..] == a[1..] + b;
      ReverseAppend(a[1..], b);
    }
  }
}
