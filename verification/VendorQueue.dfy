/** The frame queue of the vendor's driver (queue.c), and the threads that fill and empty it (main.c). */
module VendorQueue {
  import opened Wrappers

  class Element<T> {
    var element: T
    var next: Element?<T>

    constructor (element: T)
      ensures this.element == element && next == null
    {
      this.element, this.next := element, null;
    }
  }

  /** Different nodes, each linked to the one behind it, that carry the items. */
  ghost predicate Chained<T>(nodes: seq<Element<T>>, items: seq<T>)
    reads nodes
  {
    && |nodes| == |items|
    && (forall i, j :: 0 <= i < j < |nodes| ==> nodes[i] != nodes[j])
    && (forall i :: 0 <= i < |nodes| ==> nodes[i].element == items[i])
    && (forall i, j :: 0 <= i && j == i + 1 < |nodes| ==> nodes[i].next == nodes[j])
    && (nodes != [] ==> nodes[|nodes| - 1].next == null)
  }

  lemma ChainTail<T>(nodes: seq<Element<T>>, items: seq<T>)
    requires Chained(nodes, items) && nodes != []
    ensures Chained(nodes[1..], items[1..])
    ensures if |nodes| == 1 then nodes[0].next == null else nodes[0].next == nodes[1] && nodes[0] != nodes[|nodes| - 1]
  {
    var n, m := nodes[1..], items[1..];
    forall i, j | 0 <= i && j == i + 1 < |n| ensures n[i].next == n[j] {
      assert nodes[i + 1].next == nodes[j + 1];
    }
    if n != [] { assert n[|n| - 1] == nodes[|nodes| - 1]; }
  }

  class Queue<T(0)> {
    var first: Element?<T>
    var last: Element?<T>
    var length: int
    ghost var nodes: seq<Element<T>>
    ghost var items: seq<T>

    ghost predicate Valid()
      reads this, nodes
    {
      && |nodes| == length
      && Chained(nodes, items)
      && first == (if nodes == [] then null else nodes[0])
      && last == (if nodes == [] then null else nodes[|nodes| - 1])
    }

    constructor ()
      ensures Valid() && items == [] && nodes == []
    {
      first, last, length, nodes, items := null, null, 0, [], [];
    }

    /** queue_add puts an element behind all others. */
    method Add(element: T)
      requires Valid()
      modifies this, nodes
      ensures Valid() && items == old(items) + [element]
      ensures fresh(nodes[|nodes| - 1]) && nodes[..|nodes| - 1] == old(nodes)
    {
      var node := new Element(element);
      if first == null {
        first := node;
        last := node;
      } else {
        last.next := node;
        last := node;
      }
      length := length + 1;
      nodes, items := nodes + [node], items + [element];
    }

    /** queue_remove takes the element that was put in first; an empty queue gives none. */
    method Remove() returns (r: Option<T>)
      requires Valid()
      modifies this
      ensures Valid()
      ensures old(items) == [] ==> r == None && items == [] && nodes == old(nodes)
      ensures old(items) != [] ==> r == Some(old(items)[0]) && items == old(items)[1..] && nodes == old(nodes)[1..]
    {
      if first == null {
        return None;
      }
      var node := first;
      ChainTail(nodes, items);
      if first == last {
        first, last := null, null;
      } else {
        first := node.next;
      }
      length := length - 1;
      nodes, items := nodes[1..], items[1..];
      return Some(node.element);
    }

    method First() returns (r: Option<T>)
      requires Valid()
      ensures r == if items == [] then None else Some(items[0])
    {
      if first == null { return None; }
      return Some(first.element);
    }

    /** releses_queue frees every element that is left, first to last. */
    method Release() returns (freed: seq<T>)
      requires Valid()
      modifies this
      ensures Valid() && items == [] && freed == old(items)
    {
      freed := [];
      while length > 0
        invariant Valid() && freed + items == old(items)
        decreases length
      {
        ghost var left := items;
        var frame := Remove();
        assert left == [left[0]] + left[1..];
        freed := freed + [frame.value];
      }
    }
  }

  // ---- the threads ----

  /** The queue between the threads that compress frames and the thread that sends them. A compressing
      thread looks at the length first, works without the lock, and adds its frame later. */
  datatype State<T> = State(queue: seq<T>, encoding: set<nat>, added: seq<T>, removed: seq<T>)

  datatype Action<T> =
    | Wait(i: nat)
    | LookAgain(i: nat)
    | AddFrame(i: nat, frame: T)
    | GiveUp(i: nat)
    | RemoveFrame

  /** evdi_process of thread `i` of `n`, and usb_process. A thread that sees more than five frames waits;
      one that sees fewer than five starts to compress. */
  predicate Enabled<T>(n: nat, s: State<T>, a: Action<T>) {
    match a
    case Wait(i) => i < n && i !in s.encoding && |s.queue| > 5
    case LookAgain(i) => i < n && i !in s.encoding && |s.queue| < 5
    case AddFrame(i, _) => i in s.encoding
    case GiveUp(i) => i in s.encoding
    case RemoveFrame => s.queue != []
  }

  function Step<T>(n: nat, s: State<T>, a: Action<T>): State<T>
    requires Enabled(n, s, a)
  {
    match a
    case Wait(i) => s
    case LookAgain(i) => s.(encoding := s.encoding + {i})
    case AddFrame(i, frame) => s.(encoding := s.encoding - {i}, queue := s.queue + [frame], added := s.added + [frame])
    case GiveUp(i) => s.(encoding := s.encoding - {i})
    case RemoveFrame => s.(queue := s.queue[1..], removed := s.removed + [s.queue[0]])
  }

  ghost predicate Inv<T>(n: nat, s: State<T>) {
    && (forall i :: i in s.encoding ==> i < n)
    && |s.queue| + |s.encoding| <= 4 + n
    && s.added == s.removed + s.queue
  }

  lemma {:induction false} Few(e: set<nat>, n: nat)
    requires forall i :: i in e ==> i < n
    ensures |e| <= n
  {
    if n == 0 {
      assert e == {};
    } else {
      Few(e - {n - 1}, n - 1);
    }
  }

  lemma StepInv<T>(n: nat, s: State<T>, a: Action<T>)
    requires Inv(n, s) && Enabled(n, s, a)
    ensures Inv(n, Step(n, s, a))
  {
    var t := Step(n, s, a);
    Few(t.encoding, n);
    match a
    case Wait(i) =>
    case LookAgain(i) =>
    case AddFrame(i, frame) => assert t.added == t.removed + t.queue;
    case GiveUp(i) =>
    case RemoveFrame => assert s.queue == [s.queue[0]] + s.queue[1..];
  }

  ghost predicate IsRun<T>(n: nat, states: seq<State<T>>, actions: seq<Action<T>>) {
    && |states| == |actions| + 1 && states[0] == State([], {}, [], [])
    && forall i :: 0 <= i < |actions| ==>
         Enabled(n, states[i], actions[i]) && states[i + 1] == Step(n, states[i], actions[i])
  }

  lemma {:induction false} Always<T>(n: nat, states: seq<State<T>>, actions: seq<Action<T>>, k: nat)
    requires IsRun(n, states, actions) && k < |states|
    ensures Inv(n, states[k])
    decreases k
  {
    if k > 0 {
      Always(n, states, actions, k - 1);
      StepInv(n, states[k - 1], actions[k - 1]);
    }
  }

  /** In every interleaving of one compressing thread with the sending thread the queue never holds more
      than five frames, so the thread never waits, and frames leave in the order they were added. */
  lemma FiveAtMost<T>(states: seq<State<T>>, actions: seq<Action<T>>, k: nat)
    requires IsRun(1, states, actions) && k < |states|
    ensures |states[k].queue| <= 5 && states[k].added == states[k].removed + states[k].queue
    ensures forall i :: !Enabled(1, states[k], Action<T>.Wait(i))
  {
    Always(1, states, actions, k);
  }

  /** Each further thread can add one more. */
  lemma AtMost<T>(n: nat, states: seq<State<T>>, actions: seq<Action<T>>, k: nat)
    requires IsRun(n, states, actions) && k < |states|
    ensures |states[k].queue| <= 4 + n
  {
    Always(n, states, actions, k);
  }

  // ---- a run that reaches the bound ----

  lemma Onward<T>(n: nat, states: seq<State<T>>, actions: seq<Action<T>>, a: Action<T>)
    returns (all: seq<State<T>>, done: seq<Action<T>>)
    requires IsRun(n, states, actions) && Enabled(n, states[|actions|], a)
    ensures IsRun(n, all, done) && all[|done|] == Step(n, states[|actions|], a)
  {
    hide Enabled, Step;
    all, done := states + [Step(n, states[|actions|], a)], actions + [a];
  }

  function Copies<T>(f: T, k: nat): (s: seq<T>)
    ensures |s| == k
  {
    seq(k, i => f)
  }

  predicate AtLeast(low: nat, i: nat) { low <= i }

  function Between(low: nat, high: nat): set<nat> { set i: nat | i < high && AtLeast(low, i) }

  /** One thread alone puts up to four frames into the queue. */
  lemma {:induction false} FirstFour<T>(n: nat, f: T, k: nat) returns (states: seq<State<T>>, actions: seq<Action<T>>)
    requires n > 0 && k <= 4
    ensures IsRun(n, states, actions) && states[|actions|] == State(Copies(f, k), {}, Copies(f, k), [])
  {
    if k == 0 {
      states, actions := [State([], {}, [], [])], [];
    } else {
      states, actions := FirstFour(n, f, k - 1);
      states, actions := Onward(n, states, actions, LookAgain(0));
      states, actions := Onward(n, states, actions, AddFrame(0, f));
      assert Copies(f, k) == Copies(f, k - 1) + [f];
    }
  }

  /** All threads look while four are there. */
  lemma {:induction false} AllLook<T>(n: nat, f: T, m: nat) returns (states: seq<State<T>>, actions: seq<Action<T>>)
    requires n > 0 && m <= n
    ensures IsRun(n, states, actions) && states[|actions|] == State(Copies(f, 4), Between(0, m), Copies(f, 4), [])
  {
    if m == 0 {
      states, actions := FirstFour(n, f, 4);
      assert Between(0, 0) == {};
    } else {
      states, actions := AllLook(n, f, m - 1);
      states, actions := Onward(n, states, actions, LookAgain(m - 1));
      assert Between(0, m) == Between(0, m - 1) + {m - 1};
    }
  }

  /** Then each adds its frame. */
  lemma {:induction false} AllAdd<T>(n: nat, f: T, m: nat) returns (states: seq<State<T>>, actions: seq<Action<T>>)
    requires n > 0 && m <= n
    ensures IsRun(n, states, actions)
    ensures states[|actions|] == State(Copies(f, 4 + m), Between(m, n), Copies(f, 4 + m), [])
  {
    if m == 0 {
      states, actions := AllLook(n, f, n);
    } else {
      states, actions := AllAdd(n, f, m - 1);
      states, actions := Onward(n, states, actions, AddFrame(m - 1, f));
      assert Between(m, n) == Between(m - 1, n) - {m - 1};
      assert Copies(f, 4 + m) == Copies(f, 4 + m - 1) + [f];
    }
  }

  /** For every number of threads there is a run from the empty queue that reaches the bound: six frames
      with two threads. */
  lemma BoundReached<T>(n: nat, f: T) returns (states: seq<State<T>>, actions: seq<Action<T>>)
    requires n > 0
    ensures IsRun(n, states, actions) && |states[|actions|].queue| == 4 + n
  {
    states, actions := AllAdd(n, f, n);
  }
}
