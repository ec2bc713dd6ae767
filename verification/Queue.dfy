/** The queue of algolib/source/queue.c: a list that grows at its tail and shrinks at its head. */
module Queue {
  import opened LinkedList
  import opened Wrappers

  method Enqueue<T>(queue: List<T>, data: T)
    requires queue.Valid()
    modifies queue, queue.tail
    ensures queue.Valid()
    ensures queue.Contents() == old(queue.Contents()) + [data]
    ensures forall i :: 0 <= i < |queue.spine| ==> queue.spine[i] in old(queue.spine) || fresh(queue.spine[i])
  {
    ghost var values := queue.Contents();
    ghost var k := queue.InsNext(queue.tail, data);
    // only the last node is the tail
    assert k == |values|;
    assert values[..k] == values && values[k..] == [];
  }

  method Dequeue<T>(queue: List<T>) returns (status: int, data: Option<T>)
    requires queue.Valid()
    modifies queue
    ensures queue.Valid()
    ensures status == if old(queue.Contents()) == [] then -1 else 0
    ensures status == 0 ==> data == Some(old(queue.Contents())[0]) && queue.Contents() == old(queue.Contents())[1..]
    ensures status != 0 ==> data == None && queue.Contents() == []
    ensures forall i :: 0 <= i < |queue.spine| ==> queue.spine[i] in old(queue.spine)
  {
    ghost var k;
    status, data, k := queue.RemNext(null);
  }

  function Peek<T>(queue: List<T>): (first: Option<T>)
    requires queue.Valid()
    reads queue, queue.spine
    ensures first == if queue.Contents() == [] then None else Some(queue.Contents()[0])
  {
    if queue.head == null then None else Some(queue.head.data)
  }

  // ----- first in, first out, over every run

  datatype Step<T> = In(data: T) | Out

  function Put<T>(steps: seq<Step<T>>): seq<T> {
    if steps == [] then []
    else match steps[0]
      case In(data) => [data] + Put(steps[1..])
      case Out => Put(steps[1..])
  }

  function Outs<T>(steps: seq<Step<T>>): nat {
    if steps == [] then 0 else (if steps[0].Out? then 1 else 0) + Outs(steps[1..])
  }

  /** How many of the removals find something in a queue that has n elements at first. */
  function Served<T>(n: nat, steps: seq<Step<T>>): nat
    decreases |steps|
  {
    if steps == [] then 0
    else if steps[0].In? then Served(n + 1, steps[1..])
    else if n == 0 then Served(0, steps[1..])
    else 1 + Served(n - 1, steps[1..])
  }

  lemma {:induction false} LastStep<T>(steps: seq<Step<T>>, last: Step<T>)
    ensures Put(steps + [last]) == Put(steps) + if last.In? then [last.data] else []
    ensures Outs(steps + [last]) == Outs(steps) + if last.Out? then 1 else 0
  {
    if steps == [] {
      assert [last][1..] == [];
    } else {
      assert (steps + [last])[1..] == steps[1..] + [last];
      LastStep(steps[1..], last);
    }
  }

  lemma FirstStep<T>(steps: seq<Step<T>>, j: nat)
    requires 0 < j <= |steps|
    ensures |Put(steps[..j])| == |Put(steps[1..][..j - 1])| + if steps[0].In? then 1 else 0
    ensures Outs(steps[..j]) == Outs(steps[1..][..j - 1]) + if steps[0].Out? then 1 else 0
  {
    assert steps[..j][1..] == steps[1..][..j - 1];
  }

  /** By how much, after the first j steps, the removals exceed what was there and what was put in. */
  function Excess<T>(n: nat, steps: seq<Step<T>>, j: nat): int
    requires j <= |steps|
  {
    Outs(steps[..j]) - |Put(steps[..j])| - n
  }

  /** Removals are refused for want of elements only: as many as the greatest such excess, `worst` being where it
      is reached. */
  lemma {:induction false} Refused<T>(n: nat, steps: seq<Step<T>>) returns (worst: nat)
    ensures worst <= |steps| && Served(n, steps) <= Outs(steps)
    ensures forall j :: 0 <= j <= |steps| ==> Excess(n, steps, j) <= Outs(steps) - Served(n, steps)
    ensures Served(n, steps) == Outs(steps) || Excess(n, steps, worst) == Outs(steps) - Served(n, steps)
    decreases |steps|
  {
    worst := 0;
    if steps != [] {
      var n' := if steps[0].In? then n + 1 else if n == 0 then 0 else n - 1;
      var worst' := Refused(n', steps[1..]);
      var refused := Outs(steps) - Served(n, steps);
      worst := if Served(n', steps[1..]) == Outs(steps[1..]) then 1 else worst' + 1;
      forall j | 0 <= j <= |steps| ensures Excess(n, steps, j) <= refused {
        if j > 0 {
          FirstStep(steps, j);
          assert Excess(n', steps[1..], j - 1) <= Outs(steps[1..]) - Served(n', steps[1..]);
        }
      }
      FirstStep(steps, worst);
    }
  }

  /** Performs the steps one after the other and gathers what the successful removals hand out. */
  method Run<T>(queue: List<T>, steps: seq<Step<T>>) returns (taken: seq<T>)
    requires queue.Valid()
    modifies queue, queue.spine
    ensures queue.Valid()
    ensures old(queue.Contents()) + Put(steps) == taken + queue.Contents()
    ensures |taken| == Served(|old(queue.Contents())|, steps)
    decreases |steps|
  {
    hide *;
    taken := [];
    ghost var before := queue.Contents();
    RunSteps(|before|, steps);
    if steps != [] {
      match steps[0] {
        case In(data) =>
          queue.Ends();
          Enqueue(queue, data);
          taken := Run(queue, steps[1..]);
          PutLater(before, data, Put(steps[1..]));
        case Out =>
          var status, first := Dequeue(queue);
          taken := Run(queue, steps[1..]);
          if status == 0 {
            TakenEarlier(before, Put(steps[1..]), taken, queue.Contents());
            taken := [first.value] + taken;
          }
      }
    } else {
      assert before + [] == [] + before;
    }
  }

  lemma RunSteps<T>(n: nat, steps: seq<Step<T>>)
    ensures steps == [] ==> Put(steps) == [] && Served(n, steps) == 0
    ensures steps != [] && steps[0].In? ==>
      Put(steps) == [steps[0].data] + Put(steps[1..]) && Served(n, steps) == Served(n + 1, steps[1..])
    ensures steps != [] && steps[0].Out? ==>
      && Put(steps) == Put(steps[1..])
      && Served(n, steps) == if n == 0 then Served(0, steps[1..]) else 1 + Served(n - 1, steps[1..])
  {
  }

  lemma PutLater<T>(before: seq<T>, data: T, rest: seq<T>)
    ensures before + ([data] + rest) == (before + [data]) + rest
  {
  }

  lemma TakenEarlier<T>(before: seq<T>, put: seq<T>, taken: seq<T>, after: seq<T>)
    requires before != [] && before[1..] + put == taken + after
    ensures before + put == ([before[0]] + taken) + after
  {
    assert before + put == [before[0]] + (before[1..] + put);
    assert [before[0]] + (taken + after) == ([before[0]] + taken) + after;
  }
}
