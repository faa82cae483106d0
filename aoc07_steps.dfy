/** aoc_7: the sum of its parts. Each input pair says that one step must be
    finished before another can begin. `init_graph` turns the pairs into two
    adjacency maps (what a step blocks, what a step is blocked by) and the
    set of steps; `part1` then repeatedly finishes the alphabetically first
    ready step, releasing the steps it was the last blocker of. */
module StepOrder {
  import Orders

  type Edges = map<char, set<char>>

  /** The steps `a` blocks directly, according to the input pairs. */
  function BlockedIn(input: seq<(char, char)>, a: char): set<char>
  {
    set i | 0 <= i < |input| && input[i].0 == a :: input[i].1
  }

  /** The steps blocking `b` directly, according to the input pairs. */
  function BlockersIn(input: seq<(char, char)>, b: char): set<char>
  {
    set i | 0 <= i < |input| && input[i].1 == b :: input[i].0
  }

  function Firsts(input: seq<(char, char)>): set<char>
  {
    set i | 0 <= i < |input| :: input[i].0
  }

  function Seconds(input: seq<(char, char)>): set<char>
  {
    set i | 0 <= i < |input| :: input[i].1
  }

  /** What `init_graph` builds: `blocks` has a key for every step that
      blocks something, `blocked_by` one for every step that is blocked, and
      `nodes` is every step named in the input. */
  predicate GraphOf(input: seq<(char, char)>, blocks: Edges, blockedBy: Edges)
  {
    blocks.Keys == Firsts(input) && blockedBy.Keys == Seconds(input)
    && (forall a :: a in blocks ==> blocks[a] == BlockedIn(input, a))
    && (forall b :: b in blockedBy ==> blockedBy[b] == BlockersIn(input, b))
  }

  lemma PrefixStep(input: seq<(char, char)>, k: nat, c: char)
    requires k < |input|
    ensures BlockedIn(input[..k + 1], c)
      == BlockedIn(input[..k], c) + (if input[k].0 == c then {input[k].1} else {})
    ensures BlockersIn(input[..k + 1], c)
      == BlockersIn(input[..k], c) + (if input[k].1 == c then {input[k].0} else {})
    ensures Firsts(input[..k + 1]) == Firsts(input[..k]) + {input[k].0}
    ensures Seconds(input[..k + 1]) == Seconds(input[..k]) + {input[k].1}
  {
    var front, longer := input[..k], input[..k + 1];
    assert forall i :: 0 <= i < k ==> longer[i] == front[i];
    assert longer[k] == input[k];
  }

  lemma NotFirst(input: seq<(char, char)>, a: char)
    requires a !in Firsts(input)
    ensures BlockedIn(input, a) == {}
  {
  }

  lemma NotSecond(input: seq<(char, char)>, b: char)
    requires b !in Seconds(input)
    ensures BlockersIn(input, b) == {}
  {
  }

  /** `init_graph`: one pass over the pairs inserting into both maps, then
      the union of their keys. */
  method InitGraph(input: seq<(char, char)>) returns (blocks: Edges, blockedBy: Edges, nodes: set<char>)
    ensures GraphOf(input, blocks, blockedBy)
    ensures nodes == Firsts(input) + Seconds(input)
  {
    blocks, blockedBy := map[], map[];
    for k := 0 to |input|
      invariant GraphOf(input[..k], blocks, blockedBy)
    {
      var (blocker, blocked) := input[k];
      var front := input[..k];
      if blocker !in blocks {
        NotFirst(front, blocker);
      }
      if blocked !in blockedBy {
        NotSecond(front, blocked);
      }
      blocks := blocks[blocker := (if blocker in blocks then blocks[blocker] else {}) + {blocked}];
      blockedBy := blockedBy[blocked := (if blocked in blockedBy then blockedBy[blocked] else {}) + {blocker}];
      forall c ensures BlockedIn(input[..k + 1], c) == BlockedIn(front, c) + (if blocker == c then {blocked} else {})
        && BlockersIn(input[..k + 1], c) == BlockersIn(front, c) + (if blocked == c then {blocker} else {})
      {
        PrefixStep(input, k, c);
      }
      PrefixStep(input, k, blocker);
    }
    assert input[..|input|] == input;
    nodes := blocks.Keys + blockedBy.Keys;
  }

  /** The maps `init_graph` builds mirror each other, name only steps of
      `nodes`, and hold no empty set. */
  predicate Consistent(blocks: Edges, blockedBy: Edges, nodes: set<char>)
  {
    blocks.Keys <= nodes && blockedBy.Keys <= nodes
    && (forall a :: a in blocks ==> blocks[a] != {} && blocks[a] <= nodes)
    && (forall b :: b in blockedBy ==> blockedBy[b] != {})
    && (forall a, b :: a in blocks && b in blocks[a] <==> b in blockedBy && a in blockedBy[b])
  }

  lemma GraphConsistent(input: seq<(char, char)>, blocks: Edges, blockedBy: Edges)
    requires GraphOf(input, blocks, blockedBy)
    ensures Consistent(blocks, blockedBy, Firsts(input) + Seconds(input))
  {
    var nodes := Firsts(input) + Seconds(input);
    forall a | a in blocks ensures blocks[a] != {} && blocks[a] <= nodes {
      var i :| 0 <= i < |input| && input[i].0 == a;
      assert input[i].1 in blocks[a];
    }
    forall b | b in blockedBy ensures blockedBy[b] != {} {
      var i :| 0 <= i < |input| && input[i].1 == b;
      assert input[i].0 in blockedBy[b];
    }
    forall a, b ensures a in blocks && b in blocks[a] <==> b in blockedBy && a in blockedBy[b] {
      if a in blocks && b in blocks[a] {
        var i :| 0 <= i < |input| && input[i].0 == a && input[i].1 == b;
        assert input[i].1 in Seconds(input);
      }
      if b in blockedBy && a in blockedBy[b] {
        var i :| 0 <= i < |input| && input[i].1 == b && input[i].0 == a;
        assert input[i].0 in Firsts(input);
      }
    }
  }


  /** The direct blockers of `n` recorded in `blocked_by`. */
  function Blockers(blockedBy: Edges, n: char): set<char>
  {
    if n in blockedBy then blockedBy[n] else {}
  }

  /** The steps `node` blocks directly (none when it has no entry). */
  function Targets(blocks: Edges, node: char): set<char>
  {
    if node in blocks then blocks[node] else {}
  }

  /** `find_ready`: the steps without blockers (no entry, or an empty one). */
  function FindReady(blockedBy: Edges, nodes: set<char>): (r: set<char>)
    ensures r <= nodes
    ensures forall n :: n in nodes ==> (n in r <==> Blockers(blockedBy, n) == {})
  {
    set n | n in nodes && (n !in blockedBy || |blockedBy[n]| == 0)
  }

  /** The steps ready once the steps of `finished` are done: all their
      blockers are done and they are not done themselves. */
  function Ready(blockedBy: Edges, nodes: set<char>, finished: set<char>): set<char>
  {
    set n | n in nodes && Blockers(blockedBy, n) <= finished && n !in finished
  }

  /** The blocker sets still outstanding once `finished` are done: steps
      with no outstanding blocker have no entry. */
  function Pending(blockedBy: Edges, nodes: set<char>, finished: set<char>): Edges
  {
    map n | n in nodes && Blockers(blockedBy, n) - finished != {} :: Blockers(blockedBy, n) - finished
  }

  /** Before any step is done, `find_ready` yields exactly the ready
      steps ... */
  lemma FindReadyInitial(blockedBy: Edges, nodes: set<char>)
    ensures FindReady(blockedBy, nodes) == Ready(blockedBy, nodes, {})
  {
  }

  /** ... and `blocked_by` holds exactly the outstanding blockers. */
  lemma PendingInitial(blocks: Edges, blockedBy: Edges, nodes: set<char>)
    requires Consistent(blocks, blockedBy, nodes)
    ensures Pending(blockedBy, nodes, {}) == blockedBy
  {
    var p := Pending(blockedBy, nodes, {});
    forall n ensures n in p <==> n in blockedBy {
      assert Blockers(blockedBy, n) - {} == Blockers(blockedBy, n);
    }
    assert p.Keys == blockedBy.Keys;
    forall n | n in p ensures p[n] == blockedBy[n] {
      assert Blockers(blockedBy, n) - {} == Blockers(blockedBy, n);
    }
  }

  /** What `finish_procesing` leaves of `blocked_by`: the steps of
      `targets` lose `node` from their entry, and an entry left empty is
      removed. */
  function Release(blockedBy: Edges, node: char, targets: set<char>): Edges
  {
    map n | n in blockedBy && !(n in targets && blockedBy[n] - {node} == {})
      :: if n in targets then blockedBy[n] - {node} else blockedBy[n]
  }

  /** The steps `finish_procesing` adds to `ready`: those of `targets`
      without an entry or whose entry it empties. */
  function Freed(blockedBy: Edges, node: char, targets: set<char>): set<char>
  {
    set n | n in targets && (n !in blockedBy || blockedBy[n] - {node} == {})
  }

  lemma ReleaseAdd(blockedBy: Edges, node: char, handled: set<char>, n: char)
    requires n !in handled
    ensures n in Release(blockedBy, node, handled) <==> n in blockedBy
    ensures n in blockedBy ==> Release(blockedBy, node, handled)[n] == blockedBy[n]
    ensures Release(blockedBy, node, handled + {n}) ==
      if n !in blockedBy then Release(blockedBy, node, handled)
      else if blockedBy[n] - {node} == {} then Release(blockedBy, node, handled) - {n}
      else Release(blockedBy, node, handled)[n := blockedBy[n] - {node}]
    ensures Freed(blockedBy, node, handled + {n}) ==
      Freed(blockedBy, node, handled) + (if n !in blockedBy || blockedBy[n] - {node} == {} then {n} else {})
  {
  }

  /** `finish_procesing`: every step `node` blocks loses `node` from its
      blocker set; a step left without blockers (or without an entry at
      all) becomes ready and loses its entry. */
  method FinishProcessing(node: char, blocks: Edges, blockedBy: Edges, ready: set<char>)
    returns (blockedBy': Edges, ready': set<char>)
    ensures blockedBy' == Release(blockedBy, node, Targets(blocks, node))
    ensures ready' == ready + Freed(blockedBy, node, Targets(blocks, node))
  {
    var targets := Targets(blocks, node);
    var handled := {};
    blockedBy', ready' := blockedBy, ready;
    ReleaseNothing(blockedBy, node);
    while handled != targets
      invariant handled <= targets
      invariant blockedBy' == Release(blockedBy, node, handled)
      invariant ready' == ready + Freed(blockedBy, node, handled)
      decreases |targets - handled|
    {
      var n :| n in targets - handled;
      blockedBy', ready' := ReleaseOne(node, n, blockedBy, handled, blockedBy', ready, ready');
      handled := handled + {n};
    }
  }

  lemma ReleaseNothing(blockedBy: Edges, node: char)
    ensures Release(blockedBy, node, {}) == blockedBy
    ensures Freed(blockedBy, node, {}) == {}
  {
    var r := Release(blockedBy, node, {});
    assert r.Keys == blockedBy.Keys;
  }

  /** One iteration of the loop of `finish_procesing`, for the blocked step
      `n`. */
  method ReleaseOne(node: char, n: char, ghost blockedBy: Edges, ghost handled: set<char>,
                    current: Edges, ghost ready: set<char>, ready': set<char>)
    returns (next: Edges, nextReady: set<char>)
    requires n !in handled
    requires current == Release(blockedBy, node, handled)
    requires ready' == ready + Freed(blockedBy, node, handled)
    ensures next == Release(blockedBy, node, handled + {n})
    ensures nextReady == ready + Freed(blockedBy, node, handled + {n})
  {
    ReleaseAdd(blockedBy, node, handled, n);
    if n in current {
      var rest := current[n] - {node};
      if |rest| == 0 {
        nextReady := ready' + {n};
        next := current - {n};
      } else {
        nextReady := ready';
        next := current[n := rest];
      }
    } else {
      nextReady := ready' + {n};
      next := current;
    }
  }

  /** Every step done had all its blockers done first. */
  predicate Closed(blockedBy: Edges, finished: set<char>)
  {
    forall n :: n in finished ==> Blockers(blockedBy, n) <= finished
  }

  /** Finishing a ready step releases exactly the blockers it accounted
      for: the new `blocked_by` holds the outstanding blockers ... */
  lemma ReleaseStep(blocks: Edges, blockedBy: Edges, nodes: set<char>, finished: set<char>, current: char)
    requires Consistent(blocks, blockedBy, nodes)
    requires current in Ready(blockedBy, nodes, finished)
    ensures Release(Pending(blockedBy, nodes, finished), current, Targets(blocks, current))
      == Pending(blockedBy, nodes, finished + {current})
  {
    var targets := Targets(blocks, current);
    forall n ensures n in targets <==> current in Blockers(blockedBy, n) {
    }
    ReleasePending(blockedBy, nodes, finished, current, targets);
  }

  lemma ReleasePending(blockedBy: Edges, nodes: set<char>, finished: set<char>, current: char, targets: set<char>)
    requires current !in finished
    requires targets <= nodes
    requires forall n :: n in targets <==> current in Blockers(blockedBy, n)
    ensures Release(Pending(blockedBy, nodes, finished), current, targets)
      == Pending(blockedBy, nodes, finished + {current})
  {
    var before, after := Pending(blockedBy, nodes, finished), Pending(blockedBy, nodes, finished + {current});
    var released := Release(before, current, targets);
    forall n ensures n in released <==> n in after {
      if n in targets {
        assert current in Blockers(blockedBy, n) - finished;
      }
    }
    assert released.Keys == after.Keys;
    forall n | n in released ensures released[n] == after[n] {
    }
  }

  /** ... and `ready` becomes the steps ready after it. */
  lemma FreedStep(blocks: Edges, blockedBy: Edges, nodes: set<char>, finished: set<char>, current: char)
    requires Consistent(blocks, blockedBy, nodes)
    requires Closed(blockedBy, finished)
    requires current in Ready(blockedBy, nodes, finished)
    ensures (Ready(blockedBy, nodes, finished) - {current})
      + Freed(Pending(blockedBy, nodes, finished), current, Targets(blocks, current))
      == Ready(blockedBy, nodes, finished + {current})
  {
    var targets := Targets(blocks, current);
    forall n ensures n in targets <==> current in Blockers(blockedBy, n) {
    }
  }

  function Elements(s: seq<char>): set<char>
  {
    set i | 0 <= i < |s| :: s[i]
  }

  /** Each step of `order` is the smallest of those ready after the steps
      before it. */
  predicate Greedy(blockedBy: Edges, nodes: set<char>, order: seq<char>)
  {
    forall i :: 0 <= i < |order| ==>
      order[i] in Ready(blockedBy, nodes, Elements(order[..i]))
      && forall x :: x in Ready(blockedBy, nodes, Elements(order[..i])) ==> order[i] <= x
  }

  lemma GreedyExtend(blockedBy: Edges, nodes: set<char>, order: seq<char>, current: char)
    requires Greedy(blockedBy, nodes, order)
    requires current in Ready(blockedBy, nodes, Elements(order))
    requires forall x :: x in Ready(blockedBy, nodes, Elements(order)) ==> current <= x
    ensures Greedy(blockedBy, nodes, order + [current])
    ensures Elements(order + [current]) == Elements(order) + {current}
  {
    var s := order + [current];
    assert s[..|order|] == order;
    forall i | 0 <= i < |order| ensures s[..i] == order[..i] {
    }
    assert forall i :: 0 <= i < |order| ==> s[i] == order[i];
    assert s[|order|] == current;
  }

  /** `ready.iter().min()`. */
  method Smallest(s: set<char>) returns (m: char)
    requires s != {}
    ensures m in s && forall x :: x in s ==> m <= x
  {
    var least := Orders.Minimum(s, (a: char, b: char) => a <= b);
    m :| m in s && forall x :: x in s ==> m <= x;
  }

  /** One round of `part1`: take the smallest ready step, finish it. */
  method Round(blocks: Edges, blockedBy0: Edges, nodes: set<char>, ghost finished: set<char>,
               blockedBy: Edges, ready: set<char>)
    returns (current: char, blockedBy': Edges, ready': set<char>)
    requires Consistent(blocks, blockedBy0, nodes) && Closed(blockedBy0, finished)
    requires blockedBy == Pending(blockedBy0, nodes, finished)
    requires ready == Ready(blockedBy0, nodes, finished) && ready != {}
    ensures current in ready && forall x :: x in ready ==> current <= x
    ensures blockedBy' == Pending(blockedBy0, nodes, finished + {current})
    ensures ready' == Ready(blockedBy0, nodes, finished + {current})
    ensures Closed(blockedBy0, finished + {current})
  {
    current := Smallest(ready);
    blockedBy', ready' := FinishProcessing(current, blocks, blockedBy, ready - {current});
    ReleaseStep(blocks, blockedBy0, nodes, finished, current);
    FreedStep(blocks, blockedBy0, nodes, finished, current);
  }

  /** `part1`: starting from `find_ready`, repeatedly finish the smallest
      ready step. The order is greedy, lists each step at most once, and
      when it stops nothing is ready. */
  method Part1(blocks: Edges, blockedBy: Edges, nodes: set<char>) returns (result: seq<char>)
    requires Consistent(blocks, blockedBy, nodes)
    ensures Greedy(blockedBy, nodes, result)
    ensures Ready(blockedBy, nodes, Elements(result)) == {}
    ensures Elements(result) <= nodes
  {
    var remaining := blockedBy;
    var ready := FindReady(blockedBy, nodes);
    FindReadyInitial(blockedBy, nodes);
    PendingInitial(blocks, blockedBy, nodes);
    result := [];
    assert Elements([]) == {};
    while ready != {}
      invariant Closed(blockedBy, Elements(result)) && Elements(result) <= nodes
      invariant remaining == Pending(blockedBy, nodes, Elements(result))
      invariant ready == Ready(blockedBy, nodes, Elements(result))
      invariant Greedy(blockedBy, nodes, result)
      decreases |nodes - Elements(result)|
    {
      var current;
      ghost var finished := Elements(result);
      current, remaining, ready := Round(blocks, blockedBy, nodes, finished, remaining, ready);
      GreedyExtend(blockedBy, nodes, result, current);
      assert nodes - (finished + {current}) < nodes - finished;
      result := result + [current];
    }
  }

  /** No step is listed twice in a greedy order. */
  lemma GreedyDistinct(blockedBy: Edges, nodes: set<char>, order: seq<char>)
    requires Greedy(blockedBy, nodes, order)
    ensures forall i, j :: 0 <= i < j < |order| ==> order[i] != order[j]
  {
    forall i, j | 0 <= i < j < |order| ensures order[i] != order[j] {
      assert order[..j][i] == order[i];
      assert order[i] in Elements(order[..j]);
    }
  }

  /** `order` lists every step, each after all of its blockers. */
  predicate TopologicalOrder(blockedBy: Edges, nodes: set<char>, order: seq<char>)
  {
    Elements(order) == nodes
    && forall i :: 0 <= i < |order| ==> Blockers(blockedBy, order[i]) <= Elements(order[..i])
  }

  /** On acyclic input (one with some topological order) some step is
      ready as long as one is not done, so `part1` lists every step. */
  lemma ReadyWhileUnfinished(blockedBy: Edges, nodes: set<char>, finished: set<char>, order: seq<char>)
    requires TopologicalOrder(blockedBy, nodes, order)
    requires !(nodes <= finished)
    ensures Ready(blockedBy, nodes, finished) != {}
  {
    var i := FirstMissing(order, finished);
    assert Elements(order[..i]) <= finished by {
      forall x | x in Elements(order[..i]) ensures x in finished {
        var j :| 0 <= j < i && order[..i][j] == x;
        assert order[j] == x;
      }
    }
    assert order[i] in Ready(blockedBy, nodes, finished);
  }

  /** The first position of `order` whose step is not in `finished`. */
  lemma FirstMissing(order: seq<char>, finished: set<char>) returns (i: nat)
    requires !(Elements(order) <= finished)
    ensures i < |order| && order[i] !in finished
    ensures forall j :: 0 <= j < i ==> order[j] in finished
  {
    var x :| x in Elements(order) && x !in finished;
    var k :| 0 <= k < |order| && order[k] == x;
    i := 0;
    while order[i] in finished
      invariant i <= k
      invariant forall j :: 0 <= j < i ==> order[j] in finished
      decreases k - i
    {
      i := i + 1;
    }
  }
}
