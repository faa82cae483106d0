/** aoc_8: memory maneuver. The licence file is a flat list of numbers
    encoding a tree: a node is its child count, its metadata count, its
    children, then its metadata entries. `build_tree` reads it through a
    shared iterator, modelled here as a position into the list that every
    read advances. */
module LicenceTree {
  import opened Wrappers
  import opened Seqs

  datatype TreeNode = TreeNode(children: seq<TreeNode>, metadata: seq<nat>)

  /** The encoding a node is read from: header, children, metadata. */
  function Serialize(t: TreeNode): seq<nat>
    decreases t
  {
    [|t.children|, |t.metadata|] + SerializeAll(t.children) + t.metadata
  }

  function SerializeAll(cs: seq<TreeNode>): seq<nat>
    decreases cs
  {
    if cs == [] then [] else Serialize(cs[0]) + SerializeAll(cs[1..])
  }

  /** `build_tree` from position `pos`: the node and the position after it,
      or None when one of the `unwrap`s meets the end of the input. */
  function ParseNode(input: seq<nat>, pos: nat): (r: Option<(TreeNode, nat)>)
    requires pos <= |input|
    ensures r.Some? ==> pos + 2 <= r.value.1 <= |input|
    ensures r.Some? ==> |r.value.0.children| == input[pos] && |r.value.0.metadata| == input[pos + 1]
    decreases |input| - pos, 0, 0
  {
    if pos + 2 > |input| then None
    else
      var numChildren, numMetadata := input[pos], input[pos + 1];
      var children := ParseChildren(input, pos + 2, numChildren);
      if children.None? || children.value.1 + numMetadata > |input| then None
      else
        var p := children.value.1;
        Some((TreeNode(children.value.0, input[p..p + numMetadata]), p + numMetadata))
  }

  /** The loop reading `count` children one after the other. */
  function ParseChildren(input: seq<nat>, pos: nat, count: nat): (r: Option<(seq<TreeNode>, nat)>)
    requires pos <= |input|
    ensures r.Some? ==> pos <= r.value.1 <= |input| && |r.value.0| == count
    decreases |input| - pos, 1, count
  {
    if count == 0 then Some(([], pos))
    else
      var child := ParseNode(input, pos);
      if child.None? then None
      else
        var rest := ParseChildren(input, child.value.1, count - 1);
        if rest.None? then None
        else Some(([child.value.0] + rest.value.0, rest.value.1))
  }

  /** The children read so far in front of the outcome of reading the rest. */
  function Prepend(done: seq<TreeNode>, rest: Option<(seq<TreeNode>, nat)>): Option<(seq<TreeNode>, nat)>
  {
    match rest
    case None => None
    case Some((cs, p)) => Some((done + cs, p))
  }

  lemma PrependNone(rest: Option<(seq<TreeNode>, nat)>)
    ensures Prepend([], rest) == rest
  {
    if rest.Some? {
      assert [] + rest.value.0 == rest.value.0;
    }
  }

  /** Reading one more child moves it from the outstanding children to the
      ones read. */
  lemma PrependStep(done: seq<TreeNode>, input: seq<nat>, pos: nat, count: nat)
    requires pos <= |input| && count > 0 && ParseNode(input, pos).Some?
    ensures var p := ParseNode(input, pos).value.1;
      Prepend(done, ParseChildren(input, pos, count))
        == Prepend(done + [ParseNode(input, pos).value.0], ParseChildren(input, p, count - 1))
  {
    var child := ParseNode(input, pos).value.0;
    var rest := ParseChildren(input, ParseNode(input, pos).value.1, count - 1);
    if rest.Some? {
      assert done + ([child] + rest.value.0) == done + [child] + rest.value.0;
    }
  }

  /** `build_tree`: reads the header, the children (recursively) and the
      metadata, advancing the position with every read. */
  method BuildTree(input: seq<nat>, pos: nat) returns (r: Option<(TreeNode, nat)>)
    requires pos <= |input|
    ensures r == ParseNode(input, pos)
    decreases |input| - pos, 0
  {
    if pos + 2 > |input| {
      return None;
    }
    var numChildren, numMetadata := input[pos], input[pos + 1];
    var children := ReadChildren(input, pos + 2, numChildren);
    if children.None? {
      return None;
    }
    var metadata := ReadMetadata(input, children.value.1, numMetadata);
    if metadata.None? {
      return None;
    }
    return Some((TreeNode(children.value.0, metadata.value), children.value.1 + numMetadata));
  }

  /** The first loop of `build_tree`: `count` children, each pushed after
      the ones before it. */
  method ReadChildren(input: seq<nat>, pos: nat, count: nat) returns (r: Option<(seq<TreeNode>, nat)>)
    requires pos <= |input|
    ensures r == ParseChildren(input, pos, count)
    decreases |input| - pos, 1
  {
    var current := pos;
    var children: seq<TreeNode> := [];
    PrependNone(ParseChildren(input, current, count));
    for i := 0 to count
      invariant pos <= current <= |input| && |children| == i
      invariant ParseChildren(input, pos, count) == Prepend(children, ParseChildren(input, current, count - i))
    {
      var child := BuildTree(input, current);
      if child.None? {
        return None;
      }
      PrependStep(children, input, current, count - i);
      children := children + [child.value.0];
      current := child.value.1;
    }
    assert children + [] == children;
    return Some((children, current));
  }

  /** The second loop of `build_tree`: `count` metadata entries, each read
      with an `unwrap`. */
  method ReadMetadata(input: seq<nat>, start: nat, count: nat) returns (r: Option<seq<nat>>)
    requires start <= |input|
    ensures r.Some? <==> start + count <= |input|
    ensures r.Some? ==> r.value == input[start..start + count]
  {
    var current := start;
    var metadata: seq<nat> := [];
    for i := 0 to count
      invariant current == start + i <= |input| && metadata == input[start..current]
    {
      if current >= |input| {
        return None;
      }
      metadata := metadata + [input[current]];
      current := current + 1;
    }
    return Some(metadata);
  }

  /** The input, from `pos` on, agrees with `s` as far as both go. */
  predicate Agrees(input: seq<nat>, pos: nat, s: seq<nat>)
  {
    forall i :: 0 <= i < |s| && pos + i < |input| ==> input[pos + i] == s[i]
  }

  lemma AgreesSplit(input: seq<nat>, pos: nat, a: seq<nat>, b: seq<nat>)
    requires Agrees(input, pos, a + b)
    ensures Agrees(input, pos, a) && Agrees(input, pos + |a|, b)
  {
    forall i | 0 <= i < |a| && pos + i < |input|
      ensures input[pos + i] == a[i]
    {
      assert (a + b)[i] == a[i];
    }
    forall i | 0 <= i < |b| && pos + |a| + i < |input|
      ensures input[pos + |a| + i] == b[i]
    {
      assert (a + b)[|a| + i] == b[i];
    }
  }

  /** Reading back an encoded node gives the node and the position just
      after its encoding, whatever follows it. */
  lemma {:induction false} ParseSerialize(t: TreeNode, input: seq<nat>, pos: nat)
    requires pos + |Serialize(t)| <= |input| && Agrees(input, pos, Serialize(t))
    ensures ParseNode(input, pos) == Some((t, pos + |Serialize(t)|))
    decreases t, 1
  {
    var header, kids := [|t.children|, |t.metadata|], SerializeAll(t.children);
    AgreesSplit(input, pos, header + kids, t.metadata);
    AgreesSplit(input, pos, header, kids);
    assert input[pos] == header[0] && input[pos + 1] == header[1];
    ParseSerializeAll(t.children, input, pos + 2);
    var p := pos + 2 + |kids|;
    assert input[p..p + |t.metadata|] == t.metadata;
    ParseNodeOf(input, pos, t.children, t.metadata, p);
  }

  /** A header, children read up to `p` and the metadata after them make
      one node. */
  lemma ParseNodeOf(input: seq<nat>, pos: nat, cs: seq<TreeNode>, md: seq<nat>, p: nat)
    requires pos + 2 <= |input| && input[pos] == |cs| && input[pos + 1] == |md|
    requires ParseChildren(input, pos + 2, |cs|) == Some((cs, p))
    requires p + |md| <= |input| && input[p..p + |md|] == md
    ensures ParseNode(input, pos) == Some((TreeNode(cs, md), p + |md|))
  {
  }

  lemma {:induction false} ParseSerializeAll(cs: seq<TreeNode>, input: seq<nat>, pos: nat)
    requires pos + |SerializeAll(cs)| <= |input| && Agrees(input, pos, SerializeAll(cs))
    ensures ParseChildren(input, pos, |cs|) == Some((cs, pos + |SerializeAll(cs)|))
    decreases cs, 0
  {
    if cs != [] {
      var first, rest := Serialize(cs[0]), SerializeAll(cs[1..]);
      AgreesSplit(input, pos, first, rest);
      assert SerializeAll(cs) == first + rest;
      ParseSerialize(cs[0], input, pos);
      var tail := cs[1..];
      ParseSerializeAll(tail, input, pos + |first|);
      assert [cs[0]] + tail == cs;
    }
  }

  /** The round trip on a whole licence file. */
  lemma BuildTreeSerialize(t: TreeNode)
    ensures ParseNode(Serialize(t), 0) == Some((t, |Serialize(t)|))
  {
    ParseSerialize(t, Serialize(t), 0);
  }

  /** A licence file cut short anywhere inside a node's encoding makes
      `build_tree` panic. */
  lemma {:induction false} ParseTruncated(t: TreeNode, input: seq<nat>, pos: nat)
    requires pos <= |input| < pos + |Serialize(t)| && Agrees(input, pos, Serialize(t))
    ensures ParseNode(input, pos).None?
    decreases t, 1
  {
    var header, kids := [|t.children|, |t.metadata|], SerializeAll(t.children);
    AgreesSplit(input, pos, header + kids, t.metadata);
    AgreesSplit(input, pos, header, kids);
    if pos + 2 <= |input| {
      assert input[pos] == header[0] && input[pos + 1] == header[1];
      if |input| < pos + 2 + |kids| {
        ParseTruncatedAll(t.children, input, pos + 2);
      } else {
        ParseSerializeAll(t.children, input, pos + 2);
      }
    }
  }

  lemma {:induction false} ParseTruncatedAll(cs: seq<TreeNode>, input: seq<nat>, pos: nat)
    requires pos <= |input| < pos + |SerializeAll(cs)| && Agrees(input, pos, SerializeAll(cs))
    ensures ParseChildren(input, pos, |cs|).None?
    decreases cs, 0
  {
    var first, rest := Serialize(cs[0]), SerializeAll(cs[1..]);
    AgreesSplit(input, pos, first, rest);
    if |input| < pos + |first| {
      ParseTruncated(cs[0], input, pos);
    } else {
      ParseSerialize(cs[0], input, pos);
      ParseTruncatedAll(cs[1..], input, pos + |first|);
    }
  }

  /** Part one: `traverse` adds the metadata of the node and, recursively,
      of its children. */
  function Traverse(t: TreeNode): (r: int)
    ensures 0 <= Sum(t.metadata) <= r
    ensures t.children == [] ==> r == Sum(t.metadata)
    decreases t
  {
    SumNat(t.metadata);
    TraverseAll(t.children) + Sum(t.metadata)
  }

  function TraverseAll(cs: seq<TreeNode>): (r: int)
    ensures r >= 0
    decreases cs
  {
    if cs == [] then 0 else Traverse(cs[0]) + TraverseAll(cs[1..])
  }

  /** Every metadata entry of the tree, in the order the file lists them. */
  function AllMetadata(t: TreeNode): seq<nat>
    decreases t
  {
    AllMetadataOf(t.children) + t.metadata
  }

  function AllMetadataOf(cs: seq<TreeNode>): seq<nat>
    decreases cs
  {
    if cs == [] then [] else AllMetadata(cs[0]) + AllMetadataOf(cs[1..])
  }

  /** `traverse` is the sum of all metadata entries in the tree. */
  lemma {:induction false} TraverseSumsMetadata(t: TreeNode)
    ensures Traverse(t) == Sum(AllMetadata(t))
    decreases t, 1
  {
    TraverseAllSums(t.children);
    SumAppend(AllMetadataOf(t.children), t.metadata);
  }

  lemma {:induction false} TraverseAllSums(cs: seq<TreeNode>)
    ensures TraverseAll(cs) == Sum(AllMetadataOf(cs))
    decreases cs, 0
  {
    if cs != [] {
      TraverseSumsMetadata(cs[0]);
      TraverseAllSums(cs[1..]);
      SumAppend(AllMetadata(cs[0]), AllMetadataOf(cs[1..]));
    }
  }

  /** Part two: `traverse2`. A leaf is worth the sum of its metadata; an
      internal node sums the values of the children its metadata entries
      name, counting from 1, entries past the last child adding nothing. An
      entry 0 makes `idx - 1` underflow, a panic: None. */
  function Traverse2(t: TreeNode): (r: Option<int>)
    ensures r.Some? ==> r.value >= 0
    ensures t.children == [] ==> r == Some(Sum(t.metadata))
    decreases t, 1
  {
    SumNat(t.metadata);
    if t.children == [] then Some(Sum(t.metadata))
    else IndexedSum(t, t.metadata)
  }

  /** The values of the children named by `indices`, summed. */
  function IndexedSum(t: TreeNode, indices: seq<nat>): (r: Option<int>)
    requires forall i :: 0 <= i < |indices| ==> indices[i] in t.metadata
    ensures r.Some? ==> r.value >= 0
    decreases t, 0, |indices|
  {
    if indices == [] then Some(0)
    else
      var idx := indices[|indices| - 1];
      match IndexedSum(t, indices[..|indices| - 1])
      case None => None
      case Some(front) =>
        if idx == 0 then None
        else if idx > |t.children| then Some(front)
        else
          match Traverse2(t.children[idx - 1])
          case None => None
          case Some(v) => Some(front + v)
  }

  /** Some internal node that `traverse2` visits has a metadata entry 0. */
  predicate Underflows(t: TreeNode)
    decreases t
  {
    t.children != []
    && (0 in t.metadata
        || exists i :: 0 <= i < |t.metadata| && 1 <= t.metadata[i] <= |t.children|
             && Underflows(t.children[t.metadata[i] - 1]))
  }

  /** `traverse2` panics exactly when a visited internal node names child 0. */
  lemma {:induction false} Traverse2Panics(t: TreeNode)
    ensures Traverse2(t).None? <==> Underflows(t)
    decreases t, 1
  {
    if t.children != [] {
      IndexedSumPanics(t, t.metadata);
      assert t.metadata[..|t.metadata|] == t.metadata;
    }
  }

  lemma {:induction false} IndexedSumPanics(t: TreeNode, indices: seq<nat>)
    requires t.children != []
    requires forall i :: 0 <= i < |indices| ==> indices[i] in t.metadata
    ensures IndexedSum(t, indices).None? <==>
      (0 in indices || exists i :: 0 <= i < |indices| && 1 <= indices[i] <= |t.children|
                         && Underflows(t.children[indices[i] - 1]))
    decreases t, 0, |indices|
  {
    if indices != [] {
      var n := |indices| - 1;
      var front := indices[..n];
      IndexedSumPanics(t, front);
      var idx := indices[n];
      if 1 <= idx <= |t.children| {
        Traverse2Panics(t.children[idx - 1]);
      }
      PanicsSplit(t, indices);
    }
  }

  /** A panic among `indices` is one among all but the last entry, or one
      at the last entry. */
  lemma PanicsSplit(t: TreeNode, indices: seq<nat>)
    requires indices != []
    ensures var n := |indices| - 1; var front, idx := indices[..n], indices[n];
      (0 in indices || exists i :: 0 <= i < |indices| && 1 <= indices[i] <= |t.children|
                         && Underflows(t.children[indices[i] - 1]))
      <==>
      (0 in front || exists i :: 0 <= i < |front| && 1 <= front[i] <= |t.children|
                       && Underflows(t.children[front[i] - 1]))
      || idx == 0 || (1 <= idx <= |t.children| && Underflows(t.children[idx - 1]))
  {
    var n := |indices| - 1;
    var front := indices[..n];
    assert indices == front + [indices[n]];
    if i :| 0 <= i < |indices| && 1 <= indices[i] <= |t.children| && Underflows(t.children[indices[i] - 1]) {
      if i < n {
        assert front[i] == indices[i];
      }
    }
  }

  /** A node whose metadata name no child is worth 0 when it has children. */
  lemma {:induction false} IndexedSumNoneNamed(t: TreeNode, indices: seq<nat>)
    requires forall i :: 0 <= i < |indices| ==> indices[i] in t.metadata
    requires forall i :: 0 <= i < |indices| ==> indices[i] > |t.children|
    ensures IndexedSum(t, indices) == Some(0)
    decreases |indices|
  {
    if indices != [] {
      IndexedSumNoneNamed(t, indices[..|indices| - 1]);
    }
  }
}
