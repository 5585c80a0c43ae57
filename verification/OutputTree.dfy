/**
 Report nodes as objects.  Appending to a list renames the appended node in place, so the
 name changes for everyone who holds that node.
 */
module OutputTree {
  import opened Sequences
  import opened NodeNames

  datatype Level = Safe | NoOpinion | Suspicious | Malicious {
    function Rank(): nat {
      match this
      case Safe => 0
      case NoOpinion => 1
      case Suspicious => 2
      case Malicious => 3
    }
  }

  datatype Kind = ListNode | StringNode | LevelNode | OtherNode

  class Node {
    var name: string
    const kind: Kind
    const hideName: bool
    var children: seq<Node>
    var level: Level
    var text: string

    constructor (name: string, kind: Kind, level: Level, text: string, hideName: bool)
      ensures this.name == name && this.kind == kind && this.level == level && this.text == text
      ensures this.hideName == hideName && children == []
    {
      this.name, this.kind, this.level, this.text, this.hideName := name, kind, level, text, hideName;
      children := [];
    }

    /** The names of the children, in order. */
    ghost function Names(): (names: seq<string>)
      reads this, children
      ensures |names| == |children|
      ensures forall i :: 0 <= i < |children| ==> names[i] == children[i].name
    {
      seq(|children|, i requires 0 <= i < |children| reads this, children => children[i].name)
    }

    /** append(pNode): scan the children once, rename on the way, then add at the end.  A node
        that is not a list ignores the call. */
    method Append(node: Node)
      modifies this`children, node`name
      ensures kind != ListNode ==> children == old(children) && node.name == old(node.name)
      ensures kind == ListNode ==> children == old(children) + [node]
      ensures kind == ListNode ==> node.name == NewName(old(Names()), old(node.name))
    {
      if kind != ListNode {
        return;
      }
      ghost var names := Names();
      var initialName := node.name;
      var i: nat, at := 1, 0;
      assert names[0..] == names;
      while at < |children|
        invariant 0 <= at <= |children| && i >= 1
        invariant Scan(Candidate, names, initialName, 1) == Scan(Candidate, names[at..], initialName, i)
      {
        assert names[at..][0] == children[at].name && names[at..][1..] == names[at + 1..];
        if children[at].name == Candidate(initialName, i) {
          i := i + 1;
        }
        at := at + 1;
      }
      if Candidate(initialName, i) != initialName {
        node.name := Candidate(initialName, i);
      }
      children := children + [node];
    }

    /** find_node: the first child of that name, if any. */
    method FindNode(name: string) returns (found: Node?)
      ensures kind != ListNode ==> found == null
      ensures kind == ListNode && found == null ==> forall c <- children :: c.name != name
      ensures found != null ==>
        exists i :: 0 <= i < |children| && children[i] == found && found.name == name
                    && forall j :: 0 <= j < i ==> children[j].name != name
      ensures kind == ListNode && Distinct(Names()) ==>
        forall i :: 0 <= i < |children| && children[i].name == name ==> found == children[i]
    {
      if kind != ListNode {
        return null;
      }
      assert Distinct(Names()) ==> forall i, j :: 0 <= i < j < |children| ==> Names()[i] != Names()[j];
      for i := 0 to |children|
        invariant forall j :: 0 <= j < i ==> children[j].name != name
      {
        if children[i].name == name {
          return children[i];
        }
      }
      return null;
    }

    /** clear: empties a list, and leaves any other node alone. */
    method Clear()
      modifies this`children
      ensures children == if kind == ListNode then [] else old(children)
    {
      if kind == ListNode {
        children := [];
      }
    }
  }

  /** The first `k` nodes have been appended; the others still bear their names in `bases`. */
  ghost predicate Appended(list: Node, nodes: seq<Node>, bases: seq<string>, k: nat)
    reads list, nodes
  {
    && k <= |nodes| == |bases| && list.children == nodes[..k]
    && list.Names() == AppendNames(bases[..k])
    && forall i :: k <= i < |nodes| ==> nodes[i].name == bases[i]
  }

  method AppendNext(list: Node, nodes: seq<Node>, ghost bases: seq<string>, k: nat)
    requires list.kind == ListNode && list !in nodes && Distinct(nodes)
    requires k < |nodes| && Appended(list, nodes, bases, k)
    modifies list`children, nodes`name
    ensures Appended(list, nodes, bases, k + 1)
  {
    ghost var before := list.Names();
    assert forall i :: 0 <= i < |nodes| && i != k ==> nodes[i] != nodes[k];
    assert forall i :: 0 <= i < k ==> before[i] == nodes[i].name;
    list.Append(nodes[k]);
    NamesGrow(before, list.Names(), NewName(before, bases[k]));
    NextName(bases, k);
  }

  /** Any run of appends of different nodes, called `bases`, to an empty list: the children are the
      nodes in order, and their names are the ones of `AppendNames`, which are distinct when the
      initial names are plain. */
  method AppendRun(list: Node, nodes: seq<Node>, ghost bases: seq<string>)
    requires list.kind == ListNode && list.children == [] && list !in nodes && Distinct(nodes)
    requires |bases| == |nodes| && forall i :: 0 <= i < |nodes| ==> nodes[i].name == bases[i]
    modifies list`children, nodes`name
    ensures list.children == nodes && list.Names() == AppendNames(bases)
    ensures AllPlain(bases) ==> Distinct(list.Names())
  {
    for k := 0 to |nodes|
      invariant Appended(list, nodes, bases, k)
    {
      AppendNext(list, nodes, bases, k);
    }
    assert bases[..|nodes|] == bases && nodes[..|nodes|] == nodes;
    if AllPlain(bases) {
      RunsKeepNamesDistinct(bases);
    }
  }

  lemma NamesGrow(before: seq<string>, after: seq<string>, name: string)
    requires |after| == |before| + 1 && after[|before|] == name
    requires forall i :: 0 <= i < |before| ==> after[i] == before[i]
    ensures after == before + [name]
  {
  }

  lemma NextName(bases: seq<string>, k: nat)
    requires k < |bases|
    ensures
      var before := AppendNames(bases[..k]);
      AppendNames(bases[..k + 1]) == before + [NewName(before, bases[k])]
  {
    assert bases[..k + 1][..k] == bases[..k];
  }
}
