/**
 A plugin's result: a list node holding one level node and one output node, and possibly a
 summary.  The level only rises, and merging another result joins the levels and appends
 the other's output nodes.
 */
module PluginResult {
  import opened Decimal
  import opened Sequences
  import opened NodeNames
  import opened OutputTree

  function Join(a: Level, b: Level): Level {
    if b.Rank() > a.Rank() then b else a
  }

  const LEVELS: seq<Level> := [Safe, NoOpinion, Suspicious, Malicious]

  /** Of two levels, the one that comes later in the row. */
  lemma JoinIsLater(i: nat, j: nat)
    requires i < 4 && j < 4
    ensures Join(LEVELS[i], LEVELS[j]) == LEVELS[if i < j then j else i]
  {
  }

  /** What a result amounts to: its level and its output nodes. */
  datatype View = View(level: Level, output: seq<Node>)

  /** What happens to a result over its life, merging another one being known by what that one has. */
  datatype Event = Raise(level: Level) | MergeFrom(other: View)

  function LevelOf(e: Event): Level {
    if e.Raise? then e.level else e.other.level
  }

  function OutputOf(e: Event): seq<Node> {
    if e.Raise? then [] else e.other.output
  }

  function After(v: View, e: Event): View {
    View(Join(v.level, LevelOf(e)), v.output + OutputOf(e))
  }

  class Result {
    const data: Node

    /** The level node first, the output node second, then at most a summary. */
    ghost predicate Valid()
      reads this, data, data.children
    {
      && data.kind == ListNode && 2 <= |data.children| <= 3
      && data.children[0].kind == LevelNode && data.children[0].name == "level"
      && data.children[1].kind == ListNode && data.children[1].name == "plugin_output"
      && (|data.children| == 3 ==> data.children[2].kind == StringNode && data.children[2].name == "summary"
                                   && data.children[2] != data)
      && data != data.children[1] && data != data.children[0]
    }

    /** The nodes that make up the result itself, as opposed to what plugins put in it. */
    ghost function Frame(): set<Node>
      reads this, data
    {
      {data} + set c | c in data.children
    }

    ghost function LevelHolder(): Node
      requires Valid()
      reads this, data, data.children
    {
      data.children[0]
    }

    ghost function LevelValue(): Level
      requires Valid()
      reads this, data, data.children
    {
      data.children[0].level
    }

    ghost function Output(): Node
      requires Valid()
      reads this, data, data.children
    {
      data.children[1]
    }

    ghost function Current(): View
      requires Valid()
      reads this, data, data.children
    {
      View(LevelValue(), Output().children)
    }

    constructor (pluginName: string)
      ensures Valid() && fresh(Frame()) && Current() == Run([])
    {
      data := new Node(pluginName, ListNode, Safe, "", false);
      new;
      var level := new Node("level", LevelNode, NoOpinion, "", false);
      var output := new Node("plugin_output", ListNode, Safe, "", false);
      UnusedNameIsKept([], "level");
      data.Append(level);
      assert data.Names() == ["level"] && |"level"| != |"plugin_output"|;
      UnusedNameIsKept(["level"], "plugin_output");
      data.Append(output);
      assert data.children == [level, output];
    }

    method GetLevel() returns (level: Level)
      requires Valid()
      ensures level == LevelValue()
    {
      var node := data.FindNode("level");
      assert data.children[0].name == "level";
      if node == null {
        return NoOpinion;
      }
      level := node.level;
    }

    method SetLevel(level: Level)
      requires Valid()
      modifies LevelHolder()`level
      ensures Valid() && LevelValue() == level
    {
      var node := data.FindNode("level");
      assert data.children[0].name == "level";
      if node != null {
        node.level := level;
      }
    }

    method RaiseLevel(level: Level)
      requires Valid()
      modifies LevelHolder()`level
      ensures Valid() && Current() == After(old(Current()), Raise(level))
    {
      var node := data.FindNode("level");
      assert data.children[0].name == "level";
      if node != null && level.Rank() > node.level.Rank() {
        node.level := level;
      }
    }

    method GetInformation() returns (output: Node)
      requires Valid()
      ensures output == Output()
    {
      var found := data.FindNode("plugin_output");
      assert data.children[1].name == "plugin_output";
      output := found;
    }

    /** set_summary: adds the summary node, or changes the text of the one that is there. */
    method SetSummary(s: string)
      requires Valid()
      modifies data`children, data.children`text
      ensures Valid() && |data.children| == 3 && data.children[2].text == s
      ensures data.children[..2] == old(data.children[..2])
      ensures LevelValue() == old(LevelValue()) && Output().children == old(Output().children)
    {
      var node := data.FindNode("summary");
      if node == null {
        var summary := new Node("summary", StringNode, Safe, s, false);
        UnusedNameIsKept(data.Names(), "summary");
        data.Append(summary);
      } else {
        node.text := s;
      }
    }

    /** add_information(pNode) */
    method AddNode(node: Node)
      requires Valid() && node !in Frame()
      modifies Output()`children, node`name
      ensures Valid() && Output().children == old(Output().children) + [node]
      ensures node.name == NewName(old(Output().Names()), old(node.name))
    {
      var output := GetInformation();
      output.Append(node);
    }

    /** add_information(T): the node is named after the number of nodes already there. */
    method AddInformation(text: string) returns (node: Node)
      requires Valid()
      modifies Output()`children
      ensures Valid() && fresh(node) && Output().children == old(Output().children) + [node]
      ensures node.name == NewName(old(Output().Names()), "info_" + Dec(|old(Output().children)|))
      ensures node.kind == StringNode && node.text == text && node.hideName
    {
      var output := GetInformation();
      node := new Node("info_" + Dec(|output.children|), StringNode, Safe, text, true);
      output.Append(node);
    }

    /** The loop of merge, over a snapshot of the other result's nodes. */
    method AddNodes(nodes: seq<Node>)
      requires Valid() && forall c <- nodes :: c !in Frame()
      modifies Output()`children, nodes`name
      ensures Valid() && Output() == old(Output()) && LevelValue() == old(LevelValue())
      ensures Output().children == old(Output().children) + nodes
    {
      ghost var frame := Frame();
      for k := 0 to |nodes|
        invariant Valid() && data.children == old(data.children) && Frame() == frame
        invariant LevelValue() == old(LevelValue())
        invariant Output().children == old(Output().children) + nodes[..k]
      {
        AddNode(nodes[k]);
        assert nodes[..k] + [nodes[k]] == nodes[..k + 1];
      }
      assert nodes[..|nodes|] == nodes;
    }

    /** merge: joins the levels and appends the other result's nodes, which may be renamed. */
    method Merge(other: Result)
      requires Valid() && other.Valid()
      requires other == this || Frame() !! other.Frame()
      requires forall c <- other.Output().children :: c !in Frame() && c !in other.Frame()
      modifies LevelHolder()`level, Output()`children, other.Output().children`name
      ensures Valid() && other.Valid() && Output() == old(Output())
      ensures Current() == After(old(Current()), MergeFrom(old(other.Current())))
    {
      var level := other.GetLevel();
      RaiseLevel(level);
      var info := other.GetInformation();
      assert forall i :: 0 <= i < |other.data.children| ==> other.data.children[i] in other.Frame();
      assert other.data.children[0] !in info.children && other.data.children[1] !in info.children;
      AddNodes(info.children);
    }
  }

  //////////////////////////////////////////////////////////////////////////////
  // Whole runs
  //////////////////////////////////////////////////////////////////////////////

  /** A new result after the given events. */
  function Run(events: seq<Event>): View {
    if events == [] then View(NoOpinion, []) else After(Run(events[..|events| - 1]), events[|events| - 1])
  }

  /** Over every run, the level is the greatest of NO_OPINION and all levels raised or merged, in
      whatever order they came, and the output is what the merged results had, in order. */
  lemma {:induction false} RunJoins(events: seq<Event>)
    ensures
      var level := Run(events).level;
      && (level == NoOpinion || exists e <- events :: level == LevelOf(e))
      && level.Rank() >= NoOpinion.Rank()
      && forall e <- events :: level.Rank() >= LevelOf(e).Rank()
    ensures Run(events).output == FlatMap(OutputOf, events)
  {
    if events != [] {
      var n := |events| - 1;
      RunJoins(events[..n]);
      assert events == events[..n] + [events[n]];
      FlatMapAppend(OutputOf, events[..n], events[n]);
    }
  }

  /** A level was raised or merged. */
  ghost predicate Reported(events: seq<Event>, level: Level) {
    exists e <- events :: LevelOf(e) == level
  }

  /** The level of every run: malicious as soon as anything was, else suspicious as soon as anything
      was, and otherwise no opinion; being called safe has no effect. */
  lemma {:induction false} RunLevel(events: seq<Event>)
    ensures Run(events).level ==
      if Reported(events, Malicious) then Malicious
      else if Reported(events, Suspicious) then Suspicious
      else NoOpinion
  {
    if events != [] {
      var n := |events| - 1;
      RunLevel(events[..n]);
      assert forall e :: e in events <==> e in events[..n] || e == events[n];
      assert forall level :: Reported(events, level) <==> Reported(events[..n], level) || LevelOf(events[n]) == level;
    }
  }

  //////////////////////////////////////////////////////////////////////////////
  // Runs on objects
  //////////////////////////////////////////////////////////////////////////////

  datatype Action = RaiseTo(level: Level) | MergeWith(other: Result)

  /** A result, what is to be done to it, and what that amounts to. */
  datatype Plan = Plan(r: Result, actions: seq<Action>, events: seq<Event>)

  /** The result is valid, and none of its output nodes is among the given nodes. */
  ghost predicate Outside(r: Result, nodes: set<Node>)
    reads *
  {
    r.Valid() && forall c <- r.Output().children :: c !in nodes
  }

  ghost predicate AmountsTo(a: Action, e: Event)
    reads *
  {
    match a
    case RaiseTo(level) => e == Raise(level)
    case MergeWith(other) => other.Valid() && e == MergeFrom(other.Current())
  }

  /** The results to be merged share no part with `p.r` and bring nothing that is part of a result. */
  ghost predicate CanRun(p: Plan)
    reads *
  {
    && p.r.Valid() && |p.actions| == |p.events|
    && (forall i :: 0 <= i < |p.actions| ==> AmountsTo(p.actions[i], p.events[i]))
    && (forall a <- p.actions :: a.MergeWith? ==> Outside(a.other, p.r.Frame()) && a.other.Frame() !! p.r.Frame())
    && forall a <- p.actions, b <- p.actions :: a.MergeWith? && b.MergeWith? ==> Outside(a.other, b.other.Frame())
  }

  function Incoming(events: seq<Event>): set<Node> {
    set e, c | e in events && c in OutputOf(e) :: c
  }

  twostate predicate Untouched(nodes: set<Node>)
    reads nodes
  {
    forall n <- nodes :: n.name == old(n.name) && n.children == old(n.children) && n.level == old(n.level)
  }

  /** A result none of whose parts has changed is the same as before. */
  twostate lemma StaysSame(r: Result)
    requires old(r.Valid()) && Untouched(old(r.Frame()))
    ensures r.Valid() && r.Current() == old(r.Current()) && r.Frame() == old(r.Frame())
  {
    assert forall c <- old(r.data.children) :: c in old(r.Frame());
  }

  /** What was to be merged still is, when nothing in it has changed. */
  twostate lemma RunGoesOn(p: Plan)
    requires old(CanRun(p)) && p.r.Valid() && p.r.Frame() == old(p.r.Frame())
    requires forall a <- p.actions :: a.MergeWith? ==> Untouched(old(a.other.Frame()))
    ensures CanRun(p)
  {
    forall a <- p.actions | a.MergeWith?
      ensures a.other.Valid() && a.other.Current() == old(a.other.Current()) && a.other.Frame() == old(a.other.Frame())
    {
      StaysSame(a.other);
    }
    forall i | 0 <= i < |p.actions| ensures AmountsTo(p.actions[i], p.events[i]) {
      assert p.actions[i] in p.actions && old(AmountsTo(p.actions[i], p.events[i]));
    }
  }

  lemma OutputIsIncoming(events: seq<Event>, k: nat)
    requires k < |events|
    ensures forall c <- OutputOf(events[k]) :: c in Incoming(events)
  {
    assert events[k] in events;
  }

  method Perform(p: Plan, k: nat)
    requires CanRun(p) && k < |p.actions|
    modifies p.r.LevelHolder()`level, p.r.Output()`children, Incoming(p.events)`name
    ensures CanRun(p)
    ensures p.r.LevelHolder() == old(p.r.LevelHolder()) && p.r.Output() == old(p.r.Output())
    ensures p.r.Current() == After(old(p.r.Current()), p.events[k])
  {
    assert p.actions[k] in p.actions && AmountsTo(p.actions[k], p.events[k]);
    OutputIsIncoming(p.events, k);
    assert p.r.LevelHolder() in p.r.Frame() && p.r.Output() in p.r.Frame();
    match p.actions[k] {
      case RaiseTo(level) =>
        p.r.RaiseLevel(level);
      case MergeWith(other) =>
        p.r.Merge(other);
    }
    RunGoesOn(p);
  }

  /** Any run of raising and merging, on a new result: it ends as `Run` says. */
  method PerformAll(p: Plan)
    requires CanRun(p) && p.r.Current() == Run([])
    modifies p.r.LevelHolder()`level, p.r.Output()`children, Incoming(p.events)`name
    ensures p.r.Valid() && p.r.Current() == Run(p.events)
  {
    for k := 0 to |p.actions|
      invariant CanRun(p)
      invariant p.r.LevelHolder() == old(p.r.LevelHolder()) && p.r.Output() == old(p.r.Output())
      invariant p.r.Current() == Run(p.events[..k])
    {
      Perform(p, k);
      assert p.events[..k + 1][..k] == p.events[..k];
    }
    assert p.events[..|p.actions|] == p.events;
  }
}
