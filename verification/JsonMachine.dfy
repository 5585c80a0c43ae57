/**
 The stack machine that rebuilds a JSON value from the reader's events.  The value under
 construction is one tree; `current` and the entries of `stack`, pointers into that tree in
 the original, are paths from its root.
 */
module JsonMachine {
  import opened JsonReader

  datatype Member = Member(name: string, value: Value)

  datatype Value =
    | Object(members: seq<Member>)
    | Array(elements: seq<Value>)
    | Str(text: string)
    | Int(number: int)
    | Uint64(big: nat)
    | Bool(b: bool)
    | Null

  type Path = seq<nat>

  predicate IsCompound(v: Value) {
    v.Object? || v.Array?
  }

  /** Number of children of a compound. */
  function Size(v: Value): nat {
    match v
    case Object(ms) => |ms|
    case Array(es) => |es|
    case _ => 0
  }

  function Child(v: Value, i: nat): (c: Value)
    requires i < Size(v)
    ensures c < v
  {
    match v
    case Object(ms) => ms[i].value
    case Array(es) => es[i]
  }

  function SetChild(v: Value, i: nat, c: Value): (r: Value)
    requires i < Size(v)
    ensures IsCompound(r) && Size(r) == Size(v) && Child(r, i) == c
  {
    match v
    case Object(ms) => Object(ms[i := Member(ms[i].name, c)])
    case Array(es) => Array(es[i := c])
  }

  /** push_back: with the pending name in an object, without one in an array. */
  function AddChild(v: Value, name: string, c: Value): (r: Value)
    requires IsCompound(v)
    ensures IsCompound(r) && Size(r) == Size(v) + 1 && Child(r, Size(v)) == c
  {
    match v
    case Object(ms) => Object(ms + [Member(name, c)])
    case Array(es) => Array(es + [c])
  }

  /** The path leads to a compound. */
  predicate PathTo(v: Value, path: Path) {
    if path == [] then IsCompound(v) else path[0] < Size(v) && PathTo(Child(v, path[0]), path[1..])
  }

  function At(v: Value, path: Path): (c: Value)
    requires PathTo(v, path)
    ensures IsCompound(c)
  {
    if path == [] then v else At(Child(v, path[0]), path[1..])
  }

  /** The tree with the compound at `path` replaced. */
  function PutAt(v: Value, path: Path, c: Value): (r: Value)
    requires PathTo(v, path) && IsCompound(c)
    ensures PathTo(r, path) && At(r, path) == c
  {
    if path == [] then c else SetChild(v, path[0], PutAt(Child(v, path[0]), path[1..], c))
  }

  function AddAt(v: Value, path: Path, name: string, c: Value): Value
    requires PathTo(v, path)
  {
    PutAt(v, path, AddChild(At(v, path), name, c))
  }

  datatype Pointer = NoValue | To(path: Path)

  datatype State = State(value: Value, current: Pointer, stack: seq<Path>, name: string)

  const INITIAL := State(Null, NoValue, [], "")

  /** `current` leads to a compound. */
  predicate Ready(st: State) {
    st.current.To? && PathTo(st.value, st.current.path)
  }

  /** Whether the machine's assertions hold for the event. */
  predicate CanApply(st: State, e: Event) {
    match e
    case NewName(_) => Ready(st) && At(st.value, st.current.path).Object?
    case EndObj => st.current.To? && (st.current.path != [] ==> st.stack != [])
    case EndArray => st.current.To? && (st.current.path != [] ==> st.stack != [])
    case _ => st.current.NoValue? || Ready(st)
  }

  /** add_to_current: the value becomes the root, or the last child of the current compound. */
  function AddToCurrent(st: State, v: Value): State
    requires st.current.NoValue? || Ready(st)
  {
    if st.current.NoValue? then st.(value := v, current := To([]))
    else st.(value := AddAt(st.value, st.current.path, st.name, v))
  }

  function BeginCompound(st: State, empty: Value): State
    requires st.current.NoValue? || Ready(st)
  {
    if st.current.NoValue? then AddToCurrent(st, empty)
    else
      var here := st.current.path;
      AddToCurrent(st, empty).(stack := st.stack + [here], current := To(here + [Size(At(st.value, here))]))
  }

  function EndCompound(st: State): State
    requires st.current.To? && (st.current.path != [] ==> st.stack != [])
  {
    if st.current.path == [] then st
    else st.(current := To(st.stack[|st.stack| - 1]), stack := st.stack[..|st.stack| - 1])
  }

  function Apply(st: State, e: Event): State
    requires CanApply(st, e)
  {
    match e
    case BeginObj => BeginCompound(st, Object([]))
    case BeginArray => BeginCompound(st, Array([]))
    case EndObj => EndCompound(st)
    case EndArray => EndCompound(st)
    case NewName(name) => st.(name := name)
    case NewStr(text) => AddToCurrent(st, Str(text))
    case NewInt(n) => AddToCurrent(st, Int(n))
    case NewUint64(n) => AddToCurrent(st, Uint64(n))
    case NewBool(b) => AddToCurrent(st, Bool(b))
    case NewNull => AddToCurrent(st, Null)
  }

  datatype Run = Stuck | Ran(state: State)

  /** The machine fed a sequence of events; stuck when an assertion fails. */
  function RunAll(st: State, events: seq<Event>): Run
    decreases |events|
  {
    if events == [] then Ran(st)
    else if !CanApply(st, events[0]) then Stuck
    else RunAll(Apply(st, events[0]), events[1..])
  }

  lemma {:induction false} RunConcat(st: State, a: seq<Event>, b: seq<Event>)
    requires RunAll(st, a).Ran?
    ensures RunAll(st, a + b) == RunAll(RunAll(st, a).state, b)
    decreases |a|
  {
    if a == [] {
      assert a + b == b;
    } else {
      assert (a + b)[1..] == a[1..] + b;
      RunConcat(Apply(st, a[0]), a[1..], b);
    }
  }

  /** The object that the grammar's actions call. */
  class SemanticActions {
    var value: Value
    var current: Pointer
    var stack: seq<Path>
    var name: string

    ghost function Model(): State
      reads this
    {
      State(value, current, stack, name)
    }

    constructor ()
      ensures Model() == INITIAL
    {
      value, current, stack, name := Null, NoValue, [], "";
    }

    method Add(v: Value)
      requires Model().current.NoValue? || Ready(Model())
      modifies this
      ensures Model() == AddToCurrent(old(Model()), v)
    {
      if current.NoValue? {
        value := v;
        current := To([]);
      } else {
        value := AddAt(value, current.path, name, v);
      }
    }

    method Begin(empty: Value)
      requires IsCompound(empty) && (Model().current.NoValue? || Ready(Model()))
      modifies this
      ensures Model() == BeginCompound(old(Model()), empty)
    {
      if current.NoValue? {
        Add(empty);
      } else {
        var here := current.path;
        var last := Size(At(value, here));
        stack := stack + [here];
        Add(empty);
        current := To(here + [last]);
      }
    }

    method End()
      requires current.To? && (current.path != [] ==> stack != [])
      modifies this
      ensures Model() == EndCompound(old(Model()))
    {
      if current.path != [] {
        current := To(stack[|stack| - 1]);
        stack := stack[..|stack| - 1];
      }
    }

    method Handle(e: Event)
      requires CanApply(Model(), e)
      modifies this
      ensures Model() == Apply(old(Model()), e)
    {
      match e
      case BeginObj => Begin(Object([]));
      case BeginArray => Begin(Array([]));
      case EndObj => End();
      case EndArray => End();
      case NewName(n) => name := n;
      case NewStr(text) => Add(Str(text));
      case NewInt(n) => Add(Int(n));
      case NewUint64(n) => Add(Uint64(n));
      case NewBool(b) => Add(Bool(b));
      case NewNull => Add(Null);
    }
  }

  /** The events of a parse, handed to the actions one by one. */
  method HandleAll(actions: SemanticActions, events: seq<Event>)
    requires RunAll(actions.Model(), events).Ran?
    modifies actions
    ensures RunAll(old(actions.Model()), events) == Ran(actions.Model())
  {
    assert events[0..] == events;
    for i := 0 to |events|
      invariant RunAll(old(actions.Model()), events) == RunAll(actions.Model(), events[i..])
    {
      assert events[i..][0] == events[i] && events[i..][1..] == events[i + 1..];
      actions.Handle(events[i]);
    }
  }

  /** Fresh actions, handed the events of an object, hold that object. */
  method RebuildObject(ms: seq<Member>) returns (actions: SemanticActions)
    ensures fresh(actions) && actions.value == Object(ms)
  {
    actions := new SemanticActions();
    RebuildsObject(ms);
    HandleAll(actions, Events(Object(ms)));
  }

  //////////////////////////////////////////////////////////////////////////////
  // Correctness: the machine rebuilds exactly the value that its events spell
  //////////////////////////////////////////////////////////////////////////////

  /** The events that the grammar reports for a value. */
  function Events(v: Value): seq<Event> {
    match v
    case Object(ms) => [BeginObj] + MemberEvents(ms) + [EndObj]
    case Array(es) => [BeginArray] + ElementEvents(es) + [EndArray]
    case Str(text) => [NewStr(text)]
    case Int(n) => [NewInt(n)]
    case Uint64(n) => [NewUint64(n)]
    case Bool(b) => [NewBool(b)]
    case Null => [NewNull]
  }

  function MemberEvents(ms: seq<Member>): seq<Event> {
    if ms == [] then [] else [NewName(ms[0].name)] + Events(ms[0].value) + MemberEvents(ms[1..])
  }

  function ElementEvents(es: seq<Value>): seq<Event> {
    if es == [] then [] else Events(es[0]) + ElementEvents(es[1..])
  }

  lemma {:induction false} PutAtTwice(v: Value, path: Path, c: Value, d: Value)
    requires PathTo(v, path) && IsCompound(c) && IsCompound(d)
    ensures PutAt(PutAt(v, path, c), path, d) == PutAt(v, path, d)
    decreases |path|
  {
    if path != [] {
      PutAtTwice(Child(v, path[0]), path[1..], c, d);
    }
  }

  lemma {:induction false} PutAtSelf(v: Value, path: Path)
    requires PathTo(v, path)
    ensures PutAt(v, path, At(v, path)) == v
    decreases |path|
  {
    if path != [] {
      PutAtSelf(Child(v, path[0]), path[1..]);
    }
  }

  /** One step further down a path. */
  lemma {:induction false} PathStep(v: Value, path: Path, k: nat, c: Value)
    requires PathTo(v, path) && k < Size(At(v, path)) && IsCompound(Child(At(v, path), k)) && IsCompound(c)
    ensures PathTo(v, path + [k]) && At(v, path + [k]) == Child(At(v, path), k)
    ensures PutAt(v, path + [k], c) == PutAt(v, path, SetChild(At(v, path), k, c))
    decreases |path|
  {
    if path == [] {
      assert (path + [k])[1..] == [];
    } else {
      assert (path + [k])[1..] == path[1..] + [k];
      PathStep(Child(v, path[0]), path[1..], k, c);
    }
  }

  /** From `st`, the events leave the machine where it was, with `value` as its tree. */
  ghost predicate RunsTo(st: State, events: seq<Event>, value: Value) {
    var r := RunAll(st, events);
    r.Ran? && r.state.value == value && r.state.current == st.current && r.state.stack == st.stack
  }

  /** The machine inside an object, given its remaining members. */
  lemma {:induction false} RunsMembers(st: State, ms: seq<Member>, done: seq<Member>)
    requires Ready(st) && At(st.value, st.current.path) == Object(done)
    ensures RunsTo(st, MemberEvents(ms), PutAt(st.value, st.current.path, Object(done + ms)))
    decreases ms, 0
  {
    var path := st.current.path;
    if ms == [] {
      assert done + ms == done;
      PutAtSelf(st.value, path);
    } else {
      var named := st.(name := ms[0].name);
      RunsValue(named, ms[0].value);
      var r := RunAll(named, Events(ms[0].value)).state;
      var done1 := done + [ms[0]];
      assert r.value == PutAt(st.value, path, Object(done1));
      RunsMembers(r, ms[1..], done1);
      PutAtTwice(st.value, path, Object(done1), Object(done1 + ms[1..]));
      assert done1 + ms[1..] == done + ms;
      RunsNamed(st, ms[0].name, Events(ms[0].value), MemberEvents(ms[1..]));
    }
  }

  lemma RunsNamed(st: State, name: string, a: seq<Event>, b: seq<Event>)
    requires CanApply(st, NewName(name)) && RunAll(st.(name := name), a).Ran?
    ensures RunAll(st, [NewName(name)] + a + b) == RunAll(RunAll(st.(name := name), a).state, b)
  {
    assert ([NewName(name)] + a + b)[1..] == a + b;
    RunConcat(st.(name := name), a, b);
  }

  /** The machine inside an array, given its remaining elements. */
  lemma {:induction false} RunsElements(st: State, es: seq<Value>, done: seq<Value>)
    requires Ready(st) && At(st.value, st.current.path) == Array(done)
    ensures RunsTo(st, ElementEvents(es), PutAt(st.value, st.current.path, Array(done + es)))
    decreases es, 0
  {
    var path := st.current.path;
    if es == [] {
      assert done + es == done;
      PutAtSelf(st.value, path);
    } else {
      RunsValue(st, es[0]);
      var r := RunAll(st, Events(es[0])).state;
      var done1 := done + [es[0]];
      assert r.value == PutAt(st.value, path, Array(done1));
      RunsElements(r, es[1..], done1);
      PutAtTwice(st.value, path, Array(done1), Array(done1 + es[1..]));
      assert done1 + es[1..] == done + es;
      RunConcat(st, Events(es[0]), ElementEvents(es[1..]));
    }
  }

  /** The machine between the opening and the closing of a nested compound. */
  lemma NestedBegin(st: State, empty: Value, full: Value)
    requires Ready(st) && IsCompound(empty) && IsCompound(full)
    ensures
      var b := BeginCompound(st, empty);
      && Ready(b) && At(b.value, b.current.path) == empty && b.current.path != [] && b.stack == st.stack + [st.current.path]
      && PutAt(b.value, b.current.path, full) == AddAt(st.value, st.current.path, st.name, full)
  {
    var p := st.current.path;
    NestedPut(st.value, p, st.name, empty, full);
  }

  lemma NestedPut(v: Value, p: Path, name: string, empty: Value, full: Value)
    requires PathTo(v, p) && IsCompound(empty) && IsCompound(full)
    ensures
      var w := AddAt(v, p, name, empty);
      var q := p + [Size(At(v, p))];
      PathTo(w, q) && At(w, q) == empty && PutAt(w, q, full) == AddAt(v, p, name, full)
  {
    var parent := At(v, p);
    var k := Size(parent);
    var w := AddAt(v, p, name, empty);
    PathStep(w, p, k, full);
    PutAtTwice(v, p, AddChild(parent, name, empty), AddChild(parent, name, full));
    assert SetChild(AddChild(parent, name, empty), k, full) == AddChild(parent, name, full);
  }

  lemma RunsThenEnd(b: State, inner: seq<Event>, end: Event)
    requires end == EndObj || end == EndArray
    requires RunAll(b, inner).Ran? && CanApply(RunAll(b, inner).state, end)
    ensures RunAll(b, inner + [end]) == Ran(EndCompound(RunAll(b, inner).state))
  {
    var r := RunAll(b, inner).state;
    RunConcat(b, inner, [end]);
    assert [end][1..] == [];
    assert RunAll(r, [end]) == RunAll(Apply(r, end), []);
  }

  lemma RunsFirst(st: State, e: Event, events: seq<Event>)
    requires CanApply(st, e)
    ensures RunAll(st, [e] + events) == RunAll(Apply(st, e), events)
  {
    assert ([e] + events)[1..] == events;
  }

  lemma RunsCompound(st: State, begin: Event, inner: seq<Event>, end: Event, empty: Value, value: Value)
    requires Ready(st)
    requires (begin == BeginObj && end == EndObj && empty == Object([]))
          || (begin == BeginArray && end == EndArray && empty == Array([]))
    requires RunsTo(BeginCompound(st, empty), inner, value)
    ensures RunsTo(st, [begin] + inner + [end], value)
  {
    var b := BeginCompound(st, empty);
    assert b.current.path != [] && b.stack == st.stack + [st.current.path];
    RunsThenEnd(b, inner, end);
    RunsFirst(st, begin, inner + [end]);
    assert [begin] + inner + [end] == [begin] + (inner + [end]);
  }

  /** Fed the events of a value inside a compound, the machine appends exactly that value to it. */
  lemma {:induction false} RunsValue(st: State, v: Value)
    requires Ready(st)
    ensures RunsTo(st, Events(v), AddAt(st.value, st.current.path, st.name, v))
    decreases v, 1
  {
    match v
    case Object(ms) =>
      var b := BeginCompound(st, Object([]));
      NestedBegin(st, Object([]), v);
      RunsMembers(b, ms, []);
      assert [] + ms == ms;
      RunsCompound(st, BeginObj, MemberEvents(ms), EndObj, Object([]), AddAt(st.value, st.current.path, st.name, v));
    case Array(es) =>
      var b := BeginCompound(st, Array([]));
      NestedBegin(st, Array([]), v);
      RunsElements(b, es, []);
      assert [] + es == es;
      RunsCompound(st, BeginArray, ElementEvents(es), EndArray, Array([]), AddAt(st.value, st.current.path, st.name, v));
    case _ =>
      RunsFirst(st, Events(v)[0], []);
      assert Events(v) == [Events(v)[0]] + [];
  }

  /** From its initial state the machine rebuilds every object from that object's events. */
  lemma RebuildsObject(ms: seq<Member>)
    ensures
      var r := RunAll(INITIAL, Events(Object(ms)));
      r.Ran? && r.state.value == Object(ms)
  {
    var b := BeginCompound(INITIAL, Object([]));
    RunsMembers(b, ms, []);
    assert [] + ms == ms;
    var inner := MemberEvents(ms);
    RunsThenEnd(b, inner, EndObj);
    RunsFirst(INITIAL, BeginObj, inner + [EndObj]);
    assert [BeginObj] + inner + [EndObj] == [BeginObj] + (inner + [EndObj]);
  }
}
