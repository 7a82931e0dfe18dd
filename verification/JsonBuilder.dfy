/** The tree builder behind the reader: it keeps a pointer to the container being filled and a stack
    of pointers to the containers around it. A pointer is modelled as the path from the root. */
module JsonBuilder {
  import opened Database
  import opened JsonValue

  type Pointer = seq<nat>

  datatype Event = BeginObj | EndObj | BeginArr | EndArr | NewName(name: string) | NewValue(v: Value)

  // ---------------------------------------------------------------- paths into a value

  predicate IsContainer(v: Value) {
    v.Obj? || v.Arr?
  }

  function Count(v: Value): nat
    requires IsContainer(v)
  {
    if v.Obj? then |v.members| else |v.elements|
  }

  function Child(v: Value, i: nat): (c: Value)
    requires IsContainer(v) && i < Count(v)
    ensures c < v
  {
    if v.Obj? then v.members[i].value else v.elements[i]
  }

  function WithChild(v: Value, i: nat, x: Value): (w: Value)
    requires IsContainer(v) && i < Count(v)
    ensures IsContainer(w) && Count(w) == Count(v) && Child(w, i) == x
  {
    if v.Obj? then Obj(v.members[i := v.members[i].(value := x)]) else Arr(v.elements[i := x])
  }

  predicate Leads(v: Value, p: Pointer)
    decreases |p|
  {
    p == [] || (IsContainer(v) && p[0] < Count(v) && Leads(Child(v, p[0]), p[1..]))
  }

  function Node(v: Value, p: Pointer): Value
    requires Leads(v, p)
    decreases |p|
  {
    if p == [] then v else Node(Child(v, p[0]), p[1..])
  }

  function With(v: Value, p: Pointer, x: Value): Value
    requires Leads(v, p)
    decreases |p|
  {
    if p == [] then x else WithChild(v, p[0], With(Child(v, p[0]), p[1..], x))
  }

  /** A container with one more child at the end, under a name in an object. */
  function Added(c: Value, name: string, x: Value): Value
    requires IsContainer(c)
  {
    if c.Obj? then Obj(c.members + [Member(name, x)]) else Arr(c.elements + [x])
  }

  lemma {:induction false} NodeWith(v: Value, p: Pointer, x: Value)
    requires Leads(v, p)
    ensures Leads(With(v, p, x), p) && Node(With(v, p, x), p) == x
    decreases |p|
  {
    if p != [] {
      NodeWith(Child(v, p[0]), p[1..], x);
    }
  }

  lemma {:induction false} WithWith(v: Value, p: Pointer, x: Value, y: Value)
    requires Leads(v, p)
    ensures Leads(With(v, p, x), p) && With(With(v, p, x), p, y) == With(v, p, y)
    decreases |p|
  {
    if p != [] {
      WithWith(Child(v, p[0]), p[1..], x, y);
      TwiceWithChild(v, p[0], With(Child(v, p[0]), p[1..], x), With(Child(v, p[0]), p[1..], y));
    }
  }

  lemma TwiceWithChild(v: Value, i: nat, x: Value, y: Value)
    requires IsContainer(v) && i < Count(v)
    ensures WithChild(WithChild(v, i, x), i, y) == WithChild(v, i, y)
  {
  }

  lemma {:induction false} WithSame(v: Value, p: Pointer)
    requires Leads(v, p)
    ensures With(v, p, Node(v, p)) == v
    decreases |p|
  {
    if p != [] {
      WithSame(Child(v, p[0]), p[1..]);
      SameWithChild(v, p[0]);
    }
  }

  lemma SameWithChild(v: Value, i: nat)
    requires IsContainer(v) && i < Count(v)
    ensures WithChild(v, i, Child(v, i)) == v
  {
    if v.Obj? {
      assert v.members[i].(value := v.members[i].value) == v.members[i];
      assert v.members[i := v.members[i]] == v.members;
    } else {
      assert v.elements[i := v.elements[i]] == v.elements;
    }
  }

  /** The child just added: where it is, what is there, and what replacing it does. */
  lemma {:induction false} NewChild(v: Value, p: Pointer, c: Value, name: string, x: Value, y: Value)
    requires Leads(v, p) && IsContainer(c)
    ensures var w := With(v, p, Added(c, name, x));
            var q := p + [Count(c)];
            Leads(w, q) && Node(w, q) == x && With(w, q, y) == With(v, p, Added(c, name, y))
    decreases |p|
  {
    var n := Count(c);
    if p == [] {
      NewestChild(c, name, x, y);
      var w := Added(c, name, x);
      assert p + [n] == [n] && [n][1..] == [];
      assert Leads(Child(w, n), []);
      assert With(w, [n], y) == WithChild(w, n, With(Child(w, n), [], y));
    } else {
      var q := p + [n];
      assert q[0] == p[0] && q[1..] == p[1..] + [n];
      var k := Child(v, p[0]);
      NewChild(k, p[1..], c, name, x, y);
      TwiceWithChild(v, p[0], With(k, p[1..], Added(c, name, x)), With(k, p[1..], Added(c, name, y)));
    }
  }

  lemma NewestChild(c: Value, name: string, x: Value, y: Value)
    requires IsContainer(c)
    ensures var w := Added(c, name, x);
            Count(c) < Count(w) && Child(w, Count(c)) == x && WithChild(w, Count(c), y) == Added(c, name, y)
  {
  }

  // ---------------------------------------------------------------- the actions

  datatype Build = Build(root: Value, current: Option<Pointer>, stack: seq<Pointer>, name: string)

  const EMPTY := Build(Null, None, [], "")

  /** Add to the container at hand, or become the root; where the new value is. */
  function Add(b: Build, x: Value): Option<(Build, Pointer)> {
    match b.current
    case None => Some((b.(root := x, current := Some([])), []))
    case Some(p) =>
      if Leads(b.root, p) && IsContainer(Node(b.root, p)) then
        var c := Node(b.root, p);
        Some((b.(root := With(b.root, p, Added(c, b.name, x))), p + [Count(c)]))
      else None
  }

  function Begin(b: Build, x: Value): Option<Build> {
    match Add(b, x)
    case None => None
    case Some(r) =>
      if b.current.None? then Some(r.0)
      else Some(r.0.(stack := b.stack + [b.current.value], current := Some(r.1)))
  }

  function End(b: Build): Option<Build> {
    if b.current == Some([]) then Some(b)
    else if b.stack == [] then None
    else Some(b.(current := Some(b.stack[|b.stack| - 1]), stack := b.stack[..|b.stack| - 1]))
  }

  /** One action; none where the source's assertions or its stack would fail. */
  function Act(b: Build, e: Event): Option<Build> {
    match e
    case BeginObj => Begin(b, Obj([]))
    case BeginArr => Begin(b, Arr([]))
    case EndObj => End(b)
    case EndArr => End(b)
    case NewName(s) =>
      if b.current.Some? && Leads(b.root, b.current.value) && Node(b.root, b.current.value).Obj? then Some(b.(name := s)) else None
    case NewValue(x) =>
      match Add(b, x)
      case None => None
      case Some(r) => Some(r.0)
  }

  function Run(b: Build, events: seq<Event>): Option<Build>
    decreases |events|
  {
    if events == [] then Some(b)
    else
      match Act(b, events[0])
      case None => None
      case Some(c) => Run(c, events[1..])
  }

  lemma {:induction false} RunSplit(b: Build, e: seq<Event>, f: seq<Event>)
    ensures Run(b, e + f) == if Run(b, e).Some? then Run(Run(b, e).value, f) else None
    decreases |e|
  {
    if e == [] {
      assert e + f == f;
    } else {
      assert (e + f)[0] == e[0] && (e + f)[1..] == e[1..] + f;
      hide Act;
      if Act(b, e[0]).Some? {
        RunSplit(Act(b, e[0]).value, e[1..], f);
      }
    }
  }

  // ---------------------------------------------------------------- the pointers

  /** The pointer leads to a node, and the stack holds the pointers to all the nodes above it, from
      the root down. */
  ghost predicate Inv(b: Build) {
    match b.current
    case None => b.stack == []
    case Some(p) => Leads(b.root, p) && |b.stack| == |p| && forall i :: 0 <= i < |p| ==> b.stack[i] == p[..i]
  }

  lemma {:induction false} LeadsFront(v: Value, p: Pointer)
    requires Leads(v, p) && p != []
    ensures Leads(v, p[..|p| - 1]) && IsContainer(Node(v, p[..|p| - 1]))
    decreases |p|
  {
    var front := p[..|p| - 1];
    if |p| > 1 {
      assert p[1..][..|p| - 2] == front[1..];
      LeadsFront(Child(v, p[0]), p[1..]);
    }
  }

  lemma AddKeeps(b: Build, x: Value)
    requires Inv(b) && Add(b, x).Some?
    ensures var (c, q) := Add(b, x).value;
            Inv(c) && Leads(c.root, q) && (b.current.Some? ==> q[..|q| - 1] == b.current.value && |q| == |b.current.value| + 1)
  {
    if b.current.Some? {
      var p := b.current.value;
      NodeWith(b.root, p, Added(Node(b.root, p), b.name, x));
      NewChild(b.root, p, Node(b.root, p), b.name, x, x);
    }
  }

  /** Every action keeps the pointers right, whatever the order of actions. */
  lemma ActKeeps(b: Build, e: Event)
    requires Inv(b) && Act(b, e).Some?
    ensures Inv(Act(b, e).value)
  {
    match e {
      case BeginObj => AddKeeps(b, Obj([]));
      case BeginArr => AddKeeps(b, Arr([]));
      case NewValue(x) => AddKeeps(b, x);
      case NewName(_) =>
      case _ =>
        if b.current != Some([]) {
          LeadsFront(b.root, b.current.value);
        }
    }
  }

  lemma {:induction false} RunKeeps(b: Build, events: seq<Event>)
    requires Inv(b) && Run(b, events).Some?
    ensures Inv(Run(b, events).value)
    decreases |events|
  {
    if events != [] {
      hide Act, Inv;
      ActKeeps(b, events[0]);
      RunKeeps(Act(b, events[0]).value, events[1..]);
    }
  }

  /** Under any sequence of actions that goes through, the stack names the open ancestors. */
  lemma PointersHold(events: seq<Event>)
    requires Run(EMPTY, events).Some?
    ensures Inv(Run(EMPTY, events).value)
  {
    RunKeeps(EMPTY, events);
  }

  // ---------------------------------------------------------------- building a value

  function Events(v: Value): seq<Event>
    decreases v
  {
    match v
    case Obj(ms) => [BeginObj] + MemberEvents(ms) + [EndObj]
    case Arr(xs) => [BeginArr] + ElementEvents(xs) + [EndArr]
    case _ => [NewValue(v)]
  }

  function ElementEvents(xs: seq<Value>): seq<Event>
    decreases xs
  {
    if xs == [] then [] else Events(xs[0]) + ElementEvents(xs[1..])
  }

  function MemberEvents(ms: seq<Member>): seq<Event>
    decreases ms
  {
    if ms == [] then [] else [NewName(ms[0].name)] + Events(ms[0].value) + MemberEvents(ms[1..])
  }

  /** The result of adding at the pointer: same pointer, same stack, a new root. */
  ghost predicate Becomes(b: Build, r: Option<Build>, p: Pointer, x: Value)
    requires Leads(b.root, p)
  {
    r.Some? && r.value.current == b.current && r.value.stack == b.stack && r.value.root == With(b.root, p, x)
  }

  lemma Enclosed(b: Build, open: Event, events: seq<Event>, close: Event)
    requires Act(b, open).Some? && Run(Act(b, open).value, events).Some?
    requires Act(Run(Act(b, open).value, events).value, close).Some?
    ensures Run(b, [open] + events + [close]) == Act(Run(Act(b, open).value, events).value, close)
  {
    hide Act;
    var c := Act(b, open).value;
    assert ([open] + events + [close])[0] == open && ([open] + events + [close])[1..] == events + [close];
    RunSplit(c, events, [close]);
    var d := Run(c, events).value;
    assert [close][1..] == [];
    assert Run(d, [close]) == Act(d, close);
  }

  lemma Opened(b: Build, p: Pointer, x: Value)
    requires b.current == Some(p) && Leads(b.root, p) && IsContainer(Node(b.root, p))
    ensures var c := Node(b.root, p);
            var q := p + [Count(c)];
            var w := With(b.root, p, Added(c, b.name, x));
            && Begin(b, x) == Some(Build(w, Some(q), b.stack + [p], b.name))
            && Leads(w, q) && Node(w, q) == x
  {
    NewChild(b.root, p, Node(b.root, p), b.name, x, x);
  }

  lemma {:induction false} BuildValue(b: Build, p: Pointer, v: Value)
    requires b.current == Some(p) && Leads(b.root, p) && IsContainer(Node(b.root, p))
    ensures Becomes(b, Run(b, Events(v)), p, Added(Node(b.root, p), b.name, v))
    decreases v, 0
  {
    match v {
      case Obj(ms) =>
        Opened(b, p, Obj([]));
        var c := Begin(b, Obj([])).value;
        BuildMembers(c, c.current.value, [], ms);
        assert [] + ms == ms;
        Closes(b, p, Obj([]), v, BeginObj, MemberEvents(ms), EndObj);
      case Arr(xs) =>
        Opened(b, p, Arr([]));
        var c := Begin(b, Arr([])).value;
        BuildElements(c, c.current.value, [], xs);
        assert [] + xs == xs;
        Closes(b, p, Arr([]), v, BeginArr, ElementEvents(xs), EndArr);
      case _ =>
        assert [NewValue(v)][1..] == [];
    }
  }

  /** Filling the container just opened and closing it adds the filled container. */
  lemma Closes(b: Build, p: Pointer, empty: Value, v: Value, open: Event, events: seq<Event>, close: Event)
    requires b.current == Some(p) && Leads(b.root, p) && IsContainer(Node(b.root, p))
    requires Begin(b, empty).Some? && Act(b, open) == Begin(b, empty) && close in {EndObj, EndArr}
    requires var c := Begin(b, empty).value;
             c.current.Some? && Leads(c.root, c.current.value) && Becomes(c, Run(c, events), c.current.value, v)
    ensures Becomes(b, Run(b, [open] + events + [close]), p, Added(Node(b.root, p), b.name, v))
  {
    hide Run;
    Opened(b, p, empty);
    NewChild(b.root, p, Node(b.root, p), b.name, empty, v);
    var c := Begin(b, empty).value;
    var d := Run(c, events).value;
    hide With, Leads, Node, Added, Begin;
    assert d.stack == b.stack + [p] && d.current == Some(p + [Count(Node(b.root, p))]);
    assert d.stack[..|d.stack| - 1] == b.stack;
    assert End(d) == Some(d.(current := Some(p), stack := b.stack));
    Enclosed(b, open, events, close);
  }

  lemma {:induction false} BuildElements(b: Build, p: Pointer, done: seq<Value>, xs: seq<Value>)
    requires b.current == Some(p) && Leads(b.root, p) && Node(b.root, p) == Arr(done)
    ensures Becomes(b, Run(b, ElementEvents(xs)), p, Arr(done + xs))
    decreases xs
  {
    if xs == [] {
      WithSame(b.root, p);
      assert done + xs == done;
    } else {
      BuildValue(b, p, xs[0]);
      var c := Run(b, Events(xs[0])).value;
      NodeWith(b.root, p, Arr(done + [xs[0]]));
      BuildElements(c, p, done + [xs[0]], xs[1..]);
      RunSplit(b, Events(xs[0]), ElementEvents(xs[1..]));
      WithWith(b.root, p, Arr(done + [xs[0]]), Arr(done + [xs[0]] + xs[1..]));
      assert done + [xs[0]] + xs[1..] == done + xs;
    }
  }

  lemma {:induction false} BuildMembers(b: Build, p: Pointer, done: seq<Member>, ms: seq<Member>)
    requires b.current == Some(p) && Leads(b.root, p) && Node(b.root, p) == Obj(done)
    ensures Becomes(b, Run(b, MemberEvents(ms)), p, Obj(done + ms))
    decreases ms
  {
    if ms == [] {
      WithSame(b.root, p);
      assert done + ms == done;
    } else {
      var m := ms[0];
      var named := b.(name := m.name);
      BuildValue(named, p, m.value);
      var e := Events(m.value);
      var c := Run(named, e).value;
      assert Member(m.name, m.value) == m;
      NodeWith(b.root, p, Obj(done + [m]));
      BuildMembers(c, p, done + [m], ms[1..]);
      assert ([NewName(m.name)] + e)[0] == NewName(m.name) && ([NewName(m.name)] + e)[1..] == e;
      RunSplit(b, [NewName(m.name)] + e, MemberEvents(ms[1..]));
      WithWith(b.root, p, Obj(done + [m]), Obj(done + [m] + ms[1..]));
      assert done + [m] + ms[1..] == done + ms;
    }
  }

  lemma FirstArray(xs: seq<Value>)
    ensures Run(EMPTY, [BeginArr] + ElementEvents(xs) + [EndArr]).Some?
    ensures Run(EMPTY, [BeginArr] + ElementEvents(xs) + [EndArr]).value.root == Arr(xs)
  {
    var b := Build(Arr([]), Some([]), [], "");
    assert Act(EMPTY, BeginArr) == Some(b);
    BuildElements(b, [], [], xs);
    assert [] + xs == xs;
    hide Run;
    Enclosed(EMPTY, BeginArr, ElementEvents(xs), EndArr);
  }

  lemma FirstObject(ms: seq<Member>)
    ensures Run(EMPTY, [BeginObj] + MemberEvents(ms) + [EndObj]).Some?
    ensures Run(EMPTY, [BeginObj] + MemberEvents(ms) + [EndObj]).value.root == Obj(ms)
  {
    var b := Build(Obj([]), Some([]), [], "");
    assert Act(EMPTY, BeginObj) == Some(b);
    BuildMembers(b, [], [], ms);
    assert [] + ms == ms;
    hide Run;
    Enclosed(EMPTY, BeginObj, MemberEvents(ms), EndObj);
  }

  /** The actions of a value, from nothing, build that value. */
  lemma BuildsValue(v: Value)
    ensures Run(EMPTY, Events(v)).Some? && Run(EMPTY, Events(v)).value.root == v
  {
    match v {
      case Obj(ms) => FirstObject(ms);
      case Arr(xs) => FirstArray(xs);
      case _ =>
        assert [NewValue(v)][1..] == [];
    }
  }

  // ---------------------------------------------------------------- the object that does it

  class SemanticActions {
    var root: Value
    var current: Option<Pointer>
    var stack: seq<Pointer>
    var name: string

    constructor ()
      ensures State() == EMPTY
    {
      root, current, stack, name := Null, None, [], "";
    }

    function State(): Build
      reads this
    {
      Build(root, current, stack, name)
    }

    method AddFirst(x: Value) returns (where: Pointer)
      requires current.None?
      modifies this
      ensures Add(old(State()), x) == Some((State(), where))
    {
      root := x;
      current := Some([]);
      where := [];
    }

    method AddToCurrent(x: Value) returns (where: Pointer)
      requires Add(State(), x).Some?
      modifies this
      ensures Add(old(State()), x) == Some((State(), where))
    {
      if current.None? {
        where := AddFirst(x);
        return;
      }
      var p := current.value;
      var c := Node(root, p);
      root := With(root, p, Added(c, name, x));
      where := p + [Count(c)];
    }

    method BeginCompound(x: Value)
      requires Begin(State(), x).Some?
      modifies this
      ensures Begin(old(State()), x) == Some(State())
    {
      if current.None? {
        var _ := AddFirst(x);
      } else {
        stack := stack + [current.value];
        assert Add(State(), x).Some?;
        var where := AddToCurrent(x);
        current := Some(where);
      }
    }

    method EndCompound()
      requires End(State()).Some?
      modifies this
      ensures End(old(State())) == Some(State())
    {
      if current != Some([]) {
        current := Some(stack[|stack| - 1]);
        stack := stack[..|stack| - 1];
      }
    }

    method Perform(e: Event)
      requires Act(State(), e).Some?
      modifies this
      ensures Act(old(State()), e) == Some(State())
    {
      match e
      case BeginObj => BeginCompound(Obj([]));
      case BeginArr => BeginCompound(Arr([]));
      case EndObj => EndCompound();
      case EndArr => EndCompound();
      case NewName(s) => name := s;
      case NewValue(x) => var _ := AddToCurrent(x);
    }
  }
}
