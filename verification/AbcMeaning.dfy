/** What issubclass answers over whole runs, and when it is plain reachability. */
module AbcMeaning {
  import opened ClassGraphs
  import opened AbcCaches

  /** The graph as if every class, ordinary ones too, followed its edges. */
  function Everywhere(g: Graph): Graph
  {
    g.(abc := g.classes)
  }

  /** Reachability over "direct subclass" and "registered under" edges alone. */
  ghost predicate FullReach(g: Graph, c: Class, x: Class)
  {
    CanReach(Everywhere(g), c, x)
  }

  /** What is registered under an ABC that derives from an ordinary class derives from it too. */
  ghost predicate RegisteredBelowBases(g: Graph)
  {
    forall p: Class, a: Class, r: Class ::
      p !in g.abc && p in Mro(g, a) && r in Registry(g, a) ==> p in Mro(g, r)
  }

  lemma EverywhereNext(g: Graph, c: Class)
    requires WellFormed(g)
    ensures Next(Everywhere(g), c) == Registry(g, c) + Subclasses(g, c)
    ensures Next(g, c) <= Next(Everywhere(g), c)
  {
    hide Inside, Closed, AbcBelowAbc;
  }

  lemma {:induction false} EverywherePath(g: Graph, p: seq<Class>)
    requires WellFormed(g) && IsPath(g, p)
    ensures IsPath(Everywhere(g), p)
  {
    hide WellFormed, Next, Everywhere;
    if |p| > 1 {
      EverywhereNext(g, p[0]);
      EverywherePath(g, p[1..]);
    }
  }

  lemma EverywhereReach(g: Graph, c: Class, u: Class)
    requires WellFormed(g) && CanReach(g, c, u)
    ensures FullReach(g, c, u)
  {
    hide WellFormed, Next;
    var p :| Leads(g, p, c, u);
    EverywherePath(g, p);
    assert Leads(Everywhere(g), p, c, u);
  }

  lemma SmallerMro(g: Graph, u: Class, d: Class, x: Class)
    requires WellFormed(g) && d in Subclasses(g, u) && d in Mro(g, x) && u != d
    ensures |Mro(g, u)| < |Mro(g, d)| <= |Mro(g, x)|
  {
    assert Mro(g, u) <= Mro(g, d) <= Mro(g, x);
    assert d in Mro(g, d) && d !in Mro(g, u) by {
      assert u in Mro(g, d);
      assert d in g.classes;
    }
    hide WellFormed, Mro;
    ProperSubset(Mro(g, u), Mro(g, d), d);
    Subset(Mro(g, d), Mro(g, x));
  }

  lemma {:induction false} Subset(a: set<Class>, b: set<Class>)
    requires a <= b
    ensures |a| <= |b|
  {
    if a != {} {
      var e :| e in a;
      Subset(a - {e}, b - {e});
    }
  }

  lemma ProperSubset(a: set<Class>, b: set<Class>, e: Class)
    requires a <= b && e in b && e !in a
    ensures |a| < |b|
  {
    Subset(a, b - {e});
  }

  /** Inheritance is reachable step by step. */
  lemma {:induction false} InheritedIsReachable(g: Graph, u: Class, x: Class)
    requires WellFormed(g) && Stepwise(g) && u in Mro(g, x)
    ensures FullReach(g, u, x)
    decreases |Mro(g, x)| - |Mro(g, u)|
  {
    hide WellFormed, Mro, Subclasses, Registry, Next, CanReach, Everywhere;
    if u == x {
      ReachSelf(Everywhere(g), u);
    } else {
      assert StepDown(g, u, x);
      var d :| d in Subclasses(g, u) && d in Mro(g, x) && d != u;
      SmallerMro(g, u, d, x);
      InheritedIsReachable(g, d, x);
      EverywhereNext(g, u);
      ReachFirst(Everywhere(g), u, d, x);
    }
  }

  /** Every positive answer is backed by reachability. */
  lemma AnswerIsReachable(g: Graph, x: Class, c: Class)
    requires WellFormed(g) && Stepwise(g) && Answer(g, x, c)
    ensures FullReach(g, c, x)
  {
    hide WellFormed, Mro, CanReach, Everywhere;
    AnswerIsSub(g, x, c);
    var u :| u in Mro(g, x) && CanReach(g, c, u);
    EverywhereReach(g, c, u);
    InheritedIsReachable(g, u, x);
    ReachTrans(Everywhere(g), c, u, x);
  }

  /** Below an ordinary class, registration keeps inside its descendants. */
  lemma {:induction false} StaysBelow(g: Graph, p: Class, q: seq<Class>)
    requires WellFormed(g) && RegisteredBelowBases(g) && p !in g.abc
    requires IsPath(g, q) && p in Mro(g, q[0])
    ensures p in Mro(g, q[|q| - 1])
  {
    if |q| > 1 {
      StepBelow(g, p, q[0], q[1]);
      hide WellFormed, RegisteredBelowBases, Mro;
      StaysBelow(g, p, q[1..]);
    }
  }

  lemma StepBelow(g: Graph, p: Class, c: Class, d: Class)
    requires WellFormed(g) && RegisteredBelowBases(g) && p !in g.abc
    requires d in Next(g, c) && p in Mro(g, c)
    ensures p in Mro(g, d)
  {
    if d in Subclasses(g, c) {
      MroUp(g, c, d);
    }
  }

  lemma SubStaysBelow(g: Graph, p: Class, c: Class, x: Class)
    requires WellFormed(g) && RegisteredBelowBases(g) && p !in g.abc && p in Mro(g, c) && Sub(g, x, c)
    ensures p in Mro(g, x)
  {
    hide WellFormed, RegisteredBelowBases, Mro;
    var u :| u in Mro(g, x) && CanReach(g, c, u);
    var q :| Leads(g, q, c, u);
    StaysBelow(g, p, q);
    MroUp(g, u, x);
  }

  lemma {:induction false} ReachableIsAnswer(g: Graph, p: seq<Class>, c: Class, x: Class)
    requires WellFormed(g) && RegisteredBelowBases(g) && Leads(Everywhere(g), p, c, x) && x in g.classes
    ensures Answer(g, x, c)
  {
    if |p| == 1 {
      SelfSub(g, x);
    } else {
      hide WellFormed, RegisteredBelowBases, Mro, Everywhere, CanReach, Sub;
      var d := p[1];
      assert Leads(Everywhere(g), p[1..], d, x);
      ReachableIsAnswer(g, p[1..], d, x);
      AnswerIsSub(g, x, d);
      StepAnswer(g, c, d, x);
    }
  }

  lemma StepAnswer(g: Graph, c: Class, d: Class, x: Class)
    requires WellFormed(g) && RegisteredBelowBases(g)
    requires d in Next(Everywhere(g), c) && Sub(g, x, d)
    ensures Answer(g, x, c)
  {
    EverywhereNext(g, c);
    hide WellFormed, RegisteredBelowBases, Mro, Everywhere, CanReach, Sub;
    if c in g.abc {
      SubUnfold(g, x, c);
    } else {
      OrdinaryEdge(g, c, d);
      SubStaysBelow(g, c, d, x);
    }
  }

  lemma OrdinaryEdge(g: Graph, c: Class, d: Class)
    requires WellFormed(g) && c !in g.abc && d in Registry(g, c) + Subclasses(g, c)
    ensures c in Mro(g, d)
  {
  }

  lemma RegisteredReach(g: Graph, p: Class, a: Class, r: Class)
    requires WellFormed(g) && Stepwise(g) && p in Mro(g, a) && r in Registry(g, a)
    ensures FullReach(g, p, r)
  {
    hide WellFormed, Mro, CanReach, Everywhere;
    InheritedIsReachable(g, p, a);
    EverywhereNext(g, a);
    ReachSelf(Everywhere(g), r);
    ReachFirst(Everywhere(g), a, r, r);
    ReachTrans(Everywhere(g), p, a, r);
  }

  ghost predicate AnswersAreReachability(g: Graph)
  {
    forall x, c :: x in g.classes && c in g.classes ==> (Answer(g, x, c) <==> FullReach(g, c, x))
  }

  /** issubclass is reachability over inheritance and registration edges exactly when whatever is
      registered under an ABC also derives from that ABC's ordinary bases. */
  lemma ReachabilityExactly(g: Graph)
    requires WellFormed(g) && Stepwise(g)
    ensures AnswersAreReachability(g) <==> RegisteredBelowBases(g)
  {
    hide WellFormed, Stepwise, Everywhere;
    if RegisteredBelowBases(g) {
      forall x, c | x in g.classes && c in g.classes ensures Answer(g, x, c) <==> FullReach(g, c, x) {
        if Answer(g, x, c) {
          AnswerIsReachable(g, x, c);
        }
        if FullReach(g, c, x) {
          var p :| Leads(Everywhere(g), p, c, x);
          ReachableIsAnswer(g, p, c, x);
        }
      }
    } else {
      var p: Class, a: Class, r: Class :| p !in g.abc && p in Mro(g, a) && r in Registry(g, a) && p !in Mro(g, r);
      RegisteredReach(g, p, a, r);
      Inhabited(g, p, a, r);
    }
  }

  /** In particular when all classes but the common root are ABCs. */
  lemma AllAbcsButRoot(g: Graph, root: Class)
    requires WellFormed(g) && Stepwise(g)
    requires g.classes - {root} <= g.abc && forall c :: c in g.classes ==> root in Mro(g, c)
    ensures AnswersAreReachability(g)
  {
    forall p: Class, a: Class, r: Class | p !in g.abc && p in Mro(g, a) && r in Registry(g, a)
      ensures p in Mro(g, r)
    {
      Inhabited(g, p, a, r);
    }
    ReachabilityExactly(g);
  }

  lemma Inhabited(g: Graph, p: Class, a: Class, r: Class)
    requires WellFormed(g) && p in Mro(g, a) && r in Registry(g, a)
    ensures p in g.classes && r in g.classes
  {
  }

  const TWO_CLASSES := Graph({0, 1}, {}, map[0 := {0}, 1 := {0, 1}], map[0 := {1}, 1 := {}], map[])

  const THREE_CLASSES := Graph({0, 1, 2}, {2}, map[0 := {0}, 1 := {0, 1}, 2 := {0, 1, 2}],
                               map[0 := {1}, 1 := {2}, 2 := {}], map[2 := {}])

  const FOUR_CLASSES := Graph({0, 1, 2, 3}, {2}, map[0 := {0}, 1 := {0, 1}, 2 := {0, 1, 2}, 3 := {0, 3}],
                              map[0 := {1, 3}, 1 := {2}, 2 := {}, 3 := {}], map[2 := {}])

  /** Deriving a class from one base. */
  lemma DerivedFromOne(g: Graph, n: Class, b: Class, isAbc: bool)
    requires WithClass(g, n, {b}, isAbc).classes == g.classes + {n}
    ensures WithClass(g, n, {b}, isAbc).mro == g.mro[n := Mro(g, b) + {n}]
    ensures WithClass(g, n, {b}, isAbc).subs.Keys == g.classes + {n}
    ensures forall c :: c in g.classes + {n} ==>
              WithClass(g, n, {b}, isAbc).subs[c] == Subclasses(g, c) + if c == b then {n} else {}
  {
    assert Ancestors(g, {b}) == Mro(g, b);
  }

  lemma FirstClass()
    ensures Creatable(RootGraph(0), 1, {0}, false) && WithClass(RootGraph(0), 1, {0}, false) == TWO_CLASSES
  {
    DerivedFromOne(RootGraph(0), 1, 0, false);
    var m := WithClass(RootGraph(0), 1, {0}, false).subs;
    assert m.Keys == {0, 1} && m[0] == {1} && m[1] == {};
  }

  lemma SecondClass()
    ensures Creatable(TWO_CLASSES, 2, {1}, true) && WithClass(TWO_CLASSES, 2, {1}, true) == THREE_CLASSES
  {
    DerivedFromOne(TWO_CLASSES, 2, 1, true);
    var m := WithClass(TWO_CLASSES, 2, {1}, true).subs;
    assert m.Keys == {0, 1, 2} && m[0] == {1} && m[1] == {2} && m[2] == {};
  }

  lemma ThirdClass()
    ensures Creatable(THREE_CLASSES, 3, {0}, false) && WithClass(THREE_CLASSES, 3, {0}, false) == FOUR_CLASSES
  {
    DerivedFromOne(THREE_CLASSES, 3, 0, false);
    var h := WithClass(THREE_CLASSES, 3, {0}, false);
    var m := h.subs;
    assert Mro(THREE_CLASSES, 0) == {0} && h.mro[3] == {0, 3};
    assert h.mro == FOUR_CLASSES.mro && h.classes == FOUR_CLASSES.classes && h.abc == {2};
    assert h.registry == FOUR_CLASSES.registry;
    assert m.Keys == {0, 1, 2, 3} && m[0] == {1, 3} && m[1] == {2} && m[2] == {} && m[3] == {};
    assert m == FOUR_CLASSES.subs;
  }

  lemma FourClassesFacts()
    ensures var g := FOUR_CLASSES;
            Mro(g, 3) == {0, 3} && Mro(g, 2) == {0, 1, 2} && Next(g, 2) == {}
  {
  }

  /** A run of ordinary calls that breaks the condition: class 1 is ordinary, class 2 an ABC
      derived from it, and class 3, unrelated to 1, is registered under 2. Then
      issubclass(3, 1) is False although 3 is reachable from 1. */
  method OrdinaryBaseBreaksReachability() returns (w: AbcWorld, ok: bool)
    ensures fresh(w) && w.Valid() && !ok
    ensures 3 in w.graph.classes && 1 in w.graph.classes && !Answer(w.graph, 3, 1) && FullReach(w.graph, 1, 3)
  {
    hide Consistent, Answer, FullReach, WithRegistered, WithClass, Creatable, Sub, RootGraph, OnlyGrows, SameAnswers;
    w := new AbcWorld(0);
    FirstClass();
    w.Create(1, {0}, false);
    SecondClass();
    w.Create(2, {1}, true);
    ThirdClass();
    w.Create(3, {0}, false);
    NotYetRegistered(FOUR_CLASSES);
    var r := w.Register(2, 3);
    w.IsSound();
    NotBelowThough(FOUR_CLASSES, w.graph);
    ok := w.IsSubclass(3, 1);
  }

  lemma NotYetRegistered(g: Graph)
    requires g == FOUR_CLASSES
    ensures !Sub(g, 3, 2) && !Sub(g, 2, 3)
  {
    FourClassesFacts();
    hide Sub, Next, Mro;
    SubUnfold(g, 3, 2);
    OrdinaryAnswer(g, 2, 3);
  }

  lemma NotBelowThough(g: Graph, h: Graph)
    requires g == FOUR_CLASSES && h == WithRegistered(g, 2, 3) && WellFormed(h) && Stepwise(h)
    ensures 1 in h.classes && 3 in h.classes && !Sub(h, 3, 1) && !Answer(h, 3, 1) && FullReach(h, 1, 3)
  {
    FourClassesFacts();
    RegisterNext(g, 2, 3, 3);
    RegisterNext(g, 2, 3, 2);
    RegisteredUnder(g, 2, 3);
    RegisterShape(g, 2, 3);
    hide Sub, Next, Mro, WithRegistered, WellFormed, Stepwise, FullReach, Registry;
    RegisteredReach(h, 1, 2, 3);
    OrdinaryAnswer(h, 3, 1);
  }

  lemma RegisteredUnder(g: Graph, cls: Class, sub: Class)
    requires cls in g.registry
    ensures sub in Registry(WithRegistered(g, cls, sub), cls)
  {
  }

  lemma RegisterShape(g: Graph, cls: Class, sub: Class)
    requires cls in g.registry
    ensures WithRegistered(g, cls, sub).abc == g.abc && WithRegistered(g, cls, sub).classes == g.classes
  {
  }

  // ----- Whole runs

  datatype Op =
    | Create(n: Class, bases: set<Class>, isAbc: bool)
    | Register(cls: Class, subclass: Class)
    | IsSubclass(subclass: Class, cls: Class)
    | IsInstance(instanceClass: Class, instanceType: Class, cls: Class)
    | ClearCaches(cls: Class)

  /** The call names existing classes, and ABCs where it must. */
  predicate Sensible(g: Graph, op: Op)
  {
    match op
    case Create(n, bases, isAbc) => Creatable(g, n, bases, isAbc)
    case Register(cls, subclass) => cls in g.abc && cls in g.classes && subclass in g.classes
    case IsSubclass(subclass, cls) => cls in g.classes && subclass in g.classes
    case IsInstance(k, t, cls) => cls in g.abc && cls in g.classes && k in g.classes && t in g.classes
    case ClearCaches(cls) => cls in g.abc
  }

  /** The graph after a call: only class creation and a registration that is neither needed nor
      refused change it. */
  ghost function After(g: Graph, op: Op): Graph
  {
    match op
    case Create(n, bases, isAbc) => WithClass(g, n, bases, isAbc)
    case Register(cls, subclass) =>
      if Sub(g, subclass, cls) || Sub(g, cls, subclass) || cls !in g.registry then g
      else WithRegistered(g, cls, subclass)
    case _ => g
  }

  ghost function AfterAll(g: Graph, ops: seq<Op>): Graph
  {
    if ops == [] then g else After(AfterAll(g, ops[..|ops| - 1]), ops[|ops| - 1])
  }

  /** What a query must answer, and whether a registration is accepted. */
  ghost predicate TrueAnswer(g: Graph, op: Op, ok: bool)
  {
    match op
    case IsSubclass(subclass, cls) => ok == Sub(g, subclass, cls)
    case IsInstance(k, t, cls) => ok == (Sub(g, k, cls) || Sub(g, t, cls))
    case Register(cls, subclass) => ok == (Sub(g, subclass, cls) || !Sub(g, cls, subclass))
    case _ => ok
  }

  method Do(w: AbcWorld, op: Op) returns (ok: bool)
    requires w.Valid() && Sensible(w.graph, op)
    modifies w
    ensures w.Valid() && w.graph == After(old(w.graph), op)
    ensures OnlyGrows(old(w.graph), w.graph)
    ensures TrueAnswer(old(w.graph), op, ok)
  {
    hide Sub, Ordered, Stepwise, Ranked, CacheTrue, NegativeTrue, CanReach, WithRegistered, WithClass, Creatable;
    GrowsSelf(w.graph);
    ok := true;
    match op {
      case Create(n, bases, isAbc) =>
        w.Create(n, bases, isAbc);
      case Register(cls, subclass) =>
        var r := w.Register(cls, subclass);
        ok := r.Done?;
      case IsSubclass(subclass, cls) =>
        ok := w.IsSubclass(subclass, cls);
      case IsInstance(k, t, cls) =>
        ok := w.InstanceCheck(cls, k, t);
      case ClearCaches(cls) =>
        w.CachesClear(cls);
    }
  }

  /** What a query answers in terms of all edges, where that is what it is about. */
  ghost predicate MeansReachability(g: Graph, op: Op, ok: bool)
  {
    RegisteredBelowBases(g) ==>
      match op
      case IsSubclass(subclass, cls) => ok <==> FullReach(g, cls, subclass)
      case IsInstance(k, t, cls) => ok <==> FullReach(g, cls, k) || FullReach(g, cls, t)
      case _ => true
  }

  lemma TrueMeansReachability(g: Graph, op: Op, ok: bool)
    requires WellFormed(g) && Stepwise(g) && Sensible(g, op) && TrueAnswer(g, op, ok)
    ensures MeansReachability(g, op, ok)
  {
    ReachabilityExactly(g);
    hide WellFormed, Stepwise, Sub, FullReach, RegisteredBelowBases;
    match op {
      case IsSubclass(subclass, cls) =>
        AnswerIsSub(g, subclass, cls);
      case IsInstance(k, t, cls) =>
        AnswerIsSub(g, k, cls);
        AnswerIsSub(g, t, cls);
      case _ =>
    }
  }

  /** Every interleaving of class creation, registration, queries and cache clearing: each query
      is answered truly for the graph at its time, which the calls before it determine without
      any cache; the answer is reachability whenever it can be; and nothing true then is false at
      the end. A run stops at the first call that is not sensible. */
  method Run(w: AbcWorld, ops: seq<Op>) returns (answers: seq<bool>)
    requires w.Valid()
    modifies w
    ensures w.Valid() && |answers| <= |ops| && w.graph == AfterAll(old(w.graph), ops[..|answers|])
    ensures |answers| < |ops| ==> !Sensible(w.graph, ops[|answers|])
    ensures forall i :: 0 <= i < |answers| ==> Sensible(AfterAll(old(w.graph), ops[..i]), ops[i])
    ensures forall i :: 0 <= i < |answers| ==> TrueAnswer(AfterAll(old(w.graph), ops[..i]), ops[i], answers[i])
    ensures forall i :: 0 <= i < |answers| ==> MeansReachability(AfterAll(old(w.graph), ops[..i]), ops[i], answers[i])
    ensures forall i :: 0 <= i <= |answers| ==> OnlyGrows(AfterAll(old(w.graph), ops[..i]), w.graph)
  {
    hide MeansReachability, Sub, Ordered, Stepwise, Ranked, CacheTrue, NegativeTrue, CanReach, TrueAnswer, After, AfterAll, Sensible;
    answers := [];
    GrowsSelf(w.graph);
    NothingDone(w.graph, ops);
    while |answers| < |ops|
      invariant w.Valid() && |answers| <= |ops| && w.graph == AfterAll(old(w.graph), ops[..|answers|])
      invariant forall i :: 0 <= i < |answers| ==> Sensible(AfterAll(old(w.graph), ops[..i]), ops[i])
      invariant forall i :: 0 <= i < |answers| ==> TrueAnswer(AfterAll(old(w.graph), ops[..i]), ops[i], answers[i])
      invariant forall i :: 0 <= i < |answers| ==> MeansReachability(AfterAll(old(w.graph), ops[..i]), ops[i], answers[i])
      invariant forall i :: 0 <= i <= |answers| ==> OnlyGrows(AfterAll(old(w.graph), ops[..i]), w.graph)
    {
      if !Sensible(w.graph, ops[|answers|]) {
        return;
      }
      OneMore(old(w.graph), ops, |answers|);
      ghost var g := w.graph;
      var ok := Do(w, ops[|answers|]);
      TrueMeansReachability(g, ops[|answers|], ok);
      GrowsSelf(w.graph);
      answers := answers + [ok];
    }
  }

  lemma NothingDone(g: Graph, ops: seq<Op>)
    ensures AfterAll(g, ops[..0]) == g
  {
  }

  lemma OneMore(g: Graph, ops: seq<Op>, n: nat)
    requires n < |ops|
    ensures AfterAll(g, ops[..n + 1]) == After(AfterAll(g, ops[..n]), ops[n])
  {
    assert ops[..n + 1][..n] == ops[..n];
  }
}
