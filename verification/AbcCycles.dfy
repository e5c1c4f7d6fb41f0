/** Cycles in the graph of all inheritance and registration edges: which registrations close one, and
    which of them `register` lets through. */
module AbcCycles {
  import opened ClassGraphs
  import opened AbcCaches
  import opened AbcMeaning

  /** No path over "direct subclass" and "registered under" edges comes back to where it started. */
  ghost predicate Acyclic(g: Graph)
  {
    forall p :: IsPath(Everywhere(g), p) && |p| > 1 ==> p[0] != p[|p| - 1]
  }

  lemma EverywhereRegistered(g: Graph, cls: Class, sub: Class)
    requires cls in g.registry
    ensures Everywhere(WithRegistered(g, cls, sub)) == WithRegistered(Everywhere(g), cls, sub)
  {
  }

  /** The new edge closes a cycle exactly when there already is a way back. */
  lemma RegisterCloses(g: Graph, cls: Class, sub: Class)
    requires WellFormed(g) && cls in g.abc && Acyclic(g)
    ensures Acyclic(WithRegistered(g, cls, sub)) <==> !FullReach(g, sub, cls)
  {
    hide WellFormed, Next, Everywhere, WithRegistered;
    KeyedFacts(g, cls);
    EverywhereRegistered(g, cls, sub);
    var e := Everywhere(g);
    var f := WithRegistered(e, cls, sub);
    if FullReach(g, sub, cls) {
      RegisterNext(e, cls, sub, cls);
      RegisterKeepsReach(e, cls, sub, sub, cls);
      var p :| Leads(f, p, sub, cls);
      assert ([cls] + p)[1..] == p;
      assert IsPath(f, [cls] + p);
    } else {
      forall p | IsPath(f, p) && |p| > 1 ensures p[0] != p[|p| - 1] {
        RegisterPath(e, cls, sub, p);
        if p[0] == p[|p| - 1] && !IsPath(e, p) {
          ReachTrans(e, sub, p[0], cls);
        }
      }
    }
  }

  lemma KeyedFacts(g: Graph, cls: Class)
    requires WellFormed(g) && cls in g.abc
    ensures cls in g.registry && cls in Everywhere(g).registry && cls in Everywhere(g).abc
  {
  }

  /** The guards of `register` see every such cycle when what is registered under an ABC derives
      from its ordinary bases. */
  lemma GuardsKeepAcyclic(g: Graph, cls: Class, sub: Class)
    requires WellFormed(g) && Stepwise(g) && RegisteredBelowBases(g)
    requires cls in g.abc && cls in g.classes && sub in g.classes && Acyclic(g)
    ensures Acyclic(WithRegistered(g, cls, sub)) <==> !Sub(g, cls, sub)
  {
    hide WellFormed, Stepwise, Sub, CanReach, RegisteredBelowBases, Acyclic;
    ReachabilityExactly(g);
    AnswerIsSub(g, cls, sub);
    assert Answer(g, cls, sub) <==> FullReach(g, sub, cls);
    RegisterCloses(g, cls, sub);
  }

  /** A path between old classes in the graph with a new class is a path of the old graph. */
  lemma {:induction false} CreateOldPath(g: Graph, n: Class, bases: set<Class>, isAbc: bool, p: seq<Class>)
    requires WellFormed(g) && Creatable(g, n, bases, isAbc)
    requires IsPath(Everywhere(WithClass(g, n, bases, isAbc)), p) && p[|p| - 1] != n
    ensures p[0] != n && IsPath(Everywhere(g), p)
  {
    hide WellFormed, WithClass, Everywhere, Creatable;
    if |p| > 1 {
      CreateNext(g, n, bases, isAbc, p[0]);
      CreateOldPath(g, n, bases, isAbc, p[1..]);
    }
  }

  lemma CreateNext(g: Graph, n: Class, bases: set<Class>, isAbc: bool, c: Class)
    requires WellFormed(g) && Creatable(g, n, bases, isAbc)
    ensures var h := WithClass(g, n, bases, isAbc);
            Next(Everywhere(g), c) <= Next(Everywhere(h), c) <= Next(Everywhere(g), c) + {n}
            && (c == n ==> Next(Everywhere(h), c) == {})
  {
    CreateParts(g, n, bases, isAbc, c);
    CreateWellFormed(g, n, bases, isAbc);
    EverywhereNext(g, c);
    EverywhereNext(WithClass(g, n, bases, isAbc), c);
    NewHasNothing(g, n, bases, isAbc);
  }

  lemma NewHasNothing(g: Graph, n: Class, bases: set<Class>, isAbc: bool)
    requires WellFormed(g) && Creatable(g, n, bases, isAbc)
    ensures Registry(g, n) == {} && Subclasses(g, n) == {} && n !in bases
  {
  }

  lemma CreateKeepsAcyclic(g: Graph, n: Class, bases: set<Class>, isAbc: bool)
    requires WellFormed(g) && Creatable(g, n, bases, isAbc) && Acyclic(g)
    ensures Acyclic(WithClass(g, n, bases, isAbc))
  {
    hide WellFormed, WithClass, Everywhere, Creatable, Next;
    var h := WithClass(g, n, bases, isAbc);
    forall p | IsPath(Everywhere(h), p) && |p| > 1 ensures p[0] != p[|p| - 1] {
      if p[|p| - 1] == n {
        CreateNext(g, n, bases, isAbc, p[0]);
      } else {
        CreateOldPath(g, n, bases, isAbc, p);
      }
    }
  }

  // ----- Whole runs

  ghost predicate Sound(g: Graph)
  {
    WellFormed(g) && Stepwise(g)
  }

  lemma AfterIsSound(g: Graph, op: Op)
    requires Sound(g) && Sensible(g, op)
    ensures Sound(After(g, op))
  {
    hide WellFormed, Stepwise, Sub, WithClass, WithRegistered, Creatable;
    match op {
      case Create(n, bases, isAbc) =>
        CreateWellFormed(g, n, bases, isAbc);
        CreateStepwise(g, n, bases, isAbc);
      case Register(cls, subclass) =>
        KeyedFacts(g, cls);
        RegisterWellFormed(g, cls, subclass);
        RegisterStepwise(g, cls, subclass);
      case _ =>
    }
  }

  /** A registration that both guards let through although there is a way back. */
  ghost predicate Closes(g: Graph, op: Op)
  {
    op.Register? && !Sub(g, op.subclass, op.cls) && !Sub(g, op.cls, op.subclass) && FullReach(g, op.subclass, op.cls)
  }

  /** A cycle stays. */
  lemma CyclesStay(g: Graph, op: Op)
    requires Sound(g) && Sensible(g, op) && !Acyclic(g)
    ensures !Acyclic(After(g, op))
  {
    hide WellFormed, Stepwise, Sub, WithClass, WithRegistered, Creatable, Everywhere;
    var p :| IsPath(Everywhere(g), p) && |p| > 1 && p[0] == p[|p| - 1];
    match op {
      case Create(n, bases, isAbc) =>
        CreateKeepsFullPath(g, n, bases, isAbc, p);
      case Register(cls, subclass) =>
        KeyedFacts(g, cls);
        EverywhereRegistered(g, cls, subclass);
        RegisterKeepsPath(Everywhere(g), cls, subclass, p);
      case _ =>
    }
  }

  lemma {:induction false} CreateKeepsFullPath(g: Graph, n: Class, bases: set<Class>, isAbc: bool, p: seq<Class>)
    requires WellFormed(g) && Creatable(g, n, bases, isAbc) && IsPath(Everywhere(g), p)
    ensures IsPath(Everywhere(WithClass(g, n, bases, isAbc)), p)
  {
    hide WellFormed, WithClass, Everywhere, Creatable, Next;
    if |p| > 1 {
      CreateNext(g, n, bases, isAbc, p[0]);
      CreateKeepsFullPath(g, n, bases, isAbc, p[1..]);
    }
  }

  /** One call keeps the graph of all edges acyclic exactly when it is no closing registration. */
  lemma AfterAcyclicExactly(g: Graph, op: Op)
    requires Sound(g) && Sensible(g, op)
    ensures Acyclic(After(g, op)) <==> Acyclic(g) && !Closes(g, op)
  {
    hide WellFormed, Stepwise, Sub, WithClass, WithRegistered, Creatable, Acyclic, FullReach;
    if !Acyclic(g) {
      CyclesStay(g, op);
    } else {
      match op {
        case Create(n, bases, isAbc) =>
          CreateKeepsAcyclic(g, n, bases, isAbc);
        case Register(cls, subclass) =>
          KeyedFacts(g, cls);
          RegisterCloses(g, cls, subclass);
        case _ =>
      }
    }
  }

  ghost predicate AllSensible(g: Graph, ops: seq<Op>)
  {
    forall i :: 0 <= i < |ops| ==> Sensible(AfterAll(g, ops[..i]), ops[i])
  }

  ghost predicate NoneCloses(g: Graph, ops: seq<Op>)
  {
    forall i :: 0 <= i < |ops| ==> !Closes(AfterAll(g, ops[..i]), ops[i])
  }

  lemma LastCall(g: Graph, ops: seq<Op>)
    requires ops != []
    ensures var n := |ops| - 1;
            && (AllSensible(g, ops) ==> AllSensible(g, ops[..n]) && Sensible(AfterAll(g, ops[..n]), ops[n]))
            && (NoneCloses(g, ops) <==> NoneCloses(g, ops[..n]) && !Closes(AfterAll(g, ops[..n]), ops[n]))
            && AfterAll(g, ops) == After(AfterAll(g, ops[..n]), ops[n])
  {
    hide AfterAll, After, Sensible, Closes;
    OneMore(g, ops, |ops| - 1);
    assert ops[..|ops|] == ops;
    assert forall i :: 0 <= i < |ops| - 1 ==> ops[..|ops| - 1][..i] == ops[..i];
  }

  /** A run of sensible calls leaves the graph of all edges acyclic exactly when none of them was
      a closing registration. */
  lemma {:induction false} RunAcyclicExactly(g: Graph, ops: seq<Op>)
    requires Sound(g) && Acyclic(g) && AllSensible(g, ops)
    ensures Sound(AfterAll(g, ops))
    ensures Acyclic(AfterAll(g, ops)) <==> NoneCloses(g, ops)
    decreases |ops|
  {
    hide Sound, Acyclic, After, Sensible, Closes;
    if ops != [] {
      var n := |ops| - 1;
      LastCall(g, ops);
      hide AfterAll, AllSensible, NoneCloses;
      RunAcyclicExactly(g, ops[..n]);
      AfterIsSound(AfterAll(g, ops[..n]), ops[n]);
      AfterAcyclicExactly(AfterAll(g, ops[..n]), ops[n]);
    }
  }

  /** There is none as long as what is registered derives from the ordinary bases. */
  lemma NothingCloses(g: Graph, op: Op)
    requires Sound(g) && Sensible(g, op) && RegisteredBelowBases(g)
    ensures !Closes(g, op)
  {
    hide WellFormed, Stepwise, Sub, CanReach, RegisteredBelowBases;
    if op.Register? {
      ReachabilityExactly(g);
      AnswerIsSub(g, op.cls, op.subclass);
      assert Answer(g, op.cls, op.subclass) <==> FullReach(g, op.subclass, op.cls);
    }
  }

  // ----- A cycle that gets through

  const FOUR_WITH_ABC := Graph({0, 1, 2, 3}, {2, 3}, map[0 := {0}, 1 := {0, 1}, 2 := {0, 1, 2}, 3 := {0, 3}],
                               map[0 := {1, 3}, 1 := {2}, 2 := {}, 3 := {}], map[2 := {}, 3 := {}])

  lemma ThirdIsAbc()
    ensures Creatable(THREE_CLASSES, 3, {0}, true) && WithClass(THREE_CLASSES, 3, {0}, true) == FOUR_WITH_ABC
  {
    DerivedFromOne(THREE_CLASSES, 3, 0, true);
    var h := WithClass(THREE_CLASSES, 3, {0}, true);
    var m := h.subs;
    assert Mro(THREE_CLASSES, 0) == {0} && h.mro[3] == {0, 3};
    assert h.mro == FOUR_WITH_ABC.mro && h.classes == FOUR_WITH_ABC.classes && h.abc == {2, 3};
    assert h.registry == FOUR_WITH_ABC.registry;
    assert m.Keys == {0, 1, 2, 3} && m[0] == {1, 3} && m[1] == {2} && m[2] == {} && m[3] == {};
    assert m == FOUR_WITH_ABC.subs;
  }

  lemma FourFacts()
    ensures var g := FOUR_WITH_ABC;
            && Mro(g, 1) == {0, 1} && Mro(g, 2) == {0, 1, 2} && Mro(g, 3) == {0, 3}
            && Next(g, 1) == {} && Next(g, 2) == {} && Next(g, 3) == {} && Subclasses(g, 1) == {2}
  {
  }

  /** Class 1 is ordinary, 2 an ABC derived from it, 3 another ABC. Registering 3 under 2 and then
      1 under 3 passes both guards, as an ordinary class is only asked for its MRO; afterwards
      1 and 2 are subclasses of each other, and the edges lead from 1 back to 1. */
  method CycleThroughOrdinaryBase() returns (w: AbcWorld, first: Registered, second: Registered)
    ensures fresh(w) && w.Valid() && first.Done? && second.Done?
    ensures 1 in w.graph.classes && 2 in w.graph.classes && Sub(w.graph, 1, 2) && Sub(w.graph, 2, 1)
    ensures IsPath(Everywhere(w.graph), [1, 2, 3, 1]) && !Acyclic(w.graph)
  {
    hide Consistent, WithRegistered, WithClass, Creatable, Sub, RootGraph, OnlyGrows, SameAnswers, Acyclic, IsPath, Everywhere;
    w := new AbcWorld(0);
    FirstClass();
    w.Create(1, {0}, false);
    SecondClass();
    w.Create(2, {1}, true);
    ThirdIsAbc();
    w.Create(3, {0}, true);
    FirstGuards(FOUR_WITH_ABC);
    first := w.Register(2, 3);
    SecondGuards(w.graph);
    second := w.Register(3, 1);
    CycleClosed(w.graph);
  }

  lemma FirstGuards(g: Graph)
    requires g == FOUR_WITH_ABC
    ensures !Sub(g, 3, 2) && !Sub(g, 2, 3)
  {
    FourFacts();
    hide Sub, Next, Mro;
    SubUnfold(g, 3, 2);
    SubUnfold(g, 2, 3);
  }

  lemma SecondGuards(g1: Graph)
    requires g1 == WithRegistered(FOUR_WITH_ABC, 2, 3)
    ensures 3 in g1.abc && g1.classes == {0, 1, 2, 3} && !Sub(g1, 1, 3) && !Sub(g1, 3, 1)
  {
    BothRegistered(FOUR_WITH_ABC, g1);
    hide Sub, Next, Mro;
    SubUnfold(g1, 1, 3);
    SubUnfold(g1, 3, 1);
  }

  /** After the first registration. */
  lemma BothRegistered(g: Graph, g1: Graph)
    requires g == FOUR_WITH_ABC && g1 == WithRegistered(g, 2, 3)
    ensures Next(g1, 3) == {} && Next(g1, 1) == {} && Mro(g1, 1) == {0, 1} && Mro(g1, 3) == {0, 3}
    ensures 3 in Registry(g1, 2) && Subclasses(g1, 1) == {2}
  {
  }

  lemma CycleSteps(g2: Graph)
    requires g2 == WithRegistered(WithRegistered(FOUR_WITH_ABC, 2, 3), 3, 1)
    ensures 2 in Next(Everywhere(g2), 1) && 3 in Next(Everywhere(g2), 2) && 1 in Next(Everywhere(g2), 3)
    ensures 3 in Next(g2, 2) && 1 in Next(g2, 3) && 1 in Mro(g2, 1) && 1 in Mro(g2, 2)
  {
  }

  lemma CycleClosed(g2: Graph)
    requires g2 == WithRegistered(WithRegistered(FOUR_WITH_ABC, 2, 3), 3, 1)
    ensures Sub(g2, 1, 2) && Sub(g2, 2, 1)
    ensures IsPath(Everywhere(g2), [1, 2, 3, 1]) && !Acyclic(g2)
  {
    CycleSteps(g2);
    hide Next, Everywhere, Mro, WithRegistered, CanReach;
    StepOn(Everywhere(g2), 3, [1]);
    StepOn(Everywhere(g2), 2, [3, 1]);
    StepOn(Everywhere(g2), 1, [2, 3, 1]);
    ReachSelf(g2, 1);
    ReachFirst(g2, 3, 1, 1);
    ReachFirst(g2, 2, 3, 1);
  }

  lemma StepOn(g: Graph, c: Class, p: seq<Class>)
    requires IsPath(g, p) && p[0] in Next(g, c)
    ensures IsPath(g, [c] + p)
  {
    assert ([c] + p)[1..] == p;
  }
}
