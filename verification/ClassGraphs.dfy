/** Classes, inheritance and registration as a graph, and what issubclass means on it. */
module ClassGraphs {

  type Class = nat

  /** `abc`: classes whose metaclass is ABCMeta. `mro[c]`: c and all its ancestors.
      `subs[c]`: `c.__subclasses__()`. `registry[c]`: classes registered under c. */
  datatype Graph = Graph(classes: set<Class>, abc: set<Class>, mro: map<Class, set<Class>>,
                         subs: map<Class, set<Class>>, registry: map<Class, set<Class>>)

  function Mro(g: Graph, c: Class): set<Class> { if c in g.mro then g.mro[c] else {} }

  function Subclasses(g: Graph, c: Class): set<Class> { if c in g.subs then g.subs[c] else {} }

  function Registry(g: Graph, c: Class): set<Class> { if c in g.registry then g.registry[c] else {} }

  /** What the type system keeps: MROs are closed upwards and antisymmetric, and a subclass of an
      ABC is an ABC. */
  ghost predicate WellFormed(g: Graph)
  {
    Keyed(g) && Ordered(g)
  }

  ghost predicate Ordered(g: Graph)
  {
    Inside(g) && Closed(g) && AbcBelowAbc(g)
  }

  predicate Keyed(g: Graph)
  {
    g.mro.Keys == g.classes && g.subs.Keys == g.classes && g.registry.Keys == g.abc && g.abc <= g.classes
  }

  ghost predicate Inside(g: Graph)
  {
    forall c :: Mro(g, c) <= g.classes && Subclasses(g, c) <= g.classes && Registry(g, c) <= g.classes
  }

  ghost predicate Closed(g: Graph)
  {
    && (forall c :: c in g.classes ==> c in Mro(g, c))
    && (forall c, d :: d in Subclasses(g, c) ==> c in Mro(g, d))
    && (forall c, d :: c in Mro(g, d) ==> Mro(g, c) <= Mro(g, d))
    && (forall c, d :: c in Mro(g, d) && d in Mro(g, c) ==> c == d)
  }

  ghost predicate AbcBelowAbc(g: Graph)
  {
    forall c, d :: c in Mro(g, d) && c in g.abc ==> d in g.abc
  }

  /** Every proper ancestor has a direct subclass on the way down. */
  ghost predicate Stepwise(g: Graph)
  {
    forall c, d :: c in Mro(g, d) && c != d ==> StepDown(g, c, d)
  }

  ghost predicate StepDown(g: Graph, c: Class, d: Class)
  {
    exists e :: e in Subclasses(g, c) && e in Mro(g, d) && e != c
  }

  /** Where the recursive check goes on from `c`; it stops at ordinary classes. */
  function Next(g: Graph, c: Class): set<Class>
  {
    if c in g.abc then Registry(g, c) + Subclasses(g, c) else {}
  }

  ghost predicate IsPath(g: Graph, p: seq<Class>)
  {
    p != [] && (|p| > 1 ==> p[1] in Next(g, p[0]) && IsPath(g, p[1..]))
  }

  ghost predicate Leads(g: Graph, p: seq<Class>, c: Class, d: Class)
  {
    IsPath(g, p) && p[0] == c && p[|p| - 1] == d
  }

  ghost predicate CanReach(g: Graph, c: Class, d: Class)
  {
    exists p :: Leads(g, p, c, d)
  }

  /** What `issubclass(x, c)` should answer for an ABC `c`: the check can get from `c` to an
      ancestor of `x`. */
  ghost predicate Sub(g: Graph, x: Class, c: Class)
  {
    exists u :: u in Mro(g, x) && CanReach(g, c, u)
  }

  /** issubclass in general: an ordinary class only looks at the MRO. */
  ghost predicate Answer(g: Graph, x: Class, c: Class)
  {
    if c in g.abc then Sub(g, x, c) else c in Mro(g, x)
  }

  lemma ReachSelf(g: Graph, c: Class)
    ensures CanReach(g, c, c)
  {
    assert Leads(g, [c], c, c);
  }

  lemma ReachFirst(g: Graph, c: Class, d: Class, u: Class)
    requires d in Next(g, c) && CanReach(g, d, u)
    ensures CanReach(g, c, u)
  {
    var p :| Leads(g, p, d, u);
    assert ([c] + p)[1..] == p;
    assert Leads(g, [c] + p, c, u);
  }

  /** A path is empty or has a first step. */
  lemma ReachUnfold(g: Graph, c: Class, u: Class) returns (d: Class)
    requires CanReach(g, c, u) && c != u
    ensures d in Next(g, c) && CanReach(g, d, u)
  {
    var p :| Leads(g, p, c, u);
    d := p[1];
    assert Leads(g, p[1..], d, u);
  }

  lemma {:induction false} PathTrans(g: Graph, p: seq<Class>, c: Class, d: Class, u: Class)
    requires Leads(g, p, c, d) && CanReach(g, d, u)
    ensures CanReach(g, c, u)
  {
    if |p| > 1 {
      assert Leads(g, p[1..], p[1], d);
      PathTrans(g, p[1..], p[1], d, u);
      ReachFirst(g, c, p[1], u);
    }
  }

  lemma ReachTrans(g: Graph, c: Class, d: Class, u: Class)
    requires CanReach(g, c, d) && CanReach(g, d, u)
    ensures CanReach(g, c, u)
  {
    var p :| Leads(g, p, c, d);
    PathTrans(g, p, c, d, u);
  }

  /** The recursion equation of `__subclasscheck__`. */
  lemma SubUnfold(g: Graph, x: Class, c: Class)
    ensures Sub(g, x, c) <==> c in Mro(g, x) || exists d :: d in Next(g, c) && Sub(g, x, d)
  {
    if c in Mro(g, x) {
      ReachSelf(g, c);
    }
    if d :| d in Next(g, c) && Sub(g, x, d) {
      var u :| u in Mro(g, x) && CanReach(g, d, u);
      ReachFirst(g, c, d, u);
    }
    if Sub(g, x, c) && c !in Mro(g, x) {
      var u :| u in Mro(g, x) && CanReach(g, c, u);
      var d := ReachUnfold(g, c, u);
      assert Sub(g, x, d);
    }
  }

  /** The answer for one step of the recursion is the general answer. */
  lemma AnswerIsSub(g: Graph, x: Class, c: Class)
    ensures Answer(g, x, c) == Sub(g, x, c)
  {
    if c !in g.abc {
      SubUnfold(g, x, c);
    }
  }

  // ----- Acyclicity of the edges the check follows, as a rank that falls along every step

  ghost predicate Falls(rank: map<Class, nat>, c: Class, d: Class)
  {
    c in rank && d in rank && rank[d] < rank[c]
  }

  ghost predicate Ranked(g: Graph, rank: map<Class, nat>)
  {
    forall c: Class, d: Class :: d in Next(g, c) ==> Falls(rank, c, d)
  }

  /** With such a rank every path the check follows is shorter than its start ranks, so the recursion
      ends. */
  lemma {:induction false} PathsEnd(g: Graph, rank: map<Class, nat>, p: seq<Class>)
    requires Ranked(g, rank) && IsPath(g, p) && p[0] in rank
    ensures p[|p| - 1] in rank && rank[p[|p| - 1]] + |p| - 1 <= rank[p[0]]
  {
    if |p| > 1 {
      PathsEnd(g, rank, p[1..]);
    }
  }

  // ----- Registering

  function WithRegistered(g: Graph, cls: Class, sub: Class): Graph
    requires cls in g.registry
  {
    g.(registry := g.registry[cls := g.registry[cls] + {sub}])
  }

  lemma RegisterWellFormed(g: Graph, cls: Class, sub: Class)
    requires WellFormed(g) && cls in g.abc && sub in g.classes
    ensures WellFormed(WithRegistered(g, cls, sub))
  {
    hide Inside, Closed, AbcBelowAbc;
    RegisterInside(g, cls, sub);
    SameMros(g, WithRegistered(g, cls, sub));
  }

  lemma RegisterInside(g: Graph, cls: Class, sub: Class)
    requires Inside(g) && cls in g.registry && sub in g.classes
    ensures Inside(WithRegistered(g, cls, sub))
  {
    var h := WithRegistered(g, cls, sub);
    forall c ensures Mro(h, c) <= h.classes && Subclasses(h, c) <= h.classes && Registry(h, c) <= h.classes {
      assert Mro(h, c) == Mro(g, c) && Subclasses(h, c) == Subclasses(g, c);
      assert Registry(h, c) <= Registry(g, c) + {sub};
    }
  }

  /** The conditions on MROs only look at MROs and direct subclasses. */
  lemma SameMros(g: Graph, h: Graph)
    requires h.mro == g.mro && h.subs == g.subs && h.classes == g.classes && h.abc == g.abc
    ensures Closed(g) ==> Closed(h)
    ensures AbcBelowAbc(g) ==> AbcBelowAbc(h)
  {
    assert forall c :: Mro(h, c) == Mro(g, c) && Subclasses(h, c) == Subclasses(g, c);
    hide Mro, Subclasses;
  }

  lemma RegisterStepwise(g: Graph, cls: Class, sub: Class)
    requires Stepwise(g) && cls in g.registry
    ensures Stepwise(WithRegistered(g, cls, sub))
  {
    var h := WithRegistered(g, cls, sub);
    forall c, d | c in Mro(h, d) && c != d ensures StepDown(h, c, d) {
      assert c in Mro(g, d);
      assert StepDown(g, c, d);
      var e :| e in Subclasses(g, c) && e in Mro(g, d) && e != c;
      assert e in Subclasses(h, c) && e in Mro(h, d);
    }
  }

  lemma RegisterNext(g: Graph, cls: Class, sub: Class, c: Class)
    requires cls in g.registry && cls in g.abc
    ensures Next(WithRegistered(g, cls, sub), c) == Next(g, c) + if c == cls then {sub} else {}
    ensures Mro(WithRegistered(g, cls, sub), c) == Mro(g, c)
  {
  }

  /** Paths survive a registration. */
  lemma {:induction false} RegisterKeepsPath(g: Graph, cls: Class, sub: Class, p: seq<Class>)
    requires cls in g.registry && cls in g.abc && IsPath(g, p)
    ensures IsPath(WithRegistered(g, cls, sub), p)
  {
    hide WithRegistered, Next;
    if |p| > 1 {
      RegisterNext(g, cls, sub, p[0]);
      RegisterKeepsPath(g, cls, sub, p[1..]);
    }
  }

  lemma RegisterKeepsReach(g: Graph, cls: Class, sub: Class, c: Class, d: Class)
    requires cls in g.registry && cls in g.abc && CanReach(g, c, d)
    ensures CanReach(WithRegistered(g, cls, sub), c, d)
  {
    hide WithRegistered, Next, IsPath;
    var p :| Leads(g, p, c, d);
    RegisterKeepsPath(g, cls, sub, p);
    assert Leads(WithRegistered(g, cls, sub), p, c, d);
  }

  /** A path of the new graph is one of the old graph or goes through the new edge. */
  lemma {:induction false} RegisterPath(g: Graph, cls: Class, sub: Class, p: seq<Class>)
    requires cls in g.registry && cls in g.abc && IsPath(WithRegistered(g, cls, sub), p)
    ensures IsPath(g, p) || (CanReach(g, p[0], cls) && CanReach(g, sub, p[|p| - 1]))
  {
    if |p| > 1 {
      hide CanReach, WithRegistered, Next;
      RegisterNext(g, cls, sub, p[0]);
      RegisterPath(g, cls, sub, p[1..]);
      if p[1] in Next(g, p[0]) {
        if !IsPath(g, p[1..]) {
          ReachFirst(g, p[0], p[1], cls);
        }
      } else {
        ReachSelf(g, cls);
        if IsPath(g, p[1..]) {
          PathReaches(g, p[1..]);
        }
      }
    }
  }

  lemma PathReaches(g: Graph, p: seq<Class>)
    requires IsPath(g, p)
    ensures CanReach(g, p[0], p[|p| - 1])
  {
    assert Leads(g, p, p[0], p[|p| - 1]);
  }

  lemma RegisterReach(g: Graph, cls: Class, sub: Class, c: Class, u: Class)
    requires cls in g.registry && cls in g.abc && CanReach(WithRegistered(g, cls, sub), c, u)
    ensures CanReach(g, c, u) || (CanReach(g, c, cls) && CanReach(g, sub, u))
  {
    var p :| Leads(WithRegistered(g, cls, sub), p, c, u);
    RegisterPath(g, cls, sub, p);
    if IsPath(g, p) {
      PathReaches(g, p);
    }
  }

  /** What a registration adds, exactly: everything at or below `sub` now also counts for
      everything the check could take to `cls`. */
  lemma RegisterAdds(g: Graph, cls: Class, sub: Class, x: Class, c: Class)
    requires cls in g.registry && cls in g.abc
    ensures Sub(WithRegistered(g, cls, sub), x, c) <==> Sub(g, x, c) || (CanReach(g, c, cls) && Sub(g, x, sub))
  {
    hide CanReach, WithRegistered, Next;
    var h := WithRegistered(g, cls, sub);
    RegisterNext(g, cls, sub, x);
    if Sub(h, x, c) {
      var u :| u in Mro(h, x) && CanReach(h, c, u);
      RegisterReach(g, cls, sub, c, u);
    }
    if Sub(g, x, c) {
      var u :| u in Mro(g, x) && CanReach(g, c, u);
      RegisterKeepsReach(g, cls, sub, c, u);
    }
    if CanReach(g, c, cls) && Sub(g, x, sub) {
      var u :| u in Mro(g, x) && CanReach(g, sub, u);
      RegisterKeepsReach(g, cls, sub, sub, u);
      RegisterNext(g, cls, sub, cls);
      ReachFirst(h, cls, sub, u);
      RegisterKeepsReach(g, cls, sub, c, cls);
      ReachTrans(h, c, cls, u);
    }
  }

  /** Ranks after a registration: all that reach `cls` move above `sub`. */
  ghost function Raised(g: Graph, rank: map<Class, nat>, cls: Class, sub: Class): map<Class, nat>
    requires sub in rank
  {
    map c | c in rank :: rank[c] + if CanReach(g, c, cls) then rank[sub] + 1 else 0
  }

  /** A registration that closes no cycle of followed edges keeps the recursion ending. */
  lemma RegisterRanked(g: Graph, rank: map<Class, nat>, cls: Class, sub: Class)
    requires Ranked(g, rank) && cls in g.registry && cls in g.abc && sub in rank && cls in rank
    requires !CanReach(g, sub, cls)
    ensures Ranked(WithRegistered(g, cls, sub), Raised(g, rank, cls, sub))
  {
    hide CanReach, WithRegistered, Next;
    var h, r := WithRegistered(g, cls, sub), Raised(g, rank, cls, sub);
    forall c: Class, d: Class | d in Next(h, c) ensures Falls(r, c, d) {
      RegisterNext(g, cls, sub, c);
      if d in Next(g, c) {
        assert Falls(rank, c, d);
        if CanReach(g, d, cls) {
          ReachFirst(g, c, d, cls);
        }
      } else {
        assert c == cls && d == sub;
        ReachSelf(g, cls);
      }
    }
  }

  // ----- Creating a class

  function Ancestors(g: Graph, bases: set<Class>): set<Class>
  {
    set b, c | b in bases && c in Mro(g, b) :: c
  }

  function WithClass(g: Graph, n: Class, bases: set<Class>, isAbc: bool): Graph
  {
    Graph(g.classes + {n},
          if isAbc then g.abc + {n} else g.abc,
          g.mro[n := Ancestors(g, bases) + {n}],
          map c | c in g.classes + {n} :: Subclasses(g, c) + if c in bases then {n} else {},
          if isAbc then g.registry[n := {}] else g.registry)
  }

  /** The class can be created: it is new, and derives from an ABC only if it is one. */
  predicate Creatable(g: Graph, n: Class, bases: set<Class>, isAbc: bool)
  {
    n !in g.classes && bases <= g.classes && (bases * g.abc != {} ==> isAbc)
  }

  /** The new graph seen through its accessors. */
  lemma CreateParts(g: Graph, n: Class, bases: set<Class>, isAbc: bool, c: Class)
    requires WellFormed(g) && Creatable(g, n, bases, isAbc)
    ensures var h := WithClass(g, n, bases, isAbc);
            && Mro(h, c) == (if c == n then Ancestors(g, bases) + {n} else Mro(g, c))
            && Subclasses(h, c) == Subclasses(g, c) + (if c in bases then {n} else {})
            && Registry(h, c) == Registry(g, c)
            && h.classes == g.classes + {n} && h.abc == g.abc + (if isAbc then {n} else {})
            && Next(h, c) == Next(g, c) + (if c in bases * g.abc then {n} else {})
    ensures n !in Mro(g, c) && n !in Next(g, c)
    ensures c == n ==> Next(WithClass(g, n, bases, isAbc), c) == {}
  {
    hide Closed, AbcBelowAbc;
    var h := WithClass(g, n, bases, isAbc);
    assert Registry(h, c) == Registry(g, c) && Subclasses(h, c) == Subclasses(g, c) + (if c in bases then {n} else {});
  }

  lemma CreateWellFormed(g: Graph, n: Class, bases: set<Class>, isAbc: bool)
    requires WellFormed(g) && Creatable(g, n, bases, isAbc)
    ensures WellFormed(WithClass(g, n, bases, isAbc))
  {
    hide Closed, Inside, Mro;
    var h := WithClass(g, n, bases, isAbc);
    assert Keyed(h);
    forall c, d | c in Mro(h, d) && c in h.abc ensures d in h.abc {
      AncestorOfNew(g, n, bases, isAbc, c, d);
      if c in g.abc && d != n {
        assert d in g.abc;
      }
    }
    CreateInside(g, n, bases, isAbc);
    CreateClosed(g, n, bases, isAbc);
  }

  lemma CreateInside(g: Graph, n: Class, bases: set<Class>, isAbc: bool)
    requires WellFormed(g) && Creatable(g, n, bases, isAbc)
    ensures Inside(WithClass(g, n, bases, isAbc))
  {
    var h := WithClass(g, n, bases, isAbc);
    assert h.classes == g.classes + {n};
    hide WithClass, Mro, Subclasses, Registry, Next;
    forall c ensures Mro(h, c) <= h.classes && Subclasses(h, c) <= h.classes && Registry(h, c) <= h.classes {
      CreateParts(g, n, bases, isAbc, c);
    }
  }

  /** Where an ancestor in the new graph comes from. */
  lemma AncestorOfNew(g: Graph, n: Class, bases: set<Class>, isAbc: bool, c: Class, d: Class)
    requires WellFormed(g) && Creatable(g, n, bases, isAbc)
    requires c in Mro(WithClass(g, n, bases, isAbc), d)
    ensures d != n ==> c in Mro(g, d) && c != n
    ensures d == n && c != n ==> exists b :: b in bases && c in Mro(g, b)
    ensures d == n && c in g.abc ==> isAbc
  {
    hide Closed, WithClass, Mro;
    CreateParts(g, n, bases, isAbc, d);
    if d == n && c != n {
      var b :| b in bases && c in Mro(g, b);
      assert b in g.abc ==> b in bases * g.abc;
    }
  }

  lemma CreateClosed(g: Graph, n: Class, bases: set<Class>, isAbc: bool)
    requires WellFormed(g) && Creatable(g, n, bases, isAbc)
    ensures Closed(WithClass(g, n, bases, isAbc))
  {
    var h := WithClass(g, n, bases, isAbc);
    assert h.classes == g.classes + {n};
    hide WithClass, Mro, Subclasses, Registry, Next;
    forall c | c in h.classes ensures c in Mro(h, c) {
      CreateParts(g, n, bases, isAbc, c);
    }
    forall c, d | d in Subclasses(h, c) ensures c in Mro(h, d) {
      CreateParts(g, n, bases, isAbc, c);
      CreateParts(g, n, bases, isAbc, d);
    }
    forall c, d | c in Mro(h, d)
      ensures Mro(h, c) <= Mro(h, d)
      ensures d in Mro(h, c) ==> c == d
    {
      NewAncestorClosed(g, n, bases, isAbc, c, d);
    }
  }

  lemma NewAncestorClosed(g: Graph, n: Class, bases: set<Class>, isAbc: bool, c: Class, d: Class)
    requires WellFormed(g) && Creatable(g, n, bases, isAbc)
    requires c in Mro(WithClass(g, n, bases, isAbc), d)
    ensures Mro(WithClass(g, n, bases, isAbc), c) <= Mro(WithClass(g, n, bases, isAbc), d)
    ensures d in Mro(WithClass(g, n, bases, isAbc), c) ==> c == d
  {
    hide WithClass, Mro, Subclasses, Registry, Next, Closed, Inside, AbcBelowAbc;
    CreateParts(g, n, bases, isAbc, c);
    CreateParts(g, n, bases, isAbc, d);
    AncestorOfNew(g, n, bases, isAbc, c, d);
    if d != n {
      MroUp(g, c, d);
    } else if c != n {
      var b :| b in bases && c in Mro(g, b);
      MroUp(g, c, b);
    }
  }

  lemma MroUp(g: Graph, c: Class, d: Class)
    requires WellFormed(g) && c in Mro(g, d)
    ensures Mro(g, c) <= Mro(g, d) && (d in Mro(g, c) ==> c == d)
  {
  }

  lemma CreateStepwise(g: Graph, n: Class, bases: set<Class>, isAbc: bool)
    requires WellFormed(g) && Stepwise(g) && Creatable(g, n, bases, isAbc)
    ensures Stepwise(WithClass(g, n, bases, isAbc))
  {
    hide WellFormed, Mro, Subclasses, Registry, Next, WithClass;
    var h := WithClass(g, n, bases, isAbc);
    forall c, d | c in Mro(h, d) && c != d ensures StepDown(h, c, d) {
      CreateParts(g, n, bases, isAbc, c);
      CreateParts(g, n, bases, isAbc, d);
      if d != n {
        assert StepDown(g, c, d);
        var e :| e in Subclasses(g, c) && e in Mro(g, d) && e != c;
        assert e in Subclasses(h, c) && e in Mro(h, d);
      } else {
        var b :| b in bases && c in Mro(g, b);
        if b == c {
          assert n in Subclasses(h, c) && n in Mro(h, n);
        } else {
          assert StepDown(g, c, b);
          var e :| e in Subclasses(g, c) && e in Mro(g, b) && e != c;
          assert e in Subclasses(h, c) && e in Mro(h, n);
        }
      }
    }
  }

  /** A new class has no way out, so it opens no path between old classes. */
  lemma {:induction false} CreatePath(g: Graph, n: Class, bases: set<Class>, isAbc: bool, p: seq<Class>)
    requires WellFormed(g) && Creatable(g, n, bases, isAbc)
    requires IsPath(WithClass(g, n, bases, isAbc), p) && p[0] != n
    ensures p[|p| - 1] != n ==> CanReach(g, p[0], p[|p| - 1])
    ensures p[|p| - 1] == n ==> exists b :: b in bases && CanReach(g, p[0], b)
  {
    hide WellFormed, CanReach, WithClass, Next;
    if |p| == 1 {
      ReachSelf(g, p[0]);
    } else {
      CreateParts(g, n, bases, isAbc, p[0]);
      if p[1] == n {
        CreateParts(g, n, bases, isAbc, n);
        ReachSelf(g, p[0]);
      } else {
        CreatePath(g, n, bases, isAbc, p[1..]);
        if p[|p| - 1] != n {
          ReachFirst(g, p[0], p[1], p[|p| - 1]);
        } else {
          var b :| b in bases && CanReach(g, p[1], b);
          ReachFirst(g, p[0], p[1], b);
        }
      }
    }
  }

  lemma CreateReach(g: Graph, n: Class, bases: set<Class>, isAbc: bool, c: Class, u: Class)
    requires WellFormed(g) && Creatable(g, n, bases, isAbc) && c != n
    requires CanReach(WithClass(g, n, bases, isAbc), c, u)
    ensures u != n ==> CanReach(g, c, u)
    ensures u == n ==> exists b :: b in bases && CanReach(g, c, b)
  {
    hide WellFormed, WithClass, Next;
    var p :| Leads(WithClass(g, n, bases, isAbc), p, c, u);
    CreatePath(g, n, bases, isAbc, p);
  }

  lemma {:induction false} CreateKeepsPath(g: Graph, n: Class, bases: set<Class>, isAbc: bool, p: seq<Class>)
    requires WellFormed(g) && Creatable(g, n, bases, isAbc) && IsPath(g, p)
    ensures IsPath(WithClass(g, n, bases, isAbc), p)
  {
    hide WellFormed, WithClass, Next;
    if |p| > 1 {
      CreateParts(g, n, bases, isAbc, p[0]);
      CreateKeepsPath(g, n, bases, isAbc, p[1..]);
    }
  }

  lemma CreateKeepsReach(g: Graph, n: Class, bases: set<Class>, isAbc: bool, c: Class, u: Class)
    requires WellFormed(g) && Creatable(g, n, bases, isAbc) && CanReach(g, c, u)
    ensures CanReach(WithClass(g, n, bases, isAbc), c, u)
  {
    hide WellFormed, WithClass, Next;
    var p :| Leads(g, p, c, u);
    CreateKeepsPath(g, n, bases, isAbc, p);
    assert Leads(WithClass(g, n, bases, isAbc), p, c, u);
  }

  /** Answers between old classes do not change, which is why creating a class need not
      invalidate the negative caches. */
  lemma CreateKeepsAnswers(g: Graph, n: Class, bases: set<Class>, isAbc: bool, x: Class, c: Class)
    requires WellFormed(g) && Creatable(g, n, bases, isAbc) && x in g.classes && c in g.classes
    ensures Sub(WithClass(g, n, bases, isAbc), x, c) <==> Sub(g, x, c)
  {
    hide WellFormed, WithClass, Next, CanReach;
    var h := WithClass(g, n, bases, isAbc);
    CreateParts(g, n, bases, isAbc, x);
    if Sub(h, x, c) {
      var u :| u in Mro(h, x) && CanReach(h, c, u);
      CreateReach(g, n, bases, isAbc, c, u);
    }
    if Sub(g, x, c) {
      var u :| u in Mro(g, x) && CanReach(g, c, u);
      CreateKeepsReach(g, n, bases, isAbc, c, u);
    }
  }

  /** The new class is a subclass of exactly what one of its bases is a subclass of. */
  lemma CreateAnswer(g: Graph, n: Class, bases: set<Class>, isAbc: bool, c: Class)
    requires WellFormed(g) && Creatable(g, n, bases, isAbc) && c in g.classes
    ensures Sub(WithClass(g, n, bases, isAbc), n, c) <==> exists b :: b in bases && Sub(g, b, c)
  {
    hide WellFormed, WithClass, Next, CanReach, Mro;
    CreateParts(g, n, bases, isAbc, n);
    BasesAreAncestors(g, bases);
    var h := WithClass(g, n, bases, isAbc);
    if Sub(h, n, c) {
      var u :| u in Mro(h, n) && CanReach(h, c, u);
      CreateReach(g, n, bases, isAbc, c, u);
      if u == n {
        var b :| b in bases && CanReach(g, c, b);
        assert Sub(g, b, c);
      } else {
        var b :| b in bases && u in Mro(g, b);
        assert Sub(g, b, c);
      }
    }
    if b :| b in bases && Sub(g, b, c) {
      var u :| u in Mro(g, b) && CanReach(g, c, u);
      CreateKeepsReach(g, n, bases, isAbc, c, u);
      assert u in Ancestors(g, bases);
    }
  }

  lemma BasesAreAncestors(g: Graph, bases: set<Class>)
    requires WellFormed(g) && bases <= g.classes
    ensures forall b :: b in bases ==> b in Mro(g, b)
  {
  }

  /** Ranks after a creation: the new class lies below all others. */
  function NewRanks(rank: map<Class, nat>, n: Class): map<Class, nat>
  {
    map c | c in rank.Keys + {n} :: if c == n then 0 else rank[c] + 1
  }

  lemma CreateRanked(g: Graph, rank: map<Class, nat>, n: Class, bases: set<Class>, isAbc: bool)
    requires WellFormed(g) && Ranked(g, rank) && Creatable(g, n, bases, isAbc) && rank.Keys == g.classes
    ensures Ranked(WithClass(g, n, bases, isAbc), NewRanks(rank, n))
  {
    hide WellFormed, WithClass, Next;
    var h := WithClass(g, n, bases, isAbc);
    var r: map<Class, nat> := NewRanks(rank, n);
    forall c: Class, d: Class | d in Next(h, c) ensures Falls(r, c, d) {
      CreateParts(g, n, bases, isAbc, c);
      if d in Next(g, c) {
        assert Falls(rank, c, d);
      }
    }
  }
}
