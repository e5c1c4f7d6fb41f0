/** ABCMeta: registration, and issubclass through per-class caches and one invalidation counter. */
module AbcCaches {
  import opened ClassGraphs

  /** Positive entries are true for good. */
  ghost predicate CacheTrue(g: Graph, cache: map<Class, set<Class>>)
  {
    forall c, x :: c in cache && x in cache[c] ==> x in g.classes && Sub(g, x, c)
  }

  /** Negative entries are true if their version is the current counter. */
  ghost predicate NegativeTrue(g: Graph, negative: map<Class, set<Class>>, version: map<Class, nat>, counter: nat)
  {
    && (forall c :: c in version ==> version[c] <= counter)
    && forall c, x :: c in negative && c in version && version[c] == counter && x in negative[c] ==>
         x in g.classes && !Sub(g, x, c)
  }

  function RootGraph(root: Class): Graph
  {
    Graph({root}, {}, map[root := {root}], map[root := {}], map[])
  }

  datatype Registered = Done | CycleRefused

  /** The graph is sound, ranks show that the check ends, and all cache entries are true. */
  ghost predicate Consistent(g: Graph, rank: map<Class, nat>, cache: map<Class, set<Class>>,
                             negative: map<Class, set<Class>>, version: map<Class, nat>, counter: nat)
  {
    && WellFormed(g) && Stepwise(g)
    && Ranked(g, rank) && rank.Keys == g.classes
    && cache.Keys == g.abc && negative.Keys == g.abc && version.Keys == g.abc
    && CacheTrue(g, cache)
    && NegativeTrue(g, negative, version, counter)
  }

  /** All classes, with the per-class attributes of ABCs as maps. */
  class AbcWorld {
    var graph: Graph
    var cache: map<Class, set<Class>>
    var negativeCache: map<Class, set<Class>>
    var negativeVersion: map<Class, nat>
    var invalidationCounter: nat
    ghost var rank: map<Class, nat>

    /** One ordinary root class and nothing else. */
    constructor (root: Class)
      ensures Valid() && graph == RootGraph(root)
    {
      graph := RootGraph(root);
      cache, negativeCache, negativeVersion, invalidationCounter := map[], map[], map[], 0;
      rank := map[root := 0];
    }

    ghost predicate Valid()
      reads this
    {
      Consistent(graph, rank, cache, negativeCache, negativeVersion, invalidationCounter)
    }

    lemma IsSound()
      requires Valid()
      ensures WellFormed(graph) && Stepwise(graph)
    {
    }

    /** issubclass(subclass, cls) for any class. */
    method IsSubclass(subclass: Class, cls: Class) returns (ok: bool)
      requires Valid() && cls in graph.classes && subclass in graph.classes
      modifies this`cache, this`negativeCache, this`negativeVersion
      ensures Valid() && ok == Sub(graph, subclass, cls)
      ensures VersionsKept(old(negativeVersion), negativeVersion, invalidationCounter)
      decreases rank[cls], 3
    {
      hide Sub, Ordered, Stepwise, Ranked, CacheTrue, NegativeTrue;
      if cls in graph.abc {
        ok := SubclassCheck(cls, subclass);
      } else {
        ok := cls in Mro(graph, subclass);
        OrdinaryAnswer(graph, subclass, cls);
      }
    }

    /** `__subclasscheck__`, with every hook answering NotImplemented: the caches never change
        the answer, and whatever the recursion stores on its way is true. */
    method SubclassCheck(cls: Class, subclass: Class) returns (ok: bool)
      requires Valid() && cls in graph.abc && subclass in graph.classes && cls in graph.classes
      modifies this`cache, this`negativeCache, this`negativeVersion
      ensures Valid() && ok == Sub(graph, subclass, cls)
      ensures VersionsKept(old(negativeVersion), negativeVersion, invalidationCounter)
      ensures ok ==> subclass in cache[cls]
      ensures !ok ==> subclass in negativeCache[cls] && negativeVersion[cls] == invalidationCounter
      decreases rank[cls], 2
    {
      hide Sub, Ordered, Stepwise, Ranked, CacheTrue, NegativeTrue, Mro, Registry, Subclasses;
      if subclass in cache[cls] {
        Trusted(graph, cache, negativeCache, negativeVersion, invalidationCounter, cls, subclass);
        return true;
      }
      if negativeVersion[cls] < invalidationCounter {
        EmptiedTrue(graph, negativeCache, negativeVersion, invalidationCounter, cls);
        negativeCache := negativeCache[cls := {}];
        negativeVersion := negativeVersion[cls := invalidationCounter];
      } else if subclass in negativeCache[cls] {
        Trusted(graph, cache, negativeCache, negativeVersion, invalidationCounter, cls, subclass);
        return false;
      } else {
        VersionBound(graph, negativeCache, negativeVersion, invalidationCounter, cls);
      }
      ok := Search(cls, subclass);
    }

    /** The part of the check behind the caches: MRO, registry, direct subclasses; then the
        answer is stored. */
    method Search(cls: Class, subclass: Class) returns (ok: bool)
      requires Valid() && cls in graph.abc && subclass in graph.classes && cls in graph.classes
      requires negativeVersion[cls] == invalidationCounter
      modifies this`cache, this`negativeCache, this`negativeVersion
      ensures Valid() && ok == Sub(graph, subclass, cls)
      ensures VersionsKept(old(negativeVersion), negativeVersion, invalidationCounter)
      ensures ok ==> subclass in cache[cls]
      ensures !ok ==> subclass in negativeCache[cls] && negativeVersion[cls] == invalidationCounter
      decreases rank[cls], 1
    {
      hide Sub, Ordered, Stepwise, Ranked, CacheTrue, NegativeTrue, Mro, Registry, Subclasses;
      SubUnfold(graph, subclass, cls);
      ok := cls in Mro(graph, subclass);
      if !ok {
        ok := AnyOf(cls, Registry(graph, cls), subclass);
      }
      if !ok {
        ok := AnyOf(cls, Subclasses(graph, cls), subclass);
      }
      if ok {
        CachedTrue(graph, cache, cls, subclass);
        cache := cache[cls := cache[cls] + {subclass}];
      } else {
        DeniedTrue(graph, negativeCache, negativeVersion, invalidationCounter, cls, subclass);
        negativeCache := negativeCache[cls := negativeCache[cls] + {subclass}];
      }
    }

    /** The two loops of the check: whether `subclass` is below any of the candidates. */
    method AnyOf(cls: Class, candidates: set<Class>, subclass: Class) returns (ok: bool)
      requires Valid() && cls in graph.classes && subclass in graph.classes && candidates <= Next(graph, cls)
      modifies this`cache, this`negativeCache, this`negativeVersion
      ensures Valid() && (ok <==> exists d :: d in candidates && Sub(graph, subclass, d))
      ensures VersionsKept(old(negativeVersion), negativeVersion, invalidationCounter)
      decreases rank[cls], 0
    {
      hide Sub, Ordered, Stepwise, CacheTrue, NegativeTrue, Next;
      var todo := candidates;
      while todo != {}
        invariant Valid() && todo <= candidates
        invariant VersionsKept(old(negativeVersion), negativeVersion, invalidationCounter)
        invariant forall d :: d in candidates - todo ==> !Sub(graph, subclass, d)
        decreases todo
      {
        var d :| d in todo;
        assert Falls(rank, cls, d);
        ok := IsSubclass(subclass, d);
        if ok {
          return;
        }
        todo := todo - {d};
      }
      ok := false;
    }

    /** `__instancecheck__`: the instance's `__class__` and its type may differ. */
    method InstanceCheck(cls: Class, instanceClass: Class, instanceType: Class) returns (ok: bool)
      requires Valid() && cls in graph.abc && cls in graph.classes
      requires instanceClass in graph.classes && instanceType in graph.classes
      modifies this`cache, this`negativeCache, this`negativeVersion
      ensures Valid() && ok == (Sub(graph, instanceClass, cls) || Sub(graph, instanceType, cls))
    {
      hide Sub, Ordered, Stepwise, Ranked, CacheTrue, NegativeTrue;
      if instanceClass in cache[cls] {
        Trusted(graph, cache, negativeCache, negativeVersion, invalidationCounter, cls, instanceClass);
        return true;
      }
      if instanceType == instanceClass {
        if negativeVersion[cls] == invalidationCounter && instanceClass in negativeCache[cls] {
          Trusted(graph, cache, negativeCache, negativeVersion, invalidationCounter, cls, instanceClass);
          return false;
        }
        ok := SubclassCheck(cls, instanceClass);
        return;
      }
      ok := SubclassCheck(cls, instanceClass);
      if !ok {
        ok := SubclassCheck(cls, instanceType);
      }
    }

    /** register: refuses exactly the registrations that would close a cycle of edges the check
        follows, adds exactly the answers through the new edge, and never takes one away. */
    method Register(cls: Class, subclass: Class) returns (r: Registered)
      requires Valid() && cls in graph.abc && cls in graph.classes && subclass in graph.classes
      modifies this
      ensures Valid() && graph.classes == old(graph.classes)
      ensures r.CycleRefused? <==> !Sub(old(graph), subclass, cls) && Sub(old(graph), cls, subclass)
      ensures r.Done? ==> Sub(graph, subclass, cls)
      ensures r.CycleRefused? || Sub(old(graph), subclass, cls)
              ==> graph == old(graph) && invalidationCounter == old(invalidationCounter)
      ensures r.Done? && !Sub(old(graph), subclass, cls) ==>
                graph == WithRegistered(old(graph), cls, subclass) && invalidationCounter == old(invalidationCounter) + 1
      ensures cls == subclass ==> r.Done? && graph == old(graph)
      ensures OnlyGrows(old(graph), graph)
    {
      hide Sub, WellFormed, WithRegistered, Raised, Consistent, OnlyGrows, CanReach;
      ConsistentFacts(graph, rank, cache, negativeCache, negativeVersion, invalidationCounter, cls, subclass);
      SelfSub(graph, cls);
      GrowsSelf(graph);
      var already := IsSubclass(subclass, cls);
      if already {
        return Done;
      }
      var cycle := IsSubclass(cls, subclass);
      if cycle {
        return CycleRefused;
      }
      RegisterValid(graph, rank, cache, negativeCache, negativeVersion, invalidationCounter, cls, subclass);
      rank := Raised(graph, rank, cls, subclass);
      graph := WithRegistered(graph, cls, subclass);
      invalidationCounter := invalidationCounter + 1;
      return Done;
    }

    /** Creating a class (`ABCMeta.__new__` when `isAbc`): the counter does not move, and no old
        answer changes. */
    method Create(n: Class, bases: set<Class>, isAbc: bool)
      requires Valid() && Creatable(graph, n, bases, isAbc)
      modifies this
      ensures Valid() && graph == WithClass(old(graph), n, bases, isAbc)
      ensures invalidationCounter == old(invalidationCounter)
      ensures cache == (if isAbc then old(cache)[n := {}] else old(cache))
      ensures negativeCache == (if isAbc then old(negativeCache)[n := {}] else old(negativeCache))
      ensures negativeVersion == (if isAbc then old(negativeVersion)[n := invalidationCounter] else old(negativeVersion))
      ensures SameAnswers(old(graph), graph)
      ensures OnlyGrows(old(graph), graph)
    {
      hide WithClass, NewRanks, SameAnswers, OnlyGrows, Creatable, Consistent;
      CreateValid(graph, rank, cache, negativeCache, negativeVersion, invalidationCounter, n, bases, isAbc);
      rank := NewRanks(rank, n);
      graph := WithClass(graph, n, bases, isAbc);
      if isAbc {
        cache := cache[n := {}];
        negativeCache := negativeCache[n := {}];
        negativeVersion := negativeVersion[n := invalidationCounter];
      }
    }

    /** `_abc_caches_clear`. */
    method CachesClear(cls: Class)
      requires Valid() && cls in graph.abc
      modifies this`cache, this`negativeCache
      ensures Valid() && cache == old(cache)[cls := {}] && negativeCache == old(negativeCache)[cls := {}]
    {
      hide Sub, Ordered, Stepwise, Ranked, CacheTrue, NegativeTrue;
      ClearedTrue(graph, cache, negativeCache, negativeVersion, invalidationCounter, cls);
      cache := cache[cls := {}];
      negativeCache := negativeCache[cls := {}];
    }
  }

  ghost predicate VersionsKept(before: map<Class, nat>, after: map<Class, nat>, counter: nat)
  {
    before.Keys == after.Keys && forall c :: c in before ==> after[c] == before[c] || after[c] == counter
  }

  /** No class vanishes and no answer that was true becomes false. */
  ghost predicate OnlyGrows(g: Graph, h: Graph)
  {
    && g.classes <= h.classes
    && forall x, c :: x in g.classes && c in g.classes && Sub(g, x, c) ==> Sub(h, x, c)
  }

  ghost predicate SameAnswers(g: Graph, h: Graph)
  {
    forall x, c :: x in g.classes && c in g.classes ==> (Sub(h, x, c) <==> Sub(g, x, c))
  }

  lemma GrowsSelf(g: Graph)
    ensures OnlyGrows(g, g)
  {
  }

  lemma SelfSub(g: Graph, c: Class)
    requires WellFormed(g) && c in g.classes
    ensures Sub(g, c, c)
  {
    ReachSelf(g, c);
  }

  lemma OrdinaryAnswer(g: Graph, x: Class, c: Class)
    requires c !in g.abc
    ensures Sub(g, x, c) <==> c in Mro(g, x)
  {
    SubUnfold(g, x, c);
  }

  lemma Trusted(g: Graph, cache: map<Class, set<Class>>, negative: map<Class, set<Class>>, version: map<Class, nat>,
                counter: nat, c: Class, x: Class)
    requires CacheTrue(g, cache) && NegativeTrue(g, negative, version, counter)
    requires c in cache && c in negative && c in version
    ensures x in cache[c] ==> Sub(g, x, c)
    ensures x in negative[c] && version[c] >= counter ==> !Sub(g, x, c) && version[c] == counter
  {
  }

  lemma VersionBound(g: Graph, negative: map<Class, set<Class>>, version: map<Class, nat>, counter: nat, c: Class)
    requires NegativeTrue(g, negative, version, counter) && c in version
    ensures version[c] <= counter
  {
  }

  lemma EmptiedTrue(g: Graph, negative: map<Class, set<Class>>, version: map<Class, nat>, counter: nat, c: Class)
    requires NegativeTrue(g, negative, version, counter)
    ensures NegativeTrue(g, negative[c := {}], version[c := counter], counter)
  {
  }

  lemma ClearedTrue(g: Graph, cache: map<Class, set<Class>>, negative: map<Class, set<Class>>, version: map<Class, nat>,
                    counter: nat, c: Class)
    requires CacheTrue(g, cache) && NegativeTrue(g, negative, version, counter)
    ensures CacheTrue(g, cache[c := {}]) && NegativeTrue(g, negative[c := {}], version, counter)
  {
  }

  lemma CachedTrue(g: Graph, cache: map<Class, set<Class>>, c: Class, x: Class)
    requires CacheTrue(g, cache) && c in cache && x in g.classes && Sub(g, x, c)
    ensures CacheTrue(g, cache[c := cache[c] + {x}])
  {
  }

  lemma DeniedTrue(g: Graph, negative: map<Class, set<Class>>, version: map<Class, nat>, counter: nat, c: Class, x: Class)
    requires NegativeTrue(g, negative, version, counter) && c in negative && x in g.classes && !Sub(g, x, c)
    ensures NegativeTrue(g, negative[c := negative[c] + {x}], version, counter)
  {
  }

  /** A registration that was neither needed nor refused keeps the world consistent: positive
      entries stay true, and all negative ones fall behind the counter. */
  lemma RegisterValid(g: Graph, rank: map<Class, nat>, cache: map<Class, set<Class>>, negative: map<Class, set<Class>>,
                      version: map<Class, nat>, counter: nat, cls: Class, sub: Class)
    requires Consistent(g, rank, cache, negative, version, counter)
    requires cls in g.abc && sub in g.classes && !Sub(g, cls, sub)
    ensures var h := WithRegistered(g, cls, sub);
            && Consistent(h, Raised(g, rank, cls, sub), cache, negative, version, counter + 1)
            && h.classes == g.classes && Sub(h, sub, cls) && OnlyGrows(g, h)
  {
    hide Sub, Stepwise, Ranked, CanReach, Closed, Inside, AbcBelowAbc, Mro;
    var h := WithRegistered(g, cls, sub);
    RegisterWellFormed(g, cls, sub);
    RegisterStepwise(g, cls, sub);
    hide WithRegistered;
    NotBelow(g, cls, sub);
    RegisterRanked(g, rank, cls, sub);
    RegisterGrows(g, cls, sub);
    TruthGrows(g, h, cache);
    StaleIsTrue(h, negative, version, counter);
  }

  /** Behind the counter no negative entry says anything. */
  lemma StaleIsTrue(g: Graph, negative: map<Class, set<Class>>, version: map<Class, nat>, counter: nat)
    requires forall c :: c in version ==> version[c] <= counter
    ensures NegativeTrue(g, negative, version, counter + 1)
  {
  }

  lemma NotBelow(g: Graph, cls: Class, sub: Class)
    requires WellFormed(g) && cls in g.classes && !Sub(g, cls, sub)
    ensures !CanReach(g, sub, cls)
  {
    hide CanReach;
    assert cls in Mro(g, cls);
  }

  lemma RegisterGrows(g: Graph, cls: Class, sub: Class)
    requires WellFormed(g) && cls in g.abc && sub in g.classes
    ensures OnlyGrows(g, WithRegistered(g, cls, sub)) && Sub(WithRegistered(g, cls, sub), sub, cls)
  {
    SelfSub(g, sub);
    ReachSelf(g, cls);
    hide Sub, CanReach;
    RegisterAdds(g, cls, sub, sub, cls);
    forall x, c | Sub(g, x, c) ensures Sub(WithRegistered(g, cls, sub), x, c) {
      RegisterAdds(g, cls, sub, x, c);
    }
  }

  lemma TruthGrows(g: Graph, h: Graph, cache: map<Class, set<Class>>)
    requires OnlyGrows(g, h) && CacheTrue(g, cache) && cache.Keys <= g.classes
    ensures CacheTrue(h, cache)
  {
  }

  lemma ConsistentFacts(g: Graph, rank: map<Class, nat>, cache: map<Class, set<Class>>,
                        negative: map<Class, set<Class>>, version: map<Class, nat>, counter: nat, cls: Class, sub: Class)
    requires Consistent(g, rank, cache, negative, version, counter) && cls in g.abc && sub in g.classes
    ensures WellFormed(g) && cls in g.registry && sub in rank
  {
  }

  lemma CreateValid(g: Graph, rank: map<Class, nat>, cache: map<Class, set<Class>>, negative: map<Class, set<Class>>,
                    version: map<Class, nat>, counter: nat, n: Class, bases: set<Class>, isAbc: bool)
    requires Consistent(g, rank, cache, negative, version, counter) && Creatable(g, n, bases, isAbc)
    ensures var h := WithClass(g, n, bases, isAbc);
            && (isAbc ==> Consistent(h, NewRanks(rank, n), cache[n := {}], negative[n := {}], version[n := counter], counter))
            && (!isAbc ==> Consistent(h, NewRanks(rank, n), cache, negative, version, counter))
            && OnlyGrows(g, h) && SameAnswers(g, h)
  {
    hide Sub, Stepwise, Ranked, Mro, WellFormed, WithClass, NewRanks, CacheTrue, NegativeTrue, OnlyGrows, Creatable;
    var h := WithClass(g, n, bases, isAbc);
    CreateWellFormed(g, n, bases, isAbc);
    CreateStepwise(g, n, bases, isAbc);
    CreateRanked(g, rank, n, bases, isAbc);
    CreateShape(g, rank, n, bases, isAbc);
    forall x, c | x in g.classes && c in g.classes ensures Sub(h, x, c) <==> Sub(g, x, c) {
      CreateKeepsAnswers(g, n, bases, isAbc, x, c);
    }
    CachesCarryOver(g, h, cache, negative, version, counter, n);
  }

  lemma CreateShape(g: Graph, rank: map<Class, nat>, n: Class, bases: set<Class>, isAbc: bool)
    requires WellFormed(g) && Creatable(g, n, bases, isAbc)
    ensures var h := WithClass(g, n, bases, isAbc);
            && Keyed(h) && h.classes == g.classes + {n} && g.abc <= g.classes
            && h.abc == (if isAbc then g.abc + {n} else g.abc)
    ensures NewRanks(rank, n).Keys == rank.Keys + {n}
  {
    hide Inside, Closed, AbcBelowAbc;
  }

  /** Caches stay true for a graph with the same answers, and so do empty ones put beside them. */
  lemma CachesCarryOver(g: Graph, h: Graph, cache: map<Class, set<Class>>, negative: map<Class, set<Class>>,
                        version: map<Class, nat>, counter: nat, n: Class)
    requires CacheTrue(g, cache) && NegativeTrue(g, negative, version, counter)
    requires cache.Keys <= g.classes && negative.Keys <= g.classes && g.classes <= h.classes
    requires SameAnswers(g, h)
    ensures CacheTrue(h, cache) && CacheTrue(h, cache[n := {}])
    ensures NegativeTrue(h, negative, version, counter) && NegativeTrue(h, negative[n := {}], version[n := counter], counter)
    ensures OnlyGrows(g, h)
  {
    hide Sub;
  }
}
