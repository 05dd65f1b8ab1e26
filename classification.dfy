/**
 * What the task does with the scan results: it collects the configuration's
 * module dependencies transitively, scans the local classes and every
 * collected dependency, and splits the local classes' requirements into those
 * a dependency declares (grouped by dependency), those nobody declares, and
 * the first-level dependencies nothing is required from.
 */
module Classification {
  import opened ClassModel
  import opened Extraction
  import opened ArtifactScanner
  import opened StringOrder

  /**
   * A resolved module dependency: its display name (what `toString` gives),
   * the result of scanning its module artifacts, and the dependencies it
   * brings in.
   */
  datatype Dependency = Dependency(name: string, scan: ArtifactScanResult, children: set<Dependency>)

  // ---------------------------------------------------------------------
  // Transitive collection

  /** A dependency and everything it brings in, at any depth. */
  function Closure(d: Dependency): (r: set<Dependency>)
    ensures d in r
    decreases d
  {
    {d} + (set c, x | c in d.children && x in Closure(c) :: x)
  }

  /** The given dependencies together with everything they bring in. */
  function CollectModuleDependencies(deps: set<Dependency>): (r: set<Dependency>)
    ensures deps <= r
  {
    assert forall d | d in deps :: d in Closure(d);
    set d, x | d in deps && x in Closure(d) :: x
  }

  lemma CollectMembership(deps: set<Dependency>, x: Dependency)
    ensures x in CollectModuleDependencies(deps) <==> exists d | d in deps :: x in Closure(d)
  {
  }

  lemma ClosureMembership(d: Dependency, x: Dependency)
    ensures x in Closure(d) <==> x == d || exists c | c in d.children :: x in Closure(c)
  {
  }

  /**
   * The recursive equation the collection is written as: the dependencies
   * themselves, plus the collection of each one's children.
   */
  lemma CollectUnfolds(deps: set<Dependency>)
    ensures CollectModuleDependencies(deps)
         == deps + (set d, x | d in deps && x in CollectModuleDependencies(d.children) :: x)
  {
    var lhs := CollectModuleDependencies(deps);
    var below := set d, x | d in deps && x in CollectModuleDependencies(d.children) :: x;
    forall x | x in lhs ensures x in deps + below {
      CollectMembership(deps, x);
      var d :| d in deps && x in Closure(d);
      ClosureMembership(d, x);
      if x != d {
        var c :| c in d.children && x in Closure(c);
        CollectMembership(d.children, x);
      }
    }
    forall x | x in deps + below ensures x in lhs {
      CollectMembership(deps, x);
      if x in deps {
        ClosureMembership(x, x);
      } else {
        var d :| d in deps && x in CollectModuleDependencies(d.children);
        CollectMembership(d.children, x);
        var c :| c in d.children && x in Closure(c);
        ClosureMembership(d, x);
      }
    }
  }

  /** The input dependencies are collected. */
  lemma CollectContainsInput(deps: set<Dependency>)
    ensures deps <= CollectModuleDependencies(deps)
  {
    forall d | d in deps ensures d in CollectModuleDependencies(deps) {
      CollectMembership(deps, d);
    }
  }

  /** Nothing is missed: the children of a collected dependency are collected too. */
  lemma CollectClosedUnderChildren(deps: set<Dependency>, d: Dependency, c: Dependency)
    requires d in CollectModuleDependencies(deps) && c in d.children
    ensures c in CollectModuleDependencies(deps)
  {
    CollectMembership(deps, d);
    var top :| top in deps && d in Closure(top);
    ClosureClosed(top, d, c);
  }

  lemma {:induction false} ClosureClosed(top: Dependency, d: Dependency, c: Dependency)
    requires d in Closure(top) && c in d.children
    ensures c in Closure(top)
    decreases top
  {
    ClosureMembership(top, d);
    ClosureMembership(top, c);
    if d == top {
      ClosureMembership(c, c);
    } else {
      var mid :| mid in top.children && d in Closure(mid);
      ClosureClosed(mid, d, c);
    }
  }

  /** A set closed under children. */
  predicate ChildrenClosed(s: set<Dependency>)
  {
    forall d, c | d in s && c in d.children :: c in s
  }

  /** Nothing extra is collected: any children-closed set holding the inputs holds the collection. */
  lemma CollectIsLeast(deps: set<Dependency>, s: set<Dependency>)
    requires deps <= s && ChildrenClosed(s)
    ensures CollectModuleDependencies(deps) <= s
  {
    forall x | x in CollectModuleDependencies(deps) ensures x in s {
      CollectMembership(deps, x);
      var d :| d in deps && x in Closure(d);
      ClosureIsLeast(d, s);
    }
  }

  lemma {:induction false} ClosureIsLeast(d: Dependency, s: set<Dependency>)
    requires d in s && ChildrenClosed(s)
    ensures Closure(d) <= s
    decreases d
  {
    forall x | x in Closure(d) ensures x in s {
      ClosureMembership(d, x);
      if x != d {
        var c :| c in d.children && x in Closure(c);
        ClosureIsLeast(c, s);
      }
    }
  }

  // ---------------------------------------------------------------------
  // Classification

  /** The types the local classes use but do not declare themselves. */
  function Requirements(local: ArtifactScanResult): (r: set<string>)
    ensures r <= local.consumed && r !! local.declared
    ensures forall x | x in local.consumed :: x in r || x in local.declared
  {
    local.consumed - local.declared
  }

  /**
   * `groupBy` over a collection: one group per key some element has, holding
   * the values of the elements with that key.
   */
  function GroupBy<T, K(!new), V(!new)>(elements: set<T>, key: T -> K, value: T -> V): (m: map<K, set<V>>)
    ensures forall k :: k in m <==> exists t | t in elements :: key(t) == k
    ensures forall k | k in m :: forall v :: v in m[k] <==> exists t | t in elements && key(t) == k :: value(t) == v
  {
    map k | k in KeysOf(elements, key) :: Group(elements, key, value, k)
  }

  /** The keys the elements have. */
  function KeysOf<T, K(!new)>(elements: set<T>, key: T -> K): set<K>
  {
    set t | t in elements :: key(t)
  }

  /** The values of the elements with key `k`. */
  function Group<T, K(==), V(!new)>(elements: set<T>, key: T -> K, value: T -> V, k: K): set<V>
  {
    set t | t in elements && key(t) == k :: value(t)
  }

  /** `groupBy` makes no empty group. */
  lemma GroupsNonEmpty<T, K(!new), V(!new)>(elements: set<T>, key: T -> K, value: T -> V, k: K)
    requires k in GroupBy(elements, key, value)
    ensures GroupBy(elements, key, value)[k] != {}
  {
    var t :| t in elements && key(t) == k;
    assert value(t) in GroupBy(elements, key, value)[k];
  }

  /** Each requirement paired with each scanned dependency that declares it. */
  function RequirementSources(requirements: set<string>, collected: set<Dependency>)
    : (pairs: set<(string, Dependency)>)
    ensures forall p | p in pairs :: p.0 in requirements && p.1 in collected && p.0 in p.1.scan.declared
    ensures forall req, d | req in requirements && d in collected && req in d.scan.declared :: (req, d) in pairs
  {
    set req, d | req in requirements && d in collected && req in d.scan.declared :: (req, d)
  }

  /** The requirements, grouped under the name of every dependency that declares them. */
  function ResolvedRequirements(requirements: set<string>, collected: set<Dependency>)
    : (m: map<string, set<string>>)
    ensures forall k | k in m :: m[k] <= requirements
  {
    GroupBy(RequirementSources(requirements, collected),
            (p: (string, Dependency)) => p.1.name,
            (p: (string, Dependency)) => p.0)
  }

  /** Everything the collected dependencies with a given name declare. */
  function DeclaredUnder(collected: set<Dependency>, name: string): set<string>
  {
    set d, x | d in collected && d.name == name && x in d.scan.declared :: x
  }
  /**
   * A dependency name is a key exactly when some dependency of that name
   * declares a requirement; the group under it holds exactly the requirements
   * those dependencies declare, and is never empty.
   */
  lemma ResolvedRequirementsExact(requirements: set<string>, collected: set<Dependency>, name: string)
    ensures name in ResolvedRequirements(requirements, collected)
        <==> requirements * DeclaredUnder(collected, name) != {}
    ensures name in ResolvedRequirements(requirements, collected)
        ==> ResolvedRequirements(requirements, collected)[name] == requirements * DeclaredUnder(collected, name)
    ensures name in ResolvedRequirements(requirements, collected)
        ==> ResolvedRequirements(requirements, collected)[name] != {}
  {
    var pairs := RequirementSources(requirements, collected);
    var key := (p: (string, Dependency)) => p.1.name;
    var value := (p: (string, Dependency)) => p.0;
    var m := GroupBy(pairs, key, value);
    var both := requirements * DeclaredUnder(collected, name);
    if both != {} {
      var x :| x in both;
      var d :| d in collected && d.name == name && x in d.scan.declared;
      assert (x, d) in pairs;
    }
    if name in m {
      GroupsNonEmpty(pairs, key, value, name);
      forall x ensures x in m[name] <==> x in both {
        if x in both {
          var d :| d in collected && d.name == name && x in d.scan.declared;
          assert (x, d) in pairs;
        }
      }
    }
  }

  /** Every name in some group. */
  function Grouped(m: map<string, set<string>>): set<string>
  {
    set k, x | k in m && x in m[k] :: x
  }

  /** Kotlin's `startsWith`. */
  predicate StartsWith(s: string, prefix: string)
  {
    |prefix| <= |s| && s[..|prefix|] == prefix
  }

  /**
   * The requirements no dependency declares, leaving out every name that
   * starts with `java`.
   */
  function UnresolvedRequirements(requirements: set<string>, resolved: map<string, set<string>>)
    : (u: set<string>)
    ensures u <= requirements
    ensures forall k | k in resolved :: u !! resolved[k]
    ensures forall x | x in u :: !StartsWith(x, "java")
    ensures forall x | x in requirements :: x in u || x in Grouped(resolved) || StartsWith(x, "java")
  {
    set x | x in requirements && x !in Grouped(resolved) && !StartsWith(x, "java")
  }

  /** The names of the first-level dependencies no requirement is resolved from. */
  function ImplementationDependencies(firstLevel: set<Dependency>, resolved: map<string, set<string>>)
    : (r: set<string>)
    ensures r !! resolved.Keys
    ensures forall n | n in r :: exists d | d in firstLevel :: d.name == n
    ensures forall d | d in firstLevel && d.name !in resolved :: d.name in r
  {
    (set d | d in firstLevel :: d.name) - resolved.Keys
  }

  /** The three lists the task reports. */
  datatype Classification = Classification(
    resolved: map<string, set<string>>,
    unresolved: set<string>,
    implementation: set<string>)

  /**
   * The whole classification, from the scan of the local classes and the
   * first-level dependencies of the configuration.
   */
  function Classify(local: ArtifactScanResult, firstLevel: set<Dependency>): (c: Classification)
    ensures Grouped(c.resolved) <= local.consumed - local.declared
    ensures c.unresolved <= local.consumed - local.declared
  {
    var requirements := Requirements(local);
    var resolved := ResolvedRequirements(requirements, CollectModuleDependencies(firstLevel));
    Classification(resolved,
                   UnresolvedRequirements(requirements, resolved),
                   ImplementationDependencies(firstLevel, resolved))
  }

  /**
   * A type is listed under a dependency name exactly when the local classes
   * use it without declaring it and some collected dependency of that name
   * declares it.
   */
  lemma ClassifyResolved(local: ArtifactScanResult, firstLevel: set<Dependency>, name: string, x: string)
    ensures (name in Classify(local, firstLevel).resolved && x in Classify(local, firstLevel).resolved[name])
        <==> (x in local.consumed && x !in local.declared
              && exists d | d in CollectModuleDependencies(firstLevel) && d.name == name :: x in d.scan.declared)
  {
    var collected := CollectModuleDependencies(firstLevel);
    ResolvedRequirementsExact(Requirements(local), collected, name);
    if x in local.consumed && x !in local.declared
       && exists d | d in collected && d.name == name :: x in d.scan.declared
    {
      var d :| d in collected && d.name == name && x in d.scan.declared;
      assert x in Requirements(local) * DeclaredUnder(collected, name);
    }
  }

  /**
   * Each type the local classes use without declaring lands in exactly one
   * place: under the dependencies that declare it, in the unresolved list, or,
   * if nothing declares it and it starts with `java`, nowhere.
   */
  lemma ClassifyPartition(local: ArtifactScanResult, firstLevel: set<Dependency>, x: string)
    requires x in local.consumed && x !in local.declared
    ensures (var c := Classify(local, firstLevel);
             (x in Grouped(c.resolved) && x !in c.unresolved)
             || (x !in Grouped(c.resolved) && x in c.unresolved)
             || (x !in Grouped(c.resolved) && x !in c.unresolved && StartsWith(x, "java")))
  {
  }

  // ---------------------------------------------------------------------
  // The resolved report

  /** The groups under the given keys, in the given order, each group's types in increasing order. */
  ghost function GroupsInOrder(keys: seq<string>, resolved: map<string, set<string>>)
    : (report: seq<(string, seq<string>)>)
    requires forall i | 0 <= i < |keys| :: keys[i] in resolved
    ensures |report| == |keys|
    ensures forall i | 0 <= i < |report| :: report[i].0 == keys[i]
    ensures forall i | 0 <= i < |report| :: report[i].1 == SortedElements(resolved[keys[i]])
  {
    if keys == [] then [] else [(keys[0], SortedElements(resolved[keys[0]]))] + GroupsInOrder(keys[1..], resolved)
  }

  /** The resolved groups as printed: keys in increasing order, each group's types in increasing order. */
  ghost function ResolvedReport(resolved: map<string, set<string>>): (report: seq<(string, seq<string>)>)
    ensures |report| == |resolved|
    ensures forall i | 0 <= i < |report| :: report[i].0 in resolved
  {
    GroupsInOrder(SortedElements(resolved.Keys), resolved)
  }

  /** The report lists the dependency names in increasing order, so each one once. */
  lemma ResolvedReportOrdered(resolved: map<string, set<string>>)
    ensures forall i, j | 0 <= i < j < |ResolvedReport(resolved)| ::
              Less(ResolvedReport(resolved)[i].0, ResolvedReport(resolved)[j].0)
  {
    var keys := SortedElements(resolved.Keys);
    assert Sorted(keys);
  }

  /** Every dependency name that resolves something is listed. */
  lemma ResolvedReportComplete(resolved: map<string, set<string>>, k: string)
    requires k in resolved
    ensures exists i | 0 <= i < |ResolvedReport(resolved)| :: ResolvedReport(resolved)[i].0 == k
  {
    var keys := SortedElements(resolved.Keys);
    var i :| 0 <= i < |keys| && keys[i] == k;
    assert ResolvedReport(resolved)[i].0 == k;
  }

  /** Under each name the report lists exactly that group's types, in increasing order. */
  lemma ResolvedReportGroups(resolved: map<string, set<string>>, i: int)
    requires 0 <= i < |ResolvedReport(resolved)|
    ensures Sorted(ResolvedReport(resolved)[i].1)
    ensures forall x :: x in ResolvedReport(resolved)[i].1 <==> x in resolved[ResolvedReport(resolved)[i].0]
  {
    var keys := SortedElements(resolved.Keys);
    assert ResolvedReport(resolved)[i].1 == SortedElements(resolved[keys[i]]);
  }
}
