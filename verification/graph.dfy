/** The dependency relations between specifications and between modules,
    defined declaratively. Both graph builders compute exactly these. */
module DependencyGraph {
  import opened Common
  import LexOrder
  import Spec = Specification
  import ContentModel

  /** The specifications, keyed by ident. */
  type Specs = map<string, Spec.Specification>

  predicate WellKeyed(specs: Specs) {
    forall k :: k in specs ==> specs[k].ident == k
  }

  /** A multimap of (key, value) pairs; a sorted set multimap holds each
      pair at most once. */
  type Relation = set<(string, string)>

  datatype Graph = Graph(moduleMembers: Relation, classMembers: Relation,
                         specificationDependencies: Relation, moduleDependencies: Relation)

  /** The pair of two distinct strings, smaller first. */
  function Canon(a: string, b: string): (e: (string, string))
    requires a != b
    ensures LexOrder.Less(e.0, e.1)
    ensures (e.0 == a && e.1 == b) || (e.0 == b && e.1 == a)
  {
    LexOrder.LessTotal(a, b);
    if LexOrder.Less(a, b) then (a, b) else (b, a)
  }

  lemma CanonSymmetric(a: string, b: string)
    requires a != b
    ensures Canon(a, b) == Canon(b, a)
  {
    LexOrder.LessAsymmetric(a, b);
  }

  /** The (module, ident) pairs of the given specifications. */
  function ModuleMembersOver(specs: Specs, keys: set<string>): Relation {
    set k | k in keys && k in specs && specs[k].moduleName.Some? :: (specs[k].moduleName.value, specs[k].ident)
  }

  /** The (class, ident) pairs of the given specifications. */
  function ClassMembersOver(specs: Specs, keys: set<string>): Relation {
    set k, c | k in keys && k in specs && c in specs[k].classes :: (c, specs[k].ident)
  }

  /** The names a specification's content model refers to; a content model
      without an entry pattern refers to nothing (building then fails). */
  function RefsOf(s: Spec.Specification): set<string> {
    match s.content
    case None => {}
    case Some(m) => if ContentModel.References(m).Success? then ContentModel.References(m).value else {}
  }

  predicate ReferencesDefined(s: Spec.Specification) {
    s.content.None? || ContentModel.References(s.content.value).Success?
  }

  /** The edges contributed by the given specifications: a class and each
      of its members, and a specification and each known ident its content
      refers to; an ident never depends on itself. */
  function ClassEdgesOver(specs: Specs, members: Relation, keys: set<string>): Relation {
    set e | e in members && e.0 in keys && e.0 in specs && specs[e.0].kind == Spec.ClassKind && e.1 != e.0
          :: Canon(e.0, e.1)
  }

  function RefEdgesOver(specs: Specs, keys: set<string>): Relation {
    set k, r | k in keys && k in specs && r in RefsOf(specs[k]) && r in specs && r != k :: Canon(k, r)
  }

  /** The module pair of one specification edge, when both ends have
      different modules. */
  predicate CrossModule(specs: Specs, e: (string, string)) {
    e.0 in specs && e.1 in specs && specs[e.0].moduleName.Some? && specs[e.1].moduleName.Some?
    && specs[e.0].moduleName.value != specs[e.1].moduleName.value
  }

  function ModuleEdge(specs: Specs, e: (string, string)): (string, string)
    requires CrossModule(specs, e)
  {
    Canon(specs[e.0].moduleName.value, specs[e.1].moduleName.value)
  }

  function ModuleEdgesOver(specs: Specs, edges: Relation): Relation {
    set e | e in edges && CrossModule(specs, e) :: ModuleEdge(specs, e)
  }

  function SpecificationDependencies(specs: Specs): Relation {
    ClassEdgesOver(specs, ClassMembersOver(specs, specs.Keys), specs.Keys) + RefEdgesOver(specs, specs.Keys)
  }

  /** The four relations of a specification map. */
  function Expected(specs: Specs): Graph {
    var deps := SpecificationDependencies(specs);
    Graph(ModuleMembersOver(specs, specs.Keys), ClassMembersOver(specs, specs.Keys),
          deps, ModuleEdgesOver(specs, deps))
  }

  /** The edges one specification contributes. */
  function ClassStep(specs: Specs, members: Relation, k: string): Relation
    requires k in specs
  {
    if specs[k].kind == Spec.ClassKind then set e | e in members && e.0 == k && e.1 != k :: Canon(k, e.1) else {}
  }

  function RefStep(specs: Specs, k: string): Relation
    requires k in specs
  {
    set r | r in RefsOf(specs[k]) && r in specs && r != k :: Canon(k, r)
  }

  /** One loop step adds one specification's pairs. */
  lemma ModuleMembersStep(specs: Specs, keys: set<string>, k: string)
    requires k in specs
    ensures ModuleMembersOver(specs, keys + {k})
         == ModuleMembersOver(specs, keys)
            + (if specs[k].moduleName.Some? then {(specs[k].moduleName.value, specs[k].ident)} else {})
  {
  }

  lemma ClassMembersStep(specs: Specs, keys: set<string>, k: string)
    requires k in specs
    ensures ClassMembersOver(specs, keys + {k})
         == ClassMembersOver(specs, keys) + (set c | c in specs[k].classes :: (c, specs[k].ident))
  {
  }

  lemma ClassEdgesStep(specs: Specs, members: Relation, keys: set<string>, k: string)
    requires k in specs
    ensures ClassEdgesOver(specs, members, keys + {k}) == ClassEdgesOver(specs, members, keys) + ClassStep(specs, members, k)
  {
  }

  lemma RefEdgesStep(specs: Specs, keys: set<string>, k: string)
    requires k in specs
    ensures RefEdgesOver(specs, keys + {k}) == RefEdgesOver(specs, keys) + RefStep(specs, k)
  {
  }

  lemma ModuleEdgesStep(specs: Specs, edges: Relation, e: (string, string))
    ensures ModuleEdgesOver(specs, edges + {e})
         == ModuleEdgesOver(specs, edges) + (if CrossModule(specs, e) then {ModuleEdge(specs, e)} else {})
  {
  }

  /** Module membership holds exactly the (module, ident) pairs of
      specifications with a module, class membership exactly the
      (class, ident) pairs of each specification's class map. */
  lemma MembershipCharacterized(specs: Specs, m: string, id: string)
    requires WellKeyed(specs)
    ensures (m, id) in Expected(specs).moduleMembers <==> id in specs && specs[id].moduleName == Some(m)
    ensures (m, id) in Expected(specs).classMembers <==> id in specs && m in specs[id].classes
  {
    if id in specs && specs[id].moduleName == Some(m) {
      assert (specs[id].moduleName.value, specs[id].ident) in ModuleMembersOver(specs, specs.Keys);
    }
    if id in specs && m in specs[id].classes {
      assert (m, specs[id].ident) in ClassMembersOver(specs, specs.Keys);
    }
  }

  /** Why two specifications depend on each other: `x` is a class with `y`
      among its members, or `x`'s content refers to `y`. */
  predicate Related(specs: Specs, x: string, y: string) {
    && x in specs && y in specs && x != y
    && ((specs[x].kind == Spec.ClassKind && x in specs[y].classes) || y in RefsOf(specs[x]))
  }

  /** The specification edges are exactly the related pairs, each stored
      once with the smaller ident first, so there are no self-loops and both
      ends are known idents. */
  lemma SpecificationDependenciesCharacterized(specs: Specs, a: string, b: string)
    requires WellKeyed(specs)
    ensures (a, b) in Expected(specs).specificationDependencies <==>
              LexOrder.Less(a, b) && (Related(specs, a, b) || Related(specs, b, a))
    ensures (a, b) in Expected(specs).specificationDependencies ==>
              a != b && a in specs && b in specs && (b, a) !in Expected(specs).specificationDependencies
  {
    var deps := Expected(specs).specificationDependencies;
    var members := ClassMembersOver(specs, specs.Keys);
    LexOrder.LessIrreflexive(a);
    LexOrder.LessAsymmetric(a, b);
    if (a, b) in deps {
      if (a, b) in ClassEdgesOver(specs, members, specs.Keys) {
        var e :| e in members && e.0 in specs && specs[e.0].kind == Spec.ClassKind && e.1 != e.0 && (a, b) == Canon(e.0, e.1);
        MembershipCharacterized(specs, e.0, e.1);
      } else {
        var k, r :| k in specs && r in RefsOf(specs[k]) && r in specs && r != k && (a, b) == Canon(k, r);
      }
    }
    if LexOrder.Less(a, b) && Related(specs, a, b) {
      RelatedEdge(specs, a, b);
      CanonOfOrdered(a, b);
    }
    if LexOrder.Less(a, b) && Related(specs, b, a) {
      RelatedEdge(specs, b, a);
      CanonOfOrdered(a, b);
      CanonSymmetric(a, b);
    }
    if (b, a) in deps {
      assert LexOrder.Less(b, a) by {
        EdgesOrdered(specs, b, a);
      }
    }
  }

  lemma CanonOfOrdered(a: string, b: string)
    requires LexOrder.Less(a, b)
    ensures a != b && Canon(a, b) == (a, b)
  {
    LexOrder.LessIrreflexive(a);
  }

  lemma EdgesOrdered(specs: Specs, a: string, b: string)
    requires (a, b) in SpecificationDependencies(specs)
    ensures LexOrder.Less(a, b)
  {
  }

  lemma RelatedEdge(specs: Specs, x: string, y: string)
    requires WellKeyed(specs) && Related(specs, x, y)
    ensures Canon(x, y) in SpecificationDependencies(specs)
  {
    if specs[x].kind == Spec.ClassKind && x in specs[y].classes {
      MembershipCharacterized(specs, x, y);
      assert Canon(x, y) in ClassEdgesOver(specs, ClassMembersOver(specs, specs.Keys), specs.Keys);
    } else {
      assert Canon(x, y) in RefEdgesOver(specs, specs.Keys);
    }
  }

  /** A class and each of its members other than itself are connected. */
  lemma ClassEdgePresent(specs: Specs, c: string, m: string)
    requires WellKeyed(specs)
    requires c in specs && specs[c].kind == Spec.ClassKind
    requires m in specs && c in specs[m].classes && m != c
    ensures Canon(c, m) in Expected(specs).specificationDependencies
  {
    RelatedEdge(specs, c, m);
  }

  /** A content reference gives an edge exactly when it names another known
      specification. */
  lemma RefEdgeCondition(specs: Specs, id: string, r: string)
    requires WellKeyed(specs) && id in specs && r in RefsOf(specs[id]) && r != id
    ensures r in specs ==> Canon(id, r) in Expected(specs).specificationDependencies
    ensures r !in specs ==> forall e :: e in Expected(specs).specificationDependencies ==> e.0 != r && e.1 != r
  {
    if r in specs {
      RelatedEdge(specs, id, r);
    } else {
      forall e | e in Expected(specs).specificationDependencies ensures e.0 != r && e.1 != r {
        SpecificationDependenciesCharacterized(specs, e.0, e.1);
      }
    }
  }

  /** Module edges are canonical pairs of distinct modules, each coming
      from a specification edge whose ends lie in those modules; every
      specification edge across two modules gives one. */
  lemma ModuleDependenciesCharacterized(specs: Specs, m1: string, m2: string, x: string, y: string)
    requires WellKeyed(specs)
    ensures (m1, m2) in Expected(specs).moduleDependencies ==>
              LexOrder.Less(m1, m2) &&
              exists e :: e in Expected(specs).specificationDependencies && CrossModule(specs, e)
                          && ModuleEdge(specs, e) == (m1, m2)
    ensures (x, y) in Expected(specs).specificationDependencies && CrossModule(specs, (x, y)) ==>
              Canon(specs[x].moduleName.value, specs[y].moduleName.value) in Expected(specs).moduleDependencies
    ensures (x, y) in Expected(specs).specificationDependencies && !CrossModule(specs, (x, y)) ==>
              specs[x].moduleName.None? || specs[y].moduleName.None?
              || specs[x].moduleName == specs[y].moduleName
  {
    var deps := Expected(specs).specificationDependencies;
    if (x, y) in deps {
      SpecificationDependenciesCharacterized(specs, x, y);
    }
  }

  /** The keys an enumeration has visited before position `i`. */
  function Seen(order: seq<string>, i: nat): set<string>
    requires i <= |order|
  {
    set j | 0 <= j < i :: order[j]
  }

  lemma SeenStep(order: seq<string>, i: nat)
    requires i < |order|
    ensures Seen(order, i + 1) == Seen(order, i) + {order[i]}
  {
  }

  lemma SeenAll(specs: Specs, order: seq<string>)
    requires forall k :: k in specs <==> k in order
    ensures Seen(order, |order|) == specs.Keys
  {
    forall k | k in specs ensures k in Seen(order, |order|) {
      var j :| 0 <= j < |order| && order[j] == k;
    }
  }

  /** The second pass of both builders: for every specification, in the
      given enumeration order, connect a class to its members and a
      specification to the known idents its content refers to. A content
      model whose references cannot be listed stops the build. */
  method SpecificationEdges(specs: Specs, order: seq<string>, classMembers: Relation) returns (r: Result<Relation>)
    requires WellKeyed(specs)
    requires forall k :: k in specs <==> k in order
    requires classMembers == ClassMembersOver(specs, specs.Keys)
    ensures r.Success? <==> AllReferencesDefined(specs, specs.Keys)
    ensures r.Failure? ==> r.error == NullValue
    ensures r.Success? ==> r.value == SpecificationDependencies(specs)
  {
    var deps: Relation := {};
    var i := 0;
    while i < |order|
      invariant 0 <= i <= |order|
      invariant deps == ClassEdgesOver(specs, classMembers, Seen(order, i)) + RefEdgesOver(specs, Seen(order, i))
      invariant AllReferencesDefined(specs, Seen(order, i))
    {
      var step := EdgesOf(specs, classMembers, order[i]);
      if step.Failure? {
        return Failure(step.error);
      }
      EdgesLoopStep(specs, classMembers, order, i, deps, step.value);
      deps := deps + step.value;
      i := i + 1;
    }
    SeenAll(specs, order);
    return Success(deps);
  }

  /** The second pass's invariant survives one iteration. */
  lemma EdgesLoopStep(specs: Specs, members: Relation, order: seq<string>, i: nat, deps: Relation, step: Relation)
    requires i < |order| && order[i] in specs
    requires deps == ClassEdgesOver(specs, members, Seen(order, i)) + RefEdgesOver(specs, Seen(order, i))
    requires AllReferencesDefined(specs, Seen(order, i)) && ReferencesDefined(specs[order[i]])
    requires step == ClassStep(specs, members, order[i]) + RefStep(specs, order[i])
    ensures deps + step == ClassEdgesOver(specs, members, Seen(order, i + 1)) + RefEdgesOver(specs, Seen(order, i + 1))
    ensures AllReferencesDefined(specs, Seen(order, i + 1))
  {
    ClassEdgesStep(specs, members, Seen(order, i), order[i]);
    RefEdgesStep(specs, Seen(order, i), order[i]);
    SeenStep(order, i);
  }

  predicate AllReferencesDefined(specs: Specs, keys: set<string>) {
    forall k :: k in keys && k in specs ==> ReferencesDefined(specs[k])
  }

  /** One iteration of the second pass. */
  method EdgesOf(specs: Specs, classMembers: Relation, id: string) returns (r: Result<Relation>)
    requires id in specs
    ensures r.Success? <==> ReferencesDefined(specs[id])
    ensures r.Failure? ==> r.error == NullValue
    ensures r.Success? ==> r.value == ClassStep(specs, classMembers, id) + RefStep(specs, id)
  {
    var spec := specs[id];
    var classStep: Relation := {};
    if spec.kind == Spec.ClassKind {
      classStep := set e | e in classMembers && e.0 == id && e.1 != id :: Canon(id, e.1);
    }
    var refStep: Relation := {};
    if spec.content.Some? {
      var refs := ContentModel.References(spec.content.value);
      if refs.Failure? {
        return Failure(refs.error);
      }
      refStep := set x | x in refs.value && x in specs && x != id :: Canon(id, x);
    }
    return Success(classStep + refStep);
  }

  /** The third pass of both builders: every specification edge whose ends
      lie in two different modules connects those modules, smaller first. */
  method ModuleEdges(specs: Specs, deps: Relation) returns (moduleDeps: Relation)
    requires forall e :: e in deps ==> e.0 in specs && e.1 in specs
    ensures moduleDeps == ModuleEdgesOver(specs, deps)
  {
    moduleDeps := {};
    var rest := deps;
    while rest != {}
      invariant rest <= deps
      invariant moduleDeps == ModuleEdgesOver(specs, deps - rest)
      decreases |rest|
    {
      var e :| e in rest;
      ModuleEdgesStep(specs, deps - rest, e);
      assert (deps - rest) + {e} == deps - (rest - {e});
      var module1 := specs[e.0].moduleName;
      var module2 := specs[e.1].moduleName;
      if module1.Some? && module2.Some? {
        var order := LexOrder.Compare(module1.value, module2.value);
        LexOrder.CompareZeroIffEqual(module1.value, module2.value);
        if order < 0 {
          moduleDeps := moduleDeps + {(module1.value, module2.value)};
        } else if order > 0 {
          LexOrder.CompareAntisymmetric(module1.value, module2.value);
          moduleDeps := moduleDeps + {(module2.value, module1.value)};
        }
      }
      rest := rest - {e};
    }
  }

  lemma EdgesKnown(specs: Specs)
    requires WellKeyed(specs)
    ensures forall e :: e in SpecificationDependencies(specs) ==> e.0 in specs && e.1 in specs
  {
    forall e | e in SpecificationDependencies(specs) ensures e.0 in specs && e.1 in specs {
      SpecificationDependenciesCharacterized(specs, e.0, e.1);
    }
  }
}
