/** `SpecificationGraph.create`: membership maps and dependency relations
    built in three passes over the specifications. */
module SpecificationGraph {
  import opened Common
  import opened DependencyGraph

  /** The first pass records module and class membership together; `order`
      is the enumeration order of the specification map, any order
      covering its keys. The result does not depend on it. */
  method Create(specs: Specs, order: seq<string>) returns (r: Result<Graph>)
    requires WellKeyed(specs)
    requires forall k :: k in specs <==> k in order
    ensures r.Success? <==> AllReferencesDefined(specs, specs.Keys)
    ensures r.Failure? ==> r.error == NullValue
    ensures r.Success? ==> r.value == Expected(specs)
  {
    var moduleMembers: Relation := {};
    var classMembers: Relation := {};
    var i := 0;
    while i < |order|
      invariant 0 <= i <= |order|
      invariant moduleMembers == ModuleMembersOver(specs, Seen(order, i))
      invariant classMembers == ClassMembersOver(specs, Seen(order, i))
    {
      var spec := specs[order[i]];
      ModuleMembersStep(specs, Seen(order, i), order[i]);
      ClassMembersStep(specs, Seen(order, i), order[i]);
      SeenStep(order, i);
      if spec.moduleName.Some? {
        moduleMembers := moduleMembers + {(spec.moduleName.value, spec.ident)};
      }
      classMembers := classMembers + set c | c in spec.classes :: (c, spec.ident);
      i := i + 1;
    }
    SeenAll(specs, order);
    var deps :- SpecificationEdges(specs, order, classMembers);
    EdgesKnown(specs);
    var moduleDeps := ModuleEdges(specs, deps);
    return Success(Graph(moduleMembers, classMembers, deps, moduleDeps));
  }
}
