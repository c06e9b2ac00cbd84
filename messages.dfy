/** The generic three-level path (endpoint, cluster, leaf) that attribute,
    command and event paths are built on. An absent component is a wildcard:
    it stands for every value at that level. */
module Messages {
  import opened ImTypes

  /** `GenericPath::new(endpoint, cluster, leaf)` is this constructor. */
  datatype GenericPath = GenericPath(
    endpoint: Option<EndptId>,
    cluster: Option<ClusterId>,
    leaf: Option<u32>)

  /** The concrete target of a non-wildcard path. */
  datatype Target = Target(endpoint: EndptId, cluster: ClusterId, leaf: u32)

  /** Whether a path, read with wildcard semantics, addresses the element `t`:
      every present component must agree with `t`, an absent one agrees
      with anything. */
  predicate Addresses(p: GenericPath, t: Target)
  {
    (p.endpoint.None? || p.endpoint.value == t.endpoint) &&
    (p.cluster.None? || p.cluster.value == t.cluster) &&
    (p.leaf.None? || p.leaf.value == t.leaf)
  }

  /** `GenericPath::not_wildcard`: the concrete triple when all three
      components are present, `Err(Invalid)` otherwise. */
  function NotWildcard(p: GenericPath): (r: Result<Target, Error>)
    ensures r.Ok? <==> p.endpoint.Some? && p.cluster.Some? && p.leaf.Some?
    ensures r.Ok? ==> r.value == Target(p.endpoint.value, p.cluster.value, p.leaf.value)
    ensures r.Err? ==> r.error == Invalid
  {
    match p
    case GenericPath(Some(e), Some(c), Some(l)) => Ok(Target(e, c, l))
    case _ => Err(Invalid)
  }

  /** `GenericPath::is_wildcard`: true unless all three components are
      present. */
  predicate IsWildcard(p: GenericPath)
    ensures IsWildcard(p) <==> p.endpoint.None? || p.cluster.None? || p.leaf.None?
  {
    !(p.endpoint.Some? && p.cluster.Some? && p.leaf.Some?)
  }

  /** The two predicates are complementary. */
  lemma WildcardIffNotConcrete(p: GenericPath)
    ensures IsWildcard(p) <==> NotWildcard(p).Err?
  {
  }

  /** A path that `not_wildcard` accepts addresses exactly the triple it
      returns. */
  lemma ConcretePathAddressesOnlyItsTarget(p: GenericPath, t: Target)
    requires NotWildcard(p).Ok?
    ensures Addresses(p, t) <==> t == NotWildcard(p).value
  {
  }

  /** A wildcard path addresses more than one element, so no single target
      can be picked for it. */
  lemma WildcardAddressesSeveral(p: GenericPath)
    requires IsWildcard(p)
    ensures exists t1: Target, t2: Target :: t1 != t2 && Addresses(p, t1) && Addresses(p, t2)
  {
    var e := if p.endpoint.Some? then p.endpoint.value else 0;
    var c := if p.cluster.Some? then p.cluster.value else 0;
    var l := if p.leaf.Some? then p.leaf.value else 0;
    var t1 := Target(e, c, l);
    var t2 :=
      if p.endpoint.None? then Target(1, c, l)
      else if p.cluster.None? then Target(e, 1, l)
      else Target(e, c, 1);
    assert t1 != t2 && Addresses(p, t1) && Addresses(p, t2);
  }

  /** Conversely, a path that addresses two different elements is a
      wildcard: `is_wildcard` holds exactly when the path addresses more
      than one element. */
  lemma SeveralTargetsMeansWildcard(p: GenericPath, t1: Target, t2: Target)
    requires t1 != t2 && Addresses(p, t1) && Addresses(p, t2)
    ensures IsWildcard(p)
  {
  }
}
