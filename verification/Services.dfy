/** Services, their health and their typed dependency edges. */
module Services {
  import opened Types

  type Id = string

  datatype ServiceHealth = Healthy | Degraded(reason: string) | Failed(reason: string) | Unknown

  datatype ServiceNode = ServiceNode(id: Id, name: string, health: ServiceHealth, criticality: u8)

  datatype EdgeType = HardDependency | SoftDependency | Fallback

  datatype DependencyEdge = DependencyEdge(from: Id, to: Id, edgeType: EdgeType, weight: real)

  type Nodes = map<Id, ServiceNode>
  type Adjacency = map<Id, seq<DependencyEdge>>

  predicate Counts(e: DependencyEdge, hardOnly: bool) {
    hardOnly ==> e.edgeType.HardDependency?
  }

  /** The edges as pairs, keyed by the service they are stored under. */
  ghost function EdgesOf(adjacency: Adjacency, hardOnly: bool): set<(Id, Id)> {
    set f, e | f in adjacency && e in adjacency[f] && Counts(e, hardOnly) :: (f, e.to)
  }

  ghost function Sources(E: set<(Id, Id)>): set<Id> {
    set e | e in E :: e.0
  }
}
