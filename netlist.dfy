/**
 * The CoreIR netlist the builder reads, as an abstract value.
 *
 * A netlist is a sequence of modules. A module has an ordered port record and,
 * unless it is a primitive, a body: ordered child instances, each naming the
 * module it uses by its position in the sequence. Connectivity is recorded per
 * port and per bit of a port: the wireables connected there, in the form in
 * which the builder inspects them. Every module carries a rank that strictly
 * decreases from a parent to the modules its children use, which is how the
 * model states that the module hierarchy is acyclic.
 */
module Netlist {
  import opened Wrappers

  /** One field of a module's record type: its name, its size in bits, whether
      the field's type is an input type, and whether it is an array of bits. */
  datatype Port = Port(name: string, width: nat, isInput: bool, isArray: bool)

  /** The wireable a select hangs off: the module's own interface (`self`) or
      one of the child instances of its body, by position. */
  datatype Node = Interface | Instance(index: nat)

  /** A wireable connected to a port or to one bit of a port. */
  datatype Driver =
    | PortSelect(node: Node, port: string)                 // `self.p` or `inst.p`
    | ElementSelect(node: Node, port: string, index: nat)  // `self.p.i` or `inst.p.i`, p an array
    | Unsupported                                          // any other kind of wireable

  /** Where connectivity is queried: a whole port, or one bit of an array port. */
  datatype Endpoint = WholePort(port: string) | PortBit(port: string, bit: nat)

  /** The wireables connected at each endpoint; an endpoint that is absent has none. */
  type Wiring = map<Endpoint, seq<Driver>>

  /** A child instance: its name, the module it instantiates and the
      connectivity of its ports. */
  datatype Child = Child(name: string, moduleRef: nat, wiring: Wiring)

  /** A module definition: its child instances, in iteration order, and the
      connectivity of the module's own interface. */
  datatype ModuleDef = ModuleDef(instances: seq<Child>, wiring: Wiring)

  datatype Module = Module(name: string, ports: seq<Port>, definition: Option<ModuleDef>, rank: nat)

  /** A wireable whose port selects the builder inspects: the port record that
      types it and the connectivity recorded at its ports. */
  datatype View = View(ports: seq<Port>, wiring: Wiring)

  /** The wireables connected at `e` (`getConnectedWireables`). */
  function Connected(w: Wiring, e: Endpoint): seq<Driver>
  {
    if e in w then w[e] else []
  }

  /** The names of the fields of a record, in order. */
  function PortNames(ports: seq<Port>): (names: seq<string>)
    ensures |names| == |ports|
    ensures forall j :: 0 <= j < |ports| ==> names[j] == ports[j].name
  {
    seq(|ports|, j requires 0 <= j < |ports| => ports[j].name)
  }

  /** The position of the first port named `name`, if there is one. */
  function FindPort(ports: seq<Port>, name: string): (r: Option<nat>)
    ensures r.Some? ==> r.value < |ports| && ports[r.value].name == name
    ensures r.Some? ==> forall j :: 0 <= j < r.value ==> ports[j].name != name
    ensures r.None? <==> forall j :: 0 <= j < |ports| ==> ports[j].name != name
  {
    FindName(PortNames(ports), name)
  }

  /** Whether the port `name` of the view has an array type. */
  predicate IsArrayPort(v: View, name: string)
  {
    match FindPort(v.ports, name)
    case None => false
    case Some(j) => v.ports[j].isArray
  }

  datatype Netlist = Netlist(modules: seq<Module>)
  {
    /** Every child refers to an existing module of strictly smaller rank. */
    ghost predicate Valid()
    {
      forall m :: 0 <= m < |modules| && modules[m].definition.Some? ==>
        forall k :: 0 <= k < |modules[m].definition.value.instances| ==>
          var c := modules[m].definition.value.instances[k].moduleRef;
          c < |modules| && modules[c].rank < modules[m].rank
    }

    /** The i-th child instance of module `m`. */
    function ChildOf(m: nat, k: nat): Child
      requires m < |modules| && modules[m].definition.Some?
      requires k < |modules[m].definition.value.instances|
    {
      modules[m].definition.value.instances[k]
    }

    /** The view of module `m`'s own interface. */
    function InterfaceView(m: nat): View
      requires m < |modules| && modules[m].definition.Some?
    {
      View(modules[m].ports, modules[m].definition.value.wiring)
    }

    /** The view of the k-th child instance of module `m`: typed by the
        instantiated module's record, wired by the instance's connectivity. */
    function InstanceView(m: nat, k: nat): View
      requires Valid() && m < |modules| && modules[m].definition.Some?
      requires k < |modules[m].definition.value.instances|
    {
      View(modules[ChildOf(m, k).moduleRef].ports, ChildOf(m, k).wiring)
    }

    /** Module `x` is `m` or is used, directly or transitively, by a child of `m`. */
    ghost predicate Reaches(m: nat, x: nat)
      requires Valid() && m < |modules|
      decreases modules[m].rank
    {
      x == m ||
      (modules[m].definition.Some? &&
       exists k :: 0 <= k < |modules[m].definition.value.instances| &&
         Reaches(ChildOf(m, k).moduleRef, x))
    }

    /** Everything reachable from `m` has a rank no larger than `m`'s, and
        strictly smaller unless it is `m` itself. */
    lemma {:induction false} ReachesRank(m: nat, x: nat)
      requires Valid() && m < |modules| && Reaches(m, x)
      ensures x < |modules|
      ensures modules[x].rank <= modules[m].rank
      ensures x != m ==> modules[x].rank < modules[m].rank
      decreases modules[m].rank
    {
      if x != m {
        var k :| 0 <= k < |modules[m].definition.value.instances| && Reaches(ChildOf(m, k).moduleRef, x);
        ReachesRank(ChildOf(m, k).moduleRef, x);
      }
    }

    /** What a child reaches, its parent reaches. */
    lemma ReachesThroughChild(m: nat, k: nat, x: nat)
      requires Valid() && m < |modules| && modules[m].definition.Some?
      requires k < |modules[m].definition.value.instances|
      requires Reaches(ChildOf(m, k).moduleRef, x)
      ensures Reaches(m, x)
    {
    }
  }
}
