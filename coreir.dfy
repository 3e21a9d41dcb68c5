/**
 * The CoreIR builder: a post-order walk over the module hierarchy that
 * appends one definition per module reached, after the definitions of the
 * modules its children use, and connects every input of each composite
 * definition's own interface and of its instances' interfaces.
 *
 * The module map and the definition sequence that the source passes by
 * reference are passed in and returned. Each definition is recorded together
 * with a ghost sequence `owner` naming the module it was built from.
 */
module CoreIR {
  import opened Wrappers
  import N = Netlist
  import opened CircuitIR
  import opened CoreIRSpec

  /* ---------------------------------------------------------------------- */
  /* The state the walk keeps                                               */
  /* ---------------------------------------------------------------------- */

  /** The input objects of the instances' interfaces. */
  ghost function InstanceInputs(instances: seq<Instance>): set<Input>
  {
    set k, x | 0 <= k < |instances| && x in InputSet(instances[k].iface.inputs) :: x
  }

  /** The input objects a definition owns: its own and its instances'. */
  ghost function DefinitionInputs(d: Definition): set<Input>
  {
    InputSet(d.iface.inputs) + if d.body.Composite? then InstanceInputs(d.body.instances) else {}
  }

  /** The input objects of all the definitions. */
  ghost function Footprint(defs: seq<Definition>): set<Input>
  {
    set i, x | 0 <= i < |defs| && x in DefinitionInputs(defs[i]) :: x
  }

  /** No input object is shared by two of the instances. */
  ghost predicate InputsDisjoint(instances: seq<Instance>)
  {
    forall a, b :: 0 <= a < b < |instances| ==>
      InputSet(instances[a].iface.inputs) !! InputSet(instances[b].iface.inputs)
  }

  lemma InstanceInputsAppend(instances: seq<Instance>, inst: Instance)
    ensures InstanceInputs(instances + [inst]) == InstanceInputs(instances) + InputSet(inst.iface.inputs)
  {
    var both := instances + [inst];
    assert both[|instances|] == inst;
    forall x | x in InstanceInputs(instances)
      ensures x in InstanceInputs(both)
    {
      var k :| 0 <= k < |instances| && x in InputSet(instances[k].iface.inputs);
      assert both[k] == instances[k];
    }
  }

  /** An instance whose inputs are new to the instances keeps them disjoint. */
  lemma InputsDisjointAppend(instances: seq<Instance>, inst: Instance)
    requires InputsDisjoint(instances) && InstanceInputs(instances) !! InputSet(inst.iface.inputs)
    ensures InputsDisjoint(instances + [inst])
    ensures InstanceInputs(instances + [inst]) == InstanceInputs(instances) + InputSet(inst.iface.inputs)
  {
    InstanceInputsAppend(instances, inst);
    forall a | 0 <= a < |instances|
      ensures InputSet(instances[a].iface.inputs) !! InputSet(inst.iface.inputs)
    {
      InstanceInputsHas(instances, a);
    }
  }

  lemma InstanceInputsHas(instances: seq<Instance>, k: nat)
    requires k < |instances|
    ensures InputSet(instances[k].iface.inputs) <= InstanceInputs(instances)
  {
  }

  /** Every input of `shape` can be given a select. */
  ghost predicate IFaceResolvable(view: N.View, shape: seq<Value>, defnIFace: IFace, instances: seq<Instance>, instMap: map<nat, nat>)
    requires InstMapValid(instMap, instances)
  {
    forall j :: 0 <= j < |shape| ==> SelectFor(view, shape[j], defnIFace, instances, instMap).Ok?
  }

  /** Every input of `iface` is connected, to the select computed for it. */
  ghost predicate IFaceConnected(view: N.View, iface: IFace, defnIFace: IFace, instances: seq<Instance>, instMap: map<nat, nat>)
    requires InstMapValid(instMap, instances)
    reads InputSet(iface.inputs)
  {
    forall j :: 0 <= j < |iface.inputs| ==>
      iface.inputs[j].IsConnected() &&
      SelectFor(view, Value(iface.inputs[j].name, iface.inputs[j].width), defnIFace, instances, instMap)
        == Ok(iface.inputs[j].GetSelect())
  }

  /** `inst` was made for child `c` from the definition at a position before
      the end of `prior`, which is that of `c`'s module: its inputs are that
      module's outputs and its outputs that module's inputs. */
  ghost predicate InstanceBuilt(nl: N.Netlist, c: N.Child, inst: Instance, prior: seq<nat>)
    requires c.moduleRef < |nl.modules|
  {
    var ports := nl.modules[c.moduleRef].ports;
    inst.name == c.name &&
    inst.defn < |prior| && prior[inst.defn] == c.moduleRef &&
    inst.iface.IsInstance() &&
    inst.iface.outputs == PortValues(ports, false) &&
    Shape(inst.iface.inputs) == PortValues(ports, true)
  }

  /** `d` is the definition of module `m`, built after the definitions whose
      modules `prior` lists: its interface comes from the port record, a
      primitive keeps its inputs unconnected, and a composite has one
      instance per child, each of a definition in `prior`, with every input
      of every interface connected to the select the netlist gives it. */
  ghost predicate Built(nl: N.Netlist, m: nat, d: Definition, prior: seq<nat>)
    requires nl.Valid() && m < |nl.modules|
    reads DefinitionInputs(d)
  {
    var mod := nl.modules[m];
    d.name == mod.name &&
    d.iface.IsDefinition() &&
    d.iface.outputs == PortValues(mod.ports, true) &&
    Shape(d.iface.inputs) == PortValues(mod.ports, false) &&
    match mod.definition
    case None =>
      d.body.Primitive? &&
      forall j :: 0 <= j < |d.iface.inputs| ==> !d.iface.inputs[j].IsConnected()
    case Some(md) =>
      d.body.Composite? &&
      var insts := d.body.instances;
      |insts| == |md.instances| &&
      (forall k :: 0 <= k < |insts| ==>
        InstanceBuilt(nl, md.instances[k], insts[k], prior) &&
        IFaceConnected(nl.InstanceView(m, k), insts[k].iface, d.iface, insts, Identity(|insts|))) &&
      IFaceConnected(nl.InterfaceView(m), d.iface, d.iface, insts, Identity(|insts|))
  }

  /** Position `i` holds the definition of module `owner[i]`, built after
      those before it, and that module and everything below it is wired. */
  ghost predicate DefinitionAt(nl: N.Netlist, defs: seq<Definition>, owner: seq<nat>, i: nat)
    requires nl.Valid()
    reads Footprint(defs)
  {
    i < |defs| && i < |owner| && owner[i] < |nl.modules| &&
    Built(nl, owner[i], defs[i], owner[..i]) && AllWired(nl, owner[i])
  }

  /**
   * The builder's state: `defs[i]` is the one definition of module
   * `owner[i]`, built after those before it; the module map sends each module
   * it holds to the position of that module's definition and holds exactly
   * the modules that have one; and every module it holds, with everything
   * below it, is wired.
   */
  ghost predicate Registry(nl: N.Netlist, modMap: map<nat, nat>, defs: seq<Definition>, owner: seq<nat>)
    requires nl.Valid()
    reads Footprint(defs)
  {
    |owner| == |defs| &&
    (forall i :: 0 <= i < |defs| ==> DefinitionAt(nl, defs, owner, i)) &&
    (forall i :: 0 <= i < |defs| ==>
      owner[i] < |nl.modules| && owner[i] in modMap && modMap[owner[i]] == i) &&
    (forall x :: x in modMap ==> x < |nl.modules| && modMap[x] < |defs| && owner[modMap[x]] == x)
  }

  /** Every module in the map is wired, with everything below it. */
  lemma RegistryWired(nl: N.Netlist, modMap: map<nat, nat>, defs: seq<Definition>, owner: seq<nat>, x: nat)
    requires nl.Valid() && Registry(nl, modMap, defs, owner) && x in modMap
    ensures x < |nl.modules| && AllWired(nl, x)
  {
    assert DefinitionAt(nl, defs, owner, modMap[x]);
  }

  /** No module has two definitions. */
  lemma RegistryDistinct(nl: N.Netlist, modMap: map<nat, nat>, defs: seq<Definition>, owner: seq<nat>, i: nat, j: nat)
    requires nl.Valid() && Registry(nl, modMap, defs, owner)
    requires i < j < |defs|
    ensures owner[i] != owner[j]
  {
  }

  /** Every instance of a definition refers to a definition before it, and
      to the one of the module its child uses. */
  lemma RegistryOrdered(nl: N.Netlist, modMap: map<nat, nat>, defs: seq<Definition>, owner: seq<nat>, i: nat)
    requires nl.Valid() && Registry(nl, modMap, defs, owner)
    requires i < |defs| && defs[i].body.Composite?
    ensures nl.modules[owner[i]].definition.Some?
    ensures forall k :: 0 <= k < |defs[i].body.instances| ==>
      defs[i].body.instances[k].defn < i &&
      k < |nl.modules[owner[i]].definition.value.instances| &&
      owner[defs[i].body.instances[k].defn] == nl.ChildOf(owner[i], k).moduleRef
  {
    assert DefinitionAt(nl, defs, owner, i);
  }

  /** A definition's own interface is a definition interface, and the
      interface of each of its instances is an instance interface. */
  lemma RegistryIFaceKinds(nl: N.Netlist, modMap: map<nat, nat>, defs: seq<Definition>, owner: seq<nat>, i: nat)
    requires nl.Valid() && Registry(nl, modMap, defs, owner)
    requires i < |defs|
    ensures defs[i].iface.IsDefinition() && !defs[i].iface.IsInstance()
    ensures defs[i].body.Composite? ==> forall k :: 0 <= k < |defs[i].body.instances| ==>
      defs[i].body.instances[k].iface.IsInstance() && !defs[i].body.instances[k].iface.IsDefinition()
  {
    assert DefinitionAt(nl, defs, owner, i);
  }

  /** The part of the state that making instances needs: the interface of
      the definition the module map gives each module. */
  ghost predicate Declared(nl: N.Netlist, modMap: map<nat, nat>, defs: seq<Definition>, owner: seq<nat>)
  {
    forall x :: x in modMap ==>
      x < |nl.modules| && modMap[x] < |defs| && modMap[x] < |owner| && owner[modMap[x]] == x &&
      defs[modMap[x]].iface.outputs == PortValues(nl.modules[x].ports, true) &&
      Shape(defs[modMap[x]].iface.inputs) == PortValues(nl.modules[x].ports, false)
  }

  lemma RegistryEmpty(nl: N.Netlist)
    requires nl.Valid()
    ensures Registry(nl, map[], [], [])
  {
  }

  lemma RegistryDeclared(nl: N.Netlist, modMap: map<nat, nat>, defs: seq<Definition>, owner: seq<nat>)
    requires nl.Valid() && Registry(nl, modMap, defs, owner)
    ensures Declared(nl, modMap, defs, owner)
  {
    forall x | x in modMap
      ensures x < |nl.modules|
      ensures defs[modMap[x]].iface.outputs == PortValues(nl.modules[x].ports, true)
      ensures Shape(defs[modMap[x]].iface.inputs) == PortValues(nl.modules[x].ports, false)
    {
      assert DefinitionAt(nl, defs, owner, modMap[x]);
    }
  }

  /** Appending the definition of a module not yet in the map keeps the state. */
  lemma RegistryAppend(nl: N.Netlist, modMap: map<nat, nat>, defs: seq<Definition>, owner: seq<nat>, m: nat, d: Definition)
    requires nl.Valid() && Registry(nl, modMap, defs, owner)
    requires m < |nl.modules| && m !in modMap
    requires Built(nl, m, d, owner) && AllWired(nl, m)
    ensures Registry(nl, modMap[m := |defs|], defs + [d], owner + [m])
  {
    var defs', owner' := defs + [d], owner + [m];
    forall i | 0 <= i < |defs'|
      ensures DefinitionAt(nl, defs', owner', i)
    {
      if i < |defs| {
        assert DefinitionAt(nl, defs, owner, i);
        assert owner'[..i] == owner[..i];
      } else {
        assert owner'[..i] == owner;
      }
    }
  }

  /** Every module reachable from a module in the map is in the map. */
  lemma {:induction false} RegistryClosed(nl: N.Netlist, modMap: map<nat, nat>, defs: seq<Definition>, owner: seq<nat>, m: nat, x: nat)
    requires nl.Valid() && Registry(nl, modMap, defs, owner)
    requires m in modMap && nl.Reaches(m, x)
    ensures x in modMap
    decreases nl.modules[m].rank
  {
    if x != m {
      var md := nl.modules[m].definition.value;
      var k :| 0 <= k < |md.instances| && nl.Reaches(nl.ChildOf(m, k).moduleRef, x);
      var i := modMap[m];
      assert DefinitionAt(nl, defs, owner, i);
      var inst := defs[i].body.instances[k];
      assert InstanceBuilt(nl, md.instances[k], inst, owner[..i]);
      RegistryClosed(nl, modMap, defs, owner, md.instances[k].moduleRef, x);
    }
  }

  /** The instances made so far for the leading children of `children`: one
      per child, each of the definition the module map gives its child's
      module and built for that child. */
  ghost predicate InstancesMade(nl: N.Netlist, modMap: map<nat, nat>, children: seq<N.Child>, instances: seq<Instance>, owner: seq<nat>)
  {
    |instances| <= |children| &&
    forall i :: 0 <= i < |instances| ==>
      children[i].moduleRef < |nl.modules| && children[i].moduleRef in modMap &&
      instances[i].defn == modMap[children[i].moduleRef] &&
      InstanceBuilt(nl, children[i], instances[i], owner)
  }

  /** An instance made of the definition the map gives the next child's
      module extends the instances made so far. */
  lemma InstancesMadeAppend(nl: N.Netlist, modMap: map<nat, nat>, defs: seq<Definition>, owner: seq<nat>,
                            children: seq<N.Child>, instances: seq<Instance>, inst: Instance)
    requires Declared(nl, modMap, defs, owner)
    requires InstancesMade(nl, modMap, children, instances, owner) && |instances| < |children|
    requires children[|instances|].moduleRef in modMap
    requires inst.name == children[|instances|].name && inst.defn == modMap[children[|instances|].moduleRef]
    requires inst.iface.IsInstance()
    requires Shape(inst.iface.inputs) == defs[inst.defn].iface.outputs
    requires inst.iface.outputs == Shape(defs[inst.defn].iface.inputs)
    ensures InstancesMade(nl, modMap, children, instances + [inst], owner)
  {
  }

  /** The inputs of one interface can all be given a select exactly when the
      netlist wires every sink of the same shape at the same view. */
  lemma SinksResolvable(nl: N.Netlist, m: nat, view: N.View, sinks: seq<Value>, defnIFace: IFace, instances: seq<Instance>)
    requires nl.Valid() && m < |nl.modules| && nl.modules[m].definition.Some?
    requires Correspond(nl, m, defnIFace, instances)
    ensures SinksWired(nl, m, view, sinks) <==> IFaceResolvable(view, sinks, defnIFace, instances, Identity(|instances|))
  {
    forall j | 0 <= j < |sinks|
      ensures SelectFor(view, sinks[j], defnIFace, instances, Identity(|instances|)).Ok?
          <==> SinkWired(nl, m, view, sinks[j])
    {
      SelectForWired(nl, m, view, sinks[j], defnIFace, instances);
    }
  }

  /** A composite module is wired exactly when every input of the interfaces
      built for it can be given a select. */
  lemma WiredResolvable(nl: N.Netlist, m: nat, defnIFace: IFace, instances: seq<Instance>)
    requires nl.Valid() && m < |nl.modules| && nl.modules[m].definition.Some?
    requires Correspond(nl, m, defnIFace, instances)
    requires Shape(defnIFace.inputs) == PortValues(nl.modules[m].ports, false)
    requires forall k :: 0 <= k < |instances| ==>
      Shape(instances[k].iface.inputs) == PortValues(nl.modules[nl.ChildOf(m, k).moduleRef].ports, true)
    ensures Wired(nl, m) <==>
      (forall k :: 0 <= k < |instances| ==>
        IFaceResolvable(nl.InstanceView(m, k), Shape(instances[k].iface.inputs), defnIFace, instances, Identity(|instances|))) &&
      IFaceResolvable(nl.InterfaceView(m), Shape(defnIFace.inputs), defnIFace, instances, Identity(|instances|))
  {
    forall k | 0 <= k < |instances|
      ensures SinksWired(nl, m, nl.InstanceView(m, k), Shape(instances[k].iface.inputs)) <==>
        IFaceResolvable(nl.InstanceView(m, k), Shape(instances[k].iface.inputs), defnIFace, instances, Identity(|instances|))
    {
      SinksResolvable(nl, m, nl.InstanceView(m, k), Shape(instances[k].iface.inputs), defnIFace, instances);
    }
    SinksResolvable(nl, m, nl.InterfaceView(m), Shape(defnIFace.inputs), defnIFace, instances);
  }

  /* ---------------------------------------------------------------------- */
  /* The builder                                                            */
  /* ---------------------------------------------------------------------- */

  /** Splits a port record into inputs and outputs: a field of input type
      becomes an output of the definition, any other field a new, unconnected
      input (`GenInterface`). */
  method GenInterface(ports: seq<N.Port>) returns (inputs: seq<Input>, outputs: seq<Value>)
    ensures outputs == PortValues(ports, true)
    ensures Shape(inputs) == PortValues(ports, false)
    ensures fresh(InputSet(inputs))
    ensures forall j :: 0 <= j < |inputs| ==> !inputs[j].IsConnected()
  {
    inputs, outputs := [], [];
    var i := 0;
    while i < |ports|
      invariant 0 <= i <= |ports|
      invariant outputs == PortValues(ports[..i], true)
      invariant Shape(inputs) == PortValues(ports[..i], false)
      invariant fresh(InputSet(inputs))
      invariant forall j :: 0 <= j < |inputs| ==> !inputs[j].IsConnected()
    {
      var p := ports[i];
      assert ports[..i + 1][..i] == ports[..i];
      if p.isInput {
        outputs := outputs + [Value(p.name, p.width)];
      } else {
        var input := new Input(p.name, p.width);
        InputSetAppend(inputs, input);
        inputs := inputs + [input];
      }
      i := i + 1;
    }
    assert ports[..|ports|] == ports;
  }

  /** Makes one instance per child of module `m`, in order, each of the
      definition the module map gives the child's module, and then the map
      from core instances to created instances (`GenInstances`). */
  method GenInstances(nl: N.Netlist, m: nat, modMap: map<nat, nat>, defs: seq<Definition>, ghost owner: seq<nat>)
      returns (instances: seq<Instance>, instMap: map<nat, nat>)
    requires m < |nl.modules| && nl.modules[m].definition.Some?
    requires Declared(nl, modMap, defs, owner)
    requires forall k :: 0 <= k < |nl.modules[m].definition.value.instances| ==>
      nl.ChildOf(m, k).moduleRef in modMap
    ensures |instances| == |nl.modules[m].definition.value.instances|
    ensures instMap == Identity(|instances|)
    ensures InstancesMade(nl, modMap, nl.modules[m].definition.value.instances, instances, owner)
    ensures fresh(InstanceInputs(instances)) && InputsDisjoint(instances)
  {
    var children := nl.modules[m].definition.value.instances;
    assert forall i :: 0 <= i < |children| ==> children[i] == nl.ChildOf(m, i);
    instances := [];
    var k := 0;
    while k < |children|
      invariant 0 <= k <= |children| && |instances| == k
      invariant InstancesMade(nl, modMap, children, instances, owner)
      invariant fresh(InstanceInputs(instances)) && InputsDisjoint(instances)
    {
      var c := children[k];
      var idx := modMap[c.moduleRef];
      var inst := defs[idx].MakeInstance(c.name, idx);
      InstancesMadeAppend(nl, modMap, defs, owner, children, instances, inst);
      InputsDisjointAppend(instances, inst);
      instances := instances + [inst];
      k := k + 1;
    }
    instMap := map[];
    var i := 0;
    while i < |instances|
      invariant 0 <= i <= |instances|
      invariant instMap == Identity(i)
    {
      instMap := instMap[i := i];
      i := i + 1;
    }
  }

  /** Appends the definition of a module without a body: its interface and
      nothing else (`ProcessPrimitive`). */
  method ProcessPrimitive(nl: N.Netlist, m: nat, modMap: map<nat, nat>, defs: seq<Definition>, ghost owner: seq<nat>)
      returns (modMap': map<nat, nat>, defs': seq<Definition>, ghost owner': seq<nat>)
    requires nl.Valid() && m < |nl.modules| && nl.modules[m].definition.None?
    requires m !in modMap && Registry(nl, modMap, defs, owner)
    ensures Registry(nl, modMap', defs', owner')
    ensures |defs'| == |defs| + 1 && defs'[..|defs|] == defs
    ensures owner' == owner + [m] && modMap' == modMap[m := |defs|]
    ensures defs'[|defs|].body.Primitive?
  {
    var ports := nl.modules[m].ports;
    var inputs, outputs := GenInterface(ports);
    var iface := new IFace(nl.modules[m].name, inputs, outputs, true);
    var d := Definition(nl.modules[m].name, iface, Primitive);
    assert unchanged(Footprint(defs));
    RegistryAppend(nl, modMap, defs, owner, m, d);
    defs' := defs + [d];
    modMap' := modMap[m := |defs|];
    owner' := owner + [m];
    assert defs'[..|defs|] == defs;
  }

  /** The select for the input `sink` at `view`: the one slice of its single
      whole-port driver, or, for an array input without one, a slice per bit
      in bit order, computed bit by bit until a bit fails (the body of the
      input loop of `SetupIFaceConnections`). */
  method ResolveInput(view: N.View, sink: Value, defnIFace: IFace, instances: seq<Instance>, instMap: map<nat, nat>)
      returns (r: Result<Select, BuildError>)
    requires InstMapValid(instMap, instances)
    ensures r == SelectFor(view, sink, defnIFace, instances, instMap)
  {
    var connected := N.Connected(view.wiring, N.WholePort(sink.name));
    if |connected| == 0 {
      if !N.IsArrayPort(view, sink.name) {
        return Err(NoDriver(sink.name));
      }
      var slices: seq<ValueSlice> := [];
      var i := 0;
      while i < sink.width
        invariant 0 <= i <= sink.width
        invariant BitSlices(view, sink.name, i, defnIFace, instances, instMap) == Ok(slices)
      {
        var bitDrivers := N.Connected(view.wiring, N.PortBit(sink.name, i));
        if |bitDrivers| != 1 {
          BitSlicesFirstError(view, sink.name, i, sink.width, defnIFace, instances, instMap);
          return Err(BitDriverCount(sink.name, i, |bitDrivers|));
        }
        var slice := CreateSlice(bitDrivers[0], defnIFace, instances, instMap);
        if slice.Err? {
          BitSlicesFirstError(view, sink.name, i, sink.width, defnIFace, instances, instMap);
          return Err(slice.error);
        }
        slices := slices + [slice.value];
        i := i + 1;
      }
      return Ok(Select(slices));
    } else if |connected| != 1 {
      return Err(DriverCount(sink.name, |connected|));
    } else {
      var slice := CreateSlice(connected[0], defnIFace, instances, instMap);
      if slice.Err? {
        return Err(slice.error);
      }
      return Ok(Select([slice.value]));
    }
  }

  /** Connects every input of `iface` from the connectivity at `view`, in
      order, stopping at the first input that cannot be resolved
      (`SetupIFaceConnections`). */
  method SetupIFaceConnections(view: N.View, iface: IFace, defnIFace: IFace, instances: seq<Instance>, instMap: map<nat, nat>)
      returns (r: Outcome<BuildError>)
    requires InstMapValid(instMap, instances)
    modifies InputSet(iface.inputs)
    ensures r.Pass? <==> IFaceResolvable(view, Shape(iface.inputs), defnIFace, instances, instMap)
    ensures r.Pass? ==> IFaceConnected(view, iface, defnIFace, instances, instMap)
    ensures r.Fail? ==>
      exists j :: 0 <= j < |iface.inputs| &&
        SelectFor(view, Shape(iface.inputs)[j], defnIFace, instances, instMap) == Err(r.error)
  {
    var j := 0;
    while j < |iface.inputs|
      invariant 0 <= j <= |iface.inputs|
      invariant forall j' :: 0 <= j' < j ==>
        iface.inputs[j'].IsConnected() &&
        SelectFor(view, Shape(iface.inputs)[j'], defnIFace, instances, instMap) == Ok(iface.inputs[j'].GetSelect())
    {
      var input := iface.inputs[j];
      var sel := ResolveInput(view, Value(input.name, input.width), defnIFace, instances, instMap);
      assert Value(input.name, input.width) == Shape(iface.inputs)[j];
      if sel.Err? {
        return Fail(sel.error);
      }
      input.Connect(sel.value);
      j := j + 1;
    }
    return Pass;
  }

  /** Connects the inputs of every instance of module `m`'s body, in order,
      and then the inputs of the definition's own interface
      (`SetupModuleConnections`). */
  method SetupModuleConnections(nl: N.Netlist, m: nat, defnIFace: IFace, instances: seq<Instance>, instMap: map<nat, nat>)
      returns (r: Outcome<BuildError>)
    requires nl.Valid() && m < |nl.modules| && nl.modules[m].definition.Some?
    requires |instances| == |nl.modules[m].definition.value.instances|
    requires instMap == Identity(|instances|)
    requires InputsDisjoint(instances) && InputSet(defnIFace.inputs) !! InstanceInputs(instances)
    modifies InputSet(defnIFace.inputs), InstanceInputs(instances)
    ensures r.Pass? <==>
      (forall k :: 0 <= k < |instances| ==>
        IFaceResolvable(nl.InstanceView(m, k), Shape(instances[k].iface.inputs), defnIFace, instances, instMap)) &&
      IFaceResolvable(nl.InterfaceView(m), Shape(defnIFace.inputs), defnIFace, instances, instMap)
    ensures r.Pass? ==>
      (forall k :: 0 <= k < |instances| ==>
        IFaceConnected(nl.InstanceView(m, k), instances[k].iface, defnIFace, instances, instMap)) &&
      IFaceConnected(nl.InterfaceView(m), defnIFace, defnIFace, instances, instMap)
  {
    var children := nl.modules[m].definition.value.instances;
    var k := 0;
    while k < |children|
      invariant 0 <= k <= |children|
      invariant forall i :: 0 <= i < k ==>
        IFaceResolvable(nl.InstanceView(m, i), Shape(instances[i].iface.inputs), defnIFace, instances, instMap) &&
        IFaceConnected(nl.InstanceView(m, i), instances[i].iface, defnIFace, instances, instMap)
    {
      var jitInst := instances[instMap[k]];
      InstanceInputsHas(instances, k);
      r := SetupIFaceConnections(nl.InstanceView(m, k), jitInst.iface, defnIFace, instances, instMap);
      if r.Fail? {
        return;
      }
      k := k + 1;
    }
    forall i | 0 <= i < |instances|
      ensures InputSet(instances[i].iface.inputs) !! InputSet(defnIFace.inputs)
    {
      InstanceInputsHas(instances, i);
    }
    r := SetupIFaceConnections(nl.InterfaceView(m), defnIFace, defnIFace, instances, instMap);
  }

  /** The state after a step extends the state before: definitions are only
      appended and the module map only grows. */
  ghost predicate Extends(modMap: map<nat, nat>, defs: seq<Definition>, owner: seq<nat>,
                          modMap': map<nat, nat>, defs': seq<Definition>, owner': seq<nat>)
  {
    |defs| <= |defs'| && defs'[..|defs|] == defs &&
    |owner| <= |owner'| && owner'[..|owner|] == owner &&
    forall x :: x in modMap ==> x in modMap' && modMap'[x] == modMap[x]
  }

  lemma ExtendsTransitive(modMap: map<nat, nat>, defs: seq<Definition>, owner: seq<nat>,
                          modMap1: map<nat, nat>, defs1: seq<Definition>, owner1: seq<nat>,
                          modMap2: map<nat, nat>, defs2: seq<Definition>, owner2: seq<nat>)
    requires Extends(modMap, defs, owner, modMap1, defs1, owner1)
    requires Extends(modMap1, defs1, owner1, modMap2, defs2, owner2)
    ensures Extends(modMap, defs, owner, modMap2, defs2, owner2)
  {
    assert defs2[..|defs|] == defs2[..|defs1|][..|defs|];
    assert owner2[..|owner|] == owner2[..|owner1|][..|owner|];
  }

  /** Appending the definition of composite module `m`, built once the
      modules of its children are in the map, keeps the state and extends
      the state before the children were processed. */
  lemma RegistryAppendComposite(nl: N.Netlist, modMap: map<nat, nat>, defs: seq<Definition>, owner: seq<nat>,
                                modMap1: map<nat, nat>, defs1: seq<Definition>, owner1: seq<nat>, m: nat, d: Definition)
    requires nl.Valid() && m < |nl.modules| && nl.modules[m].definition.Some?
    requires Registry(nl, modMap1, defs1, owner1) && Extends(modMap, defs, owner, modMap1, defs1, owner1)
    requires m !in modMap1
    requires forall k :: 0 <= k < |nl.modules[m].definition.value.instances| ==>
      nl.ChildOf(m, k).moduleRef in modMap1
    requires Wired(nl, m) && Built(nl, m, d, owner1)
    ensures AllWired(nl, m)
    ensures Registry(nl, modMap1[m := |defs1|], defs1 + [d], owner1 + [m])
    ensures Extends(modMap, defs, owner, modMap1[m := |defs1|], defs1 + [d], owner1 + [m])
  {
    forall k | 0 <= k < |nl.modules[m].definition.value.instances|
      ensures AllWired(nl, nl.ChildOf(m, k).moduleRef)
    {
      RegistryWired(nl, modMap1, defs1, owner1, nl.ChildOf(m, k).moduleRef);
    }
    RegistryAppend(nl, modMap1, defs1, owner1, m, d);
    var defs', owner' := defs1 + [d], owner1 + [m];
    assert defs'[..|defs1|] == defs1 && owner'[..|owner1|] == owner1;
    ExtendsTransitive(modMap, defs, owner, modMap1, defs1, owner1, modMap1[m := |defs1|], defs', owner');
  }

  /** Builds the definition of composite module `m` once its children's
      modules are in the map: its instances, its interface, and then the
      connections of both (the tail of `ProcessModules`). */
  method BuildComposite(nl: N.Netlist, m: nat, modMap: map<nat, nat>, defs: seq<Definition>, ghost owner: seq<nat>)
      returns (r: Outcome<BuildError>, d: Definition)
    requires nl.Valid() && m < |nl.modules| && nl.modules[m].definition.Some?
    requires Declared(nl, modMap, defs, owner)
    requires forall k :: 0 <= k < |nl.modules[m].definition.value.instances| ==>
      nl.ChildOf(m, k).moduleRef in modMap
    ensures fresh(DefinitionInputs(d))
    ensures r.Pass? <==> Wired(nl, m)
    ensures r.Pass? ==> Built(nl, m, d, owner)
  {
    var instances, instMap := GenInstances(nl, m, modMap, defs, owner);
    var inputs, outputs := GenInterface(nl.modules[m].ports);
    var iface := new IFace(nl.modules[m].name, inputs, outputs, true);
    d := Definition(nl.modules[m].name, iface, Composite(instances));
    r := SetupModuleConnections(nl, m, iface, instances, instMap);
    ghost var md := nl.modules[m].definition.value;
    assert forall k :: 0 <= k < |instances| ==> InstanceBuilt(nl, md.instances[k], instances[k], owner);
    WiredResolvable(nl, m, iface, instances);
  }

  /** Processes the module of child `k` of composite module `m` (one step
      of the child loop of `ProcessModules`). Every module it adds lies
      strictly below `m`. */
  method ProcessChild(nl: N.Netlist, m: nat, k: nat, modMap: map<nat, nat>, defs: seq<Definition>, ghost owner: seq<nat>)
      returns (r: Outcome<BuildError>, modMap': map<nat, nat>, defs': seq<Definition>, ghost owner': seq<nat>)
    requires nl.Valid() && m < |nl.modules| && nl.modules[m].definition.Some?
    requires k < |nl.modules[m].definition.value.instances|
    requires Registry(nl, modMap, defs, owner)
    ensures r.Pass? <==> AllWired(nl, nl.ChildOf(m, k).moduleRef)
    ensures r.Pass? ==> Registry(nl, modMap', defs', owner') && Extends(modMap, defs, owner, modMap', defs', owner')
    ensures r.Pass? ==> nl.ChildOf(m, k).moduleRef in modMap'
    ensures r.Pass? ==> forall x {:trigger nl.Reaches(m, x)} :: x in modMap' && x !in modMap ==>
      nl.Reaches(m, x) && nl.modules[x].rank < nl.modules[m].rank
    decreases nl.modules[m].rank, 0
  {
    var c := nl.ChildOf(m, k).moduleRef;
    r, modMap', defs', owner' := ProcessModules(nl, c, modMap, defs, owner);
    if r.Pass? {
      forall x | x in modMap' && x !in modMap
        ensures nl.Reaches(m, x) && nl.modules[x].rank < nl.modules[m].rank
      {
        nl.ReachesRank(c, x);
        nl.ReachesThroughChild(m, k, x);
      }
    }
  }

  /** Processes the modules of the children of composite module `m`, in
      order, stopping at the first that fails (the child loop of
      `ProcessModules`). Every module it adds lies strictly below `m`. */
  method ProcessChildren(nl: N.Netlist, m: nat, modMap: map<nat, nat>, defs: seq<Definition>, ghost owner: seq<nat>)
      returns (r: Outcome<BuildError>, modMap': map<nat, nat>, defs': seq<Definition>, ghost owner': seq<nat>)
    requires nl.Valid() && m < |nl.modules| && nl.modules[m].definition.Some?
    requires Registry(nl, modMap, defs, owner)
    ensures r.Pass? <==> forall k :: 0 <= k < |nl.modules[m].definition.value.instances| ==>
      AllWired(nl, nl.ChildOf(m, k).moduleRef)
    ensures r.Pass? ==> Registry(nl, modMap', defs', owner') && Extends(modMap, defs, owner, modMap', defs', owner')
    ensures r.Pass? ==> forall k :: 0 <= k < |nl.modules[m].definition.value.instances| ==>
      nl.ChildOf(m, k).moduleRef in modMap'
    ensures r.Pass? ==> forall x {:trigger nl.Reaches(m, x)} :: x in modMap' && x !in modMap ==>
      nl.Reaches(m, x) && nl.modules[x].rank < nl.modules[m].rank
    decreases nl.modules[m].rank, 1
  {
    var children := nl.modules[m].definition.value.instances;
    modMap', defs', owner' := modMap, defs, owner;
    var k := 0;
    while k < |children|
      invariant 0 <= k <= |children|
      invariant Registry(nl, modMap', defs', owner')
      invariant Extends(modMap, defs, owner, modMap', defs', owner')
      invariant forall i :: 0 <= i < k ==> nl.ChildOf(m, i).moduleRef in modMap'
      invariant forall x {:trigger nl.Reaches(m, x)} :: x in modMap' && x !in modMap ==>
        nl.Reaches(m, x) && nl.modules[x].rank < nl.modules[m].rank
    {
      var r', modMap1, defs1, owner1 := ProcessChild(nl, m, k, modMap', defs', owner');
      if r'.Fail? {
        return r', modMap1, defs1, owner1;
      }
      ExtendsTransitive(modMap, defs, owner, modMap', defs', owner', modMap1, defs1, owner1);
      modMap', defs', owner' := modMap1, defs1, owner1;
      k := k + 1;
    }
    forall k | 0 <= k < |children|
      ensures AllWired(nl, nl.ChildOf(m, k).moduleRef)
    {
      RegistryWired(nl, modMap', defs', owner', nl.ChildOf(m, k).moduleRef);
    }
    r := Pass;
  }

  /** Appends the definitions of module `m` and of every module below it
      that the map does not hold yet, children first, and adds them to the
      map; a module already in the map is skipped (`ProcessModules`). It
      passes exactly when `m` and everything below it is wired; `m`'s own
      definition, when new, is appended last. */
  method ProcessModules(nl: N.Netlist, m: nat, modMap: map<nat, nat>, defs: seq<Definition>, ghost owner: seq<nat>)
      returns (r: Outcome<BuildError>, modMap': map<nat, nat>, defs': seq<Definition>, ghost owner': seq<nat>)
    requires nl.Valid() && m < |nl.modules| && Registry(nl, modMap, defs, owner)
    ensures r.Pass? <==> AllWired(nl, m)
    ensures r.Pass? ==> Registry(nl, modMap', defs', owner') && Extends(modMap, defs, owner, modMap', defs', owner')
    ensures r.Pass? ==> m in modMap' && (m !in modMap ==> modMap'[m] == |defs'| - 1)
    ensures r.Pass? && m in modMap ==> modMap' == modMap && defs' == defs && owner' == owner
    ensures r.Pass? ==> forall x {:trigger nl.Reaches(m, x)} :: x in modMap' && x !in modMap ==> nl.Reaches(m, x)
    decreases nl.modules[m].rank, 2
  {
    if m in modMap {
      RegistryWired(nl, modMap, defs, owner, m);
      return Pass, modMap, defs, owner;
    }
    if nl.modules[m].definition.None? {
      modMap', defs', owner' := ProcessPrimitive(nl, m, modMap, defs, owner);
      return Pass, modMap', defs', owner';
    }
    var modMap1, defs1; ghost var owner1;
    r, modMap1, defs1, owner1 := ProcessChildren(nl, m, modMap, defs, owner);
    if r.Fail? {
      return r, modMap1, defs1, owner1;
    }
    // the children added only modules strictly below `m`, so not `m` itself
    assert nl.Reaches(m, m);
    RegistryDeclared(nl, modMap1, defs1, owner1);
    var d;
    label Children:
    r, d := BuildComposite(nl, m, modMap1, defs1, owner1);
    assert unchanged@Children(Footprint(defs1));
    modMap', defs', owner' := modMap1[m := |defs1|], defs1 + [d], owner1 + [m];
    if r.Pass? {
      RegistryAppendComposite(nl, modMap, defs, owner, modMap1, defs1, owner1, m, d);
    }
  }

  /** Builds the circuit for the design whose top module is `root`
      (`BuildFromCoreIR`). It succeeds exactly when every module reachable
      from `root` is wired; the circuit then holds one definition per such
      module, each after the definitions its instances use, and its top is
      the definition of `root`. */
  method BuildFromCoreIR(nl: N.Netlist, root: nat)
      returns (r: Result<Circuit, BuildError>, ghost modMap: map<nat, nat>, ghost owner: seq<nat>)
    requires nl.Valid() && root < |nl.modules|
    ensures r.Ok? <==> AllWired(nl, root)
    ensures r.Ok? ==> r.value.Valid() && Registry(nl, modMap, r.value.definitions, owner)
    ensures r.Ok? ==> owner[|owner| - 1] == root
    ensures r.Ok? ==> forall x: nat :: x in modMap <==> x < |nl.modules| && nl.Reaches(root, x)
  {
    RegistryEmpty(nl);
    var outcome, modMap', defs;
    outcome, modMap', defs, owner := ProcessModules(nl, root, map[], [], []);
    modMap := modMap';
    if outcome.Fail? {
      return Err(outcome.error), modMap, owner;
    }
    label Built:
    var circuit := new Circuit(defs);
    assert unchanged@Built(Footprint(defs));
    r := Ok(circuit);
    forall x: nat | x < |nl.modules| && nl.Reaches(root, x)
      ensures x in modMap
    {
      RegistryClosed(nl, modMap, defs, owner, root, x);
    }
  }
}
