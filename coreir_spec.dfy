/**
 * What the CoreIR builder computes, stated as functions over the netlist and
 * the Circuit IR values: how a port record splits into inputs and outputs,
 * which slice a connected wireable yields, which select an input receives,
 * and, independently of the IR, when a module's connectivity can be resolved.
 */
module CoreIRSpec {
  import opened Wrappers
  import N = Netlist
  import opened CircuitIR

  /** Why building a circuit aborts. */
  datatype BuildError =
    | NoDriver(port: string)                          // a non-array input with nothing connected
    | DriverCount(port: string, count: nat)           // a port driven by more than one wireable
    | BitDriverCount(port: string, bit: nat, count: nat)  // a bit of an array input not driven exactly once
    | UnsupportedDriver                               // a driver that is not a select on a port of `self` or an instance
    | UnknownInstance(index: nat)                     // a driver on an instance that the instance map lacks
    | UnknownOutput(port: string)                     // a driver naming no output of its interface

  /* ---------------------------------------------------------------------- */
  /* Interfaces from port records                                           */
  /* ---------------------------------------------------------------------- */

  /** The fields of the record whose `isInput` flag is `isInput`, as values,
      in record order. Fields of input type are sources inside the definition
      and become its outputs; all other fields become its inputs. */
  function PortValues(ports: seq<N.Port>, isInput: bool): seq<Value>
  {
    if |ports| == 0 then []
    else
      var p := ports[|ports| - 1];
      PortValues(ports[..|ports| - 1], isInput) + (if p.isInput == isInput then [Value(p.name, p.width)] else [])
  }

  /** The two sides together are exactly as long as the record. */
  lemma {:induction false} PortValuesSize(ports: seq<N.Port>)
    ensures |PortValues(ports, true)| + |PortValues(ports, false)| == |ports|
  {
    if |ports| > 0 {
      PortValuesSize(ports[..|ports| - 1]);
    }
  }

  /** Every field lands on the side its flag selects. */
  lemma {:induction false} PortValuesComplete(ports: seq<N.Port>, i: nat)
    requires i < |ports|
    ensures Value(ports[i].name, ports[i].width) in PortValues(ports, ports[i].isInput)
  {
    if i < |ports| - 1 {
      var init := ports[..|ports| - 1];
      assert ports[i] == init[i];
      PortValuesComplete(init, i);
    }
  }

  /** Everything on a side is a field carrying that side's flag. */
  lemma {:induction false} PortValuesSound(ports: seq<N.Port>, isInput: bool, v: Value)
    requires v in PortValues(ports, isInput)
    ensures exists i :: 0 <= i < |ports| && ports[i].isInput == isInput && v == Value(ports[i].name, ports[i].width)
  {
    var init := ports[..|ports| - 1];
    if v in PortValues(init, isInput) {
      PortValuesSound(init, isInput, v);
      var i :| 0 <= i < |init| && init[i].isInput == isInput && v == Value(init[i].name, init[i].width);
      assert ports[i] == init[i];
    } else {
      assert ports[|ports| - 1].isInput == isInput;
    }
  }

  /* ---------------------------------------------------------------------- */
  /* Slices and selects                                                     */
  /* ---------------------------------------------------------------------- */

  /** The instance map sends core instances to positions of the instance vector. */
  predicate InstMapValid(instMap: map<nat, nat>, instances: seq<Instance>)
  {
    forall k :: k in instMap ==> instMap[k] < |instances|
  }

  /** The instance map the builder makes for `n` instances: the i-th core
      instance to the i-th created instance. */
  function Identity(n: nat): (im: map<nat, nat>)
    ensures forall k: nat :: k in im <==> k < n
    ensures forall k :: k in im ==> im[k] == k
  {
    if n == 0 then map[] else Identity(n - 1)[n - 1 := n - 1]
  }

  /** The interface a driver's node denotes, seen from the definition being
      wired: the definition's own for `self`, and for a core instance the
      interface of the instance the instance map sends it to. */
  function SourceIFace(node: N.Node, defnIFace: IFace, instances: seq<Instance>, instMap: map<nat, nat>)
    : (r: Result<(IFaceRef, IFace), BuildError>)
    requires InstMapValid(instMap, instances)
    ensures node.Interface? ==> r == Ok((DefinitionIFace, defnIFace))
    ensures node.Instance? ==> (r.Ok? <==> node.index in instMap)
    ensures node.Instance? && r.Ok? ==>
      r.value == (InstanceIFace(instMap[node.index]), instances[instMap[node.index]].iface)
    ensures r.Err? ==> node.Instance? && r.error == UnknownInstance(node.index)
  {
    match node
    case Interface => Ok((DefinitionIFace, defnIFace))
    case Instance(k) =>
      if k in instMap then Ok((InstanceIFace(instMap[k]), instances[instMap[k]].iface))
      else Err(UnknownInstance(k))
  }

  /** The slice `s` names output `s.source.output` of `outputs`, and carries it. */
  predicate ReadsOutput(s: ValueSlice, outputs: seq<Value>)
  {
    s.source.Some? && s.source.value.output < |outputs| && outputs[s.source.value.output] == s.source.value.value
  }

  /** The slice a connected wireable yields (`CreateSlice`): an element of an
      array port gives the one bit at the element's index; any other port
      gives all of it. */
  function CreateSlice(d: N.Driver, defnIFace: IFace, instances: seq<Instance>, instMap: map<nat, nat>)
    : (r: Result<ValueSlice, BuildError>)
    requires InstMapValid(instMap, instances)
    ensures r.Err? <==>
      d.Unsupported? ||
      SourceIFace(d.node, defnIFace, instances, instMap).Err? ||
      SourceIFace(d.node, defnIFace, instances, instMap).value.1.GetOutput(d.port).None?
    ensures r.Ok? ==> !r.value.IsConstant() && r.value.source.Some? && r.value.source.value.value.name == d.port
    ensures r.Ok? && d.ElementSelect? ==> r.value.offset == d.index && r.value.width == 1
    ensures r.Ok? && d.PortSelect? ==>
      r.value.offset == 0 && r.value.width == r.value.source.value.value.width && r.value.isWhole
    ensures r.Ok? && d.node.Interface? ==>
      r.value.IsDefinitionAttached() && ReadsOutput(r.value, defnIFace.outputs)
    ensures r.Ok? && d.node.Instance? ==>
      d.node.index in instMap && r.value.source.value.iface == InstanceIFace(instMap[d.node.index]) &&
      ReadsOutput(r.value, instances[instMap[d.node.index]].iface.outputs)
  {
    if d.Unsupported? then Err(UnsupportedDriver)
    else match SourceIFace(d.node, defnIFace, instances, instMap)
      case Err(e) => Err(e)
      case Ok((ref, iface)) =>
        match iface.GetOutput(d.port)
        case None => Err(UnknownOutput(d.port))
        case Some(j) =>
          var isArrSlice := d.ElementSelect?;
          var offset := if isArrSlice then d.index else 0;
          Ok(SourceSlice(ref, j, iface.outputs[j], offset, if isArrSlice then 1 else iface.outputs[j].width))
  }

  /** A whole-port slice ends where its output ends; an element slice ends
      just past the element's bit. */
  lemma CreateSliceEnd(d: N.Driver, defnIFace: IFace, instances: seq<Instance>, instMap: map<nat, nat>)
    requires InstMapValid(instMap, instances)
    requires CreateSlice(d, defnIFace, instances, instMap).Ok?
    ensures var s := CreateSlice(d, defnIFace, instances, instMap).value;
      d.PortSelect? ==> s.EndIdx() == s.source.value.value.width
    ensures var s := CreateSlice(d, defnIFace, instances, instMap).value;
      d.ElementSelect? ==> s.EndIdx() == d.index + 1
  {
  }

  /** A slice made for an element whose index lies within its source stays
      within the source; a whole-port slice always does. */
  lemma CreateSliceInBounds(d: N.Driver, defnIFace: IFace, instances: seq<Instance>, instMap: map<nat, nat>)
    requires InstMapValid(instMap, instances)
    requires CreateSlice(d, defnIFace, instances, instMap).Ok?
    requires d.ElementSelect? ==> d.index < CreateSlice(d, defnIFace, instances, instMap).value.source.value.value.width
    ensures CreateSlice(d, defnIFace, instances, instMap).value.Valid()
  {
  }

  /** The slice for bit `i` of the array input `name`: its one driver's slice. */
  function BitSlice(view: N.View, name: string, i: nat, defnIFace: IFace, instances: seq<Instance>, instMap: map<nat, nat>)
    : (r: Result<ValueSlice, BuildError>)
    requires InstMapValid(instMap, instances)
    ensures var ds := N.Connected(view.wiring, N.PortBit(name, i));
      |ds| != 1 ==> r == Err(BitDriverCount(name, i, |ds|))
    ensures var ds := N.Connected(view.wiring, N.PortBit(name, i));
      r.Ok? ==> |ds| == 1 && CreateSlice(ds[0], defnIFace, instances, instMap) == r
    ensures var ds := N.Connected(view.wiring, N.PortBit(name, i));
      |ds| == 1 ==> (r.Ok? <==> CreateSlice(ds[0], defnIFace, instances, instMap).Ok?)
  {
    var ds := N.Connected(view.wiring, N.PortBit(name, i));
    if |ds| != 1 then Err(BitDriverCount(name, i, |ds|))
    else CreateSlice(ds[0], defnIFace, instances, instMap)
  }

  /** The slices for bits 0 .. n-1 of the array input `name`, in bit order,
      or the error of the first bit that has none. */
  function BitSlices(view: N.View, name: string, n: nat, defnIFace: IFace, instances: seq<Instance>, instMap: map<nat, nat>)
    : (r: Result<seq<ValueSlice>, BuildError>)
    requires InstMapValid(instMap, instances)
    ensures r.Ok? <==> forall i :: 0 <= i < n ==> BitSlice(view, name, i, defnIFace, instances, instMap).Ok?
    ensures r.Ok? ==> |r.value| == n
    ensures r.Ok? ==> forall i :: 0 <= i < n ==> BitSlice(view, name, i, defnIFace, instances, instMap) == Ok(r.value[i])
    ensures r.Err? ==> exists i :: 0 <= i < n && BitSlice(view, name, i, defnIFace, instances, instMap) == Err(r.error)
  {
    if n == 0 then Ok([])
    else
      var prefix := BitSlices(view, name, n - 1, defnIFace, instances, instMap);
      var last := BitSlice(view, name, n - 1, defnIFace, instances, instMap);
      if prefix.Err? then prefix
      else if last.Err? then Err(last.error)
      else Ok(prefix.value + [last.value])
  }

  /** Bits are resolved in order and the first bit without a slice ends the
      walk: its error is the one reported for the whole range. */
  lemma {:induction false} BitSlicesFirstError(view: N.View, name: string, i: nat, n: nat,
                                               defnIFace: IFace, instances: seq<Instance>, instMap: map<nat, nat>)
    requires InstMapValid(instMap, instances)
    requires i < n
    requires BitSlices(view, name, i, defnIFace, instances, instMap).Ok?
    requires BitSlice(view, name, i, defnIFace, instances, instMap).Err?
    ensures BitSlices(view, name, n, defnIFace, instances, instMap) == Err(BitSlice(view, name, i, defnIFace, instances, instMap).error)
    decreases n
  {
    var e := BitSlice(view, name, i, defnIFace, instances, instMap).error;
    if n > i + 1 {
      BitSlicesFirstError(view, name, i, n - 1, defnIFace, instances, instMap);
      BitSlicesErrStays(view, name, n, e, defnIFace, instances, instMap);
    }
  }

  /** Once a prefix of the bits fails, the next longer prefix fails the same way. */
  lemma BitSlicesErrStays(view: N.View, name: string, n: nat, e: BuildError,
                          defnIFace: IFace, instances: seq<Instance>, instMap: map<nat, nat>)
    requires InstMapValid(instMap, instances)
    requires n > 0 && BitSlices(view, name, n - 1, defnIFace, instances, instMap) == Err(e)
    ensures BitSlices(view, name, n, defnIFace, instances, instMap) == Err(e)
  {
  }

  /** The select the input `sink` receives from the connectivity at `view`:
      one slice when it is driven as a whole, one slice per bit when it is an
      array driven bit by bit; every other shape of connectivity is an error. */
  function SelectFor(view: N.View, sink: Value, defnIFace: IFace, instances: seq<Instance>, instMap: map<nat, nat>)
    : (r: Result<Select, BuildError>)
    requires InstMapValid(instMap, instances)
    ensures var whole := N.Connected(view.wiring, N.WholePort(sink.name));
      r.Ok? && |whole| > 0 ==>
        |whole| == 1 && |r.value.slices| == 1 &&
        CreateSlice(whole[0], defnIFace, instances, instMap) == Ok(r.value.slices[0])
    ensures var whole := N.Connected(view.wiring, N.WholePort(sink.name));
      r.Ok? && |whole| == 0 ==>
        N.IsArrayPort(view, sink.name) && |r.value.slices| == sink.width &&
        forall i :: 0 <= i < sink.width ==> BitSlice(view, sink.name, i, defnIFace, instances, instMap) == Ok(r.value.slices[i])
    ensures var whole := N.Connected(view.wiring, N.WholePort(sink.name));
      |whole| == 0 && !N.IsArrayPort(view, sink.name) ==> r == Err(NoDriver(sink.name))
    ensures var whole := N.Connected(view.wiring, N.WholePort(sink.name));
      |whole| > 1 ==> r == Err(DriverCount(sink.name, |whole|))
  {
    var whole := N.Connected(view.wiring, N.WholePort(sink.name));
    if |whole| == 0 then
      if !N.IsArrayPort(view, sink.name) then Err(NoDriver(sink.name))
      else match BitSlices(view, sink.name, sink.width, defnIFace, instances, instMap)
        case Err(e) => Err(e)
        case Ok(ss) => Ok(Select(ss))
    else if |whole| != 1 then Err(DriverCount(sink.name, |whole|))
    else match CreateSlice(whole[0], defnIFace, instances, instMap)
      case Err(e) => Err(e)
      case Ok(s) => Ok(Select([s]))
  }

  /** A whole-driven input's select is as wide as the output driving it, or
      one bit when the driver is an array element. */
  lemma SelectWidthWhole(view: N.View, sink: Value, defnIFace: IFace, instances: seq<Instance>, instMap: map<nat, nat>)
    requires InstMapValid(instMap, instances)
    requires SelectFor(view, sink, defnIFace, instances, instMap).Ok?
    requires |N.Connected(view.wiring, N.WholePort(sink.name))| > 0
    ensures var whole := N.Connected(view.wiring, N.WholePort(sink.name));
      var sel := SelectFor(view, sink, defnIFace, instances, instMap).value;
      sel.Width() == if whole[0].PortSelect? then sel.slices[0].source.value.value.width else 1
  {
    var sel := SelectFor(view, sink, defnIFace, instances, instMap).value;
    assert sel.slices[..0] == [];
    assert SumWidths(sel.slices) == SumWidths([]) + sel.slices[0].width;
  }

  /** An array input whose bits are all driven by array elements gets a
      select exactly as wide as the input. */
  lemma SelectWidthBits(view: N.View, sink: Value, defnIFace: IFace, instances: seq<Instance>, instMap: map<nat, nat>)
    requires InstMapValid(instMap, instances)
    requires SelectFor(view, sink, defnIFace, instances, instMap).Ok?
    requires |N.Connected(view.wiring, N.WholePort(sink.name))| == 0
    requires forall i, d :: 0 <= i < sink.width && d in N.Connected(view.wiring, N.PortBit(sink.name, i)) ==> d.ElementSelect?
    ensures SelectFor(view, sink, defnIFace, instances, instMap).value.Width() == sink.width
  {
    var sel := SelectFor(view, sink, defnIFace, instances, instMap).value;
    forall i | 0 <= i < |sel.slices|
      ensures sel.slices[i].width == 1
    {
      assert BitSlice(view, sink.name, i, defnIFace, instances, instMap) == Ok(sel.slices[i]);
    }
    UnitSlicesWidth(sel.slices);
  }

  /* ---------------------------------------------------------------------- */
  /* When connectivity resolves, stated on the netlist alone                */
  /* ---------------------------------------------------------------------- */

  /** The record has a field named `name` whose input flag is `isInput`. */
  ghost predicate HasField(ports: seq<N.Port>, isInput: bool, name: string)
  {
    exists j :: 0 <= j < |ports| && ports[j].isInput == isInput && ports[j].name == name
  }

  /** A name is found among the values of one side of a record exactly when
      the record has a field of that name on that side. */
  lemma PortValuesNamed(ports: seq<N.Port>, isInput: bool, name: string)
    ensures FindName(Names(PortValues(ports, isInput)), name).Some? <==> HasField(ports, isInput, name)
  {
    var vs := PortValues(ports, isInput);
    var r := FindName(Names(vs), name);
    if r.Some? {
      PortValuesSound(ports, isInput, vs[r.value]);
    }
    if HasField(ports, isInput, name) {
      var j :| 0 <= j < |ports| && ports[j].isInput == isInput && ports[j].name == name;
      PortValuesComplete(ports, j);
      var v := Value(ports[j].name, ports[j].width);
      var k :| 0 <= k < |vs| && vs[k] == v;
      assert Names(vs)[k] == name;
    }
  }

  /** The driver names an existing node and an output of that node's
      interface: for `self`, a field of input type of the module; for a child
      instance, a field of non-input type of the instantiated module. */
  ghost predicate Resolves(nl: N.Netlist, m: nat, d: N.Driver)
    requires nl.Valid() && m < |nl.modules| && nl.modules[m].definition.Some?
  {
    !d.Unsupported? &&
    match d.node
    case Interface => HasField(nl.modules[m].ports, true, d.port)
    case Instance(k) =>
      k < |nl.modules[m].definition.value.instances| &&
      HasField(nl.modules[nl.ChildOf(m, k).moduleRef].ports, false, d.port)
  }

  /** Bit `i` of array port `name` has exactly one driver, and it resolves. */
  ghost predicate BitWired(nl: N.Netlist, m: nat, view: N.View, name: string, i: nat)
    requires nl.Valid() && m < |nl.modules| && nl.modules[m].definition.Some?
  {
    var ds := N.Connected(view.wiring, N.PortBit(name, i));
    |ds| == 1 && Resolves(nl, m, ds[0])
  }

  /** The sink port is driven as a whole by exactly one resolving driver, or
      it is an array port with nothing connected as a whole and every bit
      wired. */
  ghost predicate SinkWired(nl: N.Netlist, m: nat, view: N.View, sink: Value)
    requires nl.Valid() && m < |nl.modules| && nl.modules[m].definition.Some?
  {
    var whole := N.Connected(view.wiring, N.WholePort(sink.name));
    if |whole| == 0 then
      N.IsArrayPort(view, sink.name) && forall i :: 0 <= i < sink.width ==> BitWired(nl, m, view, sink.name, i)
    else
      |whole| == 1 && Resolves(nl, m, whole[0])
  }

  /** Every one of `sinks` is wired at `view`. */
  ghost predicate SinksWired(nl: N.Netlist, m: nat, view: N.View, sinks: seq<Value>)
    requires nl.Valid() && m < |nl.modules| && nl.modules[m].definition.Some?
  {
    forall j :: 0 <= j < |sinks| ==> SinkWired(nl, m, view, sinks[j])
  }

  /** Every sink of module `m`'s body is wired: the input-type fields of each
      child instance, and the non-input fields of the module's own interface. */
  ghost predicate Wired(nl: N.Netlist, m: nat)
    requires nl.Valid() && m < |nl.modules|
  {
    var mod := nl.modules[m];
    mod.definition.Some? ==>
      (forall k :: 0 <= k < |mod.definition.value.instances| ==>
        SinksWired(nl, m, nl.InstanceView(m, k), PortValues(nl.modules[nl.ChildOf(m, k).moduleRef].ports, true))) &&
      SinksWired(nl, m, nl.InterfaceView(m), PortValues(mod.ports, false))
  }

  /** Module `m` and every module below it are wired. */
  ghost predicate AllWired(nl: N.Netlist, m: nat)
    requires nl.Valid() && m < |nl.modules|
    decreases nl.modules[m].rank
  {
    Wired(nl, m) &&
    (nl.modules[m].definition.Some? ==>
      forall k :: 0 <= k < |nl.modules[m].definition.value.instances| ==>
        AllWired(nl, nl.ChildOf(m, k).moduleRef))
  }

  /** The interfaces a definition of module `m` is wired against carry the
      outputs its port records give them. */
  ghost predicate Correspond(nl: N.Netlist, m: nat, defnIFace: IFace, instances: seq<Instance>)
    requires nl.Valid() && m < |nl.modules| && nl.modules[m].definition.Some?
  {
    defnIFace.outputs == PortValues(nl.modules[m].ports, true) &&
    |instances| == |nl.modules[m].definition.value.instances| &&
    forall k :: 0 <= k < |instances| ==>
      instances[k].iface.outputs == PortValues(nl.modules[nl.ChildOf(m, k).moduleRef].ports, false)
  }

  /** On corresponding interfaces, a driver yields a slice exactly when it resolves. */
  lemma CreateSliceResolves(nl: N.Netlist, m: nat, d: N.Driver, defnIFace: IFace, instances: seq<Instance>)
    requires nl.Valid() && m < |nl.modules| && nl.modules[m].definition.Some?
    requires Correspond(nl, m, defnIFace, instances)
    ensures CreateSlice(d, defnIFace, instances, Identity(|instances|)).Ok? <==> Resolves(nl, m, d)
  {
    if d.PortSelect? || d.ElementSelect? {
      if d.node.Interface? {
        PortValuesNamed(nl.modules[m].ports, true, d.port);
      } else if d.node.index < |instances| {
        var child := nl.ChildOf(m, d.node.index).moduleRef;
        PortValuesNamed(nl.modules[child].ports, false, d.port);
      }
    }
  }

  /** On corresponding interfaces, a driver's node denotes an interface
      exactly when it is `self` or one of the module's children, and that
      interface's outputs are the output side of the node's port record:
      the input-type fields for `self`, the non-input fields of the child's
      module for a child instance. */
  lemma SourceIFaceCorresponds(nl: N.Netlist, m: nat, node: N.Node, defnIFace: IFace, instances: seq<Instance>)
    requires nl.Valid() && m < |nl.modules| && nl.modules[m].definition.Some?
    requires Correspond(nl, m, defnIFace, instances)
    ensures var r := SourceIFace(node, defnIFace, instances, Identity(|instances|));
      r.Ok? <==> (node.Interface? || node.index < |nl.modules[m].definition.value.instances|)
    ensures var r := SourceIFace(node, defnIFace, instances, Identity(|instances|));
      r.Ok? && node.Interface? ==>
        r.value.0 == DefinitionIFace && r.value.1.outputs == PortValues(nl.modules[m].ports, true)
    ensures var r := SourceIFace(node, defnIFace, instances, Identity(|instances|));
      r.Ok? && node.Instance? ==>
        r.value.0 == InstanceIFace(node.index) &&
        r.value.1.outputs == PortValues(nl.modules[nl.ChildOf(m, node.index).moduleRef].ports, false)
  {
  }

  /** On corresponding interfaces, a bit of an array input gets a slice
      exactly when the netlist gives it exactly one driver and that driver
      resolves. */
  lemma BitSliceWired(nl: N.Netlist, m: nat, view: N.View, name: string, i: nat, defnIFace: IFace, instances: seq<Instance>)
    requires nl.Valid() && m < |nl.modules| && nl.modules[m].definition.Some?
    requires Correspond(nl, m, defnIFace, instances)
    ensures BitSlice(view, name, i, defnIFace, instances, Identity(|instances|)).Ok? <==> BitWired(nl, m, view, name, i)
  {
    var ds := N.Connected(view.wiring, N.PortBit(name, i));
    if |ds| == 1 {
      CreateSliceResolves(nl, m, ds[0], defnIFace, instances);
    }
  }

  /** On corresponding interfaces, the builder finds a select for a sink
      exactly when the netlist wires it. */
  lemma {:induction false} SelectForWired(nl: N.Netlist, m: nat, view: N.View, sink: Value, defnIFace: IFace, instances: seq<Instance>)
    requires nl.Valid() && m < |nl.modules| && nl.modules[m].definition.Some?
    requires Correspond(nl, m, defnIFace, instances)
    ensures SelectFor(view, sink, defnIFace, instances, Identity(|instances|)).Ok? <==> SinkWired(nl, m, view, sink)
  {
    var im := Identity(|instances|);
    var whole := N.Connected(view.wiring, N.WholePort(sink.name));
    if |whole| == 0 {
      forall i | 0 <= i < sink.width
        ensures BitSlice(view, sink.name, i, defnIFace, instances, im).Ok? <==> BitWired(nl, m, view, sink.name, i)
      {
        BitSliceWired(nl, m, view, sink.name, i, defnIFace, instances);
      }
    } else if |whole| == 1 {
      CreateSliceResolves(nl, m, whole[0], defnIFace, instances);
    }
  }
}
