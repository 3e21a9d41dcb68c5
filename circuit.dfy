/**
 * The Circuit IR: values, slices of values, selects, inputs, interfaces,
 * instances, definitions and the circuit that owns them.
 *
 * References between IR objects become indices: an instance names its definition by its
 * position in the circuit's definition sequence, and a slice names its source
 * interface as either the enclosing definition's own interface or the
 * interface of one of that definition's instances, by position.
 */
module CircuitIR {
  import opened Wrappers

  /** A named signal of fixed width; it has no mutators. */
  datatype Value = Value(name: string, width: nat)

  /** The interface a slice reads from, relative to the definition that holds it. */
  datatype IFaceRef = DefinitionIFace | InstanceIFace(instance: nat)

  /** A slice's source: an interface and the position and contents of the
      output value read from it. */
  datatype Source = Source(iface: IFaceRef, output: nat, value: Value)

  /** A bit range of a source output, or a constant. */
  datatype ValueSlice = ValueSlice(
    source: Option<Source>,
    offset: nat,
    width: nat,
    isWhole: bool,
    constant: Option<seq<bool>>)
  {
    /** One past the last bit of the source that the slice covers. */
    function EndIdx(): nat
    {
      offset + width
    }

    predicate IsConstant()
    {
      constant.Some?
    }

    predicate IsDefinitionAttached()
    {
      source.Some? && source.value.iface.DefinitionIFace?
    }

    predicate IsInstanceAttached()
    {
      source.Some? && source.value.iface.InstanceIFace?
    }

    /** Exactly one of a constant payload and a source is present; a sourced
        slice stays within its source, and is whole exactly when it covers it. */
    predicate Valid()
    {
      (IsConstant() <==> source.None?) &&
      (source.Some? ==>
        EndIdx() <= source.value.value.width &&
        (isWhole <==> offset == 0 && width == source.value.value.width)) &&
      (constant.Some? ==> offset == 0 && width == |constant.value|)
    }
  }

  /** The slice the builder creates: `width` bits from bit `offset` of output
      `output` (whose contents are `value`) of interface `iface`. */
  function SourceSlice(iface: IFaceRef, output: nat, value: Value, offset: nat, width: nat): (s: ValueSlice)
    ensures !s.IsConstant()
    ensures s.IsDefinitionAttached() <==> iface.DefinitionIFace?
    ensures s.IsInstanceAttached() <==> iface.InstanceIFace?
    ensures s.source == Some(Source(iface, output, value))
    ensures s.offset == offset && s.width == width
    ensures s.Valid() <==> offset + width <= value.width
  {
    ValueSlice(Some(Source(iface, output, value)), offset, width, offset == 0 && width == value.width, None)
  }

  /** A slice holding literal bits. */
  function ConstantSlice(bits: seq<bool>): (s: ValueSlice)
    ensures s.IsConstant() && s.Valid()
    ensures !s.IsDefinitionAttached() && !s.IsInstanceAttached()
    ensures s.width == |bits| && s.EndIdx() == |bits|
  {
    ValueSlice(None, 0, |bits|, true, Some(bits))
  }

  /** The total number of bits the slices cover. */
  function SumWidths(slices: seq<ValueSlice>): nat
  {
    if |slices| == 0 then 0 else SumWidths(slices[..|slices| - 1]) + slices[|slices| - 1].width
  }

  /** The ordered slices that drive one input. */
  datatype Select = Select(slices: seq<ValueSlice>)
  {
    function Width(): nat
    {
      SumWidths(slices)
    }
  }

  /** A slice list of unit-width slices covers as many bits as it has slices. */
  lemma {:induction false} UnitSlicesWidth(slices: seq<ValueSlice>)
    requires forall i :: 0 <= i < |slices| ==> slices[i].width == 1
    ensures SumWidths(slices) == |slices|
  {
    if |slices| > 0 {
      UnitSlicesWidth(slices[..|slices| - 1]);
    }
  }

  /** A consumer port. Its name and width are fixed at construction; it is
      unconnected until a select is attached to it, in place. */
  class Input {
    const name: string
    const width: nat
    var select: Option<Select>

    /** A newly constructed input, not yet connected. */
    constructor (name: string, width: nat)
      ensures this.name == name && this.width == width
      ensures !IsConnected()
    {
      this.name := name;
      this.width := width;
      this.select := None;
    }

    predicate IsConnected()
      reads this
    {
      select.Some?
    }

    function GetSelect(): Select
      reads this
      requires IsConnected()
    {
      select.value
    }

    /** Attaches `s`, replacing any select attached before. */
    method Connect(s: Select)
      modifies this
      ensures IsConnected() && GetSelect() == s
    {
      select := Some(s);
    }
  }

  /** The name and width of each input, in order. */
  function Shape(inputs: seq<Input>): (vs: seq<Value>)
    ensures |vs| == |inputs|
    ensures forall j :: 0 <= j < |inputs| ==> vs[j] == Value(inputs[j].name, inputs[j].width)
  {
    seq(|inputs|, j requires 0 <= j < |inputs| => Value(inputs[j].name, inputs[j].width))
  }

  /** The input objects of a sequence of inputs. */
  ghost function InputSet(inputs: seq<Input>): set<Input>
  {
    set j | 0 <= j < |inputs| :: inputs[j]
  }

  lemma InputSetAppend(inputs: seq<Input>, input: Input)
    ensures InputSet(inputs + [input]) == InputSet(inputs) + {input}
  {
    var both := inputs + [input];
    assert both[|inputs|] == input;
    forall x | x in InputSet(inputs)
      ensures x in InputSet(both)
    {
      var j :| 0 <= j < |inputs| && inputs[j] == x;
      assert both[j] == x;
    }
  }

  /** Fresh, unconnected inputs named and sized after `values`, in order. */
  method NewInputs(values: seq<Value>) returns (inputs: seq<Input>)
    ensures Shape(inputs) == values
    ensures fresh(InputSet(inputs))
    ensures forall j :: 0 <= j < |inputs| ==> !inputs[j].IsConnected()
  {
    inputs := [];
    var i := 0;
    while i < |values|
      invariant 0 <= i <= |values|
      invariant Shape(inputs) == values[..i]
      invariant fresh(InputSet(inputs))
      invariant forall j :: 0 <= j < |inputs| ==> !inputs[j].IsConnected()
    {
      var input := new Input(values[i].name, values[i].width);
      InputSetAppend(inputs, input);
      inputs := inputs + [input];
      i := i + 1;
    }
  }

  /** The names of the values, in order. */
  function Names(values: seq<Value>): (names: seq<string>)
    ensures |names| == |values|
    ensures forall j :: 0 <= j < |values| ==> names[j] == values[j].name
  {
    seq(|values|, j requires 0 <= j < |values| => values[j].name)
  }

  /**
   * The ports of a definition or an instance. The input and output vectors
   * and the definition/instance flag are fixed at construction; the inputs
   * themselves are connected in place.
   */
  class IFace {
    const name: string
    const inputs: seq<Input>
    const outputs: seq<Value>
    const isDefinition: bool

    constructor (name: string, inputs: seq<Input>, outputs: seq<Value>, isDefinition: bool)
      ensures this.name == name && this.inputs == inputs
      ensures this.outputs == outputs && this.isDefinition == isDefinition
    {
      this.name := name;
      this.inputs := inputs;
      this.outputs := outputs;
      this.isDefinition := isDefinition;
    }

    predicate IsDefinition()
    {
      isDefinition
    }

    predicate IsInstance()
    {
      !isDefinition
    }

    /** The output named `portName`, as a position in this interface's outputs. */
    function GetOutput(portName: string): (r: Option<nat>)
      ensures r.Some? ==> r.value < |outputs| && outputs[r.value].name == portName
      ensures r.Some? ==> forall j :: 0 <= j < r.value ==> outputs[j].name != portName
      ensures r.None? <==> forall j :: 0 <= j < |outputs| ==> outputs[j].name != portName
    {
      FindName(Names(outputs), portName)
    }

    /** The input named `portName`, as a position in this interface's inputs. */
    function GetInput(portName: string): (r: Option<nat>)
      ensures r.Some? ==> r.value < |inputs| && inputs[r.value].name == portName
      ensures r.Some? ==> forall j :: 0 <= j < r.value ==> inputs[j].name != portName
      ensures r.None? <==> forall j :: 0 <= j < |inputs| ==> inputs[j].name != portName
    {
      FindName(Names(Shape(inputs)), portName)
    }
  }

  /** A named use of the definition at position `defn` of the circuit. */
  datatype Instance = Instance(name: string, iface: IFace, defn: nat)

  /** A definition's behaviour: a primitive, or a body of child instances. */
  datatype Body = Primitive | Composite(instances: seq<Instance>)

  datatype Definition = Definition(name: string, iface: IFace, body: Body)
  {
    /** A new instance of this definition (found at position `self` of the
        circuit): its interface is this one seen from outside, so the
        definition's outputs become unconnected inputs and its inputs become
        outputs, with the same names and widths. */
    method MakeInstance(instName: string, self: nat) returns (inst: Instance)
      ensures fresh(inst.iface) && fresh(InputSet(inst.iface.inputs))
      ensures inst.name == instName && inst.defn == self
      ensures inst.iface.IsInstance()
      ensures Shape(inst.iface.inputs) == iface.outputs
      ensures inst.iface.outputs == Shape(iface.inputs)
      ensures forall j :: 0 <= j < |inst.iface.inputs| ==> !inst.iface.inputs[j].IsConnected()
    {
      var ins := NewInputs(iface.outputs);
      var ifc := new IFace(instName, ins, Shape(iface.inputs), false);
      inst := Instance(instName, ifc, self);
    }
  }

  /** The definitions built for a design; the last one is the top. */
  class Circuit {
    const definitions: seq<Definition>
    const top: nat

    predicate Valid()
    {
      |definitions| > 0 && top == |definitions| - 1
    }

    constructor (defns: seq<Definition>)
      requires |defns| > 0
      ensures Valid() && definitions == defns
    {
      definitions := defns;
      top := |defns| - 1;
    }

    /** The top definition: the last one of the sequence. */
    function Top(): (d: Definition)
      requires Valid()
      ensures d == definitions[|definitions| - 1]
      ensures d in definitions
    {
      definitions[top]
    }
  }
}
