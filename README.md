# jitsim: the CoreIR-to-Circuit-IR builder, modelled in Dafny

jitsim simulates hardware designs by compiling them just in time. Before it
compiles anything, it translates a CoreIR netlist into its own Circuit IR.
This project models that translation and the IR it fills in.

The builder walks the module hierarchy from the top module, post-order and
memoised. Each module it reaches yields exactly one `Definition`, appended
after the definitions of every module its child instances use.

- A module without a body becomes a primitive definition that carries only
  its interface.
- A composite module first gets its child modules processed. Then it gets
  one `Instance` per child, each made from the child module's definition.
  Then every input of every instance interface and of the definition's own
  interface is connected to a `Select`. A select is built from the
  netlist's connectivity: one `ValueSlice` when a port is driven as a whole,
  or one single-bit slice per bit when an array input is driven bit by bit.
- Any connectivity the builder cannot resolve aborts the build.

The model is split into five modules.

- `Wrappers` (`wrappers.dfy`): `Option`, `Result`, and `Outcome`, which is pass or fail with an error.
- `Netlist` (`netlist.dfy`): the CoreIR netlist as an abstract value.
  - Modules have ordered port records and optional bodies of ordered child instances.
  - Connectivity is recorded per port and per bit.
  - Each module has a `rank` that decreases from parent to child, which makes the hierarchy acyclic.
- `CircuitIR` (`circuit.dfy`): the IR of `include/jitsim/circuit.hpp`.
  - `Value`, `ValueSlice`, `Select`, `Instance` and `Definition` are values.
  - `Input` is a class whose `select` is set in place by `Connect`.
  - `IFace` is a class holding the input objects, the output values and the definition/instance flag.
  - `Circuit` is a class that takes its last definition as the top.
  - The accessors `ValueSlice.IsConstant`, `IsDefinitionAttached` and `IsInstanceAttached` are the flags at include/jitsim/circuit.hpp:65-67. `Input.IsConnected` and `GetSelect` are include/jitsim/circuit.hpp:101 and 104. `IFace.IsDefinition` and `IsInstance` are include/jitsim/circuit.hpp:141-142. `ValueSlice.EndIdx` is include/jitsim/circuit.hpp:61.
  - References between IR objects become indices: an instance names its definition by position, and a slice names its interface as "the definition's own" or "instance k".
- `CoreIRSpec` (`coreir_spec.dfy`): what the builder computes, as functions.
  - `PortValues` splits a port record.
  - `CreateSlice` gives a driver's slice, and `SelectFor` gives an input's select or the error that aborts the build.
  - Independently of the IR, `Wired` and `AllWired` say when a module's connectivity resolves, stated on the netlist alone.
- `CoreIR` (`coreir.dfy`): the builder of `src/coreir.cpp`, as imperative methods over the module map and the definition sequence.
  - Both are passed in and returned, where the source passes them by reference.
  - A ghost sequence `owner` records which module each definition was built from.
  - The invariant `Registry` says that:
    - definition `i` is the one definition of module `owner[i]`, built after those before it;
    - the map holds exactly the modules that have a definition;
    - every module in the map is wired, with everything below it.

The main results:

- `BuildFromCoreIR` succeeds exactly when every module reachable from the top is wired.
- On success:
  - the circuit holds one definition per reachable module and nothing else;
  - the top is the last definition;
  - every instance refers to an earlier definition;
  - every input of every composite definition and of each of its instances is connected to the select the netlist gives it;
  - a primitive definition's own inputs stay unconnected, since nothing in the builder connects them.

## Model

| member | source | states |
|---|---|---|
| CircuitIR.SourceSlice | src/coreir.cpp:108 | a slice built on an interface's output is never constant; it is definition-attached exactly when the interface is the definition's, and instance-attached exactly when it is an instance's; it keeps the given source, offset and width; it is valid exactly when it stays within the output |
| CircuitIR.ConstantSlice | include/jitsim/circuit.hpp:54 | a constant slice is constant and valid, attached to no interface, and as wide as its bits |
| CircuitIR.UnitSlicesWidth | include/jitsim/circuit.hpp:74-90 | a select whose slices are all one bit wide is as wide as it has slices |
| CircuitIR.Input.constructor | include/jitsim/circuit.hpp:98-99 | a new input has the given name and width and is unconnected |
| CircuitIR.Input.Connect | include/jitsim/circuit.hpp:101-104 | after connecting, the input is connected and its select is the one given; name and width are unchanged |
| CircuitIR.NewInputs | include/jitsim/circuit.hpp:185 | makes fresh, unconnected inputs with the names and widths of the given values, in order |
| Wrappers.FindName | include/jitsim/circuit.hpp:113-116 | name lookup, the one search every lookup of the model uses: the position found holds the name and no earlier position does; nothing is found exactly when no entry has the name |
| CircuitIR.IFace.constructor | include/jitsim/circuit.hpp:119-122 | an interface keeps the name, inputs, outputs and definition flag it was given |
| CircuitIR.IFace.GetOutput | include/jitsim/circuit.hpp:133 | the output found carries the name and is the first that does; none is found exactly when no output has it |
| CircuitIR.IFace.GetInput | include/jitsim/circuit.hpp:134 | the input found carries the name and is the first that does; none is found exactly when no input has it |
| CircuitIR.Definition.MakeInstance | include/jitsim/circuit.hpp:185 | an instance gets a fresh instance interface; its unconnected inputs mirror the definition's outputs and its outputs mirror the definition's inputs |
| CircuitIR.Circuit.constructor | include/jitsim/circuit.hpp:200-203 | a circuit keeps the non-empty definition sequence and its top is the last position |
| CircuitIR.Circuit.Top | include/jitsim/circuit.hpp:202 | the top definition is the last one of the sequence |
| CoreIRSpec.PortValuesSize | src/coreir.cpp:24-36 | the two sides of a split record are together exactly as long as the record |
| CoreIRSpec.PortValuesComplete | src/coreir.cpp:26-35 | every field lands, with its name and size, on the side its input flag selects |
| CoreIRSpec.PortValuesSound | src/coreir.cpp:26-35 | everything on a side is a field whose input flag selects that side |
| CoreIRSpec.Identity | src/coreir.cpp:61-63 | the instance map holds exactly the first n positions and sends each to itself |
| CoreIRSpec.SourceIFaceCorresponds | src/coreir.cpp:95-104 | on interfaces that correspond to the netlist and the builder's instance map, a driver's node denotes an interface exactly when it is `self` or one of the module's children; for `self` that is the definition's own interface, whose outputs are the module's input-type fields, and for child k it is the k-th instance's interface, whose outputs are the non-input fields of the child's module |
| CoreIRSpec.CreateSlice | src/coreir.cpp:78-109 | fails exactly on an unsupported driver, an instance missing from the map, or an unknown output name; an element of an array port gives offset = index and width 1; any other port gives offset 0 and the output's full width; the slice reads the named output of the driving interface |
| CoreIRSpec.CreateSliceEnd | include/jitsim/circuit.hpp:61 | the end index of a builder slice is its output's width for a whole-port driver, and one past the element's bit for an element driver |
| CoreIRSpec.CreateSliceInBounds | src/coreir.cpp:108 | a whole-port slice, or an element slice whose index lies within the output, is a valid slice |
| CoreIRSpec.BitSliceWired | src/coreir.cpp:125-129 | on corresponding interfaces, a bit of an array input gets a slice exactly when the netlist connects exactly one wireable to that bit and that wireable names an existing node and an output-side field of its record; `BitSlice` itself reports a bit with any other number of drivers as an error naming the bit and the count |
| CoreIRSpec.BitSlices | src/coreir.cpp:124-130 | the bit slices exist exactly when every bit has one; there are as many as bits, in bit order; a failure is the failure of some bit |
| CoreIRSpec.BitSlicesFirstError | src/coreir.cpp:125-129 | the first bit without a slice decides the error reported for the whole range |
| CoreIRSpec.SelectFor | src/coreir.cpp:117-136 | an input driven as a whole gets exactly one slice, that of its single driver; an array input with no whole driver gets one slice per bit in bit order; a non-array input with no driver and a port with several drivers are errors |
| CoreIRSpec.SelectWidthWhole | src/coreir.cpp:132-135 | a whole-driven input's select is as wide as its driving output, or one bit for an array element |
| CoreIRSpec.SelectWidthBits | src/coreir.cpp:124-131 | an array input driven bit by bit by array elements gets a select exactly as wide as the input |
| CoreIRSpec.CreateSliceResolves | src/coreir.cpp:95-107 | on interfaces that correspond to the netlist, a driver yields a slice exactly when its node exists and the record of that node has a field of the driver's port name on the output side (input type for `self`, non-input type for an instance) |
| CoreIRSpec.SelectForWired | src/coreir.cpp:117-136 | on corresponding interfaces, an input gets a select exactly when the netlist wires it |
| CoreIR.RegistryEmpty | src/coreir.cpp:193-194 | the empty map and the empty definition sequence form a valid builder state |
| CoreIR.RegistryWired | src/coreir.cpp:158-160 | a module already in the map is wired, with everything below it |
| CoreIR.RegistryDistinct | src/coreir.cpp:158-160 | no module has two definitions |
| CoreIR.RegistryOrdered | src/coreir.cpp:176-188 | every instance of a definition refers to an earlier definition, namely that of its child's module |
| CoreIR.RegistryIFaceKinds | include/jitsim/circuit.hpp:141-142 | in a builder state, every definition's own interface is a definition interface and every interface of its instances is an instance interface |
| CoreIR.RegistryAppend | src/coreir.cpp:74-75 | appending the definition of a module not yet in the map, and mapping the module to it, keeps the state valid |
| CoreIR.RegistryAppendComposite | src/coreir.cpp:183-188 | appending a composite module's definition after its children keeps the state valid, extends the earlier state, and the module is then wired with everything below it |
| CoreIR.RegistryClosed | src/coreir.cpp:169-174 | every module reachable from a module in the map is in the map |
| CoreIR.InstancesMadeAppend | src/coreir.cpp:55-58 | an instance made from the definition the map gives the next child's module extends the instances made so far |
| CoreIR.SinksResolvable | src/coreir.cpp:114-137 | every input of an interface can be given a select exactly when the netlist wires every sink of that interface |
| CoreIR.WiredResolvable | src/coreir.cpp:140-152 | a composite module is wired exactly when every input of its instances and of its own interface can be given a select |
| CoreIR.GenInterface | src/coreir.cpp:18-39 | input-type fields become the outputs and all other fields become fresh, unconnected inputs, in record order with their sizes |
| CoreIR.GenInstances | src/coreir.cpp:41-66 | one instance per child in order, each made from the definition the map gives the child's module, with disjoint fresh inputs; the instance map sends the i-th core instance to the i-th instance |
| CoreIR.ProcessPrimitive | src/coreir.cpp:68-76 | appends one primitive definition with unconnected inputs, maps the module to it, and keeps the state valid |
| CoreIR.ResolveInput | src/coreir.cpp:117-136 | the select computed for one input is the one `SelectFor` specifies, including its error |
| CoreIR.SetupIFaceConnections | src/coreir.cpp:111-138 | passes exactly when every input can be resolved, and then every input is connected to its select; a failure reports the error of some input |
| CoreIR.SetupModuleConnections | src/coreir.cpp:140-152 | wires the instances' inputs and then the definition's own; passes exactly when all of them resolve, and then all of them are connected |
| CoreIR.BuildComposite | src/coreir.cpp:176-188 | the new definition of a composite module is built from the module exactly when the module is wired |
| CoreIR.ProcessChild | src/coreir.cpp:170-173 | processing one child's module passes exactly when that module is wired below; it keeps the state valid, only extends it, and adds only modules strictly below the parent |
| CoreIR.ProcessChildren | src/coreir.cpp:169-174 | processing the children passes exactly when each child's module is wired below; afterwards every child's module is in the map |
| CoreIR.ProcessModules | src/coreir.cpp:154-189 | passes exactly when the module and everything below it is wired; a module already in the map changes nothing; otherwise the module's own definition is appended last and the state stays valid |
| CoreIR.BuildFromCoreIR | src/coreir.cpp:191-198 | succeeds exactly when everything reachable from the top is wired; the circuit is then a valid builder state whose top is the root's definition, and its map holds exactly the reachable modules |

## Left out

- `include/jitsim/JIT.hpp`, `include/jitsim/builder.hpp` and the primitive code generators of `include/jitsim/primitive.hpp` are not part of this model: they wrap LLVM and have no logic of their own.
- `SimInfo`, and all `print` and `repr` output, are not modelled.
- The CoreIR library calls (`getType`, `getRecord`, `getConnectedWireables`, `sel`, `getSelStr`) are replaced by the abstract netlist value.
  - The decimal parsing of an element index with `stoul` is not modelled. An element driver carries its index as a number.
- `Select::compressSlices`, `ValueSlice::extend`, and the `has_many_slices` and `direct_value` fields of `Select` are declared but their bodies are not available. A select keeps the slice list it was built with.
- The bodies of the `ValueSlice` and `IFace` constructors and of `Definition::makeInstance` are not available. The builder-facing ones are reconstructed from how the builder uses them (the constant-slice constructor, which the builder never calls, is covered by its own line below):
  - A builder slice names its interface and output.
  - It is definition-attached when that interface is the definition's, and instance-attached when it is an instance's.
  - It is whole when it covers its output.
  - An instance interface mirrors its definition: the definition's outputs become the instance's inputs, and its inputs become the instance's outputs.
- The header has no three-argument primitive `Definition` constructor, and its composite constructor expects a callback on a `Definition` rather than on an `IFace`.
  - The model follows the builder's calls.
  - A primitive definition has a `Primitive` body with no generator.
  - A composite definition is connected right after it is made.
- The lookup maps of `IFace` are modelled as a search for the first input or output carrying the name. How the unseen constructor fills them when two ports share a name is not known.
- Address stability of `deque` and `vector` elements is not modelled: references become positions.
- Integer widths are modelled as unbounded naturals. A field size beyond `int` range is not modelled.
- The list of core instance addresses that `GenInstances` builds is not modelled. Core instances are named by their position among the children, so the instance map is the identity on positions.
- Iteration order over the record fields and over a body's instances is taken to be the order of the netlist sequences.
- Failures:
  - The source's `assert`s are taken to be enabled, that is, built without `NDEBUG`. A failed one aborts, and the model returns an error for it.
  - A core instance missing from the instance map makes the source dereference `end()` (src/coreir.cpp:99). That is undefined behaviour, and the model treats it as a failure with an error.
  - A whole-port driver naming no output makes the source dereference a null `getOutput` result at `val->getWidth()` (src/coreir.cpp:108). That is undefined behaviour, and the model treats it as a failure with an error.
  - A driver on an array element whose index exceeds the output's width yields a slice that runs past its output. Nothing in the builder checks this, so the model does not either. `CreateSliceInBounds` states when the slice is valid.
  - A select's width is not compared with its input's width, as in the source.
- CircuitIR.ConstantSlice: the builder never makes a constant slice (its only `ValueSlice` construction is at src/coreir.cpp:108), and the body of the constant constructor (include/jitsim/circuit.hpp:54) is not available. Offset 0, width equal to the number of bits, `isWhole` set and no attached interface are assumptions about that body, not readings of any use.
- CoreIRSpec.CreateSlice: for an element driver that names no output, the source passes a null value to the `ValueSlice` constructor, whose body is not available, so the outcome is not known. The model treats it as a failure (`UnknownOutput`).
- CoreIR.ProcessModules: after a failure the returned map and definitions are not specified, because the source aborts the whole program there.
- CoreIR.ProcessChildren: after a failure the returned state is not specified, for the same reason.
- CoreIR.ProcessChild: after a failure the returned state is not specified, for the same reason.
- CoreIR.BuildComposite: after a failure the connections made so far are not specified, for the same reason.
- CoreIR.SetupModuleConnections: on failure, it does not state which input's error is reported.
- CoreIR.SetupIFaceConnections: on failure, it states that the error is that of some input, not of the first failing one.
- Helper split:
  - `ProcessChild` and `ProcessChildren` are the child loop of `ProcessModules` (src/coreir.cpp:169-174).
  - `BuildComposite` is its tail (src/coreir.cpp:176-188).
  - `ResolveInput` is the body of the input loop of `SetupIFaceConnections` (src/coreir.cpp:115-136).
