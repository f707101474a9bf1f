/** The host side of the plugin: the values a property getter can return, a live scene node as
    the plugin observes it through its prototype's property descriptors, the plain record the
    serializer produces, and the reconstructed node the deserializer hands back.  The host's
    factories, font loader and component importer are oracles gathered in `Figma`. */
module Host {

  datatype Option<+T> = None | Some(value: T)

  /** A JavaScript value as a property getter returns it.  Numbers are opaque (`Num`); a
      `Symbol` is a non-serializable sentinel such as `figma.mixed`. */
  datatype Value =
    | Undefined
    | Symbol(description: string)
    | Null
    | Bool(b: bool)
    | Num(n: int)
    | Str(s: string)
    | Arr(items: seq<Value>)
    | Obj(entries: map<string, Value>)

  /** What `JSON.stringify` yields: `undefined` (no text) for `undefined` and symbols, and
      otherwise a text that determines the value. */
  datatype JsonText = NoText | Text(json: Value)

  function Encode(v: Value): JsonText
  {
    if v.Undefined? || v.Symbol? then NoText else Text(v)
  }

  /** JavaScript truthiness (numbers are compared with zero; NaN is not modelled). */
  predicate Truthy(v: Value)
  {
    match v
    case Undefined => false
    case Null => false
    case Bool(b) => b
    case Num(n) => n != 0
    case Str(s) => s != ""
    case _ => true
  }

  /** One entry of `Object.getOwnPropertyDescriptors(node.__proto__)`. */
  datatype Desc = Desc(name: string, getter: bool, setter: bool)

  /** A node prototype: its descriptors in enumeration order, and whether it has
      `resizeWithoutConstraints`. */
  datatype Proto = Proto(descs: seq<Desc>, resizable: bool)

  /** A text-capable node: `fontName` and, for each character index i,
      `getRangeFontName(i, i + 1)`. */
  datatype TextInfo = TextInfo(fontName: Value, charFonts: seq<Value>)

  /** A live scene node.  `values` holds what each getter returns on this node;
      `mainComponent` is present
      exactly when `'mainComponent' in node` and holds the component key, or `None` when the
      main component is null; `text` is present exactly when `'getRangeFontName' in node`. */
  datatype LiveNode = LiveNode(
    id: string,
    nodeType: string,
    proto: Proto,
    values: map<string, Value>,
    children: ChildNodes,
    mainComponent: Option<Option<string>>,
    text: Option<TextInfo>)

  /** `node.children` when `'children' in node`. */
  datatype ChildNodes = NoChildren | ChildNodes(nodes: seq<LiveNode>)

  /** What the getter for `name` returns, given the getter results of a node. */
  function Get(values: map<string, Value>, name: string): Value
  {
    if name in values then values[name] else Undefined
  }

  /** A serialized record.  The ordinary keys (`id`, `type`, `width`, `height`, the reflected
      properties, `_componentKey`) form `fields`; the `_fonts` list and the `children` records
      are kept apart because both names are excluded from reflection.  The order in which
      keys were inserted is not modelled. */
  datatype Record = Record(
    fields: map<string, Value>,
    fonts: Option<seq<Value>>,
    children: ChildRecords)

  /** `obj.children` when `'children' in obj`. */
  datatype ChildRecords = NoChildRecords | ChildRecords(records: seq<Record>)

  /** `obj[name]`, `undefined` when the key is absent. */
  function Field(r: Record, name: string): Value
  {
    Get(r.fields, name)
  }

  /** A call the deserializer makes on a node it owns: a property setter,
      `resizeWithoutConstraints`, or `appendChild`. */
  datatype Event = Write(name: string, value: Value) | Resize(width: Value, height: Value) | Append

  /** A reconstructed node: its type tag, the calls made on it in order, and its children. */
  datatype Built = Built(nodeType: string, log: seq<Event>, children: BuiltChildren)

  datatype BuiltChildren = NoBuiltChildren | BuiltChildren(nodes: seq<Built>)

  datatype Failure =
    | SyntaxError          // JSON.parse of undefined
    | NotAFunction         // calling a missing boolean-operation factory
    | FontUnavailable      // figma.loadFontAsync rejected

  /** A value, or the exception thrown instead of returning it. */
  datatype Result<+T> = Ok(value: T) | Thrown(error: Failure)

  /** The host oracles.  `created[t]` is the node a factory for type t returns (for GROUP the
      node `figma.group` returns, for BOOLEAN_OPERATION the one a boolean-operation factory
      returns); `loadable` are the fonts `figma.loadFontAsync` accepts; `components[k]` is the
      tree `createInstance()` returns for the component imported by key k (the keys that
      `figma.importComponentByKeyAsync` accepts). */
  datatype Figma = Figma(
    created: map<string, LiveNode>,
    loadable: set<Value>,
    components: map<string, LiveNode>)
}
