/** The node model of the JSON tree: identifiers, node variants and the
    store of all nodes, with the read-only operations of BaseNode and its
    three subclasses (JsonObjectNode, JsonArrayNode, JsonValueNode).

    Nodes live in a store (a sequence indexed by `Ref`), standing for the
    Java heap: every `BaseNode` reference becomes a `Ref`, and the
    parent and children fields become `Ref` values. */
module JsonAst {
  import opened Wrappers

  /** A reference to a node: its index in the store. */
  type Ref = nat

  /** Java's 32-bit `int`. */
  newtype int32 = x: int | -0x8000_0000 <= x < 0x8000_0000

  /** The Object held by a JsonValueNode: null, one of the four types that
      the type predicates recognise, or any other object (stored raw). */
  datatype Scalar =
    | Null
    | Str(s: string)
    | Int(i: int32)
    | Double(d: real)
    | Bool(b: bool)
    | OtherObject(description: string)

  /** JsonIdentifier: optional name and id, and an insertion-ordered set of classes. */
  datatype Identifier = Identifier(name: Option<string>, id: Option<string>, classes: seq<string>)
  {
    /** `addClass`: appends the class unless it is already present. */
    function AddClass(c: string): (r: Identifier)
      ensures r.name == name && r.id == id
      ensures c in r.classes
      ensures c in classes ==> r.classes == classes
      ensures c !in classes ==> r.classes == classes + [c]
    {
      if c in classes then this else this.(classes := classes + [c])
    }
  }

  /** A fresh identifier: no name, no id, no classes. */
  const EmptyIdentifier := Identifier(None, None, [])

  /** The three node classes; only containers own an ordered child list. */
  datatype Content =
    | ValueNode(value: Scalar)
    | ArrayNode(children: seq<Ref>)
    | ObjectNode(children: seq<Ref>)

  /** One node: its identifier, its parent field and its content. */
  datatype NodeData = NodeData(ident: Identifier, parent: Option<Ref>, content: Content)

  /** Every node in existence, indexed by reference. */
  type Store = seq<NodeData>

  /** The enum JsonType. */
  datatype JsonType = Value | Array | Object

  /** The children list of a container; value nodes have none. */
  function Children(d: NodeData): seq<Ref> {
    if d.content.ValueNode? then [] else d.content.children
  }

  /** Every reference in `cs` points into a store of size `n`. */
  predicate AllBelow(cs: seq<Ref>, n: nat) {
    forall k | 0 <= k < |cs| :: cs[k] < n
  }

  /** Every reference held by `d` points into a store of size `n`. */
  predicate RefsBelow(d: NodeData, n: nat) {
    && (d.parent.Some? ==> d.parent.value < n)
    && AllBelow(Children(d), n)
  }

  /** No dangling references anywhere in the store. */
  predicate WellFormed(s: Store) {
    forall r {:trigger RefsBelow(s[r], |s|)} | 0 <= r < |s| :: RefsBelow(s[r], |s|)
  }

  // ---- kind and type predicates -------------------------------------------

  predicate IsValueNode(d: NodeData) { d.content.ValueNode? }
  predicate IsArray(d: NodeData) { d.content.ArrayNode? }
  predicate IsObject(d: NodeData) { d.content.ObjectNode? }

  /** `isString`/`isInt`/`isDouble`/`isBoolean`: the runtime type of a value
      node's value; BaseNode answers false for containers. */
  predicate IsString(d: NodeData) { d.content.ValueNode? && d.content.value.Str? }
  predicate IsInt(d: NodeData) { d.content.ValueNode? && d.content.value.Int? }
  predicate IsDouble(d: NodeData) { d.content.ValueNode? && d.content.value.Double? }
  predicate IsBoolean(d: NodeData) { d.content.ValueNode? && d.content.value.Bool? }

  /** The number of the four type predicates that hold of `d`. */
  function TypeTagCount(d: NodeData): nat {
    (if IsString(d) then 1 else 0) + (if IsInt(d) then 1 else 0)
    + (if IsDouble(d) then 1 else 0) + (if IsBoolean(d) then 1 else 0)
  }

  /** At most one of the type predicates holds, and each one implies a value node. */
  lemma TypePredicatesExclusive(d: NodeData)
    ensures TypeTagCount(d) <= 1
    ensures IsString(d) || IsInt(d) || IsDouble(d) || IsBoolean(d) ==> IsValueNode(d)
  {
  }

  /** `JsonType.fromNode`: every node has a type (the null case cannot occur). */
  function TypeOf(d: NodeData): (t: JsonType)
    ensures t == Array <==> IsArray(d)
    ensures t == Object <==> IsObject(d)
    ensures t == Value <==> IsValueNode(d)
  {
    match d.content
    case ArrayNode(_) => Array
    case ObjectNode(_) => Object
    case ValueNode(_) => Value
  }

  /** `size()` of a container: the number of children. */
  function Size(d: NodeData): nat
    requires !IsValueNode(d)
  {
    |d.content.children|
  }

  // ---- typed value access (JsonValueNode) ---------------------------------

  /** `stringValue()`: the cast `(String) value`. */
  function StringValue(v: Scalar): (r: Result<Option<string>>)
    ensures r.Success? <==> v.Str? || v.Null?
    ensures v.Str? ==> r == Success(Some(v.s))
    ensures v.Null? ==> r == Success(None)
    ensures r.Failure? ==> r.error == ClassCast
  {
    match v
    case Str(t) => Success(Some(t))
    case Null => Success(None)
    case _ => Failure(ClassCast)
  }

  // ---- child access: get(int) and get(String) ----------------------------

  /** `get(index)`: JsonArrayNode returns the child, or null at or beyond the
      end; `children.get` throws on a negative index. BaseNode (used by
      objects and values) throws UnsupportedOperationException. */
  function GetAt(d: NodeData, index: int): (r: Result<Option<Ref>>)
    ensures !IsArray(d) ==> r == Failure(UnsupportedOperation)
    ensures IsArray(d) && index >= |Children(d)| ==> r == Success(None)
    ensures IsArray(d) && 0 <= index < |Children(d)| ==> r == Success(Some(Children(d)[index]))
    ensures IsArray(d) && index < 0 ==> r == Failure(IndexOutOfBounds)
  {
    match d.content
    case ArrayNode(cs) =>
      if index >= |cs| then Success(None)
      else if index < 0 then Failure(IndexOutOfBounds)
      else Success(Some(cs[index]))
    case _ => Failure(UnsupportedOperation)
  }

  /** `c` has a name and it is not `name`: the stream in `get(name)` passes it by. */
  predicate NamedOther(s: Store, c: Ref, name: string)
    requires c < |s|
  {
    s[c].ident.name.Some? && s[c].ident.name.value != name
  }

  /** The outcome of testing child `c` against `name` once the scan reaches it:
      a null name throws (`getName().equals(..)`), a match returns the child. */
  function TestChild(s: Store, c: Ref): Result<Option<Ref>>
    requires c < |s|
  {
    if s[c].ident.name.None? then Failure(NullPointer) else Success(Some(c))
  }

  /** The stream `children.filter(name equals).findAny()` of JsonObjectNode.get,
      evaluated in list order. */
  function FirstNamed(s: Store, cs: seq<Ref>, name: string): (r: Result<Option<Ref>>)
    requires AllBelow(cs, |s|)
    ensures r.Failure? ==> r.error == NullPointer
    ensures r == Success(None) <==> forall k | 0 <= k < |cs| :: NamedOther(s, cs[k], name)
    ensures r.Success? && r.value.Some? ==> r.value.value in cs && s[r.value.value].ident.name == Some(name)
  {
    if cs == [] then Success(None)
    else if !NamedOther(s, cs[0], name) then TestChild(s, cs[0])
    else
      var r := FirstNamed(s, cs[1..], name);
      assert r == Success(None) ==> forall k | 0 <= k < |cs| :: NamedOther(s, cs[k], name) by {
        if r == Success(None) {
          forall k | 0 <= k < |cs| ensures NamedOther(s, cs[k], name) {
            if k > 0 { assert cs[k] == cs[1..][k - 1]; }
          }
        }
      }
      r
  }

  /** The child `FirstNamed` settles on is the first one in list order that is
      not named otherwise: `findAny` on a sequential stream. */
  lemma {:induction false} FirstNamedIsFirst(s: Store, cs: seq<Ref>, name: string)
    requires AllBelow(cs, |s|)
    requires FirstNamed(s, cs, name) != Success(None)
    ensures exists k :: (0 <= k < |cs| && !NamedOther(s, cs[k], name)
      && (forall j | 0 <= j < k :: NamedOther(s, cs[j], name))
      && FirstNamed(s, cs, name) == TestChild(s, cs[k]))
  {
    if cs != [] && NamedOther(s, cs[0], name) {
      FirstNamedIsFirst(s, cs[1..], name);
      var k :| 0 <= k < |cs[1..]| && !NamedOther(s, cs[1..][k], name)
        && (forall j | 0 <= j < k :: NamedOther(s, cs[1..][j], name))
        && FirstNamed(s, cs[1..], name) == TestChild(s, cs[1..][k]);
      assert forall j | 0 <= j < k + 1 :: NamedOther(s, cs[j], name) by {
        forall j | 0 <= j < k + 1 ensures NamedOther(s, cs[j], name) {
          if j > 0 { assert cs[j] == cs[1..][j - 1]; }
        }
      }
      assert cs[k + 1] == cs[1..][k];
    }
  }

  /** `get(name)`: JsonObjectNode scans its children; BaseNode (arrays and
      values) throws UnsupportedOperationException. */
  function GetNamed(s: Store, n: Ref, name: string): (r: Result<Option<Ref>>)
    requires WellFormed(s) && n < |s|
    ensures !IsObject(s[n]) ==> r == Failure(UnsupportedOperation)
    ensures IsObject(s[n]) ==> r == FirstNamed(s, Children(s[n]), name)
    ensures r.Success? && r.value.Some? ==> r.value.value in Children(s[n]) && r.value.value < |s|
  {
    assert RefsBelow(s[n], |s|);
    if IsObject(s[n]) then FirstNamed(s, Children(s[n]), name) else Failure(UnsupportedOperation)
  }

  /** A child found by `get(name)` is a child of `n` that carries that name. */
  lemma GetNamedFindsNamedChild(s: Store, n: Ref, name: string)
    requires WellFormed(s) && n < |s|
    requires GetNamed(s, n, name).Success? && GetNamed(s, n, name).value.Some?
    ensures var c := GetNamed(s, n, name).value.value;
      c in Children(s[n]) && c < |s| && s[c].ident.name == Some(name)
  {
    assert RefsBelow(s[n], |s|);
  }

  /** `get(name)` returns null exactly when every child is named, and named otherwise. */
  lemma GetNamedNullIffAbsent(s: Store, n: Ref, name: string)
    requires WellFormed(s) && n < |s| && IsObject(s[n])
    ensures GetNamed(s, n, name) == Success(None) <==>
      forall c | c in Children(s[n]) && c < |s| :: s[c].ident.name.Some? && s[c].ident.name.value != name
  {
    assert RefsBelow(s[n], |s|);
    var cs := Children(s[n]);
    if forall c | c in cs && c < |s| :: s[c].ident.name.Some? && s[c].ident.name.value != name {
      assert forall k | 0 <= k < |cs| :: NamedOther(s, cs[k], name) by {
        forall k | 0 <= k < |cs| ensures NamedOther(s, cs[k], name) { assert cs[k] in cs; }
      }
    }
  }
}
