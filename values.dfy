/**
 * The part of the runtime's value system the inspector sees: a heap of values with
 * their type tags, the generic string coercion and the JSON string escaper.
 */
module Values {
  import opened Text

  /** A value handle (value_t). */
  type Id = nat

  /** What a handle denotes. */
  datatype Value =
    | Scalar(text: seq<Byte>)        // number, boolean, undefined, ...: `text` is its string coercion
    | Str(bytes: seq<Byte>)          // a string: its UTF-8 bytes
    | Arr(elems: seq<Id>)            // an array: its elements in index order
    | Map(entries: seq<(Id, Id)>)    // a map-like object: its (key, value) pairs in enumeration order
    | RoleMember(text: seq<Byte>)    // a role-member handle: `text` is its string coercion

  /** The type tags the inspector tells apart (devs_value_typeof). */
  datatype TypeTag = StringType | ArrayType | MapType | OtherType

  /**
   * The type tag of a value. A role-member handle is a complex (map-like) object that
   * the inspector nevertheless refuses to expand.
   */
  function TypeOf(v: Value): TypeTag {
    match v
    case Scalar(_) => OtherType
    case Str(_) => StringType
    case Arr(_) => ArrayType
    case Map(_) => MapType
    case RoleMember(_) => MapType
  }

  /** is_complex: the tags whose values have children. */
  predicate IsComplex(t: TypeTag) {
    match t
    case MapType => true
    case ArrayType => true
    case _ => false
  }

  lemma ComplexValues(v: Value)
    ensures IsComplex(TypeOf(v)) <==> v.Arr? || v.Map? || v.RoleMember?
  {
  }

  /** devs_value_to_string on the values the inspector coerces. */
  function ToString(v: Value): seq<Byte>
    requires !v.Arr? && !v.Map?
  {
    match v
    case Scalar(t) => t
    case Str(b) => b
    case RoleMember(t) => t
  }

  /** The heap and the host's JSON string escaper (devs_json_escape). */
  datatype Host = Host(objs: map<Id, Value>, escape: seq<Byte> -> seq<Byte>)

  /** Every handle stored in `v` denotes a value of the heap. */
  predicate ChildrenIn(objs: map<Id, Value>, v: Value) {
    match v
    case Arr(es) => forall i | 0 <= i < |es| :: es[i] in objs
    case Map(ents) => forall i | 0 <= i < |ents| :: ents[i].0 in objs && ents[i].1 in objs
    case _ => true
  }

  /** No handle in the heap dangles. */
  predicate Closed(h: Host) {
    forall id | id in h.objs :: ChildrenIn(h.objs, h.objs[id])
  }

  /** The handles the inspector pins before expanding them: arrays and maps. */
  function Expandable(h: Host): set<Id> {
    set id | id in h.objs && (h.objs[id].Arr? || h.objs[id].Map?)
  }

  /** How many expandable values are not pinned: the inspector's termination measure. */
  function Unpinned(h: Host, pins: set<Id>): nat {
    |Expandable(h) - pins|
  }

  /** Pinning an unpinned array or map leaves fewer values to expand. */
  lemma PinShrinks(h: Host, pins: set<Id>, v: Id)
    requires v in h.objs && (h.objs[v].Arr? || h.objs[v].Map?) && v !in pins
    ensures Unpinned(h, pins + {v}) < Unpinned(h, pins)
  {
    var before := Expandable(h) - pins;
    var after := Expandable(h) - (pins + {v});
    assert before == after + {v};
  }

  /** The text a value contributes on its own is well-framed UTF-8 (as a C string). */
  predicate TextFramed(h: Host, v: Value) {
    match v
    case Str(b) => Utf8(CStr(h.escape(b)))
    case Scalar(t) => Utf8(CStr(t))
    case RoleMember(t) => Utf8(CStr(t))
    case _ => true
  }

  /** Every string escape and every string coercion in the heap is well-framed. */
  predicate Framed(h: Host) {
    forall id | id in h.objs :: TextFramed(h, h.objs[id])
  }
}
