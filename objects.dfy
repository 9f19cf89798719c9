/**
 * The object graph the parser builds, and the two ways it writes into it:
 * `setToObj` (append to a list, or assign a field found by name after
 * `convertTo`) and `setAttributes` (one `setToObj` per attribute).
 *
 * Java reflection is replaced by a schema: for each type name, its fields
 * by name and their declared types. Objects live in an arena (`Heap`), and
 * a reference is an index into it.
 */
module Objects {
  import opened Bytes
  import opened Scanner
  import opened Numbers

  /** Tag, field and type names. */
  type Name = Bytes

  /** The scalar types `convertTo` knows: String, int/Integer, long/Long, double/Double, float/Float, boolean/Boolean. */
  datatype ScalarKind = Text | Int32 | Int64 | Float64 | Float32 | Truth

  /**
   * The declared type of a field: a scalar (`boxed` is the wrapper class,
   * String always counts as boxed; otherwise the primitive), a list whose
   * elements have the named type, or an object of the named type.
   */
  datatype FieldType = Scalar(kind: ScalarKind, boxed: bool) | ListOf(elem: Name) | ObjectOf(typeName: Name)

  /** Type name to field name to declared type. */
  type Schema = map<Name, map<Name, FieldType>>

  /**
   * A value held in a field or a list. `Decimal` is a Double or Float kept
   * as its text. `Ref` points into the heap.
   */
  datatype Value = Str(text: Bytes) | Int(n: int) | Bool(b: bool) | Decimal(digits: Bytes) | Ref(addr: nat)

  /** An instance of a schema type with the fields assigned so far, or an `ArrayList`. */
  datatype Obj = Record(typeName: Name, fields: map<Name, Value>) | List(elems: seq<Value>)

  type Heap = seq<Obj>

  /** `classIntrospector.getField(obj.getClass(), name)`: the declared field of the object's type, if any. A list has none. */
  function FieldOf(schema: Schema, heap: Heap, addr: nat, name: Name): (r: Option<FieldType>)
    requires addr < |heap|
    ensures r.Some? <==> heap[addr].Record? && heap[addr].typeName in schema && name in schema[heap[addr].typeName]
  {
    match heap[addr]
    case List(_) => None
    case Record(t, _) => if t in schema && name in schema[t] then Some(schema[t][name]) else None
  }

  /**
   * `convertTo(field, value)`: text parsed for the numeric and boolean
   * types, anything else as is. `None` is a conversion that throws (a
   * number that does not parse, or a value that is not a String), which
   * `setToObj` swallows.
   */
  function ConvertTo(ft: FieldType, v: Value): (r: Option<Value>)
    ensures r.Some? && r.value.Ref? ==> r.value == v
    ensures ft.Scalar? && ft.kind != Text && r.Some? ==> v.Str?
    ensures ft.Scalar? && (ft.kind == Int32 || ft.kind == Int64) && r.Some? ==>
      r.value.Int? && -Power2(Width(ft.kind) - 1) <= r.value.n < Power2(Width(ft.kind) - 1)
    ensures ft.Scalar? && ft.kind == Truth && v.Str? ==> r.Some? && r.value.Bool?
  {
    match ft
    case Scalar(Text, _) => Some(v)
    case Scalar(Int32, _) => if v.Str? then IntOf(ParseDecimal(v.text, 32)) else None
    case Scalar(Int64, _) => if v.Str? then IntOf(ParseDecimal(v.text, 64)) else None
    case Scalar(Float64, _) => if v.Str? then Some(Decimal(v.text)) else None
    case Scalar(Float32, _) => if v.Str? then Some(Decimal(v.text)) else None
    case Scalar(Truth, _) => if v.Str? then Some(Bool(ParseBool(v.text))) else None
    case _ => Some(v)
  }

  /** The width of `int` and `long`. */
  function Width(k: ScalarKind): nat {
    if k == Int32 then 32 else 64
  }

  function IntOf(n: Option<int>): Option<Value> {
    match n
    case None => None
    case Some(i) => Some(Int(i))
  }

  /** A field declared String. */
  predicate TextField(f: Option<FieldType>) {
    f.Some? && f.value.Scalar? && f.value.kind == Text
  }

  /** `Field.set` accepts the value: it has the field's declared type. */
  predicate Fits(heap: Heap, ft: FieldType, v: Value) {
    match ft
    case Scalar(Text, _) => v.Str?
    case Scalar(Int32, _) => v.Int?
    case Scalar(Int64, _) => v.Int?
    case Scalar(Float64, _) => v.Decimal?
    case Scalar(Float32, _) => v.Decimal?
    case Scalar(Truth, _) => v.Bool?
    case ListOf(_) => v.Ref? && v.addr < |heap| && heap[v.addr].List?
    case ObjectOf(t) => v.Ref? && v.addr < |heap| && heap[v.addr].Record? && heap[v.addr].typeName == t
  }

  /**
   * `setToObj(obj, fieldName, value)`: a list gets the value appended;
   * an object gets it assigned to the field of that name after
   * `convertTo`. A missing field, a failed conversion or a value of the
   * wrong type leaves the object as it was (Java swallows the exception).
   * No other object changes, and an object keeps its type.
   */
  function SetToObj(schema: Schema, heap: Heap, target: nat, name: Name, v: Value): (r: Heap)
    requires target < |heap|
    ensures |r| == |heap|
    ensures forall i | 0 <= i < |heap| && i != target :: r[i] == heap[i]
    ensures r[target].List? <==> heap[target].List?
    ensures heap[target].Record? ==> r[target].typeName == heap[target].typeName
  {
    match heap[target]
    case List(elems) => heap[target := List(elems + [v])]
    case Record(t, fields) =>
      match FieldOf(schema, heap, target, name)
      case None => heap
      case Some(ft) =>
        match ConvertTo(ft, v)
        case None => heap
        case Some(c) => if Fits(heap, ft, c) then heap[target := Record(t, fields[name := c])] else heap
  }

  /**
   * `setAttributes(obj, tag)`: `setToObj` with each attribute's name and
   * value, first to last. Only the target object changes.
   */
  function SetAttributes(schema: Schema, heap: Heap, target: nat, attrs: seq<Attribute>): (r: Heap)
    requires target < |heap|
    ensures |r| == |heap|
    ensures forall i | 0 <= i < |heap| && i != target :: r[i] == heap[i]
    ensures r[target].List? <==> heap[target].List?
    ensures heap[target].Record? ==> r[target].typeName == heap[target].typeName
  {
    if attrs == [] then heap
    else
      var last := attrs[|attrs| - 1];
      SetToObj(schema, SetAttributes(schema, heap, target, attrs[..|attrs| - 1]), target, last.name, Str(last.value))
  }

  /** `getInstance(type)` for a schema type: a fresh object with no field assigned, at the end of the heap. */
  function New(heap: Heap, typeName: Name): (r: (Heap, nat))
    ensures r.1 == |heap| && r.0 == heap + [Record(typeName, map[])]
  {
    (heap + [Record(typeName, map[])], |heap|)
  }

  /** `new ArrayList<>()`: a fresh empty list at the end of the heap. */
  function NewList(heap: Heap): (r: (Heap, nat))
    ensures r.1 == |heap| && r.0 == heap + [List([])]
  {
    (heap + [List([])], |heap|)
  }

  /*
   * The heap is closed: every reference points to an object in it.
   */

  predicate RefIn(v: Value, n: nat) {
    v.Ref? ==> v.addr < n
  }

  predicate ObjIn(o: Obj, n: nat) {
    match o
    case Record(_, fields) => forall f | f in fields :: RefIn(fields[f], n)
    case List(elems) => forall i | 0 <= i < |elems| :: RefIn(elems[i], n)
  }

  predicate Closed(heap: Heap) {
    forall i | 0 <= i < |heap| :: ObjIn(heap[i], |heap|)
  }

  /** `setToObj` with a value that points into the heap keeps the heap closed. */
  lemma SetToObjClosed(schema: Schema, heap: Heap, target: nat, name: Name, v: Value)
    requires target < |heap| && Closed(heap) && RefIn(v, |heap|)
    ensures Closed(SetToObj(schema, heap, target, name, v))
  {
    var r := SetToObj(schema, heap, target, name, v);
    forall i | 0 <= i < |r|
      ensures ObjIn(r[i], |r|)
    {
      if i == target {
        match heap[target]
        case List(elems) =>
          assert r[i] == List(elems + [v]);
        case Record(t, fields) =>
      }
    }
  }

  /** `setAttributes` keeps the heap closed: attribute values are strings. */
  lemma {:induction false} SetAttributesClosed(schema: Schema, heap: Heap, target: nat, attrs: seq<Attribute>)
    requires target < |heap| && Closed(heap)
    ensures Closed(SetAttributes(schema, heap, target, attrs))
  {
    if attrs != [] {
      var last := attrs[|attrs| - 1];
      SetAttributesClosed(schema, heap, target, attrs[..|attrs| - 1]);
      SetToObjClosed(schema, SetAttributes(schema, heap, target, attrs[..|attrs| - 1]), target, last.name, Str(last.value));
    }
  }

  /** A fresh object keeps the heap closed. */
  lemma NewClosed(heap: Heap, o: Obj)
    requires Closed(heap) && ObjIn(o, |heap|)
    ensures Closed(heap + [o])
  {
    var r := heap + [o];
    forall i | 0 <= i < |r|
      ensures ObjIn(r[i], |r|)
    {
      if i < |heap| {
        assert r[i] == heap[i];
        match heap[i]
        case Record(_, fields) =>
          assert forall f | f in fields :: RefIn(fields[f], |r|);
        case List(elems) =>
          assert forall j | 0 <= j < |elems| :: RefIn(elems[j], |r|);
      }
    }
  }

  /*
   * What an assignment stores
   */

  /** A String field gets the string as is; a list gets any value appended. */
  lemma SetToObjStores(schema: Schema, heap: Heap, target: nat, name: Name, v: Value)
    requires target < |heap|
    ensures heap[target].List? ==> SetToObj(schema, heap, target, name, v)[target] == List(heap[target].elems + [v])
    ensures heap[target].Record? && TextField(FieldOf(schema, heap, target, name)) && v.Str? ==>
      SetToObj(schema, heap, target, name, v)[target] == heap[target].(fields := heap[target].fields[name := v])
  {
  }

  /** An int field given the decimal form of an int gets that int. */
  lemma SetToObjParses(schema: Schema, heap: Heap, target: nat, name: Name, n: int, boxed: bool)
    requires target < |heap| && heap[target].Record? && FieldOf(schema, heap, target, name) == Some(Scalar(Int32, boxed))
    requires -Power2(31) <= n < Power2(31)
    ensures SetToObj(schema, heap, target, name, Str(ShowDecimal(n)))[target] ==
      heap[target].(fields := heap[target].fields[name := Int(n)])
  {
    ConvertParses(n, boxed);
  }

  /** `convertTo` on an int field reads back the decimal form of an int. */
  lemma ConvertParses(n: int, boxed: bool)
    requires -Power2(31) <= n < Power2(31)
    ensures ConvertTo(Scalar(Int32, boxed), Str(ShowDecimal(n))) == Some(Int(n))
  {
    ParseShow(n, 32);
  }

  /** `convertTo` on a long field reads back the decimal form of a long: `Long.valueOf(Long.toString(n))`. */
  lemma ConvertLongParses(n: int, boxed: bool)
    requires -Power2(63) <= n < Power2(63)
    ensures ConvertTo(Scalar(Int64, boxed), Str(ShowDecimal(n))) == Some(Int(n))
  {
    ParseShow(n, 64);
  }

  /**
   * `convertTo` on a boolean field never fails, and reads back
   * `Boolean.toString(b)` as `b`.
   */
  lemma ConvertBoolParses(s: Bytes, b: bool, boxed: bool)
    ensures ConvertTo(Scalar(Truth, boxed), Str(s)).Some?
    ensures ConvertTo(Scalar(Truth, boxed), Str(ShowBool(b))) == Some(Bool(b))
  {
    ParseShowBool(b);
  }

  /**
   * A number that does not parse for an int or long field: `convertTo`
   * throws, `setToObj` swallows the exception, and the heap is unchanged,
   * so the field keeps whatever it held.
   */
  lemma SetToObjUnparsed(schema: Schema, heap: Heap, target: nat, name: Name, s: Bytes, k: ScalarKind, boxed: bool)
    requires target < |heap| && heap[target].Record? && FieldOf(schema, heap, target, name) == Some(Scalar(k, boxed))
    requires (k == Int32 || k == Int64) && ParseDecimal(s, Width(k)).None?
    ensures SetToObj(schema, heap, target, name, Str(s)) == heap
  {
  }

  /** A field the object's type does not declare is never assigned: the heap is unchanged. */
  lemma SetToObjMissing(schema: Schema, heap: Heap, target: nat, name: Name, v: Value)
    requires target < |heap| && heap[target].Record? && FieldOf(schema, heap, target, name).None?
    ensures SetToObj(schema, heap, target, name, v) == heap
  {
  }

  /**
   * After `setAttributes`, a String field named by an attribute holds the
   * value of the last attribute with that name.
   */
  lemma {:induction false} SetAttributesLastWins(schema: Schema, heap: Heap, target: nat, attrs: seq<Attribute>, k: nat)
    requires target < |heap| && heap[target].Record?
    requires k < |attrs| && TextField(FieldOf(schema, heap, target, attrs[k].name))
    requires forall j | k < j < |attrs| :: attrs[j].name != attrs[k].name
    ensures var r := SetAttributes(schema, heap, target, attrs);
      r[target].Record? && attrs[k].name in r[target].fields && r[target].fields[attrs[k].name] == Str(attrs[k].value)
  {
    var init := attrs[..|attrs| - 1];
    var last := attrs[|attrs| - 1];
    var h := SetAttributes(schema, heap, target, init);
    assert FieldOf(schema, h, target, attrs[k].name) == FieldOf(schema, heap, target, attrs[k].name);
    if k == |attrs| - 1 {
      SetToObjStores(schema, h, target, last.name, Str(last.value));
    } else {
      assert init[k] == attrs[k];
      SetAttributesLastWins(schema, heap, target, init, k);
      assert last.name != attrs[k].name;
    }
  }
}
