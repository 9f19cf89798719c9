/**
 * `XMLParserImpl` as the object it is: the parser's fields are fields of
 * class `XmlParser`, and its methods update them in place. Each method is
 * proved to compute the function of module Builder that specifies it, so
 * what module BuilderProofs proves about those functions holds of the
 * class; the invariant `Valid` is the one BuilderProofs proves for them.
 */
module Parser {
  import opened Bytes
  import opened Scanner
  import opened ScannerProofs
  import opened Objects
  import opened Builder
  import opened BuilderProofs

  class XmlParser {
    /** The classes the parser can fill, standing in for reflection. */
    const schema: Schema
    /** The simple name of the root type `T`, whose hash `objClassNameHashCode` stands for it. */
    const root: Name
    /** The object graph; `obj`, the result of `parse`, is `heap[ROOT]`. */
    var heap: Heap
    var contexts: seq<Context>
    var current: Context
    var ignoring: Option<Tag>
    var found: bool
    /** What each registered `TagListener` answers: true to stop. */
    var listeners: map<Name, bool>
    /** The listener calls made so far, in order. */
    var notices: seq<Notice>

    function Types(): Target {
      Target(schema, root)
    }

    /** The fields as a value of the specification's state. */
    function Snapshot(): State
      reads this
    {
      State(heap, contexts, current, ignoring, found, listeners, notices)
    }

    /** Contexts and references point into the heap, and `obj` is an instance of `T`. */
    predicate Valid()
      reads this
    {
      BuilderProofs.Valid(Types(), Snapshot())
    }

    /** `XMLParserImpl(typeArgumentClass, classIntrospector)`: a fresh `T`, and one context for it on the stack. */
    constructor(schema: Schema, root: Name)
      ensures this.schema == schema && this.root == root
      ensures Snapshot() == Init(root) && Valid()
    {
      this.schema := schema;
      this.root := root;
      var ctx := Context(ValueCtx, RootTag(root), ROOT);
      heap := [Record(root, map[])];
      contexts := [ctx];
      current := ctx;
      ignoring := None;
      found := false;
      listeners := map[];
      notices := [];
      new;
      InitValid(Target(schema, root));
    }

    method Register(name: Name, stop: bool)
      requires Valid()
      modifies this
      ensures Snapshot() == Builder.Register(old(Snapshot()), name, stop) && Valid()
    {
      listeners := listeners[name := stop];
    }

    method Notify(name: Name, v: Value) returns (stop: bool)
      modifies this
      ensures (Snapshot(), stop) == Builder.Notify(old(Snapshot()), name, v)
    {
      stop := false;
      if name in listeners {
        notices := notices + [Notice(name, v)];
        stop := listeners[name];
      }
    }

    method CheckIgnoreTag(tag: Tag) returns (skip: bool)
      modifies this
      ensures (skip, Snapshot()) == CheckIgnore(root, old(Snapshot()), tag)
    {
      if !found && tag.name == root {
        found := true;
        return false;
      }
      if !found {
        return true;
      }
      if ignoring.Some? && ignoring.value.name == tag.name && tag.kind == Close {
        ignoring := None;
        return true;
      }
      if ignoring.Some? && ignoring.value.kind == SelfClosed {
        ignoring := None;
        return false;
      }
      return ignoring.Some?;
    }

    method SetToObj(target: nat, name: Name, v: Value)
      requires target < |heap|
      modifies this
      ensures Snapshot() == old(Snapshot()).(heap := Objects.SetToObj(schema, old(heap), target, name, v))
    {
      match heap[target]
      case List(elems) =>
        heap := heap[target := List(elems + [v])];
      case Record(t, fields) =>
        var field := FieldOf(schema, heap, target, name);
        if field.Some? {
          var converted := ConvertTo(field.value, v);
          if converted.Some? && Fits(heap, field.value, converted.value) {
            heap := heap[target := Record(t, fields[name := converted.value])];
          }
        }
    }

    method SetAttributes(target: nat, attrs: seq<Attribute>)
      requires target < |heap|
      modifies this
      ensures Snapshot() == old(Snapshot()).(heap := Objects.SetAttributes(schema, old(heap), target, attrs))
    {
      for i := 0 to |attrs|
        invariant Snapshot() == old(Snapshot()).(heap := Objects.SetAttributes(schema, old(heap), target, attrs[..i]))
      {
        SetToObj(target, attrs[i].name, Str(attrs[i].value));
        assert attrs[..i + 1][..i] == attrs[..i];
      }
      assert attrs[..|attrs|] == attrs;
    }

    /** `classIntrospector.getInstance` for a schema type: a fresh object at the end of the heap. */
    method GetInstance(typeName: Name) returns (a: nat)
      modifies this
      ensures (heap, a) == New(old(heap), typeName)
      ensures Snapshot() == old(Snapshot()).(heap := heap)
    {
      a := |heap|;
      heap := heap + [Record(typeName, map[])];
    }

    /** `new ArrayList<>()` at the end of the heap. */
    method NewArrayList() returns (a: nat)
      modifies this
      ensures (heap, a) == NewList(old(heap))
      ensures Snapshot() == old(Snapshot()).(heap := heap)
    {
      a := |heap|;
      heap := heap + [List([])];
    }

    method OnOpenTag(cur: Context, tag: Tag) returns (r: Result<Option<Context>>)
      requires cur.obj < |heap|
      modifies this
      ensures Snapshot() == old(Snapshot()).(heap := heap)
      ensures var spec := OnOpen(schema, old(heap), cur, tag);
        match r
        case Ok(c) => spec == Ok((heap, c))
        case Err(f) => spec == Err(f) && heap == old(heap)
    {
      var field := FieldOf(schema, heap, cur.obj, tag.name);
      match field
      case None =>
        if cur.kind.ListCtx? {
          var a := GetInstance(cur.kind.elem);
          SetAttributes(a, tag.attributes);
          return Ok(Some(Context(ObjectCtx, tag, a)));
        }
        return Ok(None);
      case Some(ListOf(e)) =>
        var a := NewArrayList();
        var owner := heap[cur.obj];
        heap := heap[cur.obj := owner.(fields := owner.fields[tag.name := Ref(a)])];
        return Ok(Some(Context(ListCtx(e), tag, a)));
      case Some(Scalar(k, boxed)) =>
        if k == Text || (boxed && (k == Int32 || k == Int64 || k == Float64)) {
          return Ok(Some(Context(ValueCtx, tag, cur.obj)));
        }
        return Err(Unsupported);
      case Some(ObjectOf(t)) =>
        var a := GetInstance(t);
        SetAttributes(a, tag.attributes);
        SetToObj(cur.obj, tag.name, Ref(a));
        return Ok(Some(Context(ObjectCtx, tag, a)));
    }

    /**
     * `onSelfClosedTag(context, tag)`: `Ok(None)` is Java's `null` (ignore
     * the tag); otherwise the listener's answer.
     */
    method OnSelfClosedTag(top: Context, tag: Tag) returns (r: Result<Option<bool>>)
      requires top.obj < |heap|
      modifies this
      ensures var spec := OnSelfClosed(schema, old(heap), top, old(current), tag);
        match r
        case Err(f) => spec == Err(f) && Snapshot() == old(Snapshot())
        case Ok(None) => spec == Ok((old(heap), None)) && Snapshot() == old(Snapshot())
        case Ok(Some(stop)) =>
          spec.Ok? && spec.value.1.Some? &&
          (Snapshot(), stop) == Builder.Notify(old(Snapshot()).(heap := spec.value.0), tag.name, spec.value.1.value)
    {
      var field := FieldOf(schema, heap, top.obj, tag.name);
      var v: Value;
      match field {
        case None =>
          if !current.kind.ListCtx? {
            return Ok(None);
          }
          var a := GetInstance(current.kind.elem);
          SetAttributes(a, tag.attributes);
          v := Ref(a);
        case Some(ListOf(_)) =>
          var a := NewArrayList();
          v := Ref(a);
        case Some(ObjectOf(t)) =>
          var a := GetInstance(t);
          SetAttributes(a, tag.attributes);
          v := Ref(a);
        case Some(Scalar(k, _)) =>
          if k != Text {
            return Err(Unsupported);
          }
          v := Str([]);
      }
      SetToObj(top.obj, tag.name, v);
      var stop := Notify(tag.name, v);
      return Ok(Some(stop));
    }

    /** `onCloseTag(context, tag, xml)`, with `context` already popped. */
    method OnCloseTag(ctx: Context, tag: Tag, xml: Bytes) returns (r: Result<bool>)
      requires WellFormed(Snapshot()) && ctx.obj < |heap|
      modifies this
      ensures var spec := OnClose(schema, old(Snapshot()), ctx, tag, xml);
        match r
        case Ok(stop) => spec == Ok((Snapshot(), stop))
        case Err(f) => spec == Err(f) && Snapshot() == old(Snapshot())
    {
      if ctx.kind != ValueCtx {
        if contexts == [] {
          return Err(EmptyStack);
        }
        var parent := contexts[|contexts| - 1];
        SetToObj(parent.obj, ctx.tag.name, Ref(ctx.obj));
        current := parent;
        var stop := Notify(tag.name, Ref(ctx.obj));
        return Ok(stop);
      }
      var content := Content(xml, ctx.tag, tag);
      if content.None? {
        return Err(SliceOutOfRange);
      }
      SetToObj(ctx.obj, ctx.tag.name, Str(content.value));
      current := ctx;
      var stop := Notify(tag.name, Str(content.value));
      return Ok(stop);
    }

    /** One pass of `parse`'s loop on the tag it has read: whether the loop breaks. */
    method HandleTag(xml: Bytes, tag: Tag) returns (r: Result<bool>)
      requires WellFormed(Snapshot())
      modifies this
      ensures var spec := Dispatch(Types(), old(Snapshot()), xml, tag);
        match r
        case Ok(stop) => spec == Ok((Snapshot(), stop))
        case Err(f) => spec == Err(f) && heap == old(heap) && current == old(current) && contexts <= old(contexts)
    {
      var skip := CheckIgnoreTag(tag);
      if skip {
        return Ok(false);
      }
      if tag.name == root {
        if IsOpening(tag) {
          SetAttributes(ROOT, tag.attributes);
          return Ok(false);
        }
        return Ok(true);
      }
      if tag.kind == Close {
        if contexts == [] {
          return Ok(false);
        }
        var ctx := contexts[|contexts| - 1];
        contexts := contexts[..|contexts| - 1];
        r := OnCloseTag(ctx, tag, xml);
      } else if tag.kind == SelfClosed {
        if contexts == [] {
          return Ok(false);
        }
        var res := OnSelfClosedTag(contexts[|contexts| - 1], tag);
        match res {
          case Err(f) => return Err(f);
          case Ok(None) =>
            ignoring := Some(tag);
            return Ok(false);
          case Ok(Some(stop)) => return Ok(stop);
        }
      } else {
        var res := OnOpenTag(current, tag);
        match res {
          case Err(f) => return Err(f);
          case Ok(None) =>
            ignoring := Some(tag);
            return Ok(false);
          case Ok(Some(c)) =>
            current := c;
            contexts := contexts + [c];
            return Ok(false);
        }
      }
    }

    /**
     * `flushIncomplete()`: pops every context; each one below the top gets
     * the object of the one popped before it.
     */
    method FlushIncomplete()
      requires WellFormed(Snapshot()) && contexts != []
      modifies this
      ensures Snapshot() == Flush(schema, old(Snapshot()))
    {
      var nested := contexts[|contexts| - 1];
      contexts := contexts[..|contexts| - 1];
      ghost var flushed := FlushInto(schema, heap, contexts, nested);
      assert flushed == Flush(schema, old(Snapshot())).heap;
      while contexts != []
        invariant nested.obj < |heap| && forall i | 0 <= i < |contexts| :: contexts[i].obj < |heap|
        invariant current == old(current) && ignoring == old(ignoring) && found == old(found)
        invariant listeners == old(listeners) && notices == old(notices)
        invariant FlushInto(schema, heap, contexts, nested) == flushed
        decreases |contexts|
      {
        var cur := contexts[|contexts| - 1];
        ghost var h := Objects.SetToObj(schema, heap, cur.obj, cur.tag.name, Ref(nested.obj));
        assert FlushInto(schema, heap, contexts, nested) == FlushInto(schema, h, contexts[..|contexts| - 1], cur);
        contexts := contexts[..|contexts| - 1];
        SetToObj(cur.obj, cur.tag.name, Ref(nested.obj));
        nested := cur;
      }
    }

    /**
     * `parse(xml)`: reads tags from the start until the input runs out, no
     * tag is left, or a pass breaks; then flushes a stack deeper than the
     * root's context and returns `obj`.
     */
    method Parse(input: Option<Bytes>) returns (r: Result<nat>)
      requires Valid()
      modifies this
      ensures var spec := Builder.Parse(Types(), old(Snapshot()), input);
        match r
        case Ok(o) => spec == Ok((Snapshot(), o)) && Valid() && |contexts| <= 1 && heap[o].typeName == root
        case Err(f) => spec == Err(f) && Valid()
    {
      ParseValid(Types(), Snapshot(), input);
      if input.None? {
        return Err(NullInput);
      }
      var xml := input.value;
      var cursor := 0;
      var stopped := false;
      while cursor < |xml| && !stopped
        invariant Valid()
        invariant !stopped ==> Run(Types(), xml, cursor, Snapshot()) == Run(Types(), xml, 0, old(Snapshot()))
        invariant stopped ==> Run(Types(), xml, 0, old(Snapshot())) == Ok(Snapshot())
        decreases |xml| - cursor, if stopped then 0 else 1
      {
        var scanned := GetTag(xml, cursor);
        match scanned {
          case NoTag =>
            stopped := true;
          case Failed(f) =>
            return Err(f);
          case Found(tag) =>
            NextTagProgress(xml, cursor);
            cursor := tag.position;
            DispatchValid(Types(), Snapshot(), xml, tag);
            var res := HandleTag(xml, tag);
            match res {
              case Err(f) => return Err(f);
              case Ok(stop) => stopped := stop;
            }
        }
      }
      if |contexts| > 1 {
        FlushIncomplete();
      }
      return Ok(ROOT);
    }
  }
}
