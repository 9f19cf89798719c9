/**
 * The object builder of XMLParserImpl as a state machine: the fields of
 * the parser (`contexts`, `currentContext`, `ignoringTag`, `found`,
 * `listeners`) and the object graph make up a `State`, and every private
 * method of the parser is a function from the state (and a tag) to the
 * new state. `Run` is the loop of `parse` and `Parse` is `parse` itself.
 * Class `Parser.XmlParser` holds the same state in fields and is proved
 * to compute these functions.
 */
module Builder {
  import opened Bytes
  import opened Scanner
  import opened ScannerProofs
  import opened Objects

  /** The three kinds of `Context`: a scalar being read, an object, a list with its element type. */
  datatype CtxKind = ValueCtx | ObjectCtx | ListCtx(elem: Name)

  /**
   * A `Context`: the tag that opened it and the object it fills. A value
   * context fills the object of the context it was opened in.
   */
  datatype Context = Context(kind: CtxKind, tag: Tag, obj: nat)

  /** A call of a registered listener: the tag name and the value it was given. */
  datatype Notice = Notice(name: Name, value: Value)

  /**
   * The parser's fields and the objects it has built. `listeners` maps a
   * tag name to what its listener returns (true: stop); `notices` records
   * every call of a listener, in order.
   */
  datatype State = State(heap: Heap, contexts: seq<Context>, current: Context, ignoring: Option<Tag>,
                         found: bool, listeners: map<Name, bool>, notices: seq<Notice>)

  /** What the parser is built for: the schema standing in for the classes, and the root type's simple name. */
  datatype Target = Target(schema: Schema, root: Name)

  /** The root object: always the first in the heap. */
  const ROOT: nat := 0

  /** The tag the constructor gives the root context. */
  function RootTag(root: Name): Tag {
    Tag(root, None, 0, Open, [], false)
  }

  /** The state the constructor leaves: the root object, and one plain context for it on the stack. */
  function Init(root: Name): State {
    var ctx := Context(ValueCtx, RootTag(root), ROOT);
    State([Record(root, map[])], [ctx], ctx, None, false, map[], [])
  }

  /** Every context points into the heap, and the heap holds the root. */
  predicate WellFormed(st: State) {
    |st.heap| > 0 && st.current.obj < |st.heap| &&
    forall i | 0 <= i < |st.contexts| :: st.contexts[i].obj < |st.heap|
  }

  /*
   * Listeners
   */

  /** `register(tag, listener)`: replaces any listener registered for the name. */
  function Register(st: State, name: Name, stop: bool): (r: State)
    ensures r == st.(listeners := r.listeners)
    ensures r.listeners.Keys == st.listeners.Keys + {name} && r.listeners[name] == stop
    ensures forall n | n in st.listeners && n != name :: r.listeners[n] == st.listeners[n]
  {
    st.(listeners := st.listeners[name := stop])
  }

  /**
   * `notify(tag, value)`: calls the listener registered for the name, if
   * any, and returns its answer; with none registered, the answer is
   * false (continue).
   */
  function Notify(st: State, name: Name, v: Value): (r: (State, bool))
    ensures r.1 <==> name in st.listeners && st.listeners[name]
    ensures r.0 == st.(notices := r.0.notices)
    ensures name in st.listeners <==> r.0.notices == st.notices + [Notice(name, v)]
    ensures name !in st.listeners ==> r.0 == st
  {
    if name in st.listeners then (st.(notices := st.notices + [Notice(name, v)]), st.listeners[name])
    else (st, false)
  }

  /*
   * The ignore tracker
   */

  /**
   * `checkIgnoreTag(tag)`: whether the tag is skipped, and the new state.
   * Before the root's tag every tag is skipped; the root's tag sets
   * `found`. While a tag is ignored, a close tag with its name ends the
   * window and is skipped too; an ignored self-closed tag ends its window
   * on the next tag, which is not skipped.
   */
  function CheckIgnore(root: Name, st: State, tag: Tag): (r: (bool, State))
    ensures r.1 == st.(found := r.1.found, ignoring := r.1.ignoring)
    ensures r.1.found == (st.found || tag.name == root)
    ensures r.1.ignoring == st.ignoring || r.1.ignoring == None
  {
    if !st.found && tag.name == root then (false, st.(found := true))
    else if !st.found then (true, st)
    else if st.ignoring.Some? && st.ignoring.value.name == tag.name && tag.kind == Close then (true, st.(ignoring := None))
    else if st.ignoring.Some? && st.ignoring.value.kind == SelfClosed then (false, st.(ignoring := None))
    else if st.ignoring.Some? then (true, st)
    else (false, st)
  }

  /*
   * The handlers
   */

  /**
   * `getInstance` on the declared type of a field, as `onSelfClosedTag`
   * uses it: a fresh object of a schema type, the empty string for a
   * String; the numeric and boolean types have no constructor without
   * arguments, so the instantiation fails.
   */
  function Instance(schema: Schema, heap: Heap, ft: FieldType, attrs: seq<Attribute>): (r: Result<(Heap, Value)>)
    requires !ft.ListOf?
    ensures r.Ok? ==> |r.value.0| >= |heap| && r.value.0[..|heap|] == heap
    ensures r.Ok? && r.value.1.Ref? ==> r.value.1.addr == |heap| && |r.value.0| == |heap| + 1
  {
    match ft
    case ObjectOf(t) =>
      var (h, a) := New(heap, t);
      var h' := SetAttributes(schema, h, a, attrs);
      assert h'[..|heap|] == heap;
      Ok((h', Ref(a)))
    case Scalar(Text, _) => Ok((heap, Str([])))
    case Scalar(_, _) => Err(Unsupported)
  }

  /**
   * `onOpenTag(currentContext, tag)`: the context to push, or `None` for a
   * tag to ignore (no field of that name, outside a list). A list field
   * gets a fresh list at once; a String, Integer, Long or Double field
   * gets a value context on the same object; an object field gets a
   * fresh object with the tag's attributes, assigned at once. In a list,
   * an unknown tag is a fresh element.
   */
  function OnOpen(schema: Schema, heap: Heap, cur: Context, tag: Tag): (r: Result<(Heap, Option<Context>)>)
    requires cur.obj < |heap|
    ensures r.Ok? ==> |r.value.0| >= |heap|
    ensures r.Ok? && r.value.1.Some? ==> r.value.1.value.tag == tag && r.value.1.value.obj < |r.value.0|
    ensures r.Ok? && r.value.1.None? ==> r.value.0 == heap
  {
    match FieldOf(schema, heap, cur.obj, tag.name)
    case None =>
      if cur.kind.ListCtx? then
        var (h, a) := New(heap, cur.kind.elem);
        Ok((SetAttributes(schema, h, a, tag.attributes), Some(Context(ObjectCtx, tag, a))))
      else Ok((heap, None))
    case Some(ListOf(e)) =>
      var (h, a) := NewList(heap);
      var owner := h[cur.obj];
      Ok((h[cur.obj := owner.(fields := owner.fields[tag.name := Ref(a)])], Some(Context(ListCtx(e), tag, a))))
    case Some(Scalar(k, boxed)) =>
      if k == Text || (boxed && (k == Int32 || k == Int64 || k == Float64)) then
        Ok((heap, Some(Context(ValueCtx, tag, cur.obj))))
      else Err(Unsupported)
    case Some(ObjectOf(t)) =>
      var (h, a) := New(heap, t);
      var h' := SetAttributes(schema, h, a, tag.attributes);
      Ok((SetToObj(schema, h', cur.obj, tag.name, Ref(a)), Some(Context(ObjectCtx, tag, a))))
  }

  /**
   * `onSelfClosedTag(context, tag)` with `context` the top of the stack:
   * the object made for the tag, or `None` for a tag to ignore. Whether
   * the tag is a list element is decided by `currentContext`, which can
   * differ from the top of the stack.
   */
  function OnSelfClosed(schema: Schema, heap: Heap, top: Context, cur: Context, tag: Tag): (r: Result<(Heap, Option<Value>)>)
    requires top.obj < |heap|
    ensures r.Ok? ==> |r.value.0| >= |heap|
    ensures r.Ok? && r.value.1.None? ==> r.value.0 == heap
    ensures r.Ok? && r.value.1.Some? ==> RefIn(r.value.1.value, |r.value.0|)
  {
    match FieldOf(schema, heap, top.obj, tag.name)
    case None =>
      if cur.kind.ListCtx? then
        var (h, a) := New(heap, cur.kind.elem);
        var h' := SetAttributes(schema, h, a, tag.attributes);
        Ok((SetToObj(schema, h', top.obj, tag.name, Ref(a)), Some(Ref(a))))
      else Ok((heap, None))
    case Some(ListOf(_)) =>
      var (h, a) := NewList(heap);
      Ok((SetToObj(schema, h, top.obj, tag.name, Ref(a)), Some(Ref(a))))
    case Some(ft) =>
      match Instance(schema, heap, ft, tag.attributes)
      case Err(f) => Err(f)
      case Ok((h, v)) => Ok((SetToObj(schema, h, top.obj, tag.name, v), Some(v)))
  }

  /** The text of a value tag: `trim()`, then for CDATA `substring(9, length - 3)`; `None` where Java throws. */
  function Content(xml: Bytes, open: Tag, close: Tag): (r: Option<Bytes>)
    ensures r.Some? ==> open.position <= StartPosition(close) <= |xml|
  {
    match Slice(xml, open.position, StartPosition(close) - open.position)
    case None => None
    case Some(raw) =>
      var dirty := Trim(raw);
      if !close.cdata then Some(dirty)
      else if |dirty| < 12 then None
      else Some(dirty[9..|dirty| - 3])
  }

  /**
   * `onCloseTag(context, tag, xml)` with `context` already popped from the
   * stack in `st`: an object or list is assigned again to the new top under
   * its opening tag's name, which becomes `currentContext`; a value is the
   * trimmed text between the opening tag and the close tag, assigned to
   * the field named by the opening tag. The listener for the close tag's
   * name gets the object or the text, and its answer is returned.
   */
  function OnClose(schema: Schema, st: State, ctx: Context, tag: Tag, xml: Bytes): (r: Result<(State, bool)>)
    requires WellFormed(st) && ctx.obj < |st.heap|
    ensures r.Ok? ==> r.value.0.contexts == st.contexts && |r.value.0.heap| == |st.heap|
    ensures r == Err(EmptyStack) <==> ctx.kind != ValueCtx && st.contexts == []
    ensures r == Err(SliceOutOfRange) <==> ctx.kind == ValueCtx && Content(xml, ctx.tag, tag).None?
  {
    if ctx.kind != ValueCtx then
      if st.contexts == [] then Err(EmptyStack)
      else
        var parent := st.contexts[|st.contexts| - 1];
        var s := st.(heap := SetToObj(schema, st.heap, parent.obj, ctx.tag.name, Ref(ctx.obj)), current := parent);
        Ok(Notify(s, tag.name, Ref(ctx.obj)))
    else
      match Content(xml, ctx.tag, tag)
      case None => Err(SliceOutOfRange)
      case Some(content) =>
        var s := st.(heap := SetToObj(schema, st.heap, ctx.obj, ctx.tag.name, Str(content)), current := ctx);
        Ok(Notify(s, tag.name, Str(content)))
  }

  /**
   * One pass of `parse`'s loop on a tag it has read: the new state, and
   * whether the loop breaks. Skipped tags change only the ignore state;
   * the root's tag applies its attributes to the root object, or ends the
   * loop when it closes; otherwise the tag goes to its handler.
   */
  function Dispatch(tg: Target, st: State, xml: Bytes, tag: Tag): (r: Result<(State, bool)>)
    requires WellFormed(st)
    ensures r.Ok? ==> WellFormed(r.value.0)
  {
    var (skip, s) := CheckIgnore(tg.root, st, tag);
    if skip then Ok((s, false))
    else if tag.name == tg.root then
      if IsOpening(tag) then Ok((s.(heap := SetAttributes(tg.schema, s.heap, ROOT, tag.attributes)), false))
      else Ok((s, true))
    else if tag.kind == Close then
      if s.contexts == [] then Ok((s, false))
      else
        var n := |s.contexts| - 1;
        OnClose(tg.schema, s.(contexts := s.contexts[..n]), s.contexts[n], tag, xml)
    else if tag.kind == SelfClosed then
      if s.contexts == [] then Ok((s, false))
      else
        match OnSelfClosed(tg.schema, s.heap, s.contexts[|s.contexts| - 1], s.current, tag)
        case Err(f) => Err(f)
        case Ok((h, None)) => Ok((s.(heap := h, ignoring := Some(tag)), false))
        case Ok((h, Some(v))) => Ok(Notify(s.(heap := h), tag.name, v))
    else
      match OnOpen(tg.schema, s.heap, s.current, tag)
      case Err(f) => Err(f)
      case Ok((h, None)) => Ok((s.(heap := h, ignoring := Some(tag)), false))
      case Ok((h, Some(c))) => Ok((s.(heap := h, current := c, contexts := s.contexts + [c]), false))
  }

  /**
   * `parse`'s loop from `cursor`: read the next tag, dispatch it, and go
   * on from its end position until the input runs out, no tag is left, or
   * a pass breaks. A tag the scanner cannot build ends the parse with its
   * fault. The loop ends because each tag ends past the cursor.
   */
  function Run(tg: Target, xml: Bytes, cursor: nat, st: State): (r: Result<State>)
    requires WellFormed(st)
    ensures r.Ok? ==> WellFormed(r.value)
    decreases |xml| - cursor
  {
    if cursor >= |xml| then Ok(st)
    else
      match NextTag(xml, cursor)
      case NoTag => Ok(st)
      case Failed(f) => Err(f)
      case Found(tag) =>
        NextTagProgress(xml, cursor);
        match Dispatch(tg, st, xml, tag)
        case Err(f) => Err(f)
        case Ok((s, stop)) => if stop then Ok(s) else Run(tg, xml, tag.position, s)
  }

  /**
   * The assignments `flushIncomplete` makes once the innermost context
   * `nested` is popped: each context below, from the top down, gets the
   * object of the one above it, under its own opening tag's name.
   */
  function FlushInto(schema: Schema, heap: Heap, below: seq<Context>, nested: Context): (r: Heap)
    requires nested.obj < |heap| && forall i | 0 <= i < |below| :: below[i].obj < |heap|
    ensures |r| == |heap|
    decreases |below|
  {
    if below == [] then heap
    else
      var current := below[|below| - 1];
      FlushInto(schema, SetToObj(schema, heap, current.obj, current.tag.name, Ref(nested.obj)), below[..|below| - 1], current)
  }

  /**
   * The flush writes only to the objects of the contexts below the popped
   * one, and no object changes between list and record.
   */
  lemma {:induction false} FlushIntoFrame(schema: Schema, heap: Heap, below: seq<Context>, nested: Context)
    requires nested.obj < |heap| && forall i | 0 <= i < |below| :: below[i].obj < |heap|
    ensures var r := FlushInto(schema, heap, below, nested);
      forall a | 0 <= a < |heap| && (forall i | 0 <= i < |below| :: below[i].obj != a) :: r[a] == heap[a]
    ensures var r := FlushInto(schema, heap, below, nested);
      forall a | 0 <= a < |heap| :: (r[a].List? <==> heap[a].List?)
    decreases |below|
  {
    if below != [] {
      var current := below[|below| - 1];
      var h := SetToObj(schema, heap, current.obj, current.tag.name, Ref(nested.obj));
      FlushIntoFrame(schema, h, below[..|below| - 1], current);
    }
  }

  /** `flushIncomplete()`: the assignments above, and an empty stack. */
  function Flush(schema: Schema, st: State): (r: State)
    requires WellFormed(st) && st.contexts != []
    ensures r.contexts == [] && |r.heap| == |st.heap|
  {
    var n := |st.contexts| - 1;
    st.(heap := FlushInto(schema, st.heap, st.contexts[..n], st.contexts[n]), contexts := [])
  }

  /**
   * `parse(xml)`: `None` is a null input. After the loop, a stack of more
   * than one context is flushed; the result is the root object.
   */
  function Parse(tg: Target, st: State, input: Option<Bytes>): (r: Result<(State, nat)>)
    requires WellFormed(st)
    ensures r.Ok? ==> r.value.1 == ROOT && r.value.1 < |r.value.0.heap|
    ensures input.None? ==> r == Err(NullInput)
  {
    match input
    case None => Err(NullInput)
    case Some(xml) =>
      match Run(tg, xml, 0, st)
      case Err(f) => Err(f)
      case Ok(s) => Ok((if |s.contexts| > 1 then Flush(tg.schema, s) else s, ROOT))
  }
}
