/**
 * What the object builder promises, proved about module Builder: the
 * ignore tracker's windows, the stack discipline of the handlers, the
 * text a value tag receives, the ways the loop ends, and that the object
 * graph stays closed.
 */
module BuilderProofs {
  import opened Bytes
  import opened Scanner
  import opened ScannerProofs
  import opened Objects
  import opened Builder

  /*
   * The ignore tracker on its own
   */

  /**
   * `checkIgnoreTag` applied to a run of tags: the state after them, and
   * the tags it lets through, in order.
   */
  function Track(root: Name, st: State, tags: seq<Tag>): (r: (State, seq<Tag>))
    ensures r.0 == st.(found := r.0.found, ignoring := r.0.ignoring)
    ensures multiset(r.1) <= multiset(tags)
    ensures r.0.found == (st.found || exists i | 0 <= i < |tags| :: tags[i].name == root)
    decreases |tags|
  {
    if tags == [] then (st, [])
    else
      var (skip, s) := CheckIgnore(root, st, tags[0]);
      var (s', passed) := Track(root, s, tags[1..]);
      assert tags == [tags[0]] + tags[1..];
      assert forall i | 1 <= i < |tags| :: tags[i] == tags[1..][i - 1];
      (s', if skip then passed else [tags[0]] + passed)
  }

  /**
   * Until the first tag named like the root type, every tag is skipped
   * and nothing changes; that tag goes through and sets `found`.
   */
  lemma {:induction false} SkipsBeforeRoot(root: Name, st: State, tags: seq<Tag>, t: Tag, rest: seq<Tag>)
    requires !st.found && t.name == root
    requires forall i | 0 <= i < |tags| :: tags[i].name != root
    ensures var after := Track(root, st.(found := true), rest);
      Track(root, st, tags + [t] + rest) == (after.0, [t] + after.1)
    decreases |tags|
  {
    if tags == [] {
      assert [t] + rest == [t] + rest && ([t] + rest)[1..] == rest;
      assert tags + [t] + rest == [t] + rest;
    } else {
      assert (tags + [t] + rest)[0] == tags[0];
      assert (tags + [t] + rest)[1..] == tags[1..] + [t] + rest;
      SkipsBeforeRoot(root, st, tags[1..], t, rest);
    }
  }

  /**
   * An ignored open tag: every later tag is skipped up to the first close
   * tag with its name, whatever the nesting, and that close tag is skipped
   * too and ends the window. Nothing else changes.
   */
  lemma {:induction false} IgnoreWindow(root: Name, st: State, t: Tag, tags: seq<Tag>, close: Tag, rest: seq<Tag>)
    requires st.found && st.ignoring == Some(t) && t.kind != SelfClosed
    requires forall i | 0 <= i < |tags| :: !(tags[i].kind == Close && tags[i].name == t.name)
    requires close.kind == Close && close.name == t.name
    ensures Track(root, st, tags + [close] + rest) == Track(root, st.(ignoring := None), rest)
    decreases |tags|
  {
    if tags == [] {
      assert tags + [close] + rest == [close] + rest && ([close] + rest)[1..] == rest;
    } else {
      assert (tags + [close] + rest)[0] == tags[0];
      assert (tags + [close] + rest)[1..] == tags[1..] + [close] + rest;
      IgnoreWindow(root, st, t, tags[1..], close, rest);
    }
  }

  /**
   * An ignored self-closed tag: its window ends on the very next tag,
   * which goes through, unless that tag is a close tag of the same name,
   * which is skipped.
   */
  lemma SelfClosedWindow(root: Name, st: State, t: Tag, next: Tag, rest: seq<Tag>)
    requires st.found && st.ignoring == Some(t) && t.kind == SelfClosed
    ensures var after := Track(root, st.(ignoring := None), rest);
      Track(root, st, [next] + rest) ==
        if next.kind == Close && next.name == t.name then after else (after.0, [next] + after.1)
  {
    assert ([next] + rest)[0] == next && ([next] + rest)[1..] == rest;
  }

  /** With no window open after the root, nothing is skipped. */
  lemma {:induction false} NothingIgnored(root: Name, st: State, tags: seq<Tag>)
    requires st.found && st.ignoring == None
    ensures Track(root, st, tags) == (st, tags)
    decreases |tags|
  {
    if tags != [] {
      NothingIgnored(root, st, tags[1..]);
      assert [tags[0]] + tags[1..] == tags;
    }
  }

  /*
   * Stack discipline
   */

  /**
   * One pass of the loop pushes at most one context, for an open tag, and
   * the pushed context becomes `currentContext`; it pops at most one, for
   * a close tag; a self-closed tag leaves the stack alone.
   */
  lemma DispatchStack(tg: Target, st: State, xml: Bytes, tag: Tag)
    requires WellFormed(st)
    ensures var r := Dispatch(tg, st, xml, tag);
      r.Ok? ==> var s := r.value.0;
        (tag.kind == SelfClosed ==> s.contexts == st.contexts) &&
        (tag.kind == Open ==>
           s.contexts == st.contexts || (s.contexts == st.contexts + [s.current] && s.current.tag == tag)) &&
        (tag.kind == Close ==>
           s.contexts == st.contexts || (st.contexts != [] && s.contexts == st.contexts[..|st.contexts| - 1]))
  {
  }

  /**
   * An open tag with no field of its name, outside a list, is not pushed:
   * it becomes the ignored tag and nothing else changes.
   */
  lemma UnmappedOpenIgnored(tg: Target, st: State, xml: Bytes, tag: Tag)
    requires WellFormed(st) && st.found && st.ignoring == None
    requires tag.kind == Open && tag.name != tg.root
    requires FieldOf(tg.schema, st.heap, st.current.obj, tag.name).None? && !st.current.kind.ListCtx?
    ensures Dispatch(tg, st, xml, tag) == Ok((st.(ignoring := Some(tag)), false))
  {
  }

  /** Likewise a self-closed tag with no field of its name on the top of the stack, outside a list. */
  lemma UnmappedSelfClosedIgnored(tg: Target, st: State, xml: Bytes, tag: Tag)
    requires WellFormed(st) && st.found && st.ignoring == None && st.contexts != []
    requires tag.kind == SelfClosed && tag.name != tg.root
    requires FieldOf(tg.schema, st.heap, st.contexts[|st.contexts| - 1].obj, tag.name).None? && !st.current.kind.ListCtx?
    ensures Dispatch(tg, st, xml, tag) == Ok((st.(ignoring := Some(tag)), false))
  {
  }

  /*
   * How the loop ends
   */

  /** The root's close tag, once the root was found and outside any ignore window, ends the loop and changes nothing. */
  lemma RootCloseEnds(tg: Target, st: State, xml: Bytes, tag: Tag)
    requires WellFormed(st) && st.found && st.ignoring == None
    requires tag.kind == Close && tag.name == tg.root
    ensures Dispatch(tg, st, xml, tag) == Ok((st, true))
  {
  }

  /** A pass that breaks ends `parse`'s loop with its state. */
  lemma RunBreaks(tg: Target, xml: Bytes, cursor: nat, st: State, tag: Tag, s: State)
    requires WellFormed(st) && cursor < |xml| && NextTag(xml, cursor) == Found(tag)
    requires Dispatch(tg, st, xml, tag) == Ok((s, true))
    ensures Run(tg, xml, cursor, st) == Ok(s)
  {
  }

  /** A pass that does not break goes on from the tag's end position. */
  lemma RunContinues(tg: Target, xml: Bytes, cursor: nat, st: State, tag: Tag, s: State)
    requires WellFormed(st) && cursor < |xml| && NextTag(xml, cursor) == Found(tag)
    requires Dispatch(tg, st, xml, tag) == Ok((s, false))
    ensures cursor < tag.position && Run(tg, xml, cursor, st) == Run(tg, xml, tag.position, s)
  {
    NextTagProgress(xml, cursor);
  }

  /** Without a further tag the loop ends with the state it has. */
  lemma RunEnds(tg: Target, xml: Bytes, cursor: nat, st: State)
    requires WellFormed(st) && (cursor >= |xml| || NextTag(xml, cursor) == NoTag)
    ensures Run(tg, xml, cursor, st) == Ok(st)
  {
  }

  /**
   * `register` replaces any earlier listener for the name: `notify` for
   * it returns the new listener's answer and records the call; for a name
   * with no listener, `notify` returns false and changes nothing.
   */
  lemma RegisterThenNotify(st: State, name: Name, stop: bool, other: Name, v: Value)
    ensures var s := Register(st, name, stop);
      Notify(s, name, v) == (s.(notices := s.notices + [Notice(name, v)]), stop)
    ensures other !in st.listeners ==> Notify(st, other, v) == (st, false)
  {
  }

  /**
   * A listener that answers true, on the close tag of a value, ends the
   * loop after the value is assigned, and it is given the assigned text.
   */
  lemma ListenerStopsOnValue(tg: Target, st: State, xml: Bytes, tag: Tag, content: Bytes)
    requires WellFormed(st) && st.found && st.ignoring == None && st.contexts != []
    requires tag.kind == Close && tag.name != tg.root
    requires tag.name in st.listeners && st.listeners[tag.name]
    requires var ctx := st.contexts[|st.contexts| - 1]; ctx.kind == ValueCtx && Content(xml, ctx.tag, tag) == Some(content)
    ensures var r := Dispatch(tg, st, xml, tag);
      r.Ok? && r.value.1 &&
      r.value.0.notices == st.notices + [Notice(tag.name, Str(content))] &&
      var ctx := st.contexts[|st.contexts| - 1];
      r.value.0.heap == SetToObj(tg.schema, st.heap, ctx.obj, ctx.tag.name, Str(content))
  {
  }

  /*
   * The text of a value tag
   */

  /**
   * `getStartPosition` recovers where a close tag starts: for the close
   * tag the scanner returns after reading "</name>" at `p`, it is `p`.
   */
  lemma CloseTagStart(t: Tag, p: int)
    requires t.kind == Close && t.attributes == []
    ensures StartPosition(t.(position := p + EndOffset(t))) == p
  {
    EndOffsetParts(t);
  }

  /** The bytes between an open tag ending at `|pre|` and a close tag written after `text` are `text`. */
  lemma BetweenTags(pre: Bytes, text: Bytes, close: Tag, rest: Bytes, open: Tag)
    requires close.kind == Close && close.attributes == [] && open.position == |pre|
    ensures var xml := pre + text + Write(close) + rest;
      var c := close.(position := |pre| + |text| + EndOffset(close));
      Slice(xml, open.position, StartPosition(c) - open.position) == Some(text)
  {
    var xml := pre + text + Write(close) + rest;
    CloseTagStart(close, |pre| + |text|);
    assert xml[|pre|..|pre| + |text|] == text;
  }

  /**
   * The text a value tag receives: the bytes between the end of its open
   * tag and the start of its close tag, trimmed.
   */
  lemma ValueContent(pre: Bytes, text: Bytes, close: Tag, rest: Bytes, open: Tag)
    requires close.kind == Close && close.attributes == [] && !close.cdata && open.position == |pre|
    ensures var xml := pre + text + Write(close) + rest;
      Content(xml, open, close.(position := |pre| + |text| + EndOffset(close))) == Some(Trim(text))
  {
    BetweenTags(pre, text, close, rest, open);
  }

  /** "<![CDATA[" + `inner` + "]]>". */
  function Section(inner: Bytes): (r: Bytes)
    ensures Trimmed(r) && |r| == |inner| + 12 && r[9..|r| - 3] == inner
  {
    var r := CDATA_OPEN + inner + CDATA_CLOSE;
    assert r[0] == LT && r[|r| - 1] == GT;
    assert r[9..|r| - 3] == inner;
    r
  }

  /**
   * For a value whose close tag the scanner marked as CDATA, the
   * "<![CDATA[" and "]]>" around the text are dropped after trimming, and
   * the text inside is kept as it is.
   */
  lemma CdataContent(pre: Bytes, left: Bytes, inner: Bytes, right: Bytes, close: Tag, rest: Bytes, open: Tag)
    requires close.kind == Close && close.attributes == [] && close.cdata && open.position == |pre|
    requires AllWhite(left) && AllWhite(right)
    ensures var text := left + Section(inner) + right;
      var xml := pre + text + Write(close) + rest;
      Content(xml, open, close.(position := |pre| + |text| + EndOffset(close))) == Some(inner)
  {
    var text := left + Section(inner) + right;
    SectionBetween(pre, text, close, rest, open, left, inner, right,
                   pre + text + Write(close) + rest, close.(position := |pre| + |text| + EndOffset(close)));
  }

  /** `CdataContent` with the document and the scanned close tag given by name. */
  lemma SectionBetween(pre: Bytes, text: Bytes, close: Tag, rest: Bytes, open: Tag, left: Bytes, inner: Bytes,
                       right: Bytes, xml: Bytes, c: Tag)
    requires close.kind == Close && close.attributes == [] && close.cdata && open.position == |pre|
    requires AllWhite(left) && AllWhite(right) && text == left + Section(inner) + right
    requires xml == pre + text + Write(close) + rest && c == close.(position := |pre| + |text| + EndOffset(close))
    ensures Content(xml, open, c) == Some(inner)
  {
    BetweenTags(pre, text, close, rest, open);
    SectionContent(xml, open, c, left, inner, right);
  }

  /** Trimming and cutting a padded CDATA section leaves its text. */
  lemma SectionContent(xml: Bytes, open: Tag, close: Tag, left: Bytes, inner: Bytes, right: Bytes)
    requires close.cdata && AllWhite(left) && AllWhite(right)
    requires Slice(xml, open.position, StartPosition(close) - open.position) == Some(left + Section(inner) + right)
    ensures Content(xml, open, close) == Some(inner)
  {
    TrimPadded(left, Section(inner), right);
  }

  /*
   * The object graph stays closed
   */

  /** Every object of `heap` is still in `h`, and keeps its type. */
  predicate Keeps(heap: Heap, h: Heap) {
    |h| >= |heap| &&
    forall i | 0 <= i < |heap| && heap[i].Record? :: h[i].Record? && h[i].typeName == heap[i].typeName
  }

  /**
   * What holds between passes of `parse`'s loop: every context and every
   * reference points into the heap, and the root object is an instance of
   * the root type.
   */
  predicate Valid(tg: Target, st: State) {
    WellFormed(st) && Closed(st.heap) && st.heap[ROOT].Record? && st.heap[ROOT].typeName == tg.root
  }

  /** The constructor's state is valid. */
  lemma InitValid(tg: Target)
    ensures Valid(tg, Init(tg.root))
  {
    var h := Init(tg.root).heap;
    assert ObjIn(h[0], |h|);
  }

  /** `onOpenTag`'s direct `field.set` of a fresh list keeps the heap closed and the object's type. */
  lemma AssignClosed(heap: Heap, target: nat, name: Name, v: Value)
    requires target < |heap| && heap[target].Record? && Closed(heap) && RefIn(v, |heap|)
    ensures var h := heap[target := heap[target].(fields := heap[target].fields[name := v])];
      Closed(h) && Keeps(heap, h)
  {
    var h := heap[target := heap[target].(fields := heap[target].fields[name := v])];
    assert ObjIn(h[target], |h|);
  }

  /** A fresh object of a schema type, with the tag's attributes, keeps the heap closed. */
  lemma FreshClosed(schema: Schema, heap: Heap, t: Name, attrs: seq<Attribute>)
    requires Closed(heap)
    ensures var h := SetAttributes(schema, heap + [Record(t, map[])], |heap|, attrs);
      Closed(h) && Keeps(heap, h)
  {
    NewClosed(heap, Record(t, map[]));
    SetAttributesClosed(schema, heap + [Record(t, map[])], |heap|, attrs);
  }

  /** A fresh object with the tag's attributes, assigned to a field of an existing object, keeps the heap closed. */
  lemma FreshAssignedClosed(schema: Schema, heap: Heap, t: Name, attrs: seq<Attribute>, target: nat, name: Name)
    requires Closed(heap) && target < |heap|
    ensures var h := SetAttributes(schema, heap + [Record(t, map[])], |heap|, attrs);
      var h' := SetToObj(schema, h, target, name, Ref(|heap|));
      Closed(h') && Keeps(heap, h')
  {
    FreshClosed(schema, heap, t, attrs);
    var h := SetAttributes(schema, heap + [Record(t, map[])], |heap|, attrs);
    SetToObjClosed(schema, h, target, name, Ref(|heap|));
  }

  lemma OnOpenClosed(schema: Schema, heap: Heap, cur: Context, tag: Tag)
    requires cur.obj < |heap| && Closed(heap)
    ensures var r := OnOpen(schema, heap, cur, tag);
      r.Ok? ==> Closed(r.value.0) && Keeps(heap, r.value.0)
  {
    match FieldOf(schema, heap, cur.obj, tag.name)
    case None =>
      if cur.kind.ListCtx? {
        FreshClosed(schema, heap, cur.kind.elem, tag.attributes);
      }
    case Some(ListOf(e)) =>
      NewClosed(heap, List([]));
      AssignClosed(heap + [List([])], cur.obj, tag.name, Ref(|heap|));
    case Some(Scalar(_, _)) =>
    case Some(ObjectOf(t)) =>
      FreshAssignedClosed(schema, heap, t, tag.attributes, cur.obj, tag.name);
  }

  lemma OnSelfClosedClosed(schema: Schema, heap: Heap, top: Context, cur: Context, tag: Tag)
    requires top.obj < |heap| && Closed(heap)
    ensures var r := OnSelfClosed(schema, heap, top, cur, tag);
      r.Ok? ==> Closed(r.value.0) && Keeps(heap, r.value.0)
  {
    match FieldOf(schema, heap, top.obj, tag.name)
    case None =>
      if cur.kind.ListCtx? {
        FreshAssignedClosed(schema, heap, cur.kind.elem, tag.attributes, top.obj, tag.name);
      }
    case Some(ListOf(_)) =>
      NewClosed(heap, List([]));
      SetToObjClosed(schema, heap + [List([])], top.obj, tag.name, Ref(|heap|));
    case Some(ObjectOf(t)) =>
      FreshAssignedClosed(schema, heap, t, tag.attributes, top.obj, tag.name);
    case Some(Scalar(_, _)) =>
      SetToObjClosed(schema, heap, top.obj, tag.name, Str([]));
  }

  lemma OnCloseClosed(schema: Schema, st: State, ctx: Context, tag: Tag, xml: Bytes)
    requires WellFormed(st) && ctx.obj < |st.heap| && Closed(st.heap)
    ensures var r := OnClose(schema, st, ctx, tag, xml);
      r.Ok? ==> Closed(r.value.0.heap) && Keeps(st.heap, r.value.0.heap)
  {
    if ctx.kind != ValueCtx {
      if st.contexts != [] {
        var parent := st.contexts[|st.contexts| - 1];
        SetToObjClosed(schema, st.heap, parent.obj, ctx.tag.name, Ref(ctx.obj));
      }
    } else if Content(xml, ctx.tag, tag).Some? {
      SetToObjClosed(schema, st.heap, ctx.obj, ctx.tag.name, Str(Content(xml, ctx.tag, tag).value));
    }
  }

  /** One pass of the loop keeps the state valid. */
  lemma DispatchValid(tg: Target, st: State, xml: Bytes, tag: Tag)
    requires Valid(tg, st)
    ensures var r := Dispatch(tg, st, xml, tag);
      r.Ok? ==> Valid(tg, r.value.0)
  {
    var (skip, s) := CheckIgnore(tg.root, st, tag);
    assert Valid(tg, s);
    if skip {
    } else if tag.name == tg.root {
      SetAttributesClosed(tg.schema, s.heap, ROOT, tag.attributes);
    } else if tag.kind == Close {
      if s.contexts != [] {
        CloseValid(tg, s, xml, tag);
      }
    } else if tag.kind == SelfClosed {
      if s.contexts != [] {
        SelfClosedValid(tg, s, tag);
      }
    } else {
      OpenValid(tg, s, tag);
    }
  }

  lemma CloseValid(tg: Target, s: State, xml: Bytes, tag: Tag)
    requires Valid(tg, s) && s.contexts != []
    ensures var n := |s.contexts| - 1;
      var r := OnClose(tg.schema, s.(contexts := s.contexts[..n]), s.contexts[n], tag, xml);
      r.Ok? ==> Valid(tg, r.value.0)
  {
    var n := |s.contexts| - 1;
    OnCloseClosed(tg.schema, s.(contexts := s.contexts[..n]), s.contexts[n], tag, xml);
  }

  lemma SelfClosedValid(tg: Target, s: State, tag: Tag)
    requires Valid(tg, s) && s.contexts != []
    ensures var r := OnSelfClosed(tg.schema, s.heap, s.contexts[|s.contexts| - 1], s.current, tag);
      r.Ok? ==>
        Valid(tg, s.(heap := r.value.0, ignoring := Some(tag))) &&
        (r.value.1.Some? ==> Valid(tg, Notify(s.(heap := r.value.0), tag.name, r.value.1.value).0))
  {
    OnSelfClosedClosed(tg.schema, s.heap, s.contexts[|s.contexts| - 1], s.current, tag);
  }

  lemma OpenValid(tg: Target, s: State, tag: Tag)
    requires Valid(tg, s)
    ensures var r := OnOpen(tg.schema, s.heap, s.current, tag);
      r.Ok? ==>
        Valid(tg, s.(heap := r.value.0, ignoring := Some(tag))) &&
        (r.value.1.Some? ==> Valid(tg, s.(heap := r.value.0, current := r.value.1.value, contexts := s.contexts + [r.value.1.value])))
  {
    OnOpenClosed(tg.schema, s.heap, s.current, tag);
  }

  /** The whole loop keeps the state valid. */
  lemma {:induction false} RunValid(tg: Target, xml: Bytes, cursor: nat, st: State)
    requires Valid(tg, st)
    ensures var r := Run(tg, xml, cursor, st);
      r.Ok? ==> Valid(tg, r.value)
    decreases |xml| - cursor
  {
    if cursor < |xml| && NextTag(xml, cursor).Found? {
      var tag := NextTag(xml, cursor).tag;
      NextTagProgress(xml, cursor);
      DispatchValid(tg, st, xml, tag);
      var r := Dispatch(tg, st, xml, tag);
      if r.Ok? && !r.value.1 {
        RunValid(tg, xml, tag.position, r.value.0);
      }
    }
  }

  /** `flushIncomplete`'s assignments keep the heap closed. */
  lemma {:induction false} FlushIntoClosed(schema: Schema, heap: Heap, below: seq<Context>, nested: Context)
    requires nested.obj < |heap| && forall i | 0 <= i < |below| :: below[i].obj < |heap|
    requires Closed(heap)
    ensures var h := FlushInto(schema, heap, below, nested);
      Closed(h) && Keeps(heap, h)
    decreases |below|
  {
    if below != [] {
      var current := below[|below| - 1];
      var h := SetToObj(schema, heap, current.obj, current.tag.name, Ref(nested.obj));
      SetToObjClosed(schema, heap, current.obj, current.tag.name, Ref(nested.obj));
      FlushIntoClosed(schema, h, below[..|below| - 1], current);
    }
  }

  /**
   * `parse` returns the root object, an instance of the root type, in a
   * closed object graph, with at most one context left on the stack.
   */
  lemma ParseValid(tg: Target, st: State, input: Option<Bytes>)
    requires Valid(tg, st)
    ensures var r := Parse(tg, st, input);
      r.Ok? ==>
        Valid(tg, r.value.0) && |r.value.0.contexts| <= 1 && r.value.0.heap[r.value.1].typeName == tg.root
  {
    if input.Some? {
      var xml := input.value;
      RunValid(tg, xml, 0, st);
      var r := Run(tg, xml, 0, st);
      if r.Ok? && |r.value.contexts| > 1 {
        var s := r.value;
        var n := |s.contexts| - 1;
        FlushIntoClosed(tg.schema, s.heap, s.contexts[..n], s.contexts[n]);
      }
    }
  }

  /*
   * A value element from end to end
   */

  /** An open tag for a String field pushes a value context on the object being filled, which becomes current. */
  lemma OpenValue(tg: Target, st: State, xml: Bytes, open: Tag)
    requires WellFormed(st) && st.found && st.ignoring == None
    requires open.kind == Open && open.name != tg.root
    requires TextField(FieldOf(tg.schema, st.heap, st.current.obj, open.name))
    ensures var c := Context(ValueCtx, open, st.current.obj);
      Dispatch(tg, st, xml, open) == Ok((st.(current := c, contexts := st.contexts + [c]), false))
  {
  }

  /**
   * The close tag of a value, with no listener for its name: the value
   * context is popped and stays current, and its field gets the text.
   */
  lemma CloseValue(tg: Target, st: State, xml: Bytes, close: Tag, content: Bytes)
    requires WellFormed(st) && st.found && st.ignoring == None && st.contexts != []
    requires close.kind == Close && close.name != tg.root && close.name !in st.listeners
    requires var ctx := st.contexts[|st.contexts| - 1]; ctx.kind == ValueCtx && Content(xml, ctx.tag, close) == Some(content)
    ensures var n := |st.contexts| - 1;
      var ctx := st.contexts[n];
      Dispatch(tg, st, xml, close) ==
        Ok((st.(heap := SetToObj(tg.schema, st.heap, ctx.obj, ctx.tag.name, Str(content)), current := ctx,
                contexts := st.contexts[..n]), false))
  {
  }

  /** The loop reading an open tag for a String field. */
  lemma ReadOpenValue(tg: Target, st: State, xml: Bytes, p: nat, o: Tag)
    requires WellFormed(st) && st.found && st.ignoring == None
    requires p < |xml| && NextTag(xml, p) == Found(o)
    requires o.kind == Open && o.name != tg.root
    requires TextField(FieldOf(tg.schema, st.heap, st.current.obj, o.name))
    ensures var c := Context(ValueCtx, o, st.current.obj);
      p < o.position && Run(tg, xml, p, st) == Run(tg, xml, o.position, st.(current := c, contexts := st.contexts + [c]))
  {
    var c := Context(ValueCtx, o, st.current.obj);
    OpenValue(tg, st, xml, o);
    RunContinues(tg, xml, p, st, o, st.(current := c, contexts := st.contexts + [c]));
  }

  /** The loop reading the close tag of a value, once the value context is on top. */
  lemma ReadCloseValue(tg: Target, st: State, xml: Bytes, p: nat, ctx: Context, c: Tag, content: Bytes)
    requires WellFormed(st) && st.found && st.ignoring == None && ctx.kind == ValueCtx && ctx.obj < |st.heap|
    requires p < |xml| && NextTag(xml, p) == Found(c)
    requires c.kind == Close && c.name != tg.root && c.name !in st.listeners
    requires Content(xml, ctx.tag, c) == Some(content)
    ensures var s := st.(current := ctx, contexts := st.contexts + [ctx]);
      var after := st.(heap := SetToObj(tg.schema, st.heap, ctx.obj, ctx.tag.name, Str(content)), current := ctx);
      Run(tg, xml, p, s) == Run(tg, xml, c.position, after)
  {
    var s := st.(current := ctx, contexts := st.contexts + [ctx]);
    var after := st.(heap := SetToObj(tg.schema, st.heap, ctx.obj, ctx.tag.name, Str(content)), current := ctx);
    assert s.contexts[..|s.contexts| - 1] == st.contexts;
    CloseValue(tg, s, xml, c, content);
    RunContinues(tg, xml, p, s, c, after);
  }

  /**
   * At `p` the scanner reads the open tag `o` of a value, then its close
   * tag `c` of the same name, and the text between them is `content`.
   */
  predicate ValueAt(xml: Bytes, p: nat, o: Tag, c: Tag, content: Bytes) {
    p < o.position < |xml| && NextTag(xml, p) == Found(o) && NextTag(xml, o.position) == Found(c) &&
    o.kind == Open && c.kind == Close && c.name == o.name && Content(xml, o, c) == Some(content)
  }

  /** `xml` is `pre`, the open tag, plain text, the close tag of the same name, and `rest`. */
  predicate ElementLayout(xml: Bytes, pre: Bytes, open: Tag, text: Bytes, close: Tag, rest: Bytes) {
    Writable(open) && open.kind == Open && Writable(close) && close.kind == Close && close.name == open.name &&
    LT !in text && xml == pre + Write(open) + text + Write(close) + rest
  }

  /** What the scanner reads in `<name>text</name>`: the open tag, then the close tag, and between them the text. */
  lemma ElementTags(xml: Bytes, pre: Bytes, open: Tag, text: Bytes, close: Tag, rest: Bytes)
    requires ElementLayout(xml, pre, open, text, close, rest)
    ensures var p1 := |pre| + |Write(open)|;
      ValueAt(xml, |pre|, open.(position := p1), close.(position := |xml| - |rest|), Trim(text))
  {
    var before := pre + Write(open);
    var o := open.(position := |before|);
    var c := close.(position := |xml| - |rest|);
    Regroup(pre, Write(open), text, Write(close), rest);
    FirstTag(xml, pre, open, text + Write(close) + rest);
    CloseAfterText(xml, before, text, close, rest, o);
    assert NextTag(xml, |pre|) == Found(o);
    assert NextTag(xml, |before|) == Found(c) && Content(xml, o, c) == Some(Trim(text));
  }

  /** The scanner reads a tag written right at the cursor. */
  lemma FirstTag(xml: Bytes, pre: Bytes, t: Tag, rest: Bytes)
    requires Writable(t) && t.kind != SelfClosed && xml == pre + Write(t) + rest
    ensures NextTag(xml, |pre|) == Found(t.(position := |pre| + |Write(t)|))
  {
    assert xml == pre + [] + Write(t) + rest;
    RoundTrip(pre, [], t, rest);
  }

  lemma Regroup(a: Bytes, b: Bytes, c: Bytes, d: Bytes, e: Bytes)
    ensures a + b + c + d + e == a + b + (c + d + e)
  {
  }

  /** After the text of a value: the close tag the scanner reads, and the text it delimits. */
  lemma CloseAfterText(xml: Bytes, pre: Bytes, text: Bytes, close: Tag, rest: Bytes, open: Tag)
    requires Writable(close) && close.kind == Close && LT !in text && open.position == |pre|
    requires xml == pre + text + Write(close) + rest
    ensures var c := close.(position := |xml| - |rest|);
      NextTag(xml, |pre|) == Found(c) && Content(xml, open, c) == Some(Trim(text))
  {
    RoundTrip(pre, text, close, rest);
    ValueContent(pre, text, close, rest, open);
  }

  /** The loop reading a value's open tag and then its close tag, which ends at `q`. */
  lemma ReadValue(tg: Target, st: State, xml: Bytes, p: nat, o: Tag, c: Tag, content: Bytes, name: Name, q: nat)
    requires WellFormed(st) && st.found && st.ignoring == None && ValueAt(xml, p, o, c, content)
    requires o.name == name && c.position == q
    requires name != tg.root && name !in st.listeners && TextField(FieldOf(tg.schema, st.heap, st.current.obj, name))
    ensures var after := st.(heap := SetToObj(tg.schema, st.heap, st.current.obj, name, Str(content)),
                             current := Context(ValueCtx, o, st.current.obj));
      Run(tg, xml, p, st) == Run(tg, xml, q, after)
  {
    ReadOpenValue(tg, st, xml, p, o);
    ReadCloseValue(tg, st, xml, o.position, Context(ValueCtx, o, st.current.obj), c, content);
  }

  /**
   * `<name>text</name>` for a String field `name` of the current object,
   * read from `|pre|`: the loop reads both tags and goes on after them with
   * the field holding the trimmed text and the stack as it was.
   */
  lemma ValueElement(tg: Target, st: State, xml: Bytes, pre: Bytes, open: Tag, text: Bytes, close: Tag, rest: Bytes)
    requires WellFormed(st) && st.found && st.ignoring == None && ElementLayout(xml, pre, open, text, close, rest)
    requires open.name != tg.root && open.name !in st.listeners
    requires TextField(FieldOf(tg.schema, st.heap, st.current.obj, open.name))
    ensures var o := open.(position := |pre| + |Write(open)|);
      var after := st.(heap := SetToObj(tg.schema, st.heap, st.current.obj, open.name, Str(Trim(text))),
                       current := Context(ValueCtx, o, st.current.obj));
      Run(tg, xml, |pre|, st) == Run(tg, xml, |xml| - |rest|, after) &&
      after.heap[st.current.obj].fields[open.name] == Str(Trim(text))
  {
    var o := open.(position := |pre| + |Write(open)|);
    ElementTags(xml, pre, open, text, close, rest);
    ReadValue(tg, st, xml, |pre|, o, close.(position := |xml| - |rest|), Trim(text), open.name, |xml| - |rest|);
    SetToObjStores(tg.schema, st.heap, st.current.obj, open.name, Str(Trim(text)));
  }

  /*
   * A self-closed element for an object field
   */

  /**
   * A self-closed tag `<name a="v"/>` for an object field `name` of the
   * object on top of the stack, with no listener for its name: the field
   * refers to a fresh object of the field's type, whose String field `a`
   * holds the last value given for it; the stack is unchanged and the loop
   * goes on.
   */
  lemma SelfClosedObject(tg: Target, st: State, xml: Bytes, tag: Tag, t: Name, k: nat)
    requires WellFormed(st) && st.found && st.ignoring == None && st.contexts != []
    requires tag.kind == SelfClosed && tag.name != tg.root && tag.name !in st.listeners
    requires var top := st.contexts[|st.contexts| - 1];
      st.heap[top.obj].Record? && FieldOf(tg.schema, st.heap, top.obj, tag.name) == Some(ObjectOf(t))
    requires k < |tag.attributes| && t in tg.schema && tag.attributes[k].name in tg.schema[t]
    requires TextField(Some(tg.schema[t][tag.attributes[k].name]))
    requires forall j | k < j < |tag.attributes| :: tag.attributes[j].name != tag.attributes[k].name
    ensures var r := Dispatch(tg, st, xml, tag);
      var top := st.contexts[|st.contexts| - 1];
      var a := |st.heap|;
      r.Ok? && !r.value.1 && r.value.0.contexts == st.contexts && a < |r.value.0.heap| &&
      var h := r.value.0.heap;
      h[top.obj].Record? && tag.name in h[top.obj].fields && h[top.obj].fields[tag.name] == Ref(a) &&
      h[a].Record? && h[a].typeName == t &&
      tag.attributes[k].name in h[a].fields && h[a].fields[tag.attributes[k].name] == Str(tag.attributes[k].value)
  {
    var top := st.contexts[|st.contexts| - 1];
    var a := |st.heap|;
    var h := st.heap + [Record(t, map[])];
    var h' := SetAttributes(tg.schema, h, a, tag.attributes);
    SetAttributesLastWins(tg.schema, h, a, tag.attributes, k);
    assert h'[top.obj] == st.heap[top.obj];
    assert Instance(tg.schema, st.heap, ObjectOf(t), tag.attributes) == Ok((h', Ref(a)));
    assert OnSelfClosed(tg.schema, st.heap, top, st.current, tag) ==
      Ok((SetToObj(tg.schema, h', top.obj, tag.name, Ref(a)), Some(Ref(a))));
  }

  /*
   * The root's tag, lists and objects
   */

  /**
   * The root's own open or self-closed tag, outside an ignored tag: the
   * root is found, its attributes are applied to the root object, and the
   * loop goes on. A self-closed root tag counts as opening here.
   */
  lemma RootTagOpens(tg: Target, st: State, xml: Bytes, tag: Tag)
    requires WellFormed(st) && st.ignoring == None
    requires tag.name == tg.root && tag.kind != Close
    ensures Dispatch(tg, st, xml, tag) ==
      Ok((st.(found := true, heap := SetAttributes(tg.schema, st.heap, ROOT, tag.attributes)), false))
  {
  }

  /**
   * An open tag for a List field: the field refers at once to a fresh
   * empty list, and a list context for the field's element type is pushed
   * and becomes current. No other object changes.
   */
  lemma OpenList(tg: Target, st: State, xml: Bytes, open: Tag, e: Name)
    requires WellFormed(st) && st.found && st.ignoring == None
    requires open.kind == Open && open.name != tg.root
    requires FieldOf(tg.schema, st.heap, st.current.obj, open.name) == Some(ListOf(e))
    ensures var r := Dispatch(tg, st, xml, open);
      var o := st.current.obj;
      var a := |st.heap|;
      var c := Context(ListCtx(e), open, a);
      r.Ok? && !r.value.1 && r.value.0.current == c && r.value.0.contexts == st.contexts + [c] &&
      var h := r.value.0.heap;
      |h| == a + 1 && h[a] == List([]) &&
      h[o] == st.heap[o].(fields := st.heap[o].fields[open.name := Ref(a)]) &&
      forall i | 0 <= i < a && i != o :: h[i] == st.heap[i]
  {
  }

  /**
   * An open tag for an object field: a fresh object of the field's type,
   * with the tag's attributes applied, is assigned to the field at once,
   * and its object context is pushed and becomes current. No other object
   * changes.
   */
  lemma OpenObject(tg: Target, st: State, xml: Bytes, open: Tag, t: Name)
    requires WellFormed(st) && st.found && st.ignoring == None
    requires open.kind == Open && open.name != tg.root
    requires FieldOf(tg.schema, st.heap, st.current.obj, open.name) == Some(ObjectOf(t))
    ensures var r := Dispatch(tg, st, xml, open);
      var o := st.current.obj;
      var a := |st.heap|;
      var c := Context(ObjectCtx, open, a);
      r.Ok? && !r.value.1 && r.value.0.current == c && r.value.0.contexts == st.contexts + [c] &&
      var h := r.value.0.heap;
      |h| == a + 1 && h[a] == SetAttributes(tg.schema, st.heap + [Record(t, map[])], a, open.attributes)[a] &&
      h[a].Record? && h[a].typeName == t &&
      h[o] == st.heap[o].(fields := st.heap[o].fields[open.name := Ref(a)]) &&
      forall i | 0 <= i < a && i != o :: h[i] == st.heap[i]
  {
    var o := st.current.obj;
    var a := |st.heap|;
    var h' := SetAttributes(tg.schema, st.heap + [Record(t, map[])], a, open.attributes);
    assert h'[o] == st.heap[o];
    assert FieldOf(tg.schema, h', o, open.name) == Some(ObjectOf(t));
  }

  /**
   * An open tag inside a list: a fresh object of the list's element type,
   * with the tag's attributes applied, gets an object context that is
   * pushed and becomes current. The list is unchanged until the element
   * closes.
   */
  lemma OpenElement(tg: Target, st: State, xml: Bytes, open: Tag, e: Name)
    requires WellFormed(st) && st.found && st.ignoring == None
    requires open.kind == Open && open.name != tg.root
    requires st.current.kind == ListCtx(e) && st.heap[st.current.obj].List?
    ensures var r := Dispatch(tg, st, xml, open);
      var a := |st.heap|;
      var c := Context(ObjectCtx, open, a);
      r.Ok? && !r.value.1 && r.value.0.current == c && r.value.0.contexts == st.contexts + [c] &&
      var h := r.value.0.heap;
      |h| == a + 1 && h[..a] == st.heap && h[a].Record? && h[a].typeName == e &&
      h[a] == SetAttributes(tg.schema, st.heap + [Record(e, map[])], a, open.attributes)[a]
  {
  }

  /**
   * The close tag of an object or list context with a context below it:
   * the object is assigned to the object below under its opening tag's
   * name, the context below becomes current, and the listener registered
   * for the close tag's name, if any, gets the object and decides whether
   * the loop stops.
   */
  lemma CloseObject(tg: Target, st: State, xml: Bytes, close: Tag)
    requires WellFormed(st) && st.found && st.ignoring == None && |st.contexts| >= 2
    requires close.kind == Close && close.name != tg.root
    requires st.contexts[|st.contexts| - 1].kind != ValueCtx
    ensures var n := |st.contexts| - 1;
      var ctx := st.contexts[n];
      var parent := st.contexts[n - 1];
      var s := st.(heap := SetToObj(tg.schema, st.heap, parent.obj, ctx.tag.name, Ref(ctx.obj)),
                   current := parent, contexts := st.contexts[..n]);
      Dispatch(tg, st, xml, close) == Ok(Notify(s, close.name, Ref(ctx.obj)))
  {
  }

  /**
   * The close tag of a list element: the element is appended to the list
   * below it, which becomes current; no other object changes, and the
   * loop stops only if the close tag's listener says so.
   */
  lemma CloseElement(tg: Target, st: State, xml: Bytes, close: Tag)
    requires WellFormed(st) && st.found && st.ignoring == None && |st.contexts| >= 2
    requires close.kind == Close && close.name != tg.root
    requires var n := |st.contexts| - 1;
      st.contexts[n].kind == ObjectCtx && st.contexts[n - 1].kind.ListCtx? && st.heap[st.contexts[n - 1].obj].List?
    ensures var n := |st.contexts| - 1;
      var l := st.contexts[n - 1].obj;
      var r := Dispatch(tg, st, xml, close);
      r.Ok? && r.value.0.current == st.contexts[n - 1] && r.value.0.contexts == st.contexts[..n] &&
      r.value.0.heap == st.heap[l := List(st.heap[l].elems + [Ref(st.contexts[n].obj)])] &&
      (r.value.1 <==> close.name in st.listeners && st.listeners[close.name])
  {
    CloseObject(tg, st, xml, close);
  }

  /**
   * A self-closed tag inside a list, with the list's context on top of the
   * stack: a fresh object of the element type is appended to the list at
   * once; the stack, the current context and every other object are
   * unchanged, and the loop stops only if the tag's listener says so.
   */
  lemma SelfClosedElement(tg: Target, st: State, xml: Bytes, tag: Tag, e: Name)
    requires WellFormed(st) && st.found && st.ignoring == None && st.contexts != []
    requires tag.kind == SelfClosed && tag.name != tg.root
    requires st.current.kind == ListCtx(e) && st.heap[st.contexts[|st.contexts| - 1].obj].List?
    ensures var l := st.contexts[|st.contexts| - 1].obj;
      var a := |st.heap|;
      var r := Dispatch(tg, st, xml, tag);
      r.Ok? && r.value.0 == st.(heap := r.value.0.heap, notices := r.value.0.notices) &&
      var h := r.value.0.heap;
      |h| == a + 1 && h[l] == List(st.heap[l].elems + [Ref(a)]) && h[a].Record? && h[a].typeName == e &&
      (forall i | 0 <= i < a && i != l :: h[i] == st.heap[i]) &&
      (r.value.1 <==> tag.name in st.listeners && st.listeners[tag.name])
  {
  }

  /**
   * A self-closed tag for a List field of the object on top of the stack:
   * the field refers to a fresh empty list; the stack, the current context
   * and every other object are unchanged.
   */
  lemma SelfClosedList(tg: Target, st: State, xml: Bytes, tag: Tag, e: Name)
    requires WellFormed(st) && st.found && st.ignoring == None && st.contexts != []
    requires tag.kind == SelfClosed && tag.name != tg.root
    requires FieldOf(tg.schema, st.heap, st.contexts[|st.contexts| - 1].obj, tag.name) == Some(ListOf(e))
    ensures var o := st.contexts[|st.contexts| - 1].obj;
      var a := |st.heap|;
      var r := Dispatch(tg, st, xml, tag);
      r.Ok? && r.value.0 == st.(heap := r.value.0.heap, notices := r.value.0.notices) &&
      var h := r.value.0.heap;
      |h| == a + 1 && h[a] == List([]) &&
      h[o] == st.heap[o].(fields := st.heap[o].fields[tag.name := Ref(a)]) &&
      (forall i | 0 <= i < a && i != o :: h[i] == st.heap[i]) &&
      (r.value.1 <==> tag.name in st.listeners && st.listeners[tag.name])
  {
  }

  /**
   * Two self-closed elements in a row inside a list, with no listener
   * stopping the loop, are appended in the order of the document.
   */
  lemma ElementsInOrder(tg: Target, st: State, xml: Bytes, t1: Tag, t2: Tag, e: Name)
    requires WellFormed(st) && st.found && st.ignoring == None && st.contexts != []
    requires t1.kind == SelfClosed && t1.name != tg.root && t1.name !in st.listeners
    requires t2.kind == SelfClosed && t2.name != tg.root
    requires st.current.kind == ListCtx(e) && st.heap[st.contexts[|st.contexts| - 1].obj].List?
    ensures var l := st.contexts[|st.contexts| - 1].obj;
      var a := |st.heap|;
      var r1 := Dispatch(tg, st, xml, t1);
      r1.Ok? && !r1.value.1 &&
      var r2 := Dispatch(tg, r1.value.0, xml, t2);
      r2.Ok? && l < |r2.value.0.heap| && r2.value.0.heap[l] == List(st.heap[l].elems + [Ref(a), Ref(a + 1)])
  {
    var l := st.contexts[|st.contexts| - 1].obj;
    var a := |st.heap|;
    ElementAppended(tg, st, xml, t1, e);
    var s1 := Dispatch(tg, st, xml, t1).value.0;
    ElementAppended(tg, s1, xml, t2, e);
    assert st.heap[l].elems + [Ref(a)] + [Ref(a + 1)] == st.heap[l].elems + [Ref(a), Ref(a + 1)];
  }

  /** The part of `SelfClosedElement` that a second element relies on: the state it leaves is as valid as before. */
  lemma ElementAppended(tg: Target, st: State, xml: Bytes, tag: Tag, e: Name)
    requires WellFormed(st) && st.found && st.ignoring == None && st.contexts != []
    requires tag.kind == SelfClosed && tag.name != tg.root
    requires st.current.kind == ListCtx(e) && st.heap[st.contexts[|st.contexts| - 1].obj].List?
    ensures var l := st.contexts[|st.contexts| - 1].obj;
      var r := Dispatch(tg, st, xml, tag);
      r.Ok? && (r.value.1 <==> tag.name in st.listeners && st.listeners[tag.name]) &&
      var s := r.value.0;
      s.contexts == st.contexts && s.current == st.current && s.found && s.ignoring == None &&
      s.listeners == st.listeners && WellFormed(s) && |s.heap| == |st.heap| + 1 &&
      s.heap[l] == List(st.heap[l].elems + [Ref(|st.heap|)])
  {
    SelfClosedElement(tg, st, xml, tag, e);
  }

  /**
   * `flushIncomplete` on a stack of three contexts: the root's, a list's,
   * and an element left open in the list. The element is appended to the
   * list; the list is then offered to the object below under that lower
   * context's own tag name, not the list's, so a root object whose type has
   * no field of that name is left as it was.
   */
  lemma FlushOpenElement(tg: Target, st: State)
    requires WellFormed(st) && |st.contexts| == 3
    requires var c := st.contexts; c[1].obj != c[0].obj && st.heap[c[1].obj].List? && st.heap[c[0].obj].Record?
    requires FieldOf(tg.schema, st.heap, st.contexts[0].obj, st.contexts[0].tag.name).None?
    ensures var c := st.contexts;
      var l := c[1].obj;
      Flush(tg.schema, st).heap == st.heap[l := List(st.heap[l].elems + [Ref(c[2].obj)])]
  {
    var c := st.contexts;
    var l := c[1].obj;
    var h1 := SetToObj(tg.schema, st.heap, l, c[1].tag.name, Ref(c[2].obj));
    assert c[..2] == [c[0], c[1]] && [c[0], c[1]][..1] == [c[0]] && [c[0]][..0] == [];
    assert FlushInto(tg.schema, st.heap, c[..2], c[2]) == FlushInto(tg.schema, h1, [c[0]], c[1]);
    assert FieldOf(tg.schema, h1, c[0].obj, c[0].tag.name).None?;
  }
}
