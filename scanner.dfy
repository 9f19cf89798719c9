/**
 * The tag scanner of XMLParserImpl: `getTag` finds the next tag declaration
 * from a cursor in the byte buffer, `getTagWithAttributes` lexes the
 * declaration of a tag that holds attributes, and the `Tag` constructor
 * splits a name from its namespace.
 *
 * `Scan` and `LexFrom` are the two loops written as state machines over one
 * byte at a time; `GetTag` and `GetTagWithAttributes` are the loops
 * themselves, with the source's cursor and flags, proved to compute them.
 * What the scanner promises about the tags it returns is proved about the
 * state machines in module ScannerProofs.
 */
module Scanner {
  import opened Bytes

  datatype Kind = Open | Close | SelfClosed

  datatype Attribute = Attribute(name: Bytes, value: Bytes)

  /**
   * A tag token. `position` is the offset where scanning resumes: just past
   * the '>' of a declaration ended by '>', and the '>' itself for one ended
   * by "/>". A tag built by the `Tag` constructor has no attributes (Java
   * leaves the list null, which `setAttributes` treats as empty).
   */
  datatype Tag = Tag(name: Bytes, namespace: Option<Bytes>, position: int, kind: Kind,
                     attributes: seq<Attribute>, cdata: bool)

  /** `Tag.isOpening`: an open or self-closed tag. */
  predicate IsOpening(t: Tag)
    ensures IsOpening(t) <==> t.kind != Close
  {
    t.kind == Open || t.kind == SelfClosed
  }

  /** `Tag.isClosing`: a close or self-closed tag. */
  predicate IsClosing(t: Tag)
    ensures IsClosing(t) <==> t.kind != Open
  {
    t.kind == Close || t.kind == SelfClosed
  }

  /** The name as written in the declaration: "ns:name", or just "name". */
  function QualifiedName(t: Tag): Bytes {
    match t.namespace
    case None => t.name
    case Some(ns) => ns + [COLON] + t.name
  }

  /**
   * `Tag.getStartPosition`: where the declaration "</ns:name>" that ends at
   * `position` starts. The span from the result to `position` is exactly as
   * long as that declaration: "</", the qualified name and ">".
   */
  function StartPosition(t: Tag): (r: int)
    ensures r + 2 + |QualifiedName(t)| + 1 == t.position
  {
    match t.namespace
    case None => t.position - |t.name| - 3
    case Some(ns) => t.position - |t.name| - 3 - |ns| - 1
  }

  /** The outcome of looking for the next tag; `NoTag` is Java's null. */
  datatype Scanned = Found(tag: Tag) | NoTag | Failed(fault: Fault)

  /**
   * The `Tag(byte[] xml, int startPos, int endPos, int namespacePos, ...)`
   * constructor: `count` bytes from `startPos` hold the declaration. With
   * no namespace colon recorded (`nsPos` == 0) the name is the trimmed
   * declaration; otherwise the declaration is cut at the colon into the
   * namespace and the name, neither trimmed. It fails exactly when Java's
   * `new String` would throw.
   */
  function MakeTag(xml: Bytes, startPos: int, count: int, nsPos: int, position: int, kind: Kind, cdata: bool): (r: Scanned)
    ensures r.Found? || r == Failed(SliceOutOfRange)
    ensures r.Found? ==> r.tag.position == position && r.tag.kind == kind && r.tag.cdata == cdata && r.tag.attributes == []
  {
    if nsPos == 0 then
      match Slice(xml, startPos, count)
      case None => Failed(SliceOutOfRange)
      case Some(decl) => Found(Tag(Trim(decl), None, position, kind, [], cdata))
    else
      var namespaceLength := nsPos - startPos + 1;
      match (Slice(xml, startPos + namespaceLength, count - namespaceLength), Slice(xml, startPos, nsPos - startPos))
      case (Some(name), Some(ns)) => Found(Tag(name, Some(ns), position, kind, [], cdata))
      case _ => Failed(SliceOutOfRange)
  }

  /**
   * When `MakeTag` succeeds and how it splits the declaration: without a
   * namespace colon the name is the trimmed declaration; with one, the
   * namespace, the colon and the name are the declaration in order.
   */
  lemma MakeTagSplits(xml: Bytes, startPos: int, count: int, nsPos: int, position: int, kind: Kind, cdata: bool)
    ensures var r := MakeTag(xml, startPos, count, nsPos, position, kind, cdata);
      nsPos == 0 ==>
        (r.Found? <==> 0 <= startPos && 0 <= count && startPos + count <= |xml|) &&
        (r.Found? ==> r.tag.namespace == None && r.tag.name == Trim(xml[startPos..startPos + count]))
    ensures var r := MakeTag(xml, startPos, count, nsPos, position, kind, cdata);
      nsPos != 0 ==>
        (r.Found? <==> 0 <= startPos <= nsPos < startPos + count <= |xml|) &&
        (r.Found? ==> r.tag.namespace.Some? &&
                      r.tag.namespace.value + [xml[nsPos]] + r.tag.name == xml[startPos..startPos + count] &&
                      |r.tag.namespace.value| == nsPos - startPos)
  {
    if nsPos != 0 && 0 <= startPos <= nsPos < startPos + count <= |xml| {
      assert xml[startPos..nsPos] + [xml[nsPos]] + xml[nsPos + 1..startPos + count] == xml[startPos..startPos + count];
    }
  }

  /*
   * getTag
   */

  /**
   * The local variables of `getTag`'s loop. `kind` is `tagType`, which
   * Java leaves null until the first '<'; it is only read inside a tag.
   */
  datatype ScanState = ScanState(cursor: nat, startTag: nat, nsPos: nat, inTag: bool, inAtt: bool,
                                 space: bool, inCdata: bool, cdata: bool, kind: Kind)

  function ScanStart(cursor: nat): ScanState {
    ScanState(cursor, cursor, 0, false, false, false, false, false, Open)
  }

  /**
   * The bytes after a '<' at `c` complete "<![CDATA[": the source compares
   * them one at a time.
   */
  predicate CdataOpenAt(xml: Bytes, c: nat) {
    c + 9 <= |xml| && xml[c + 1] == BANG && xml[c + 2] == LBRACKET &&
    xml[c + 3] == 0x43 && xml[c + 4] == 0x44 && xml[c + 5] == 0x41 &&
    xml[c + 6] == 0x54 && xml[c + 7] == 0x41 && xml[c + 8] == LBRACKET
  }

  /** The bytes after a ']' at `c` complete "]]>". */
  predicate CdataCloseAt(xml: Bytes, c: nat) {
    c + 3 <= |xml| && xml[c + 1] == RBRACKET && xml[c + 2] == GT
  }

  /** Together with the byte at `c`, the byte-wise tests recognise exactly the CDATA delimiters. */
  lemma CdataDelimiters(xml: Bytes, c: nat)
    requires c < |xml|
    ensures xml[c] == LT && CdataOpenAt(xml, c) <==> c + 9 <= |xml| && xml[c..c + 9] == CDATA_OPEN
    ensures xml[c] == RBRACKET && CdataCloseAt(xml, c) <==> c + 3 <= |xml| && xml[c..c + 3] == CDATA_CLOSE
  {
    if c + 9 <= |xml| {
      assert xml[c..c + 9] == [xml[c], xml[c + 1], xml[c + 2], xml[c + 3], xml[c + 4],
                               xml[c + 5], xml[c + 6], xml[c + 7], xml[c + 8]];
    }
    if c + 3 <= |xml| {
      assert xml[c..c + 3] == [xml[c], xml[c + 1], xml[c + 2]];
    }
  }

  /** A declaration with attributes goes to the attribute lexer: `Arrays.copyOfRange(xml, startTag + 1, c)`. */
  function LexAt(xml: Bytes, startTag: nat, c: nat, kind: Kind, nsPos: int, cdata: bool): Scanned
    requires c < |xml|
  {
    if startTag + 1 <= c then Lex(xml[startTag + 1..c], c + 1, nsPos - startTag, kind, cdata)
    else Failed(SliceOutOfRange)
  }

  /**
   * What one pass of `getTag`'s loop does: go on from a new state, or stop
   * at the byte that ends the declaration, where the loop returns
   * `TagEnd` of its locals.
   */
  datatype ScanStep = Next(st: ScanState) | Stop(st: ScanState)

  /**
   * One pass of `getTag`'s loop over the byte at `st.cursor`: outside a
   * CDATA section, spaces before a tag and newlines are skipped, "</" starts
   * a close tag and '<' an open tag; inside a tag, `TagStep` takes over.
   */
  function Step(xml: Bytes, st: ScanState): (r: ScanStep)
    requires st.cursor < |xml|
    ensures r.Next? ==> st.cursor < r.st.cursor <= |xml|
    ensures r.Stop? ==> r.st.cursor == st.cursor && r.st.inTag && EndsTag(xml, st.cursor)
  {
    var c := st.cursor;
    if !st.inCdata && !st.inTag && xml[c] == SPACE then Next(st.(cursor := c + 1))
    else if !st.inCdata && xml[c] == NEWLINE then Next(st.(cursor := c + 1))
    else if !st.inCdata && xml[c] == LT && c + 1 < |xml| && xml[c + 1] == SLASH then
      Next(st.(cursor := c + 1, startTag := c + 1, inTag := true, kind := Close))
    else
      var st := if !st.inCdata && xml[c] == LT then st.(startTag := c, inTag := true, kind := Open) else st;
      if st.inTag then TagStep(xml, st) else Next(st.(cursor := c + 1))
  }

  /** The byte at `c` ends a declaration: '>' or the '/' of "/>". */
  predicate EndsTag(xml: Bytes, c: nat)
    requires c < |xml|
  {
    xml[c] == GT || (xml[c] == SLASH && c + 1 < |xml| && xml[c + 1] == GT)
  }

  /**
   * The tag `getTag` returns at the end of a declaration. One that held an
   * '=' goes to the attribute lexer, any other to the `Tag` constructor; a
   * "/>" after an open tag makes it self-closed, with the CDATA flag
   * cleared.
   */
  function TagEnd(xml: Bytes, st: ScanState): Scanned
    requires st.cursor < |xml| && EndsTag(xml, st.cursor)
  {
    var c := st.cursor;
    var gt := xml[c] == GT;
    var selfClosing := !gt && st.kind == Open;
    if st.inAtt && (gt || selfClosing) then
      LexAt(xml, st.startTag, c, if gt then Open else SelfClosed, st.nsPos, gt && st.cdata)
    else
      MakeTag(xml, st.startTag + 1, c - st.startTag - 1, st.nsPos, c + 1,
              if selfClosing then SelfClosed else st.kind, !selfClosing && st.cdata)
  }

  /**
   * The rest of one pass of `getTag`'s loop, inside a tag: '>' or "/>" end
   * it, '=' announces attributes, a ':' before any space marks the
   * namespace, "<![CDATA[" (nine bytes) enters a CDATA section, and inside
   * one only "]]>" (three bytes) means anything.
   */
  function TagStep(xml: Bytes, st: ScanState): (r: ScanStep)
    requires st.cursor < |xml| && st.inTag
    ensures r.Next? ==> st.cursor < r.st.cursor <= |xml|
    ensures r.Stop? ==> r.st == st && EndsTag(xml, st.cursor)
  {
    var c := st.cursor;
    if st.inCdata then
      if xml[c] == RBRACKET && CdataCloseAt(xml, c) then Next(st.(cursor := c + 3, inCdata := false))
      else Next(st.(cursor := c + 1))
    else if EndsTag(xml, c) then Stop(st)
    else if xml[c] == EQ then Next(st.(cursor := c + 1, inAtt := true))
    else if !st.space && xml[c] == COLON then Next(st.(cursor := c + 1, nsPos := c))
    else if xml[c] == SPACE then Next(st.(cursor := c + 1, space := true))
    else if xml[c] == LT && CdataOpenAt(xml, c) then Next(st.(cursor := c + 9, inCdata := true, cdata := true))
    else Next(st.(cursor := c + 1))
  }

  /**
   * `getTag`'s loop from state `st`: its locals when it meets the end of a
   * declaration, or nothing when it runs out of input first.
   */
  function EndOf(xml: Bytes, st: ScanState): (r: Option<ScanState>)
    ensures r.Some? ==> st.cursor <= r.value.cursor < |xml| && r.value.inTag && EndsTag(xml, r.value.cursor)
    decreases |xml| - st.cursor
  {
    if st.cursor >= |xml| then None
    else
      match Step(xml, st)
      case Stop(s) => Some(s)
      case Next(st') => EndOf(xml, st')
  }

  /** What `getTag`'s loop returns from state `st`. */
  function Scan(xml: Bytes, st: ScanState): Scanned {
    match EndOf(xml, st)
    case None => NoTag
    case Some(s) => TagEnd(xml, s)
  }

  /** What `getTag(xml, cursor)` returns. */
  function NextTag(xml: Bytes, cursor: nat): Scanned {
    Scan(xml, ScanStart(cursor))
  }

  /**
   * `getTag`: the source's loop over the buffer, one pass of its body per
   * byte (or per CDATA delimiter), from `cursor` until a tag declaration
   * ends or the input does.
   */
  method GetTag(xml: Bytes, cursor: nat) returns (r: Scanned)
    ensures r == NextTag(xml, cursor)
  {
    var st := ScanStart(cursor);
    while st.cursor < |xml|
      invariant EndOf(xml, st) == EndOf(xml, ScanStart(cursor))
      decreases |xml| - st.cursor
    {
      var step := ScanByte(xml, st);
      match step
      case Stop(locals) =>
        r := FinishTag(xml, locals);
        return;
      case Next(next) =>
        st := next;
    }
    return NoTag;
  }

  /** The body of `getTag`'s loop on its locals `st`; `Next` is a `continue`, and `Stop` leads to a `return`. */
  method ScanByte(xml: Bytes, st: ScanState) returns (r: ScanStep)
    requires st.cursor < |xml|
    ensures r == Step(xml, st)
  {
    var c := st.cursor;
    if !st.inCdata {
      if !st.inTag && xml[c] == SPACE {
        return Next(st.(cursor := c + 1));
      } else if xml[c] == NEWLINE {
        return Next(st.(cursor := c + 1));
      } else if xml[c] == LT && c + 1 < |xml| && xml[c + 1] == SLASH {
        return Next(st.(cursor := c + 1, startTag := c + 1, inTag := true, kind := Close));
      }
    }
    var locals := st;
    if !st.inCdata && xml[c] == LT {
      locals := st.(startTag := c, inTag := true, kind := Open);
    }
    if locals.inTag {
      r := InTagByte(xml, locals);
    } else {
      r := Next(locals.(cursor := c + 1));
    }
  }

  /** The part of `getTag`'s loop body that runs while inside a tag (`if (in) { ... }`), on the loop's locals. */
  method InTagByte(xml: Bytes, st: ScanState) returns (r: ScanStep)
    requires st.inTag && st.cursor < |xml|
    ensures r == TagStep(xml, st)
  {
    var c := st.cursor;
    if !st.inCdata {
      if EndsTag(xml, c) {
        return Stop(st);
      } else if xml[c] == EQ {
        return Next(st.(cursor := c + 1, inAtt := true));
      } else if !st.space && xml[c] == COLON {
        return Next(st.(cursor := c + 1, nsPos := c));
      } else if xml[c] == SPACE {
        return Next(st.(cursor := c + 1, space := true));
      } else if xml[c] == LT && CdataOpenAt(xml, c) {
        return Next(st.(cursor := c + 9, inCdata := true, cdata := true));
      }
    } else if xml[c] == RBRACKET && CdataCloseAt(xml, c) {
      return Next(st.(cursor := c + 3, inCdata := false));
    }
    return Next(st.(cursor := c + 1));
  }

  /** The end of a declaration in `getTag`: the `return` statements for '>' and "/>". */
  method FinishTag(xml: Bytes, st: ScanState) returns (r: Scanned)
    requires st.cursor < |xml| && EndsTag(xml, st.cursor)
    ensures r == TagEnd(xml, st)
  {
    var c := st.cursor;
    if xml[c] == GT {
      if st.inAtt {
        r := GetTagWithAttributesAt(xml, st.startTag, c, Open, st.nsPos, st.cdata);
      } else {
        r := MakeTag(xml, st.startTag + 1, c - st.startTag - 1, st.nsPos, c + 1, st.kind, st.cdata);
      }
    } else if st.kind == Open {
      if st.inAtt {
        r := GetTagWithAttributesAt(xml, st.startTag, c, SelfClosed, st.nsPos, false);
      } else {
        r := MakeTag(xml, st.startTag + 1, c - st.startTag - 1, st.nsPos, c + 1, SelfClosed, false);
      }
    } else {
      r := MakeTag(xml, st.startTag + 1, c - st.startTag - 1, st.nsPos, c + 1, st.kind, st.cdata);
    }
  }

  /** The call `getTagWithAttributes(Arrays.copyOfRange(xml, startTag + 1, c), c + 1, nsPos - startTag, ...)`. */
  method GetTagWithAttributesAt(xml: Bytes, startTag: nat, c: nat, kind: Kind, nsPos: int, cdata: bool) returns (r: Scanned)
    requires c < |xml|
    ensures r == LexAt(xml, startTag, c, kind, nsPos, cdata)
  {
    if startTag + 1 <= c {
      r := GetTagWithAttributes(xml[startTag + 1..c], c + 1, nsPos - startTag, kind, cdata);
    } else {
      r := Failed(SliceOutOfRange);
    }
  }

  /*
   * getTagWithAttributes
   */

  /** The local variables of `getTagWithAttributes`'s loop and the fields of the tag it fills in. */
  datatype LexState = LexState(cursor: nat, startAttName: int, startAttValue: int, quotes: nat, endName: bool,
                               name: Option<Bytes>, namespace: Option<Bytes>, att: Option<Bytes>,
                               attributes: seq<Attribute>)

  const LexStart := LexState(0, 0, 0, 0, false, None, None, None, [])

  /** One pass of `getTagWithAttributes`'s loop: what it does with the byte at `st.cursor`. */
  function LexStep(decl: Bytes, nsPos: int, st: LexState): (r: Result<LexState>)
    requires st.cursor < |decl|
    ensures r.Ok? ==> r.value.cursor == st.cursor + 1
  {
    var c := st.cursor;
    if !st.endName && decl[c] == SPACE then
      if nsPos <= 0 then
        Ok(st.(cursor := c + 1, name := Some(decl[..c]), endName := true, startAttName := c))
      else
        match (Slice(decl, nsPos, c - nsPos), Slice(decl, 0, nsPos - 1))
        case (Some(name), Some(ns)) =>
          Ok(st.(cursor := c + 1, name := Some(name), namespace := Some(ns), endName := true, startAttName := c))
        case _ => Err(SliceOutOfRange)
    else if decl[c] == EQ && st.quotes == 0 then
      match Slice(decl, st.startAttName, c - st.startAttName)
      case Some(name) => Ok(st.(cursor := c + 1, att := Some(Trim(name)), startAttValue := c))
      case None => Err(SliceOutOfRange)
    else if st.att.Some? && decl[c] == QUOTE && st.quotes == 1 then
      match Slice(decl, st.startAttValue + 2, c - st.startAttValue - 2)
      case Some(value) =>
        Ok(st.(cursor := c + 1, attributes := st.attributes + [Attribute(st.att.value, value)],
               att := None, quotes := 0, startAttName := c + 1))
      case None => Err(SliceOutOfRange)
    else if decl[c] == QUOTE then Ok(st.(cursor := c + 1, quotes := st.quotes + 1))
    else Ok(st.(cursor := c + 1))
  }

  /** `getTagWithAttributes`'s loop from state `st` to the end of the declaration. */
  function LexFrom(decl: Bytes, nsPos: int, st: LexState): Result<LexState>
    decreases |decl| - st.cursor
  {
    if st.cursor >= |decl| then Ok(st)
    else
      match LexStep(decl, nsPos, st)
      case Err(f) => Err(f)
      case Ok(next) => LexFrom(decl, nsPos, next)
  }

  /**
   * What `getTagWithAttributes(decl, position, nsPos, kind, cdata)` gives
   * the parser. A declaration without a space leaves the name null, and the
   * first thing `parse` does with the tag (`tag.name.hashCode()`) throws.
   */
  function Lex(decl: Bytes, position: int, nsPos: int, kind: Kind, cdata: bool): (r: Scanned)
    ensures r.Found? || r.Failed?
    ensures r.Found? ==> r.tag.position == position && r.tag.kind == kind && r.tag.cdata == cdata
  {
    match LexFrom(decl, nsPos, LexStart)
    case Err(f) => Failed(f)
    case Ok(st) =>
      if st.name.None? then Failed(MissingName)
      else Found(Tag(st.name.value, st.namespace, position, kind, st.attributes, cdata))
  }

  /**
   * `getTagWithAttributes`: the source's attribute loop over the
   * declaration, one pass of its body per byte; an exception thrown by a
   * `new String` in the body ends it with the fault.
   */
  method GetTagWithAttributes(decl: Bytes, position: int, nsPos: int, kind: Kind, cdata: bool) returns (r: Scanned)
    ensures r == Lex(decl, position, nsPos, kind, cdata)
  {
    var st := LexStart;
    while st.cursor < |decl|
      invariant LexFrom(decl, nsPos, st) == LexFrom(decl, nsPos, LexStart)
      decreases |decl| - st.cursor
    {
      var step := LexByte(decl, nsPos, st);
      match step
      case Err(f) =>
        return Failed(f);
      case Ok(next) =>
        st := next;
    }
    if st.name.None? {
      r := Failed(MissingName);
    } else {
      r := Found(Tag(st.name.value, st.namespace, position, kind, st.attributes, cdata));
    }
  }

  /** The body of `getTagWithAttributes`'s loop on its locals `st`. */
  method LexByte(decl: Bytes, nsPos: int, st: LexState) returns (r: Result<LexState>)
    requires st.cursor < |decl|
    ensures r == LexStep(decl, nsPos, st)
  {
    var c := st.cursor;
    var next := st.(cursor := c + 1);
    if !st.endName && decl[c] == SPACE {
      if nsPos <= 0 {
        next := next.(name := Some(decl[..c]));
      } else {
        var name := Slice(decl, nsPos, c - nsPos);
        var ns := Slice(decl, 0, nsPos - 1);
        if name.None? || ns.None? {
          return Err(SliceOutOfRange);
        }
        next := next.(name := name, namespace := ns);
      }
      next := next.(endName := true, startAttName := c);
    } else if decl[c] == EQ && st.quotes == 0 {
      var name := Slice(decl, st.startAttName, c - st.startAttName);
      if name.None? {
        return Err(SliceOutOfRange);
      }
      next := next.(att := Some(Trim(name.value)), startAttValue := c);
    } else if st.att.Some? && decl[c] == QUOTE && st.quotes == 1 {
      var value := Slice(decl, st.startAttValue + 2, c - st.startAttValue - 2);
      if value.None? {
        return Err(SliceOutOfRange);
      }
      next := next.(attributes := st.attributes + [Attribute(st.att.value, value.value)],
                    att := None, quotes := 0, startAttName := c + 1);
    } else if decl[c] == QUOTE {
      next := next.(quotes := st.quotes + 1);
    }
    return Ok(next);
  }
}
