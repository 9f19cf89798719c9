/**
 * What the tag scanner promises, proved about the state machines of module
 * Scanner (and so, through their postconditions, about `GetTag` and
 * `GetTagWithAttributes`): every tag found lies past the cursor and ends at
 * a terminator that matches its kind; a buffer without '<' holds no tag;
 * and a tag written out as a declaration is read back as itself, with its
 * name, namespace and attributes in order.
 */
module ScannerProofs {
  import opened Bytes
  import opened Scanner

  /*
   * Progress and classification, for every input
   */

  /**
   * What holds of `getTag`'s locals on every pass after starting from
   * `c0`: the tag being read is open or close (self-closed is
   * only decided at its end), inside a close tag `startTag` is the '/' of
   * a "</", and inside any other tag it is the '<'.
   */
  predicate ScanInv(xml: Bytes, c0: nat, st: ScanState) {
    c0 <= st.cursor && st.kind != SelfClosed &&
    (st.inTag && st.kind == Close ==>
       c0 < st.startTag <= st.cursor && st.startTag < |xml| && xml[st.startTag - 1] == LT && xml[st.startTag] == SLASH) &&
    (st.inTag && st.kind != Close ==>
       c0 <= st.startTag <= st.cursor && st.startTag < |xml| && xml[st.startTag] == LT)
  }

  /** The tag at the end of a declaration lies just past its terminator, and its kind matches it. */
  lemma TagEndFacts(xml: Bytes, st: ScanState)
    requires st.cursor < |xml| && EndsTag(xml, st.cursor) && st.kind != SelfClosed
    ensures var r := TagEnd(xml, st);
      r.Found? ==>
        r.tag.position == st.cursor + 1 &&
        (r.tag.kind == Open ==> xml[st.cursor] == GT) &&
        (r.tag.kind == SelfClosed ==> xml[st.cursor] == SLASH) &&
        (r.tag.kind == Close ==> st.kind == Close)
  {
  }

  /** Inside a tag, a pass of the loop moves only the cursor forward and the flags. */
  lemma TagStepKeepsInv(xml: Bytes, c0: nat, st: ScanState)
    requires st.cursor < |xml| && st.inTag && ScanInv(xml, c0, st)
    ensures ScanInv(xml, c0, TagStep(xml, st).st)
  {
  }

  /** One pass of `getTag`'s loop keeps `ScanInv`, also in the locals it stops with. */
  lemma StepKeepsInv(xml: Bytes, c0: nat, st: ScanState)
    requires st.cursor < |xml| && ScanInv(xml, c0, st)
    ensures ScanInv(xml, c0, Step(xml, st).st)
  {
    var c := st.cursor;
    if !st.inCdata && !st.inTag && xml[c] == SPACE {
      assert Step(xml, st) == Next(st.(cursor := c + 1));
    } else if !st.inCdata && xml[c] == NEWLINE {
      assert Step(xml, st) == Next(st.(cursor := c + 1));
    } else if !st.inCdata && xml[c] == LT && c + 1 < |xml| && xml[c + 1] == SLASH {
      assert Step(xml, st) == Next(st.(cursor := c + 1, startTag := c + 1, inTag := true, kind := Close));
    } else {
      var inner := if !st.inCdata && xml[c] == LT then st.(startTag := c, inTag := true, kind := Open) else st;
      if inner.inTag {
        assert Step(xml, st) == TagStep(xml, inner);
        TagStepKeepsInv(xml, c0, inner);
      } else {
        assert Step(xml, st) == Next(st.(cursor := c + 1));
      }
    }
  }

  /** `getTag`'s loop stops, if at all, with locals that keep `ScanInv`. */
  lemma {:induction false} EndOfKeepsInv(xml: Bytes, c0: nat, st: ScanState)
    requires ScanInv(xml, c0, st)
    ensures EndOf(xml, st).Some? ==> ScanInv(xml, c0, EndOf(xml, st).value)
    decreases |xml| - st.cursor
  {
    if st.cursor < |xml| {
      StepKeepsInv(xml, c0, st);
      if Step(xml, st).Next? {
        EndOfKeepsInv(xml, c0, Step(xml, st).st);
      }
    }
  }

  /**
   * Scanner progress and classification: a tag found from `c0` ends past
   * the cursor, within the buffer, just after a '>' or at the '>' of a
   * "/>"; an open tag ends with '>', a self-closed one with "/>"; a close
   * tag began with "</" at or after `c0`, and any other with a '<'.
   */
  lemma ScanFound(xml: Bytes, c0: nat, st: ScanState)
    requires ScanInv(xml, c0, st)
    ensures var r := Scan(xml, st);
      r.Found? ==>
        var p := r.tag.position;
        st.cursor < p <= |xml| && EndsTag(xml, p - 1) &&
        (r.tag.kind == Open ==> xml[p - 1] == GT) &&
        (r.tag.kind == SelfClosed ==> xml[p - 1] == SLASH) &&
        (r.tag.kind == Close ==> exists s :: c0 <= s && s + 1 < p && xml[s] == LT && xml[s + 1] == SLASH) &&
        (r.tag.kind != Close ==> exists s :: c0 <= s < p - 1 && xml[s] == LT)
  {
    EndOfKeepsInv(xml, c0, st);
    match EndOf(xml, st)
    case None =>
    case Some(e) =>
      TagEndFacts(xml, e);
      var r := TagEnd(xml, e);
      if r.Found? && r.tag.kind == Close {
        assert xml[e.startTag - 1] == LT;
      }
  }

  /** `getTag` from `cursor`: whatever tag it finds lies after the cursor and within the buffer. */
  lemma NextTagProgress(xml: Bytes, cursor: nat)
    ensures var r := NextTag(xml, cursor);
      r.Found? ==> cursor < r.tag.position <= |xml| && EndsTag(xml, r.tag.position - 1)
  {
    ScanFound(xml, cursor, ScanStart(cursor));
  }


  /*
   * Bytes written at a position
   */

  /** `s` is written in `xml` from `p` on. */
  predicate Occurs(xml: Bytes, p: nat, s: Bytes)
    decreases |s|
  {
    p + |s| <= |xml| && (s == [] || (xml[p] == s[0] && Occurs(xml, p + 1, s[1..])))
  }

  lemma {:induction false} OccursSplit(xml: Bytes, p: nat, a: Bytes, b: Bytes)
    requires Occurs(xml, p, a + b)
    ensures Occurs(xml, p, a) && Occurs(xml, p + |a|, b)
    decreases |a|
  {
    if a == [] {
      assert a + b == b;
    } else {
      assert (a + b)[1..] == a[1..] + b;
      OccursSplit(xml, p + 1, a[1..], b);
    }
  }

  lemma {:induction false} OccursIn(pre: Bytes, s: Bytes, post: Bytes)
    ensures Occurs(pre + s + post, |pre|, s)
    decreases |s|
  {
    if s != [] {
      assert pre + s + post == (pre + [s[0]]) + s[1..] + post;
      OccursIn(pre + [s[0]], s[1..], post);
    }
  }

  lemma {:induction false} OccursJoin(xml: Bytes, p: nat, a: Bytes, b: Bytes)
    requires Occurs(xml, p, a) && Occurs(xml, p + |a|, b)
    ensures Occurs(xml, p, a + b)
    decreases |a|
  {
    if a == [] {
      assert a + b == b;
    } else {
      assert (a + b)[0] == a[0] && (a + b)[1..] == a[1..] + b;
      OccursJoin(xml, p + 1, a[1..], b);
    }
  }

  lemma {:induction false} OccursSlice(xml: Bytes, p: nat, s: Bytes)
    requires Occurs(xml, p, s)
    ensures xml[p..p + |s|] == s
    decreases |s|
  {
    if s != [] {
      OccursSlice(xml, p + 1, s[1..]);
      assert xml[p..p + |s|] == [xml[p]] + xml[p + 1..p + |s|];
    }
  }

  /** The byte written at offset `i` of `s`. */
  lemma {:induction false} OccursAt(xml: Bytes, p: nat, s: Bytes, i: nat)
    requires Occurs(xml, p, s) && i < |s|
    ensures xml[p + i] == s[i]
    decreases i
  {
    if i > 0 {
      OccursAt(xml, p + 1, s[1..], i - 1);
    }
  }

  /** Outside a tag, bytes other than '<' are skipped. */
  lemma {:induction false} SkipText(xml: Bytes, st: ScanState, s: Bytes, last: ScanState)
    requires !st.inTag && !st.inCdata && Occurs(xml, st.cursor, s) && LT !in s
    requires last == st.(cursor := st.cursor + |s|)
    ensures EndOf(xml, st) == EndOf(xml, last)
    decreases |s|
  {
    if s != [] {
      var c := st.cursor;
      var next := st.(cursor := c + 1);
      assert s == [s[0]] + s[1..];
      assert xml[c] == s[0];
      assert Step(xml, st) == Next(next);
      SkipText(xml, next, s[1..], last);
    }
  }

  /** `getTag` finds nothing in a buffer with no '<' from the cursor on: it returns null. */
  lemma NoLtNoTag(xml: Bytes, cursor: nat)
    requires cursor <= |xml| && LT !in xml[cursor..]
    ensures NextTag(xml, cursor) == NoTag
  {
    assert xml == xml[..cursor] + xml[cursor..] + [];
    OccursIn(xml[..cursor], xml[cursor..], []);
    SkipText(xml, ScanStart(cursor), xml[cursor..], ScanStart(cursor).(cursor := |xml|));
  }

  /*
   * Reading back a tag written out as a declaration
   */

  /** A byte a tag or attribute name may hold: none of the bytes the scanner or the lexer react to. */
  predicate NameByte(b: byte) {
    !IsWhite(b) && b != LT && b != GT && b != SLASH && b != EQ && b != COLON && b != QUOTE && b != BANG
  }

  predicate NameBytes(s: Bytes) {
    s == [] || (NameByte(s[0]) && NameBytes(s[1..]))
  }

  predicate ValidName(s: Bytes) {
    s != [] && NameBytes(s)
  }

  /** What an attribute value may hold: anything but '"', '<' and '>'. */
  predicate ValueBytes(s: Bytes) {
    QUOTE !in s && LT !in s && GT !in s
  }

  predicate ValidAttribute(a: Attribute) {
    ValidName(a.name) && ValueBytes(a.value)
  }

  predicate ValidAttributes(attributes: seq<Attribute>) {
    attributes != [] ==> ValidAttribute(attributes[0]) && ValidAttributes(attributes[1..])
  }

  /**
   * A tag the scanner can read back from its declaration: valid names, no
   * CDATA, and attributes only on open and self-closed tags.
   */
  predicate Writable(t: Tag) {
    ValidName(t.name) && (t.namespace.Some? ==> ValidName(t.namespace.value)) && !t.cdata &&
    (t.kind == Close ==> t.attributes == []) && ValidAttributes(t.attributes)
  }

  /** ` name="value"` */
  function WriteAttribute(a: Attribute): Bytes {
    [SPACE] + a.name + [EQ, QUOTE] + a.value + [QUOTE]
  }

  function WriteAttributes(attributes: seq<Attribute>): Bytes {
    if attributes == [] then [] else WriteAttribute(attributes[0]) + WriteAttributes(attributes[1..])
  }

  /** The declaration of a tag: `<ns:name a="v">`, `</ns:name>` or `<ns:name a="v"/>`. */
  function Write(t: Tag): Bytes {
    match t.kind
    case Open => [LT] + QualifiedName(t) + WriteAttributes(t.attributes) + [GT]
    case Close => [LT, SLASH] + QualifiedName(t) + [GT]
    case SelfClosed => [LT] + QualifiedName(t) + WriteAttributes(t.attributes) + [SLASH, GT]
  }

  /** Where `getTag` leaves the cursor after the declaration: past its '>', or on the '>' of "/>". */
  function EndOffset(t: Tag): nat {
    if t.kind == SelfClosed then |Write(t)| - 1 else |Write(t)|
  }

  lemma {:induction false} NameBytesAngles(s: Bytes)
    requires NameBytes(s)
    ensures LT !in s && GT !in s && QUOTE !in s
    decreases |s|
  {
    if s != [] {
      NameBytesAngles(s[1..]);
      assert s == [s[0]] + s[1..];
    }
  }

  /** Written attributes hold no '<' or '>', start with a space, end with a quote and hold an '='. */
  lemma {:induction false} WriteAttributesFacts(attributes: seq<Attribute>)
    requires ValidAttributes(attributes)
    ensures var w := WriteAttributes(attributes);
      LT !in w && GT !in w && (attributes != [] ==> w[0] == SPACE && w[|w| - 1] == QUOTE && EQ in w[1..])
    decreases |attributes|
  {
    if attributes != [] {
      var a := attributes[0];
      var tail := WriteAttributes(attributes[1..]);
      WriteAttributesFacts(attributes[1..]);
      NameBytesAngles(a.name);
      var w := WriteAttribute(a) + tail;
      assert w[1..] == a.name + [EQ, QUOTE] + a.value + [QUOTE] + tail;
      assert w[1..][|a.name|] == EQ;
    }
  }

  /*
   * The scanner on a written declaration
   */

  /** Inside a tag, a name byte changes nothing but the cursor. */
  lemma StepName(xml: Bytes, st: ScanState, next: ScanState)
    requires st.inTag && !st.inCdata && st.cursor < |xml| && NameByte(xml[st.cursor])
    requires next == st.(cursor := st.cursor + 1)
    ensures EndOf(xml, st) == EndOf(xml, next)
  {
    assert Step(xml, st) == Next(next);
  }

  /** Inside a tag, a ':' before any space marks the namespace. */
  lemma StepColon(xml: Bytes, st: ScanState, next: ScanState)
    requires st.inTag && !st.inCdata && !st.space && st.cursor < |xml| && xml[st.cursor] == COLON
    requires next == st.(cursor := st.cursor + 1, nsPos := st.cursor)
    ensures EndOf(xml, st) == EndOf(xml, next)
  {
    assert Step(xml, st) == Next(next);
  }

  /** Inside a tag, name bytes change nothing but the cursor. */
  lemma {:induction false} ScanName(xml: Bytes, st: ScanState, s: Bytes, last: ScanState)
    requires st.inTag && !st.inCdata && Occurs(xml, st.cursor, s) && NameBytes(s)
    requires last == st.(cursor := st.cursor + |s|)
    ensures EndOf(xml, st) == EndOf(xml, last)
    decreases |s|
  {
    if s != [] {
      var next := st.(cursor := st.cursor + 1);
      StepName(xml, st, next);
      ScanName(xml, next, s[1..], last);
    }
  }

  /**
   * Inside a tag, after a space, bytes other than '<' and '>' only record
   * whether an '=' was seen, as long as the run does not end with a '/'.
   */
  lemma {:induction false} ScanQuiet(xml: Bytes, st: ScanState, s: Bytes, last: ScanState)
    requires st.inTag && !st.inCdata && st.space && Occurs(xml, st.cursor, s)
    requires GT !in s && LT !in s && (s != [] ==> s[|s| - 1] != SLASH)
    requires last == st.(cursor := st.cursor + |s|, inAtt := st.inAtt || EQ in s)
    ensures EndOf(xml, st) == EndOf(xml, last)
    decreases |s|
  {
    if s != [] {
      var c := st.cursor;
      assert s == [s[0]] + s[1..];
      if |s| > 1 {
        assert xml[c + 1] == s[1];
      }
      var next := st.(cursor := c + 1, inAtt := st.inAtt || s[0] == EQ);
      assert Step(xml, st) == Next(next);
      ScanQuiet(xml, next, s[1..], last);
    }
  }

  /** Reading `ns:` records the position of the colon. */
  lemma ScanNamespace(xml: Bytes, st: ScanState, ns: Bytes, after: ScanState)
    requires st.inTag && !st.inCdata && !st.space && NameBytes(ns)
    requires Occurs(xml, st.cursor, ns + [COLON])
    requires after == st.(cursor := st.cursor + |ns| + 1, nsPos := st.cursor + |ns|)
    ensures EndOf(xml, st) == EndOf(xml, after)
  {
    var at := st.(cursor := st.cursor + |ns|);
    assert after == at.(cursor := at.cursor + 1, nsPos := at.cursor);
    OccursSplit(xml, st.cursor, ns, [COLON]);
    assert xml[at.cursor] == COLON;
    ScanName(xml, st, ns, at);
    StepColon(xml, at, after);
  }

  /** Reading `ns:name` records the position of the colon. */
  lemma ScanPrefixedName(xml: Bytes, st: ScanState, ns: Bytes, name: Bytes, last: ScanState)
    requires st.inTag && !st.inCdata && !st.space && NameBytes(ns) && NameBytes(name)
    requires Occurs(xml, st.cursor, ns + [COLON] + name)
    requires last == st.(cursor := st.cursor + |ns| + 1 + |name|, nsPos := st.cursor + |ns|)
    ensures EndOf(xml, st) == EndOf(xml, last)
  {
    var after := st.(cursor := st.cursor + |ns| + 1, nsPos := st.cursor + |ns|);
    assert last == after.(cursor := after.cursor + |name|);
    assert after.cursor == st.cursor + |ns + [COLON]|;
    OccursSplit(xml, st.cursor, ns + [COLON], name);
    assert Occurs(xml, after.cursor, name);
    ScanNamespace(xml, st, ns, after);
    ScanName(xml, after, name, last);
  }

  /** Reading the qualified name of a tag records the namespace colon, if any. */
  lemma ScanQualifiedName(xml: Bytes, st: ScanState, t: Tag, last: ScanState)
    requires st.inTag && !st.inCdata && !st.space && Writable(t)
    requires Occurs(xml, st.cursor, QualifiedName(t))
    requires last == st.(cursor := st.cursor + |QualifiedName(t)|,
                         nsPos := if t.namespace.Some? then st.cursor + |t.namespace.value| else st.nsPos)
    ensures EndOf(xml, st) == EndOf(xml, last)
  {
    match t.namespace
    case None =>
      ScanName(xml, st, t.name, last);
    case Some(ns) =>
      ScanPrefixedName(xml, st, ns, t.name, last);
  }

  /*
   * The attribute lexer on a written declaration
   */

  /** A byte the lexer passes over, given whether it is inside quotes and past the tag name. */
  predicate InertByte(b: byte, inQuotes: bool, endName: bool) {
    b != QUOTE && (b == EQ ==> inQuotes) && (b == SPACE ==> endName)
  }

  predicate Inert(s: Bytes, inQuotes: bool, endName: bool) {
    s == [] || (InertByte(s[0], inQuotes, endName) && Inert(s[1..], inQuotes, endName))
  }

  lemma {:induction false} NameBytesInert(s: Bytes, inQuotes: bool, endName: bool)
    requires NameBytes(s)
    ensures Inert(s, inQuotes, endName)
    decreases |s|
  {
    if s != [] {
      NameBytesInert(s[1..], inQuotes, endName);
    }
  }

  lemma {:induction false} ValueBytesInert(s: Bytes, inQuotes: bool, endName: bool)
    requires QUOTE !in s && inQuotes && endName
    ensures Inert(s, inQuotes, endName)
    decreases |s|
  {
    if s != [] {
      assert s == [s[0]] + s[1..];
      ValueBytesInert(s[1..], inQuotes, endName);
    }
  }

  lemma {:induction false} InertConcat(a: Bytes, b: Bytes, inQuotes: bool, endName: bool)
    requires Inert(a, inQuotes, endName) && Inert(b, inQuotes, endName)
    ensures Inert(a + b, inQuotes, endName)
    decreases |a|
  {
    if a == [] {
      assert a + b == b;
    } else {
      assert (a + b)[0] == a[0] && (a + b)[1..] == a[1..] + b;
      InertConcat(a[1..], b, inQuotes, endName);
    }
  }

  /** A pass of the lexer's loop that succeeds leaves the outcome to the next state. */
  lemma LexNext(decl: Bytes, nsPos: int, st: LexState, next: LexState)
    requires st.cursor < |decl| && LexStep(decl, nsPos, st) == Ok(next)
    ensures LexFrom(decl, nsPos, st) == LexFrom(decl, nsPos, next)
  {
  }

  /** The lexer passes over a run of inert bytes. */
  lemma {:induction false} LexInert(decl: Bytes, nsPos: int, st: LexState, s: Bytes, last: LexState)
    requires Occurs(decl, st.cursor, s) && Inert(s, st.quotes != 0, st.endName)
    requires last == st.(cursor := st.cursor + |s|)
    ensures LexFrom(decl, nsPos, st) == LexFrom(decl, nsPos, last)
    decreases |s|
  {
    if s != [] {
      var next := st.(cursor := st.cursor + 1);
      assert LexStep(decl, nsPos, st) == Ok(next);
      LexNext(decl, nsPos, st, next);
      LexInert(decl, nsPos, next, s[1..], last);
    }
  }

  /** A name has no white byte, so in particular none at either end. */
  lemma {:induction false} NameBytesTrimmed(s: Bytes)
    requires NameBytes(s)
    ensures Trimmed(s) && (s != [] ==> !IsWhite(s[|s| - 1]))
    decreases |s|
  {
    if |s| > 1 {
      NameBytesTrimmed(s[1..]);
      assert s[|s| - 1] == s[1..][|s| - 2];
    }
  }

  /** Trimming the space before an attribute name gives the name. */
  lemma TrimSpaced(name: Bytes)
    requires ValidName(name)
    ensures Trim([SPACE] + name) == name
  {
    NameBytesTrimmed(name);
    TrimPadded([SPACE], name, []);
    assert [SPACE] + name + [] == [SPACE] + name;
  }

  /** The '=' after ` name`: the attribute is named by the trimmed text since the space. */
  lemma LexEquals(decl: Bytes, nsPos: int, eq: LexState, name: Bytes, next: LexState)
    requires eq.cursor < |decl| && decl[eq.cursor] == EQ && eq.quotes == 0 && eq.endName
    requires 0 <= eq.startAttName && eq.startAttName + 1 + |name| == eq.cursor
    requires decl[eq.startAttName..eq.cursor] == [SPACE] + name && ValidName(name)
    requires next == eq.(cursor := eq.cursor + 1, att := Some(name), startAttValue := eq.cursor)
    ensures LexFrom(decl, nsPos, eq) == LexFrom(decl, nsPos, next)
  {
    TrimSpaced(name);
    assert Slice(decl, eq.startAttName, eq.cursor - eq.startAttName) == Some([SPACE] + name);
    assert LexStep(decl, nsPos, eq) == Ok(next);
    LexNext(decl, nsPos, eq, next);
  }

  /** ` name=`: the lexer passes over the name and names the attribute at the '='. */
  lemma LexAttributeName(decl: Bytes, nsPos: int, st: LexState, name: Bytes, next: LexState)
    requires 1 <= st.cursor && Occurs(decl, st.cursor - 1, [SPACE] + name + [EQ]) && ValidName(name)
    requires st.endName && st.quotes == 0 && st.startAttName == st.cursor - 1
    requires next == st.(cursor := st.cursor + |name| + 1, att := Some(name), startAttValue := st.cursor + |name|)
    ensures LexFrom(decl, nsPos, st) == LexFrom(decl, nsPos, next)
  {
    var k := st.cursor;
    var eq := st.(cursor := k + |name|);
    assert next == eq.(cursor := eq.cursor + 1, att := Some(name), startAttValue := eq.cursor);
    assert k - 1 + |[SPACE]| == k && k - 1 + |[SPACE] + name| == eq.cursor;
    OccursSplit(decl, k - 1, [SPACE] + name, [EQ]);
    OccursSplit(decl, k - 1, [SPACE], name);
    OccursSlice(decl, k - 1, [SPACE] + name);
    assert decl[eq.cursor] == EQ && Occurs(decl, k, name);
    assert decl[eq.startAttName..eq.cursor] == [SPACE] + name;
    NameBytesInert(name, st.quotes != 0, st.endName);
    LexInert(decl, nsPos, st, name, eq);
    LexEquals(decl, nsPos, eq, name, next);
  }

  /** `"value"` after the '=' at `startAttValue`: the closing quote appends the pair. */
  lemma LexAttributeValue(decl: Bytes, nsPos: int, st: LexState, value: Bytes, next: LexState)
    requires Occurs(decl, st.cursor, [QUOTE] + value + [QUOTE]) && ValueBytes(value)
    requires st.endName && st.quotes == 0 && st.att.Some? && st.startAttValue == st.cursor - 1
    requires next == st.(cursor := st.cursor + |value| + 2, attributes := st.attributes + [Attribute(st.att.value, value)],
                         att := None, quotes := 0, startAttName := st.cursor + |value| + 2)
    ensures LexFrom(decl, nsPos, st) == LexFrom(decl, nsPos, next)
  {
    var k := st.cursor;
    var open := st.(cursor := k + 1, quotes := 1);
    var close := open.(cursor := k + 1 + |value|);
    assert next == close.(cursor := close.cursor + 1, attributes := close.attributes + [Attribute(close.att.value, value)],
                          att := None, quotes := 0, startAttName := close.cursor + 1);
    assert k + |[QUOTE]| == open.cursor && k + |[QUOTE] + value| == close.cursor;
    OccursSplit(decl, k, [QUOTE] + value, [QUOTE]);
    OccursSplit(decl, k, [QUOTE], value);
    OccursSlice(decl, open.cursor, value);
    assert decl[k] == QUOTE && decl[close.cursor] == QUOTE && Occurs(decl, open.cursor, value);
    assert value == decl[close.startAttValue + 2..close.startAttValue + 2 + (close.cursor - close.startAttValue - 2)];
    ValueBytesInert(value, open.quotes != 0, open.endName);
    assert LexStep(decl, nsPos, st) == Ok(open);
    assert LexStep(decl, nsPos, close) == Ok(next);
    LexNext(decl, nsPos, st, open);
    LexInert(decl, nsPos, open, value, close);
    LexNext(decl, nsPos, close, next);
  }

  /** One written attribute ` name="value"`, read from its space: the pair is appended. */
  lemma LexAttribute(decl: Bytes, nsPos: int, st: LexState, a: Attribute, next: LexState)
    requires 1 <= st.cursor && Occurs(decl, st.cursor - 1, WriteAttribute(a)) && ValidAttribute(a)
    requires st.endName && st.quotes == 0 && st.startAttName == st.cursor - 1
    requires next == st.(cursor := st.cursor - 1 + |WriteAttribute(a)|, attributes := st.attributes + [a],
                         att := None, quotes := 0, startAttName := st.cursor - 1 + |WriteAttribute(a)|,
                         startAttValue := st.cursor + |a.name|)
    ensures LexFrom(decl, nsPos, st) == LexFrom(decl, nsPos, next)
  {
    var k := st.cursor;
    var mid := st.(cursor := k + |a.name| + 1, att := Some(a.name), startAttValue := k + |a.name|);
    assert next == mid.(cursor := mid.cursor + |a.value| + 2, attributes := mid.attributes + [Attribute(mid.att.value, a.value)],
                        att := None, quotes := 0, startAttName := mid.cursor + |a.value| + 2);
    assert WriteAttribute(a) == ([SPACE] + a.name + [EQ]) + ([QUOTE] + a.value + [QUOTE]);
    assert k - 1 + |[SPACE] + a.name + [EQ]| == mid.cursor;
    OccursSplit(decl, k - 1, [SPACE] + a.name + [EQ], [QUOTE] + a.value + [QUOTE]);
    assert Occurs(decl, mid.cursor, [QUOTE] + a.value + [QUOTE]);
    LexAttributeName(decl, nsPos, st, a.name, mid);
    LexAttributeValue(decl, nsPos, mid, a.value, next);
  }

  /** A written attribute list starts with a space. */
  lemma WriteAttributesStart(attributes: seq<Attribute>)
    requires attributes != []
    ensures WriteAttributes(attributes) == WriteAttribute(attributes[0]) + WriteAttributes(attributes[1..])
    ensures WriteAttributes(attributes)[0] == SPACE
  {
  }

  /** The space that starts the next written attribute passes. */
  lemma LexSeparator(decl: Bytes, nsPos: int, st: LexState, attributes: seq<Attribute>, next: LexState)
    requires attributes != [] && Occurs(decl, st.cursor, WriteAttributes(attributes)) && st.endName
    requires next == st.(cursor := st.cursor + 1)
    ensures LexFrom(decl, nsPos, st) == LexFrom(decl, nsPos, next)
  {
    WriteAttributesStart(attributes);
    OccursAt(decl, st.cursor, WriteAttributes(attributes), 0);
    assert LexStep(decl, nsPos, st) == Ok(next);
    LexNext(decl, nsPos, st, next);
  }

  /**
   * Written attributes up to the end of the declaration, read from the
   * space before the first: every pair is appended, in order, and nothing
   * else the lexer holds changes.
   */
  lemma {:induction false} LexAttributes(decl: Bytes, nsPos: int, st: LexState, attributes: seq<Attribute>)
    requires 1 <= st.cursor && Occurs(decl, st.cursor - 1, WriteAttributes(attributes))
    requires st.cursor - 1 + |WriteAttributes(attributes)| == |decl|
    requires attributes != [] && ValidAttributes(attributes)
    requires st.endName && st.quotes == 0 && st.startAttName == st.cursor - 1
    ensures var r := LexFrom(decl, nsPos, st);
      r.Ok? && r.value.name == st.name && r.value.namespace == st.namespace &&
      r.value.attributes == st.attributes + attributes
    decreases |attributes|
  {
    var a := attributes[0];
    var rest := WriteAttributes(attributes[1..]);
    var w := |WriteAttribute(a)|;
    var after := st.(cursor := st.cursor - 1 + w, attributes := st.attributes + [a],
                     att := None, quotes := 0, startAttName := st.cursor - 1 + w,
                     startAttValue := st.cursor + |a.name|);
    WriteAttributesStart(attributes);
    OccursSplit(decl, st.cursor - 1, WriteAttribute(a), rest);
    assert Occurs(decl, after.cursor, rest) && after.cursor + |rest| == |decl|;
    assert st.attributes + attributes == after.attributes + attributes[1..];
    if attributes[1..] == [] {
      assert after.cursor == |decl|;
      LexAttribute(decl, nsPos, st, a, after);
    } else {
      var next := after.(cursor := after.cursor + 1);
      assert next.cursor - 1 == after.cursor;
      LexAttribute(decl, nsPos, st, a, after);
      LexSeparator(decl, nsPos, after, attributes[1..], next);
      LexAttributes(decl, nsPos, next, attributes[1..]);
    }
  }

  /** The namespace colon of a qualified name: `nsPos` in the declaration is one past the namespace. */
  predicate NamespaceAt(t: Tag, nsPos: int) {
    match t.namespace
    case None => nsPos <= 0
    case Some(ns) => nsPos == |ns| + 1
  }

  /** A qualified name holds no quote, no '=' and no space. */
  lemma QualifiedNameInert(t: Tag, inQuotes: bool, endName: bool)
    requires ValidName(t.name) && (t.namespace.Some? ==> ValidName(t.namespace.value))
    ensures Inert(QualifiedName(t), inQuotes, endName)
  {
    NameBytesInert(t.name, inQuotes, endName);
    match t.namespace
    case None =>
    case Some(ns) =>
      NameBytesInert(ns, inQuotes, endName);
      assert Inert([COLON], inQuotes, endName);
      InertConcat(ns, [COLON], inQuotes, endName);
      InertConcat(ns + [COLON], t.name, inQuotes, endName);
  }

  /** The first space ends the qualified name: the name and the namespace are cut at the colon. */
  lemma LexNameEnd(decl: Bytes, nsPos: int, t: Tag, at: LexState, next: LexState)
    requires Occurs(decl, 0, QualifiedName(t) + [SPACE]) && NamespaceAt(t, nsPos)
    requires at == LexStart.(cursor := |QualifiedName(t)|)
    requires next == at.(cursor := at.cursor + 1, name := Some(t.name), namespace := t.namespace,
                         endName := true, startAttName := at.cursor)
    ensures LexFrom(decl, nsPos, at) == LexFrom(decl, nsPos, next)
  {
    var q := QualifiedName(t);
    OccursSplit(decl, 0, q, [SPACE]);
    OccursSlice(decl, 0, q);
    assert decl[at.cursor] == SPACE && decl[..at.cursor] == q;
    match t.namespace
    case None =>
      assert LexStep(decl, nsPos, at) == Ok(next);
    case Some(ns) =>
      assert q[..|ns|] == ns && q[|ns| + 1..] == t.name;
      assert decl[0..|ns|] == q[..|ns|] && decl[|ns| + 1..at.cursor] == q[|ns| + 1..];
      assert Slice(decl, 0, nsPos - 1) == Some(ns);
      assert Slice(decl, nsPos, at.cursor - nsPos) == Some(t.name);
      assert LexStep(decl, nsPos, at) == Ok(next);
    LexNext(decl, nsPos, at, next);
  }

  /** The qualified name and the space after it, read from the start of the declaration. */
  lemma LexQualifiedName(decl: Bytes, nsPos: int, t: Tag, next: LexState)
    requires Occurs(decl, 0, QualifiedName(t) + [SPACE]) && NamespaceAt(t, nsPos)
    requires ValidName(t.name) && (t.namespace.Some? ==> ValidName(t.namespace.value))
    requires next == LexStart.(cursor := |QualifiedName(t)| + 1, name := Some(t.name), namespace := t.namespace,
                               endName := true, startAttName := |QualifiedName(t)|)
    ensures LexFrom(decl, nsPos, LexStart) == LexFrom(decl, nsPos, next)
  {
    var q := QualifiedName(t);
    var at := LexStart.(cursor := |q|);
    OccursSplit(decl, 0, q, [SPACE]);
    QualifiedNameInert(t, LexStart.quotes != 0, LexStart.endName);
    LexInert(decl, nsPos, LexStart, q, at);
    LexNameEnd(decl, nsPos, t, at, next);
  }

  /** The lexer's loop over a written declaration ends with its name, namespace and attributes. */
  lemma LexWrittenState(t: Tag, nsPos: int)
    requires Writable(t) && t.attributes != [] && NamespaceAt(t, nsPos)
    ensures var r := LexFrom(QualifiedName(t) + WriteAttributes(t.attributes), nsPos, LexStart);
      r.Ok? && r.value.name == Some(t.name) && r.value.namespace == t.namespace && r.value.attributes == t.attributes
  {
    var q := QualifiedName(t);
    var w := WriteAttributes(t.attributes);
    var decl := q + w;
    WriteAttributesStart(t.attributes);
    assert decl == (q + [SPACE]) + w[1..];
    OccursIn([], decl, []);
    assert [] + decl + [] == decl;
    assert Occurs(decl, 0, decl);
    OccursSplit(decl, 0, q + [SPACE], w[1..]);
    OccursSplit(decl, 0, q, w);
    var next := LexStart.(cursor := |q| + 1, name := Some(t.name), namespace := t.namespace,
                          endName := true, startAttName := |q|);
    assert next.cursor - 1 + |w| == |decl| && next.attributes + t.attributes == t.attributes;
    LexQualifiedName(decl, nsPos, t, next);
    LexAttributes(decl, nsPos, next, t.attributes);
  }

  /**
   * The attribute lexer reads back a written declaration: its qualified
   * name followed by its attributes gives the same name, namespace and
   * attributes, in order.
   */
  lemma LexWritten(t: Tag, position: int, nsPos: int, kind: Kind)
    requires Writable(t) && t.attributes != [] && NamespaceAt(t, nsPos)
    ensures Lex(QualifiedName(t) + WriteAttributes(t.attributes), position, nsPos, kind, false)
         == Found(t.(position := position, kind := kind))
  {
    assert t.(position := position, kind := kind) == Tag(t.name, t.namespace, position, kind, t.attributes, false);
    LexWrittenState(t, nsPos);
  }

  /*
   * getTag on a written declaration
   */

  /** The bytes before the qualified name: "<", or "</" for a close tag. */
  function Opening(t: Tag): Bytes {
    if t.kind == Close then [LT, SLASH] else [LT]
  }

  /** The bytes after the attributes: ">", or "/>" for a self-closed tag. */
  function Closing(t: Tag): Bytes {
    if t.kind == SelfClosed then [SLASH, GT] else [GT]
  }

  /** Where the terminator of a written declaration lies. */
  lemma EndOffsetParts(t: Tag)
    requires t.kind == Close ==> t.attributes == []
    ensures EndOffset(t) == |Opening(t)| + |QualifiedName(t)| + |WriteAttributes(t.attributes)| + 1
  {
  }

  /** `getTag`'s locals just after the "<" or "</" of a written declaration at `st.cursor`. */
  function Inside(st: ScanState, t: Tag): ScanState {
    st.(cursor := st.cursor + |Opening(t)|, startTag := st.cursor + |Opening(t)| - 1, inTag := true,
        kind := if t.kind == Close then Close else Open)
  }

  /**
   * `getTag`'s locals on the terminator of a written declaration, from
   * just after its "<" or "</": the namespace colon is recorded and, when
   * attributes were written, the space and the '=' are seen.
   */
  function DeclarationEnd(st: ScanState, t: Tag): ScanState {
    var named := st.(cursor := st.cursor + |QualifiedName(t)|,
                     nsPos := if t.namespace.Some? then st.cursor + |t.namespace.value| else st.nsPos);
    if t.attributes == [] then named
    else named.(cursor := named.cursor + |WriteAttributes(t.attributes)|, inAtt := true, space := true)
  }

  /** `getTag`'s locals on the terminator of a written declaration that starts at `st.cursor`. */
  function WrittenEnd(st: ScanState, t: Tag): ScanState {
    DeclarationEnd(Inside(st, t), t)
  }

  /** Where `WrittenEnd` is and what it has recorded. */
  lemma WrittenEndIs(st: ScanState, t: Tag)
    requires t.kind == Close ==> t.attributes == []
    ensures var e := WrittenEnd(st, t); var start := st.cursor + |Opening(t)|;
      e.cursor == st.cursor + EndOffset(t) - 1 && e.startTag == start - 1 &&
      e.nsPos == (if t.namespace.Some? then start + |t.namespace.value| else st.nsPos) &&
      e.inTag && e.inAtt == (st.inAtt || t.attributes != []) && e.inCdata == st.inCdata && e.cdata == st.cdata &&
      e.kind == (if t.kind == Close then Close else Open)
  {
    EndOffsetParts(t);
  }

  /** Outside a tag, '<' followed by a name byte starts an open tag. */
  lemma StepOpen(xml: Bytes, st: ScanState, next: ScanState)
    requires !st.inTag && !st.inCdata && st.cursor + 1 < |xml| && xml[st.cursor] == LT && NameByte(xml[st.cursor + 1])
    requires next == st.(cursor := st.cursor + 1, startTag := st.cursor, inTag := true, kind := Open)
    ensures EndOf(xml, st) == EndOf(xml, next)
  {
    assert Step(xml, st) == Next(next);
  }

  /** Outside a tag, "</" followed by a name byte starts a close tag; the '/' is passed over. */
  lemma StepClose(xml: Bytes, st: ScanState, next: ScanState)
    requires !st.inTag && !st.inCdata && st.cursor + 2 < |xml|
    requires xml[st.cursor] == LT && xml[st.cursor + 1] == SLASH && NameByte(xml[st.cursor + 2])
    requires next == st.(cursor := st.cursor + 2, startTag := st.cursor + 1, inTag := true, kind := Close)
    ensures EndOf(xml, st) == EndOf(xml, next)
  {
    var slash := st.(cursor := st.cursor + 1, startTag := st.cursor + 1, inTag := true, kind := Close);
    assert Step(xml, st) == Next(slash);
    assert Step(xml, slash) == Next(next);
  }

  /** Inside a tag, a space is remembered. */
  lemma StepSpace(xml: Bytes, st: ScanState, next: ScanState)
    requires st.inTag && !st.inCdata && st.cursor < |xml| && xml[st.cursor] == SPACE
    requires next == st.(cursor := st.cursor + 1, space := true)
    ensures EndOf(xml, st) == EndOf(xml, next)
  {
    assert Step(xml, st) == Next(next);
  }

  /** Inside a tag, '>' or "/>" stops the loop with its locals as they are. */
  lemma StepEnd(xml: Bytes, st: ScanState)
    requires st.inTag && !st.inCdata && st.cursor < |xml| && EndsTag(xml, st.cursor)
    ensures EndOf(xml, st) == Some(st)
  {
    assert Step(xml, st) == Stop(st);
  }

  /** Written attributes after the qualified name: the space, then bytes that only set `inAtt`. */
  lemma ScanAttributes(xml: Bytes, st: ScanState, attributes: seq<Attribute>, last: ScanState)
    requires st.inTag && !st.inCdata && attributes != [] && ValidAttributes(attributes)
    requires Occurs(xml, st.cursor, WriteAttributes(attributes))
    requires last == st.(cursor := st.cursor + |WriteAttributes(attributes)|, inAtt := true, space := true)
    ensures EndOf(xml, st) == EndOf(xml, last)
  {
    var w := WriteAttributes(attributes);
    WriteAttributesFacts(attributes);
    WriteAttributesStart(attributes);
    var spaced := st.(cursor := st.cursor + 1, space := true);
    assert w == [SPACE] + w[1..];
    OccursSplit(xml, st.cursor, [SPACE], w[1..]);
    OccursAt(xml, st.cursor, w, 0);
    assert w[1..][|w[1..]| - 1] == w[|w| - 1];
    assert last == spaced.(cursor := spaced.cursor + |w[1..]|, inAtt := spaced.inAtt || EQ in w[1..]);
    assert Occurs(xml, spaced.cursor, w[1..]);
    StepSpace(xml, st, spaced);
    ScanQuiet(xml, spaced, w[1..], last);
  }

  /** The attributes and the terminator of the declaration of `t` lie in `xml` from `p` on. */
  predicate RestAt(xml: Bytes, p: nat, t: Tag) {
    Occurs(xml, p, WriteAttributes(t.attributes)) && Occurs(xml, p + |WriteAttributes(t.attributes)|, Closing(t))
  }

  /** The declaration of `t` after its "<" or "</" lies in `xml` from `p` on. */
  predicate DeclaredAt(xml: Bytes, p: nat, t: Tag) {
    Occurs(xml, p, QualifiedName(t)) && RestAt(xml, p + |QualifiedName(t)|, t)
  }

  /** The whole declaration of `t` lies in `xml` from `p` on: opening, qualified name, attributes, terminator. */
  predicate WrittenAt(xml: Bytes, p: nat, t: Tag) {
    Occurs(xml, p, Opening(t)) && DeclaredAt(xml, p + |Opening(t)|, t)
  }

  /** From the end of the qualified name: the written attributes, then the terminator. */
  lemma ScanTagRest(xml: Bytes, st: ScanState, t: Tag, last: ScanState)
    requires st.inTag && !st.inCdata && Writable(t) && RestAt(xml, st.cursor, t)
    requires last == if t.attributes == [] then st
                     else st.(cursor := st.cursor + |WriteAttributes(t.attributes)|, inAtt := true, space := true)
    ensures EndOf(xml, st) == Some(last)
  {
    var w := WriteAttributes(t.attributes);
    ClosingAt(xml, st.cursor + |w|, t);
    assert last.cursor == st.cursor + |w| && EndsTag(xml, last.cursor);
    if t.attributes != [] {
      ScanAttributes(xml, st, t.attributes, last);
    }
    StepEnd(xml, last);
  }

  /** A qualified name starts with a name byte. */
  lemma QualifiedNameStart(t: Tag)
    requires ValidName(t.name) && (t.namespace.Some? ==> ValidName(t.namespace.value))
    ensures QualifiedName(t) != [] && NameByte(QualifiedName(t)[0])
  {
  }

  /** The declaration after its "<" or "</": the qualified name, the attributes and the terminator. */
  lemma ScanDeclaration(xml: Bytes, st: ScanState, t: Tag)
    requires st.inTag && !st.inCdata && !st.space && Writable(t) && DeclaredAt(xml, st.cursor, t)
    ensures EndOf(xml, st) == Some(DeclarationEnd(st, t))
  {
    var q := QualifiedName(t);
    var w := WriteAttributes(t.attributes);
    var named := st.(cursor := st.cursor + |q|,
                     nsPos := if t.namespace.Some? then st.cursor + |t.namespace.value| else st.nsPos);
    assert RestAt(xml, named.cursor, t);
    ScanQualifiedName(xml, st, t, named);
    ScanTagRest(xml, named, t, DeclarationEnd(st, t));
  }

  /** The "<" or "</" of a written declaration starts a tag of the right kind. */
  lemma ScanOpening(xml: Bytes, st: ScanState, t: Tag, inside: ScanState)
    requires !st.inTag && !st.inCdata && Writable(t)
    requires Occurs(xml, st.cursor, Opening(t)) && Occurs(xml, st.cursor + |Opening(t)|, QualifiedName(t))
    requires inside == st.(cursor := st.cursor + |Opening(t)|, startTag := st.cursor + |Opening(t)| - 1, inTag := true,
                           kind := if t.kind == Close then Close else Open)
    ensures EndOf(xml, st) == EndOf(xml, inside)
  {
    var o := Opening(t);
    QualifiedNameStart(t);
    OccursAt(xml, st.cursor, o, 0);
    OccursAt(xml, st.cursor + |o|, QualifiedName(t), 0);
    if t.kind == Close {
      OccursAt(xml, st.cursor, o, 1);
      StepClose(xml, st, inside);
    } else {
      StepOpen(xml, st, inside);
    }
  }


  /** Where the parts of a written declaration lie. */
  lemma OccursWritten(xml: Bytes, p: nat, t: Tag)
    requires Occurs(xml, p, Write(t)) && (t.kind == Close ==> t.attributes == [])
    ensures WrittenAt(xml, p, t)
  {
    var o := Opening(t);
    var q := QualifiedName(t);
    var w := WriteAttributes(t.attributes);
    if t.kind == Close {
      assert Write(t) == (o + q) + Closing(t);
      OccursSplit(xml, p, o + q, Closing(t));
      OccursSplit(xml, p, o, q);
    } else {
      assert Write(t) == ((o + q) + w) + Closing(t);
      OccursSplit(xml, p, (o + q) + w, Closing(t));
      OccursSplit(xml, p, o + q, w);
      OccursSplit(xml, p, o, q);
    }
  }

  /**
   * From text outside a tag, `getTag`'s loop reads a written declaration
   * to its terminator and stops there with the locals `WrittenEnd`.
   */
  lemma ScanWritten(xml: Bytes, st: ScanState, t: Tag)
    requires !st.inTag && !st.inCdata && !st.space && Writable(t) && WrittenAt(xml, st.cursor, t)
    ensures EndOf(xml, st) == Some(WrittenEnd(st, t))
  {
    var inside := Inside(st, t);
    assert inside.cursor == st.cursor + |Opening(t)| && inside.inTag && !inside.inCdata && !inside.space;
    assert DeclaredAt(xml, inside.cursor, t);
    ScanOpening(xml, st, t, inside);
    ScanDeclaration(xml, inside, t);
  }

  /** A written terminator ends the declaration, and it is '>' unless the tag is self-closed. */
  lemma ClosingAt(xml: Bytes, c: nat, t: Tag)
    requires Occurs(xml, c, Closing(t))
    ensures c < |xml| && EndsTag(xml, c) && (xml[c] == GT <==> t.kind != SelfClosed)
  {
    OccursAt(xml, c, Closing(t), 0);
    if t.kind == SelfClosed {
      OccursAt(xml, c, Closing(t), 1);
    }
  }

  /** A written declaration ends in a terminator right after its name and attributes. */
  lemma WrittenDeclaration(xml: Bytes, at: nat, t: Tag)
    requires WrittenAt(xml, at, t)
    ensures var p := at + |Opening(t)|; var c := p + |QualifiedName(t)| + |WriteAttributes(t.attributes)|;
      c < |xml| && EndsTag(xml, c) && (xml[c] == GT <==> t.kind != SelfClosed) &&
      xml[p..c] == QualifiedName(t) + WriteAttributes(t.attributes)
  {
    var p := at + |Opening(t)|;
    var q := QualifiedName(t);
    var w := WriteAttributes(t.attributes);
    ClosingAt(xml, p + |q| + |w|, t);
    DeclarationBytes(xml, p, q, w);
  }

  /** Two parts written one after the other read back as their concatenation. */
  lemma DeclarationBytes(xml: Bytes, p: nat, q: Bytes, w: Bytes)
    requires Occurs(xml, p, q) && Occurs(xml, p + |q|, w)
    ensures p + |q| + |w| <= |xml| && xml[p..p + |q| + |w|] == q + w
  {
    OccursJoin(xml, p, q, w);
    OccursSlice(xml, p, q + w);
  }

  /** `String.trim()` leaves a name alone. */
  lemma TrimName(s: Bytes)
    requires NameBytes(s)
    ensures Trim(s) == s
  {
    NameBytesTrimmed(s);
    TrimPadded([], s, []);
    assert [] + s + [] == s;
  }

  /** The `Tag` constructor reads back a written name without a namespace: the trimmed declaration. */
  lemma MakeTagName(xml: Bytes, start: nat, t: Tag, position: int, kind: Kind)
    requires ValidName(t.name) && t.namespace.None? && t.attributes == [] && !t.cdata
    requires start + |t.name| <= |xml| && xml[start..start + |t.name|] == t.name
    ensures MakeTag(xml, start, |t.name|, 0, position, kind, false) == Found(t.(position := position, kind := kind))
  {
    assert t.(position := position, kind := kind) == Tag(t.name, None, position, kind, [], false);
    TrimName(t.name);
  }

  /** The `Tag` constructor reads back a written "ns:name", cut at the recorded colon. */
  lemma MakeTagPrefixed(xml: Bytes, start: nat, t: Tag, position: int, kind: Kind)
    requires t.namespace.Some? && t.attributes == [] && !t.cdata && 1 <= start
    requires start + |QualifiedName(t)| <= |xml| && xml[start..start + |QualifiedName(t)|] == QualifiedName(t)
    ensures MakeTag(xml, start, |QualifiedName(t)|, start + |t.namespace.value|, position, kind, false)
         == Found(t.(position := position, kind := kind))
  {
    var ns := t.namespace.value;
    var q := QualifiedName(t);
    assert t.(position := position, kind := kind) == Tag(t.name, Some(ns), position, kind, [], false);
    assert q[..|ns|] == ns && q[|ns| + 1..] == t.name;
    assert xml[start..start + |ns|] == q[..|ns|];
    assert xml[start + |ns| + 1..start + |q|] == q[|ns| + 1..];
  }

  /** At a terminator with no '=' seen, `getTag` calls the `Tag` constructor. */
  lemma TagEndMakes(xml: Bytes, e: ScanState)
    requires e.cursor < |xml| && EndsTag(xml, e.cursor) && !e.inAtt
    requires xml[e.cursor] != GT ==> e.kind == Open
    ensures var gt := xml[e.cursor] == GT;
      TagEnd(xml, e) == MakeTag(xml, e.startTag + 1, e.cursor - e.startTag - 1, e.nsPos, e.cursor + 1,
                                if gt then e.kind else SelfClosed, gt && e.cdata)
  {
  }

  /** At a terminator after an '=', `getTag` calls the attribute lexer. */
  lemma TagEndLexes(xml: Bytes, e: ScanState)
    requires e.cursor < |xml| && EndsTag(xml, e.cursor) && e.inAtt && e.kind == Open
    ensures var gt := xml[e.cursor] == GT;
      TagEnd(xml, e) == LexAt(xml, e.startTag, e.cursor, if gt then Open else SelfClosed, e.nsPos, gt && e.cdata)
  {
  }

  /** The attribute lexer reads back the written tag from `getTag`'s locals at its terminator. */
  lemma LexAtWritten(xml: Bytes, e: ScanState, t: Tag)
    requires Writable(t) && t.attributes != [] && e.startTag + 1 <= e.cursor < |xml|
    requires xml[e.startTag + 1..e.cursor] == QualifiedName(t) + WriteAttributes(t.attributes)
    requires NamespaceAt(t, e.nsPos - e.startTag)
    ensures LexAt(xml, e.startTag, e.cursor, t.kind, e.nsPos, false) == Found(t.(position := e.cursor + 1))
  {
    assert t.(position := e.cursor + 1, kind := t.kind) == t.(position := e.cursor + 1);
    LexWritten(t, e.cursor + 1, e.nsPos - e.startTag, t.kind);
  }

  /** The `Tag` constructor reads back the written tag from `getTag`'s locals at its terminator. */
  lemma MakeTagAtWritten(xml: Bytes, e: ScanState, t: Tag)
    requires Writable(t) && t.attributes == [] && e.startTag + 1 <= e.cursor <= |xml|
    requires xml[e.startTag + 1..e.cursor] == QualifiedName(t)
    requires e.nsPos == if t.namespace.Some? then e.startTag + 1 + |t.namespace.value| else 0
    ensures MakeTag(xml, e.startTag + 1, e.cursor - e.startTag - 1, e.nsPos, e.cursor + 1, t.kind, false)
         == Found(t.(position := e.cursor + 1))
  {
    assert t.(position := e.cursor + 1, kind := t.kind) == t.(position := e.cursor + 1);
    assert e.cursor - e.startTag - 1 == |QualifiedName(t)|;
    if t.namespace.Some? {
      MakeTagPrefixed(xml, e.startTag + 1, t, e.cursor + 1, t.kind);
    } else {
      MakeTagName(xml, e.startTag + 1, t, e.cursor + 1, t.kind);
    }
  }

  /**
   * `getTag`'s locals `e` at the terminator of a declaration of `t`: the
   * name and attributes lie between '<' (or "</") and the terminator, the
   * namespace colon is recorded, and the attribute path is taken exactly
   * when attributes were written.
   */
  predicate EndsWritten(xml: Bytes, e: ScanState, t: Tag) {
    Writable(t) && e.startTag + 1 <= e.cursor < |xml| && EndsTag(xml, e.cursor) &&
    (xml[e.cursor] == GT <==> t.kind != SelfClosed) &&
    e.inAtt == (t.attributes != []) && !e.cdata && e.kind == (if t.kind == Close then Close else Open) &&
    xml[e.startTag + 1..e.cursor] == QualifiedName(t) + WriteAttributes(t.attributes) &&
    e.nsPos == if t.namespace.Some? then e.startTag + 1 + |t.namespace.value| else 0
  }

  /** From `getTag`'s locals at the terminator of a declaration, the tag that was written. */
  lemma TagEndFound(xml: Bytes, e: ScanState, t: Tag)
    requires EndsWritten(xml, e, t)
    ensures TagEnd(xml, e) == Found(t.(position := e.cursor + 1))
  {
    if t.attributes != [] {
      LexAtWritten(xml, e, t);
      TagEndLexes(xml, e);
    } else {
      assert QualifiedName(t) + WriteAttributes(t.attributes) == QualifiedName(t);
      MakeTagAtWritten(xml, e, t);
      TagEndMakes(xml, e);
    }
  }

  /** What `getTag` holds at the terminator of a written declaration: all that `TagEndFound` needs. */
  lemma WrittenEndFacts(xml: Bytes, st: ScanState, t: Tag)
    requires Writable(t) && WrittenAt(xml, st.cursor, t) && st.nsPos == 0 && !st.inAtt && !st.cdata
    ensures EndsWritten(xml, WrittenEnd(st, t), t) && WrittenEnd(st, t).cursor + 1 == st.cursor + EndOffset(t)
  {
    var e := WrittenEnd(st, t);
    WrittenEndIs(st, t);
    EndOffsetParts(t);
    assert e.startTag + 1 == st.cursor + |Opening(t)|;
    assert e.cursor == e.startTag + 1 + |QualifiedName(t)| + |WriteAttributes(t.attributes)|;
    EndsWrittenAt(xml, st.cursor, e, t);
  }

  /** Locals that sit on the terminator of a declaration written at `at` and record it. */
  lemma EndsWrittenAt(xml: Bytes, at: nat, e: ScanState, t: Tag)
    requires Writable(t) && WrittenAt(xml, at, t)
    requires e.startTag + 1 == at + |Opening(t)|
    requires e.cursor == e.startTag + 1 + |QualifiedName(t)| + |WriteAttributes(t.attributes)|
    requires e.inAtt == (t.attributes != []) && !e.cdata && e.kind == (if t.kind == Close then Close else Open)
    requires e.nsPos == if t.namespace.Some? then e.startTag + 1 + |t.namespace.value| else 0
    ensures EndsWritten(xml, e, t)
  {
    WrittenDeclaration(xml, at, t);
  }

  /** `Scan` returns what `TagEnd` makes of the state in which the declaration ends. */
  lemma ScanEnds(xml: Bytes, st: ScanState, e: ScanState)
    requires EndOf(xml, st) == Some(e) && e.cursor < |xml| && EndsTag(xml, e.cursor)
    ensures Scan(xml, st) == TagEnd(xml, e)
  {
  }

  /** Where the middle parts of a four-part buffer sit. */
  lemma OccursMiddle(a: Bytes, b: Bytes, c: Bytes, d: Bytes)
    ensures Occurs(a + b + c + d, |a|, b) && Occurs(a + b + c + d, |a| + |b|, c)
  {
    assert a + b + c + d == a + b + (c + d) == a + (b + (c + d));
    OccursIn(a, b, c + d);
    OccursIn(a + b, c, d);
  }

  /** Where the text and the written tag sit in `pre + text + Write(t) + rest`. */
  lemma DocumentParts(pre: Bytes, text: Bytes, t: Tag, rest: Bytes)
    requires t.kind == Close ==> t.attributes == []
    ensures var xml := pre + text + Write(t) + rest;
      Occurs(xml, |pre|, text) && WrittenAt(xml, |pre| + |text|, t)
  {
    OccursMiddle(pre, text, Write(t), rest);
    OccursWritten(pre + text + Write(t) + rest, |pre| + |text|, t);
  }

  /** `Scan` finds the tag that `TagEnd` makes at the end state of a written declaration. */
  lemma ScanTagFound(xml: Bytes, st: ScanState, e: ScanState, t: Tag)
    requires EndOf(xml, st) == Some(e) && EndsWritten(xml, e, t)
    ensures Scan(xml, st) == Found(t.(position := e.cursor + 1))
  {
    TagEndFound(xml, e, t);
    ScanEnds(xml, st, e);
  }

  /** Scanning from just before a written tag finds it. */
  lemma ScanWrittenTag(xml: Bytes, at: ScanState, t: Tag)
    requires Writable(t) && WrittenAt(xml, at.cursor, t)
    requires !at.inTag && !at.inCdata && !at.space && at.nsPos == 0 && !at.inAtt && !at.cdata
    ensures Scan(xml, at) == Found(t.(position := at.cursor + EndOffset(t)))
  {
    WrittenEndFacts(xml, at, t);
    ScanWritten(xml, at, t);
    ScanTagFound(xml, at, WrittenEnd(at, t), t);
  }

  /** Text without '<' before a tag changes nothing that `Scan` finds. */
  lemma ScanSkipsText(xml: Bytes, st: ScanState, text: Bytes, last: ScanState)
    requires !st.inTag && !st.inCdata && Occurs(xml, st.cursor, text) && LT !in text
    requires last == st.(cursor := st.cursor + |text|)
    ensures Scan(xml, st) == Scan(xml, last)
  {
    SkipText(xml, st, text, last);
  }

  /** From a cursor before text without '<', `getTag` returns the tag written after the text. */
  lemma FoundAfterText(xml: Bytes, p: nat, text: Bytes, t: Tag)
    requires Writable(t) && LT !in text && Occurs(xml, p, text) && WrittenAt(xml, p + |text|, t)
    ensures NextTag(xml, p) == Found(t.(position := p + |text| + EndOffset(t)))
  {
    SkipToTag(xml, p, text);
    ScanWrittenFrom(xml, p + |text|, p, t);
  }

  /** `getTag` passes over text without '<' at the cursor. */
  lemma SkipToTag(xml: Bytes, p: nat, text: Bytes)
    requires LT !in text && Occurs(xml, p, text)
    ensures NextTag(xml, p) == Scan(xml, ScanState(p + |text|, p, 0, false, false, false, false, false, Open))
  {
    var s0 := ScanStart(p);
    ScanSkipsText(xml, s0, text, s0.(cursor := p + |text|));
  }

  /** `getTag`'s loop, outside a tag at `q`, finds the tag written there. */
  lemma ScanWrittenFrom(xml: Bytes, q: nat, p: nat, t: Tag)
    requires Writable(t) && WrittenAt(xml, q, t)
    ensures Scan(xml, ScanState(q, p, 0, false, false, false, false, false, Open)) == Found(t.(position := q + EndOffset(t)))
  {
    ScanWrittenTag(xml, ScanState(q, p, 0, false, false, false, false, false, Open), t);
  }

  /**
   * The scanner reads back a written declaration: `getTag` from the start
   * of text without '<' finds the tag that follows it, with its name,
   * namespace, kind and attributes, positioned just past its '>' (on the
   * '>' of "/>" for a self-closed tag).
   */
  lemma RoundTrip(pre: Bytes, text: Bytes, t: Tag, rest: Bytes)
    requires Writable(t) && LT !in text
    ensures NextTag(pre + text + Write(t) + rest, |pre|) == Found(t.(position := |pre| + |text| + EndOffset(t)))
  {
    DocumentParts(pre, text, t, rest);
    FoundAfterText(pre + text + Write(t) + rest, |pre|, text, t);
  }

  /**
   * `getTag` does not track quotes: a '>' inside a quoted attribute value
   * ends the declaration. `<a x="1>2">` is read as the open tag `a` with
   * no attribute, and scanning resumes at the '2'.
   */
  lemma GtInValueEndsTag()
    ensures NextTag([LT, 0x61, SPACE, 0x78, EQ, QUOTE, 0x31, GT, 0x32, QUOTE, GT], 0)
         == Found(Tag([0x61], None, 8, Open, [], false))
  {
    var xml: Bytes := [LT, 0x61, SPACE, 0x78, EQ, QUOTE, 0x31, GT, 0x32, QUOTE, GT];
    var stop := ScanStart(0).(startTag := 0, inTag := true, kind := Open, cursor := 7, space := true, inAtt := true);
    QuotedGtScan(xml, stop);
    var decl := xml[1..7];
    var end := LexStart.(cursor := 6, name := Some([0x61]), endName := true, startAttName := 1,
                         att := Some([0x78]), startAttValue := 3, quotes := 1);
    QuotedValueLex(decl, end);
  }

  /** `getTag`'s loop on `<a x="1>2">`: '<' opens, the space and the '=' are noted, and the '>' at 7 stops it. */
  lemma QuotedGtScan(xml: Bytes, stop: ScanState)
    requires xml == [LT, 0x61, SPACE, 0x78, EQ, QUOTE, 0x31, GT, 0x32, QUOTE, GT]
    requires stop == ScanStart(0).(startTag := 0, inTag := true, kind := Open, cursor := 7, space := true, inAtt := true)
    ensures EndOf(xml, ScanStart(0)) == Some(stop)
  {
    var named := ScanStart(0).(startTag := 0, inTag := true, kind := Open, cursor := 4, space := true);
    QuotedGtValue(xml, named, stop);
    var inTag := ScanStart(0).(startTag := 0, inTag := true, kind := Open);
    assert EndOf(xml, inTag.(cursor := 3, space := true)) == Some(stop);
    assert EndOf(xml, inTag.(cursor := 2)) == Some(stop);
    assert EndOf(xml, inTag.(cursor := 1)) == Some(stop);
  }

  /** From the '=' of `<a x="1>2">` on: the quote and the digit are passed over, and the '>' stops the loop. */
  lemma QuotedGtValue(xml: Bytes, named: ScanState, stop: ScanState)
    requires xml == [LT, 0x61, SPACE, 0x78, EQ, QUOTE, 0x31, GT, 0x32, QUOTE, GT]
    requires named == ScanStart(0).(startTag := 0, inTag := true, kind := Open, cursor := 4, space := true)
    requires stop == named.(cursor := 7, inAtt := true)
    ensures EndOf(xml, named) == Some(stop)
  {
    assert EndOf(xml, stop) == Some(stop);
    assert EndOf(xml, stop.(cursor := 6)) == Some(stop);
    assert EndOf(xml, stop.(cursor := 5)) == Some(stop);
  }

  /** The attribute lexer on `a x="1`: the name is read, the value's quote never closes, and no attribute is added. */
  lemma QuotedValueLex(decl: Bytes, end: LexState)
    requires decl == [0x61, SPACE, 0x78, EQ, QUOTE, 0x31]
    requires end == LexStart.(cursor := 6, name := Some([0x61]), endName := true, startAttName := 1,
                              att := Some([0x78]), startAttValue := 3, quotes := 1)
    ensures LexFrom(decl, 0, LexStart) == Ok(end)
  {
    var s: Bytes := [SPACE, 0x78];
    assert TrimStart(s, 1) == 1 && TrimStart(s, 0) == 1 && TrimEnd(s, 1, 2) == 2;
    assert Trim(s) == [0x78];
    var named := LexStart.(cursor := 2, name := Some([0x61]), endName := true, startAttName := 1);
    var valued := named.(cursor := 4, att := Some([0x78]), startAttValue := 3);
    assert LexFrom(decl, 0, end) == Ok(end);
    assert LexFrom(decl, 0, end.(cursor := 5)) == Ok(end);
    assert LexFrom(decl, 0, valued) == Ok(end);
    assert decl[1..3] == s;
    assert LexFrom(decl, 0, named.(cursor := 3)) == Ok(end);
    assert LexFrom(decl, 0, named) == Ok(end);
    assert decl[..1] == [0x61];
    assert LexFrom(decl, 0, LexStart.(cursor := 1)) == Ok(end);
  }

  /*
   * CDATA sections and the end of input
   */

  /** `getTag` returns null exactly when its loop runs out of input before the end of a declaration. */
  lemma NoTagAtEnd(xml: Bytes, cursor: nat)
    ensures NextTag(xml, cursor) == NoTag <==> EndOf(xml, ScanStart(cursor)).None?
  {
  }

  /** Inside a CDATA section, every byte where no "]]>" starts is passed over: '>' and "/>" end nothing there. */
  lemma {:induction false} SkipCdata(xml: Bytes, st: ScanState, n: nat)
    requires st.inTag && st.inCdata && NoCloseFrom(xml, st.cursor, n)
    ensures EndOf(xml, st) == EndOf(xml, st.(cursor := st.cursor + n))
    decreases n
  {
    if n > 0 {
      assert NoCloseFrom(xml, st.cursor, n - 1);
      SkipCdata(xml, st, n - 1);
      var last := st.(cursor := st.cursor + (n - 1));
      CdataByte(xml, last);
      assert last.(cursor := last.cursor + 1) == st.(cursor := st.cursor + n);
    }
  }

  /** Inside a CDATA section, a byte where no "]]>" starts is passed over. */
  lemma CdataByte(xml: Bytes, st: ScanState)
    requires st.inTag && st.inCdata && st.cursor < |xml| && !(xml[st.cursor] == RBRACKET && CdataCloseAt(xml, st.cursor))
    ensures EndOf(xml, st) == EndOf(xml, st.(cursor := st.cursor + 1))
  {
    assert Step(xml, st) == Next(st.(cursor := st.cursor + 1));
  }

  /** No "]]>" starts in the `n` bytes of `xml` from `p` on. */
  predicate NoCloseFrom(xml: Bytes, p: nat, n: nat) {
    p + n <= |xml| && forall j | p <= j < p + n :: !(xml[j] == RBRACKET && CdataCloseAt(xml, j))
  }

  /** "]]>" starts at offset `k` of `s`. */
  predicate CloseStartsAt(s: Bytes, k: nat) {
    k + 3 <= |s| && s[k] == RBRACKET && s[k + 1] == RBRACKET && s[k + 2] == GT
  }

  /** "]]>" does not occur in `s`: the text of a well-formed CDATA section. */
  predicate NoCdataEnd(s: Bytes) {
    forall k | 0 <= k < |s| :: !CloseStartsAt(s, k)
  }

  /**
   * In the text of a CDATA section followed by its "]]>", no "]]>" starts
   * before that one: a ']' near the end of the text runs into the closing
   * "]]", never into a '>'.
   */
  lemma CdataTextOpen(xml: Bytes, p: nat, inner: Bytes)
    requires Occurs(xml, p, inner) && NoCdataEnd(inner)
    requires p + |inner| + 3 <= |xml| && xml[p + |inner|..p + |inner| + 3] == CDATA_CLOSE
    ensures NoCloseFrom(xml, p, |inner|)
  {
    var e := p + |inner|;
    assert xml[e] == RBRACKET && xml[e + 1] == RBRACKET by {
      assert xml[e] == xml[e..e + 3][0] && xml[e + 1] == xml[e..e + 3][1];
    }
    forall j | p <= j < e
      ensures !(xml[j] == RBRACKET && CdataCloseAt(xml, j))
    {
      var k := j - p;
      assert !CloseStartsAt(inner, k);
      if k + 3 <= |inner| {
        OccursAt(xml, p, inner, k);
        OccursAt(xml, p, inner, k + 1);
        OccursAt(xml, p, inner, k + 2);
      } else {
        assert j + 2 == e || j + 2 == e + 1;
      }
    }
  }

  /**
   * A CDATA section met outside another one: its '<' starts an open tag
   * there, nothing between "<![CDATA[" and "]]>" is interpreted (']', '>'
   * and "/>" included), and the loop goes on after "]]>" with the CDATA
   * flag set.
   */
  lemma CdataSection(xml: Bytes, st: ScanState, inner: Bytes)
    requires !st.inCdata && Occurs(xml, st.cursor, CDATA_OPEN + inner + CDATA_CLOSE) && NoCdataEnd(inner)
    ensures var c := st.cursor;
      EndOf(xml, st) ==
        EndOf(xml, st.(cursor := c + |inner| + 12, startTag := c, inTag := true, kind := Open, cdata := true))
  {
    CdataSectionAt(xml, st, inner, st.(cursor := st.cursor + |inner| + 12, startTag := st.cursor, inTag := true, kind := Open, cdata := true));
  }

  /** `CdataSection` with the state after "]]>" given by name. */
  lemma CdataSectionAt(xml: Bytes, st: ScanState, inner: Bytes, done: ScanState)
    requires !st.inCdata && Occurs(xml, st.cursor, CDATA_OPEN + inner + CDATA_CLOSE) && NoCdataEnd(inner)
    requires done == st.(cursor := st.cursor + |inner| + 12, startTag := st.cursor, inTag := true, kind := Open, cdata := true)
    ensures EndOf(xml, st) == EndOf(xml, done)
  {
    var c := st.cursor;
    var inside := st.(startTag := c, inTag := true, kind := Open, cursor := c + 9, inCdata := true, cdata := true);
    CdataParts(xml, c, inner);
    EnterCdata(xml, st, inside);
    CdataInside(xml, c, inner, inside, done);
  }

  /** From the byte after "<![CDATA[", the loop passes over the text and its "]]>", and leaves the section. */
  lemma CdataInside(xml: Bytes, c: nat, inner: Bytes, inside: ScanState, done: ScanState)
    requires c + 9 + |inner| + 3 <= |xml| && Occurs(xml, c + 9, inner) && NoCdataEnd(inner)
    requires xml[c + 9 + |inner|..c + 9 + |inner| + 3] == CDATA_CLOSE
    requires inside.inTag && inside.inCdata && inside.cursor == c + 9
    requires done == inside.(cursor := c + |inner| + 12, inCdata := false)
    ensures EndOf(xml, inside) == EndOf(xml, done)
  {
    var e := c + 9 + |inner|;
    var last := inside.(cursor := e);
    CdataText(xml, inside, inner, last);
    LeaveCdata(xml, last);
    assert last.(cursor := last.cursor + 3, inCdata := false) == done;
  }

  /** The text of a section, from the byte after "<![CDATA[" up to its "]]>", is passed over. */
  lemma CdataText(xml: Bytes, st: ScanState, inner: Bytes, last: ScanState)
    requires st.inTag && st.inCdata && NoCdataEnd(inner) && Occurs(xml, st.cursor, inner)
    requires st.cursor + |inner| + 3 <= |xml| && xml[st.cursor + |inner|..st.cursor + |inner| + 3] == CDATA_CLOSE
    requires last == st.(cursor := st.cursor + |inner|)
    ensures EndOf(xml, st) == EndOf(xml, last)
  {
    CdataTextOpen(xml, st.cursor, inner);
    SkipCdata(xml, st, |inner|);
  }

  /** The delimiters and the text of a CDATA section written at `c`. */
  lemma CdataParts(xml: Bytes, c: nat, inner: Bytes)
    requires Occurs(xml, c, CDATA_OPEN + inner + CDATA_CLOSE)
    ensures c + 9 + |inner| + 3 <= |xml|
    ensures xml[c..c + 9] == CDATA_OPEN && Occurs(xml, c + 9, inner)
    ensures xml[c + 9 + |inner|..c + 9 + |inner| + 3] == CDATA_CLOSE
  {
    OccursSplit(xml, c, CDATA_OPEN + inner, CDATA_CLOSE);
    OccursSplit(xml, c, CDATA_OPEN, inner);
    OccursSlice(xml, c, CDATA_OPEN);
    OccursSlice(xml, c + 9 + |inner|, CDATA_CLOSE);
  }

  /** "<![CDATA[" at the cursor, outside a section, opens one. */
  lemma EnterCdata(xml: Bytes, st: ScanState, inside: ScanState)
    requires !st.inCdata && st.cursor + 9 <= |xml| && xml[st.cursor..st.cursor + 9] == CDATA_OPEN
    requires inside == st.(startTag := st.cursor, inTag := true, kind := Open, cursor := st.cursor + 9, inCdata := true, cdata := true)
    ensures EndOf(xml, st) == EndOf(xml, inside)
  {
    var c := st.cursor;
    CdataDelimiters(xml, c);
    assert xml[c] == xml[c..c + 9][0] && xml[c + 1] == xml[c..c + 9][1];
    assert Step(xml, st) == Next(inside);
  }

  /** "]]>" at the cursor, inside a section, closes it. */
  lemma LeaveCdata(xml: Bytes, st: ScanState)
    requires st.inTag && st.inCdata && st.cursor + 3 <= |xml| && xml[st.cursor..st.cursor + 3] == CDATA_CLOSE
    ensures EndOf(xml, st) == EndOf(xml, st.(cursor := st.cursor + 3, inCdata := false))
  {
    CdataDelimiters(xml, st.cursor);
    assert xml[st.cursor] == xml[st.cursor..st.cursor + 3][0];
    assert Step(xml, st) == Next(st.(cursor := st.cursor + 3, inCdata := false));
  }

  /** Once set, the CDATA flag stays set until the loop stops. */
  lemma {:induction false} EndOfKeepsCdata(xml: Bytes, st: ScanState)
    requires st.cdata
    ensures EndOf(xml, st).Some? ==> EndOf(xml, st).value.cdata
    decreases |xml| - st.cursor
  {
    if st.cursor < |xml| && Step(xml, st).Next? {
      EndOfKeepsCdata(xml, Step(xml, st).st);
    }
  }

  /**
   * After a CDATA section, the tag `getTag` returns carries the CDATA flag,
   * unless "/>" makes it self-closed.
   */
  lemma CdataFlagKept(xml: Bytes, st: ScanState)
    requires st.cdata
    ensures var r := Scan(xml, st); r.Found? && r.tag.kind != SelfClosed ==> r.tag.cdata
  {
    EndOfKeepsCdata(xml, st);
  }
}
