# XMLParserImpl in Dafny

This project models `XMLParserImpl`, the single-pass XML deserializer of
faltimiras/XMLParser. The parser reads an XML document as a byte buffer
and fills an instance of a root type `T`. It does so tag by tag, with no
tree in between. The model has three parts.

- **The tag scanner** (modules `Scanner` and `ScannerProofs`).
  - `getTag` walks the buffer from a cursor. It skips spaces and newlines
    outside a tag, and classifies the next declaration as open, close or
    self-closed. It also records the namespace colon and steps over CDATA
    sections.
  - `getTagWithAttributes` lexes `name="value"` pairs.
  - The `Tag` constructor splits a name from its namespace.
  - `getStartPosition` recovers where a close tag starts.
  - `isOpening` and `isClosing` are the predicates `IsOpening` and
    `IsClosing`. `parse` uses only `isOpening`, on the root's tag, and
    `BuilderProofs.RootTagOpens` states what it does there.
  - The two loops are written as `GetTag` and `GetTagWithAttributes`, each
    with the source's cursor and flags. Each is proved to compute a state
    machine over one byte at a time (`NextTag`, `Lex`).
  - What the scanner promises is proved about those state machines:
    progress, classification, CDATA handling, and reading back a written
    declaration.
- **The ignore tracker** (`Builder.CheckIgnore`, with lemmas in
  `BuilderProofs`). It skips tags before the root element. It also skips
  the subtree of an unmapped tag, up to the close tag of the same name.
- **The object builder** (modules `Objects`, `Numbers`, `Builder`,
  `BuilderProofs`, and class `Parser.XmlParser`).
  - Java reflection is replaced by a `Schema`, which maps a type name to
    its fields and their declared types.
  - The object graph is an arena (`Heap`) of records and lists.
  - A listener is the answer it gives (stop or continue), with every call
    recorded.
  - `Builder` gives every method of the parser as a function on a `State`.
  - Class `Parser.XmlParser` holds the parser's fields (`contexts`,
    `currentContext`, `ignoringTag`, `found`, `listeners`) and updates them
    in place. Its methods are proved to compute the `Builder` functions.
    The invariant `Valid` (every context and reference points into the heap,
    and `obj` is a `T`) holds across `parse`.

Three numeric conversions are modelled for a given width in module
`Numbers`: `Integer.valueOf`, `Long.valueOf` and `Boolean.valueOf`. An
exception that escapes `parse` becomes a `Fault`:
- a null input;
- a `new String`, `copyOfRange` or `substring` out of range;
- a tag whose name stayed null;
- an empty stack;
- a type the introspector cannot instantiate.

Where the code and the project's own description of the parser differ,
the model follows the code:
- `flushIncomplete` assigns each object popped from the stack to the
  context below it. It uses the field named by that lower context's own
  opening tag (`current.tag.name`), not the popped context's name.
- `flushIncomplete` also pops the root's context, so the stack ends empty
  rather than holding only the root.
- A number that does not parse does not abort `parse`. `setToObj`'s catch
  swallows the exception, and the field keeps its value
  (`Objects.SetToObjUnparsed`).

Some behaviours of the code are modelled as written:
- A close tag whose declaration holds an '=' goes to the attribute lexer,
  which reports it as an open tag.
- A declaration ended by "/>" after "</" stays a close tag.
- A self-closed tag never carries the CDATA flag.
- `getTag` does not track quotes. A '>' inside a quoted attribute value
  ends the declaration there, and a '<' inside one starts a new tag. So
  `<a x="1>2">` is read as the open tag `a` with no attribute, and
  scanning resumes at the '2' (`ScannerProofs.GtInValueEndsTag`). The
  lexer's round trips therefore hold for attribute values without '"',
  '<' or '>'.

## Model

| member | source | states |
|---|---|---|
| Bytes.TrimKeepsCore | src/main/java/cat/altimiras/xml/XMLParserImpl.java:371 | `trim()` cuts only bytes up to ' ' from both ends: the result is a contiguous part of the input, everything cut is white, and the result has no white byte at either end |
| Bytes.TrimPadded | src/main/java/cat/altimiras/xml/XMLParserImpl.java:367 | trimming white padding off a string with no white ends gives that string back |
| Scanner.StartPosition | src/main/java/cat/altimiras/xml/XMLParserImpl.java:704-711 | the distance from the start position to the tag's position is exactly the length of "</", the qualified name "ns:name" (or "name") and ">" |
| Scanner.MakeTag | src/main/java/cat/altimiras/xml/XMLParserImpl.java:685-697 | the `Tag` constructor either builds a tag with the given position, kind and CDATA flag and no attributes, or fails as `new String` throws |
| Scanner.MakeTagSplits | src/main/java/cat/altimiras/xml/XMLParserImpl.java:685-697 | the constructor succeeds exactly when its slices are in range; with no colon recorded the name is the trimmed declaration; with one, namespace, colon and name make up the declaration in order and the namespace ends at the colon |
| Scanner.CdataDelimiters | src/main/java/cat/altimiras/xml/XMLParserImpl.java:551-583 | the byte-by-byte comparisons recognise exactly the delimiters "<![CDATA[" and "]]>" |
| Scanner.Step | src/main/java/cat/altimiras/xml/XMLParserImpl.java:494-588 | one pass of `getTag`'s loop either moves the cursor strictly forward without passing the end of the buffer, or stops inside a tag on a '>' or on the '/' of "/>" |
| Scanner.TagStep | src/main/java/cat/altimiras/xml/XMLParserImpl.java:519-584 | inside a tag, a pass moves the cursor strictly forward, or stops with the locals unchanged on a terminator |
| Scanner.EndOf | src/main/java/cat/altimiras/xml/XMLParserImpl.java:494-589 | when the loop stops, it stops inside a tag, on a terminator, at or after the cursor it started from |
| Scanner.GetTag | src/main/java/cat/altimiras/xml/XMLParserImpl.java:479-590 | the source's loop, with its cursor and flags, returns what the state machine `NextTag` returns |
| Scanner.ScanByte | src/main/java/cat/altimiras/xml/XMLParserImpl.java:494-588 | the body of `getTag`'s loop computes one step `Step` of the state machine |
| Scanner.InTagByte | src/main/java/cat/altimiras/xml/XMLParserImpl.java:519-584 | the in-tag part of the loop body computes `TagStep` |
| Scanner.FinishTag | src/main/java/cat/altimiras/xml/XMLParserImpl.java:521-541 | the `return` statements at '>' and "/>" compute `TagEnd` |
| Scanner.GetTagWithAttributesAt | src/main/java/cat/altimiras/xml/XMLParserImpl.java:522-532 | the call with `Arrays.copyOfRange(xml, startTag + 1, cursor)` computes `LexAt` |
| Scanner.LexStep | src/main/java/cat/altimiras/xml/XMLParserImpl.java:608-642 | one pass of the attribute loop advances exactly one byte, or fails where a `new String` throws |
| Scanner.Lex | src/main/java/cat/altimiras/xml/XMLParserImpl.java:592-645 | `getTagWithAttributes` yields a tag with the given position, kind and CDATA flag, or a fault (a name left null, a slice out of range); it never yields "no tag" |
| Scanner.GetTagWithAttributes | src/main/java/cat/altimiras/xml/XMLParserImpl.java:592-645 | the source's attribute loop returns what the state machine `Lex` returns |
| Scanner.LexByte | src/main/java/cat/altimiras/xml/XMLParserImpl.java:610-641 | the body of the attribute loop computes `LexStep` |
| ScannerProofs.ScanFound | src/main/java/cat/altimiras/xml/XMLParserImpl.java:494-590 | a tag found from a cursor ends past it and within the buffer, just after a '>' or on the '>' of "/>"; an open tag ends with '>', a self-closed one with "/>"; a close tag began with "</" at or after the cursor, any other with '<' |
| ScannerProofs.NextTagProgress | src/main/java/cat/altimiras/xml/XMLParserImpl.java:88-94 | every tag `getTag` returns has its end position strictly past the cursor and within the buffer, so `parse`'s loop ends |
| ScannerProofs.NoTagAtEnd | src/main/java/cat/altimiras/xml/XMLParserImpl.java:494-589 | `getTag` returns null exactly when its loop runs out of input before a terminator |
| ScannerProofs.NoLtNoTag | src/main/java/cat/altimiras/xml/XMLParserImpl.java:494-589 | from a cursor past which the buffer holds no '<', `getTag` returns null |
| ScannerProofs.SkipText | src/main/java/cat/altimiras/xml/XMLParserImpl.java:496-517 | outside a tag, bytes other than '<' are passed over and change nothing the loop finds later |
| ScannerProofs.ScanOpening | src/main/java/cat/altimiras/xml/XMLParserImpl.java:505-516 | "</" starts a close tag with `startTag` on the '/', and '<' an open tag with `startTag` on the '<' |
| ScannerProofs.ScanQualifiedName | src/main/java/cat/altimiras/xml/XMLParserImpl.java:545-547 | reading a qualified name records the position of its colon, and only of a colon before any space |
| ScannerProofs.EnterCdata | src/main/java/cat/altimiras/xml/XMLParserImpl.java:551-568 | "<![CDATA[" outside a section starts a tag at its '<', enters the section past its nine bytes and sets the CDATA flag |
| ScannerProofs.SkipCdata | src/main/java/cat/altimiras/xml/XMLParserImpl.java:573-584 | inside a CDATA section every byte where no "]]>" starts is passed over, ']' included: '>' and "/>" end nothing there |
| ScannerProofs.CdataTextOpen | src/main/java/cat/altimiras/xml/XMLParserImpl.java:573-584 | in a CDATA text free of "]]>" and followed by its "]]>", no "]]>" starts before that one, even where the text ends with ']' |
| ScannerProofs.LeaveCdata | src/main/java/cat/altimiras/xml/XMLParserImpl.java:574-582 | "]]>" inside a section leaves it past its three bytes |
| ScannerProofs.CdataSection | src/main/java/cat/altimiras/xml/XMLParserImpl.java:551-583 | a whole CDATA section whose text holds no "]]>" is read as the start of an open tag at its '<', with nothing in its text interpreted (']', '>' and "/>" included), and the loop goes on after "]]>" with the CDATA flag set |
| ScannerProofs.CdataFlagKept | src/main/java/cat/altimiras/xml/XMLParserImpl.java:521-540 | once a CDATA section was read, the tag returned carries the CDATA flag unless "/>" makes it self-closed |
| ScannerProofs.LexAttributes | src/main/java/cat/altimiras/xml/XMLParserImpl.java:623-636 | written `name="value"` pairs are appended to the attributes in order, each name trimmed and each value, free of '"', '<' and '>', exactly the bytes between the quotes ('=' included), and nothing else the lexer holds changes |
| ScannerProofs.LexWritten | src/main/java/cat/altimiras/xml/XMLParserImpl.java:592-645 | the attribute lexer reads a written declaration back as the tag it came from: the same name, namespace and attributes, in order |
| ScannerProofs.TagEndFound | src/main/java/cat/altimiras/xml/XMLParserImpl.java:521-541 | at the terminator of a written declaration, the tag returned is the written one, positioned just past the terminator |
| ScannerProofs.ScanWrittenTag | src/main/java/cat/altimiras/xml/XMLParserImpl.java:479-590 | scanning from just before a written declaration finds exactly that tag, positioned past its '>' (on the '>' of "/>") |
| ScannerProofs.GtInValueEndsTag | src/main/java/cat/altimiras/xml/XMLParserImpl.java:505-541 | `getTag` on `<a x="1>2">` stops at the '>' inside the quotes and returns the open tag `a` with no attribute, positioned at the '2' |
| ScannerProofs.RoundTrip | src/main/java/cat/altimiras/xml/XMLParserImpl.java:479-590 | `getTag` from the start of text without '<' returns the tag written after it, with its name, namespace, kind and attributes (values free of '"', '<' and '>'), positioned past its '>' (on the '>' of "/>") |
| Numbers.ParseDecimal | src/main/java/cat/altimiras/xml/XMLParserImpl.java:259-264 | `Integer.valueOf` and `Long.valueOf` give a value within the type's signed range, from a non-empty string, negative only after a '-' |
| Numbers.ParseShow | src/main/java/cat/altimiras/xml/XMLParserImpl.java:259-264 | reading back the decimal form of any `int` (or `long`) gives that number |
| Numbers.ParsePlus | src/main/java/cat/altimiras/xml/XMLParserImpl.java:259-260 | a leading '+' reads as no sign at all |
| Numbers.ParseRejects | src/main/java/cat/altimiras/xml/XMLParserImpl.java:259-264 | the empty string, a lone sign and a string starting with any other non-digit do not parse |
| Numbers.ParseBool | src/main/java/cat/altimiras/xml/XMLParserImpl.java:271-272 | `Boolean.valueOf` is true exactly for a four-byte string each of whose bytes is the corresponding letter of "true" or of "TRUE", i.e. "true" in any case |
| Numbers.ParseShowBool | src/main/java/cat/altimiras/xml/XMLParserImpl.java:271-272 | reading back "true" or "false" gives the boolean, and "TRUE" reads as true |
| Objects.FieldOf | src/main/java/cat/altimiras/xml/XMLParserImpl.java:217-218 | a field is found exactly when the object is a record of a schema type that declares that name; a list has no fields |
| Objects.ConvertTo | src/main/java/cat/altimiras/xml/XMLParserImpl.java:252-275 | `convertTo` passes references through unchanged and converts to a number or boolean only from text; an int or long result is in the range of its width, and a boolean field always gets a boolean from text (`Boolean.valueOf` never throws); the values are stated by `ConvertParses`, `ConvertLongParses` and `ConvertBoolParses` |
| Objects.SetToObj | src/main/java/cat/altimiras/xml/XMLParserImpl.java:211-226 | `setToObj` changes only the target object, keeps the heap's size, keeps a list a list and a record's type |
| Objects.SetAttributes | src/main/java/cat/altimiras/xml/XMLParserImpl.java:285-291 | `setAttributes` changes only the target object, keeps the heap's size and the object's kind and type |
| Objects.SetToObjClosed | src/main/java/cat/altimiras/xml/XMLParserImpl.java:211-226 | assigning a value that points into the heap keeps every reference in the heap |
| Objects.SetAttributesClosed | src/main/java/cat/altimiras/xml/XMLParserImpl.java:285-291 | assigning attributes keeps every reference in the heap |
| Objects.NewClosed | src/main/java/cat/altimiras/xml/XMLParserImpl.java:434 | adding an object whose references point into the heap keeps every reference in the heap |
| Objects.SetToObjStores | src/main/java/cat/altimiras/xml/XMLParserImpl.java:213-219 | a list gets the value appended at its end; a String field of a record gets the text itself |
| Objects.ConvertParses | src/main/java/cat/altimiras/xml/XMLParserImpl.java:259-260 | `convertTo` on an int field turns the decimal form of an `int` back into that `int` |
| Objects.SetToObjParses | src/main/java/cat/altimiras/xml/XMLParserImpl.java:211-220 | an int field given the decimal form of an `int` holds that `int` |
| Objects.ConvertLongParses | src/main/java/cat/altimiras/xml/XMLParserImpl.java:261-262 | `convertTo` on a long field turns the decimal form of a `long` back into that `long` |
| Objects.ConvertBoolParses | src/main/java/cat/altimiras/xml/XMLParserImpl.java:271-272 | `convertTo` on a boolean field never fails on text, and turns `Boolean.toString(b)` back into `b` |
| Objects.SetToObjUnparsed | src/main/java/cat/altimiras/xml/XMLParserImpl.java:211-225 | text that does not parse as an int or long for such a field leaves the whole heap unchanged: `convertTo` throws and `setToObj`'s catch swallows it |
| Objects.SetToObjMissing | src/main/java/cat/altimiras/xml/XMLParserImpl.java:217-220 | a name the object's type does not declare leaves the whole heap unchanged |
| Objects.SetAttributesLastWins | src/main/java/cat/altimiras/xml/XMLParserImpl.java:285-291 | after `setAttributes`, a String field named by an attribute holds the value of the last attribute with that name |
| Builder.Register | src/main/java/cat/altimiras/xml/XMLParserImpl.java:62-67 | `register` maps the name to the new listener, replacing any earlier one; every other listener and the rest of the parser's state stay as they were |
| Builder.Notify | src/main/java/cat/altimiras/xml/XMLParserImpl.java:458-469 | `notify` returns the registered listener's answer, and false for a name with no listener; exactly a registered name's call is recorded, with the value given; with no listener nothing changes |
| Builder.CheckIgnore | src/main/java/cat/altimiras/xml/XMLParserImpl.java:172-202 | `checkIgnoreTag` changes only `found` and `ignoringTag`: `found` becomes true on the root's name and stays true, and the ignored tag is kept or cleared, never replaced |
| Builder.Instance | src/main/java/cat/altimiras/xml/XMLParserImpl.java:327-332 | `getInstance` on a field's declared type only adds to the heap; an object made is at the first new address |
| Builder.OnOpen | src/main/java/cat/altimiras/xml/XMLParserImpl.java:393-448 | `onOpenTag` only adds to the heap; the context it returns has the tag and points into the heap; when it returns null the heap is unchanged (each branch is stated by `OpenValue`, `OpenList`, `OpenObject` and `OpenElement`) |
| Builder.OnSelfClosed | src/main/java/cat/altimiras/xml/XMLParserImpl.java:303-338 | `onSelfClosedTag` only adds to the heap; when it returns null the heap is unchanged; otherwise the object given to the listener points into the heap (the branches are stated by `SelfClosedObject`, `SelfClosedList` and `SelfClosedElement`) |
| Builder.Content | src/main/java/cat/altimiras/xml/XMLParserImpl.java:363-372 | a value's text is found only when the close tag starts within the buffer and not before the open tag's end |
| Builder.OnClose | src/main/java/cat/altimiras/xml/XMLParserImpl.java:351-381 | `onCloseTag` leaves the stack and the heap's size as they were; it fails on an empty stack exactly for an object or list context, and on a bad slice exactly for a value whose text cannot be cut (the assignments are stated by `CloseValue`, `CloseObject` and `CloseElement`) |
| Builder.Dispatch | src/main/java/cat/altimiras/xml/XMLParserImpl.java:96-140 | one pass of `parse`'s loop keeps every context pointing into the heap |
| Builder.Run | src/main/java/cat/altimiras/xml/XMLParserImpl.java:88-141 | `parse`'s loop keeps every context pointing into the heap |
| Builder.FlushInto | src/main/java/cat/altimiras/xml/XMLParserImpl.java:156-162 | `flushIncomplete`'s assignments keep the heap's size; which objects they touch is stated by `Builder.FlushIntoFrame`, and what they assign, under which name, by `FlushOpenElement` |
| Builder.FlushIntoFrame | src/main/java/cat/altimiras/xml/XMLParserImpl.java:154-163 | `flushIncomplete`'s assignments write only to the objects of the contexts below the popped one, and no object changes between list and record |
| Builder.Flush | src/main/java/cat/altimiras/xml/XMLParserImpl.java:154-163 | `flushIncomplete` empties the stack and keeps the heap's size |
| Builder.Parse | src/main/java/cat/altimiras/xml/XMLParserImpl.java:80-149 | `parse` fails on a null input, and otherwise returns the root object `obj`, which is in the heap |
| BuilderProofs.Track | src/main/java/cat/altimiras/xml/XMLParserImpl.java:172-202 | `checkIgnoreTag` over a run of tags changes only `found` and `ignoringTag`, sets `found` exactly when the root's name or an earlier `found` occurs, and lets through only tags from the run |
| BuilderProofs.SkipsBeforeRoot | src/main/java/cat/altimiras/xml/XMLParserImpl.java:176-184 | until the first tag named like the root type, every tag is skipped and nothing changes; that tag goes through and sets `found` |
| BuilderProofs.IgnoreWindow | src/main/java/cat/altimiras/xml/XMLParserImpl.java:186-199 | while an open tag is ignored, every tag is skipped up to the first close tag of its name, whatever the nesting; that close tag is skipped too and ends the window |
| BuilderProofs.SelfClosedWindow | src/main/java/cat/altimiras/xml/XMLParserImpl.java:186-195 | an ignored self-closed tag's window ends on the very next tag, which goes through, unless it is a close tag of the same name, which is skipped |
| BuilderProofs.NothingIgnored | src/main/java/cat/altimiras/xml/XMLParserImpl.java:196-201 | with the root found and no window open, no tag is skipped and nothing changes |
| BuilderProofs.DispatchStack | src/main/java/cat/altimiras/xml/XMLParserImpl.java:112-140 | an open tag pushes at most one context, which becomes `currentContext` and holds the tag; a close tag pops at most one; a self-closed tag leaves the stack alone |
| BuilderProofs.UnmappedOpenIgnored | src/main/java/cat/altimiras/xml/XMLParserImpl.java:131-135 | an open tag with no field of its name, outside a list, becomes the ignored tag and nothing else changes |
| BuilderProofs.UnmappedSelfClosedIgnored | src/main/java/cat/altimiras/xml/XMLParserImpl.java:119-125 | a self-closed tag with no field of its name on the top object, outside a list, becomes the ignored tag and nothing else changes |
| BuilderProofs.RootCloseEnds | src/main/java/cat/altimiras/xml/XMLParserImpl.java:101-108 | the root's close tag, outside any ignore window, ends the loop and changes nothing |
| BuilderProofs.RunBreaks | src/main/java/cat/altimiras/xml/XMLParserImpl.java:112-128 | a pass that breaks ends the loop with the state it leaves |
| BuilderProofs.RunContinues | src/main/java/cat/altimiras/xml/XMLParserImpl.java:88-94 | a pass that does not break goes on from the tag's end position, which is past the cursor |
| BuilderProofs.RunEnds | src/main/java/cat/altimiras/xml/XMLParserImpl.java:88-93 | at the end of the input, or with no further tag, the loop ends with the state it has |
| BuilderProofs.RegisterThenNotify | src/main/java/cat/altimiras/xml/XMLParserImpl.java:458-469 | after `register`, `notify` for the name returns the new listener's answer and records the call; for a name with no listener it returns false and changes nothing |
| BuilderProofs.ListenerStopsOnValue | src/main/java/cat/altimiras/xml/XMLParserImpl.java:362-377 | a listener that answers true on a value's close tag ends the loop after the value is assigned, and is given the same text that was assigned |
| BuilderProofs.CloseTagStart | src/main/java/cat/altimiras/xml/XMLParserImpl.java:704-711 | for the close tag the scanner returns after reading "</name>" at p, `getStartPosition` is p |
| BuilderProofs.BetweenTags | src/main/java/cat/altimiras/xml/XMLParserImpl.java:371 | the slice from an open tag's end to the start of the close tag written after some text is exactly that text |
| BuilderProofs.ValueContent | src/main/java/cat/altimiras/xml/XMLParserImpl.java:370-372 | the text a value receives is the trimmed text between its open tag and its close tag |
| BuilderProofs.CdataContent | src/main/java/cat/altimiras/xml/XMLParserImpl.java:364-368 | for a close tag marked CDATA, a white-padded "<![CDATA[" text "]]>" gives exactly the text inside the section |
| BuilderProofs.SectionContent | src/main/java/cat/altimiras/xml/XMLParserImpl.java:367-368 | trimming and cutting 9 and 3 bytes off a padded CDATA section leaves its text |
| BuilderProofs.InitValid | src/main/java/cat/altimiras/xml/XMLParserImpl.java:48-59 | the constructor's state is valid: the root object is a `T`, and the context and heap are closed |
| BuilderProofs.AssignClosed | src/main/java/cat/altimiras/xml/XMLParserImpl.java:419-421 | `field.set` of a fresh list keeps the heap closed and every object's type |
| BuilderProofs.FreshClosed | src/main/java/cat/altimiras/xml/XMLParserImpl.java:433-437 | a fresh object with the tag's attributes keeps the heap closed and every object's type |
| BuilderProofs.FreshAssignedClosed | src/main/java/cat/altimiras/xml/XMLParserImpl.java:433-439 | a fresh object with the tag's attributes, assigned to a field of an existing object, keeps the heap closed and every object's type |
| BuilderProofs.OnOpenClosed | src/main/java/cat/altimiras/xml/XMLParserImpl.java:393-448 | `onOpenTag` keeps the heap closed and every object's type |
| BuilderProofs.OnSelfClosedClosed | src/main/java/cat/altimiras/xml/XMLParserImpl.java:303-338 | `onSelfClosedTag` keeps the heap closed and every object's type |
| BuilderProofs.OnCloseClosed | src/main/java/cat/altimiras/xml/XMLParserImpl.java:351-381 | `onCloseTag` keeps the heap closed and every object's type |
| BuilderProofs.DispatchValid | src/main/java/cat/altimiras/xml/XMLParserImpl.java:96-140 | one pass of `parse`'s loop keeps the state valid |
| BuilderProofs.CloseValid | src/main/java/cat/altimiras/xml/XMLParserImpl.java:112-118 | a close tag's pass keeps the state valid |
| BuilderProofs.SelfClosedValid | src/main/java/cat/altimiras/xml/XMLParserImpl.java:119-130 | a self-closed tag's pass keeps the state valid, whether it is ignored or assigned and notified |
| BuilderProofs.OpenValid | src/main/java/cat/altimiras/xml/XMLParserImpl.java:131-140 | an open tag's pass keeps the state valid, whether it is ignored or pushed |
| BuilderProofs.RunValid | src/main/java/cat/altimiras/xml/XMLParserImpl.java:88-141 | the whole loop keeps the state valid |
| BuilderProofs.FlushIntoClosed | src/main/java/cat/altimiras/xml/XMLParserImpl.java:154-163 | `flushIncomplete`'s assignments keep the heap closed and every object's type |
| BuilderProofs.ParseValid | src/main/java/cat/altimiras/xml/XMLParserImpl.java:80-149 | `parse` returns `obj`, an instance of `T`, in a closed object graph, with at most one context left |
| BuilderProofs.OpenValue | src/main/java/cat/altimiras/xml/XMLParserImpl.java:425-431 | an open tag for a String field pushes a value context on the object being filled, which becomes current |
| BuilderProofs.CloseValue | src/main/java/cat/altimiras/xml/XMLParserImpl.java:362-378 | the close tag of a value pops its context, which stays current, and the field named by the open tag gets the text |
| BuilderProofs.ReadOpenValue | src/main/java/cat/altimiras/xml/XMLParserImpl.java:131-139 | the loop reading an open tag for a String field goes on past it with the value context pushed |
| BuilderProofs.ReadCloseValue | src/main/java/cat/altimiras/xml/XMLParserImpl.java:112-117 | the loop reading a value's close tag goes on past it with the field assigned and the context popped |
| BuilderProofs.ElementTags | src/main/java/cat/altimiras/xml/XMLParserImpl.java:479-590 | in `<name>text</name>`, the scanner reads the open tag, then the close tag, and the text between them is the trimmed text |
| BuilderProofs.FirstTag | src/main/java/cat/altimiras/xml/XMLParserImpl.java:479-590 | the scanner reads a tag written right at the cursor |
| BuilderProofs.CloseAfterText | src/main/java/cat/altimiras/xml/XMLParserImpl.java:363-372 | after a value's text, the scanner reads the close tag, and the value's text is that text trimmed |
| BuilderProofs.ReadValue | src/main/java/cat/altimiras/xml/XMLParserImpl.java:88-141 | the loop reading a value's open tag and close tag goes on after them with the field assigned |
| BuilderProofs.ValueElement | src/main/java/cat/altimiras/xml/XMLParserImpl.java:80-149 | `<name>text</name>` for a String field of the current object: the loop reads both tags and goes on after them, with the stack as it was and the field holding the trimmed text |
| BuilderProofs.SelfClosedObject | src/main/java/cat/altimiras/xml/XMLParserImpl.java:303-338 | `<name a="v"/>` for an object field: the field refers to a fresh object of its type whose String field `a` holds "v", and the stack is unchanged (the step `XMLSelfClosedParserTest` asserts for `element1="111"`) |
| BuilderProofs.RootTagOpens | src/main/java/cat/altimiras/xml/XMLParserImpl.java:96-104 | the root's open or self-closed tag (`isOpening`), outside an ignored tag, marks the root found, applies its attributes to the root object and lets the loop go on |
| BuilderProofs.OpenList | src/main/java/cat/altimiras/xml/XMLParserImpl.java:412-424 | an open tag for a List field assigns a fresh empty list to the field at once, and pushes a list context for the element type, which becomes current; no other object changes |
| BuilderProofs.OpenObject | src/main/java/cat/altimiras/xml/XMLParserImpl.java:432-440 | an open tag for an object field assigns to the field at once a fresh object of the field's type with the tag's attributes, and pushes its object context, which becomes current; no other object changes |
| BuilderProofs.OpenElement | src/main/java/cat/altimiras/xml/XMLParserImpl.java:399-406 | an open tag inside a list context makes a fresh object of the element type with the tag's attributes, and pushes its object context; the list is unchanged until the element closes |
| BuilderProofs.CloseObject | src/main/java/cat/altimiras/xml/XMLParserImpl.java:355-361 | the close tag of an object or list context assigns its object to the context below under the opening tag's name, makes that context current, and hands the object to the close tag's listener, whose answer decides the break |
| BuilderProofs.CloseElement | src/main/java/cat/altimiras/xml/XMLParserImpl.java:355-361 | the close tag of a list element appends the element to the list below it, which becomes current; nothing else in the heap changes |
| BuilderProofs.SelfClosedElement | src/main/java/cat/altimiras/xml/XMLParserImpl.java:309-316 | a self-closed tag inside a list appends a fresh object of the element type at once; the stack, the current context and every other object are unchanged, and the listener's answer decides the break |
| BuilderProofs.SelfClosedList | src/main/java/cat/altimiras/xml/XMLParserImpl.java:322-336 | a self-closed tag for a List field assigns a fresh empty list to the field; the stack, the current context and every other object are unchanged |
| BuilderProofs.ElementsInOrder | src/main/java/cat/altimiras/xml/XMLParserImpl.java:119-130 | two self-closed elements in a row inside a list are appended in document order |
| BuilderProofs.FlushOpenElement | src/main/java/cat/altimiras/xml/XMLParserImpl.java:154-163 | with the stack root, list, unclosed element, `flushIncomplete` appends the element to the list, then offers the list to the root under the root context's own tag name rather than the list's, which a root type with no field of that name ignores |
| Parser.XmlParser.constructor | src/main/java/cat/altimiras/xml/XMLParserImpl.java:48-59 | a fresh `T` as `obj`, one context for it on the stack, nothing found or ignored, no listeners; the invariant holds |
| Parser.XmlParser.Register | src/main/java/cat/altimiras/xml/XMLParserImpl.java:62-67 | updates the listener map as `Builder.Register` and keeps the invariant |
| Parser.XmlParser.Notify | src/main/java/cat/altimiras/xml/XMLParserImpl.java:458-469 | returns the answer and leaves the state of `Builder.Notify` |
| Parser.XmlParser.CheckIgnoreTag | src/main/java/cat/altimiras/xml/XMLParserImpl.java:172-202 | updates `found` and `ignoringTag` and answers as `Builder.CheckIgnore` |
| Parser.XmlParser.SetToObj | src/main/java/cat/altimiras/xml/XMLParserImpl.java:211-226 | changes only the heap, as `Objects.SetToObj` |
| Parser.XmlParser.SetAttributes | src/main/java/cat/altimiras/xml/XMLParserImpl.java:285-291 | the loop over the attributes changes only the heap, as `Objects.SetAttributes` |
| Parser.XmlParser.GetInstance | src/main/java/cat/altimiras/xml/XMLParserImpl.java:434 | adds a fresh object as `Objects.New` and changes nothing else |
| Parser.XmlParser.NewArrayList | src/main/java/cat/altimiras/xml/XMLParserImpl.java:419 | adds a fresh list as `Objects.NewList` and changes nothing else |
| Parser.XmlParser.OnOpenTag | src/main/java/cat/altimiras/xml/XMLParserImpl.java:393-448 | changes only the heap, and returns the context or the fault of `Builder.OnOpen`; a fault leaves the heap unchanged |
| Parser.XmlParser.OnSelfClosedTag | src/main/java/cat/altimiras/xml/XMLParserImpl.java:303-338 | returns null, or the fault, exactly as `Builder.OnSelfClosed`, in both cases with the state unchanged; otherwise its heap and the listener's call and answer |
| Parser.XmlParser.OnCloseTag | src/main/java/cat/altimiras/xml/XMLParserImpl.java:351-381 | leaves the state and the answer of `Builder.OnClose`, or its fault with the state unchanged |
| Parser.XmlParser.HandleTag | src/main/java/cat/altimiras/xml/XMLParserImpl.java:96-140 | one pass of the loop body leaves the state and the break decision of `Builder.Dispatch`, or its fault with the heap and current context unchanged and the stack a prefix of what it was |
| Parser.XmlParser.FlushIncomplete | src/main/java/cat/altimiras/xml/XMLParserImpl.java:154-163 | the loop popping the stack leaves the state `Builder.Flush` gives |
| Parser.XmlParser.Parse | src/main/java/cat/altimiras/xml/XMLParserImpl.java:80-149 | the loop leaves the state and the result `Builder.Parse` gives, or its fault, after which the invariant still holds, so the parser can be used again; on success the invariant holds, at most one context is left, and the result is the root object, an instance of `T` |

## Left out

- Java reflection is not modelled: `ClassIntrospector.getField`/`getInstance`, `Field.set`, `isAssignableFrom`, the list's generic type argument and `Class.newInstance`. A `Schema` and an object arena stand in for them. A field declared `Object`, or with another type that String is assignable to, is not modelled: every field is a scalar, a list or an object of a schema type.
- `ClassIntrospector` is not part of this model. The model assumes that its `getInstance` fails on a type with no no-argument constructor (`int`, `long`, `boolean`, `Integer`, `Long`, `Float`, `Boolean` and the rest), and ends `parse` with `Unsupported` there. The `InvalidXMLFormatException` wrapping of `IllegalAccessException` (lines 443-444) is left out, because a field of the schema is always accessible.
- Objects.ConvertTo: `Double.valueOf` and `Float.valueOf` are floating point and are not modelled. Their text is stored as `Decimal(text)`, so text that Java would reject is stored too.
- `parse(String)` (lines 69-75) and its `getBytes()` charset conversion are left out. The input is the byte buffer, and `None` stands for null. Bytes are read as single characters; multi-byte encodings in names or text are not decoded.
- Scanner.StartPosition: the model counts bytes, while Java's `getStartPosition` (lines 704-711) counts the UTF-16 length of the decoded name. For a tag name with multi-byte characters, the source's start position therefore lies past the real start of the close tag, and the text `onCloseTag` cuts ends inside that close tag. In the model it ends just before the close tag.
- The `hashCode()` comparisons of tag names with the root type's simple name (lines 101 and 176) are modelled as name equality. Hash collisions are not modelled.
- A `TagListener` is modelled as the fixed answer registered for its name, and every call is recorded. A listener's own side effects, and an answer that depends on the value, are not modelled.
- Lists always hold objects of their element type, built by name. A list of Strings or numbers is not modelled.
- A list field (`ListOf`) stands for a field declared `List<E>`. `onOpenTag` tests `isAssignableFrom(ArrayList.class)` (line 414) but `onSelfClosedTag` tests `isAssignableFrom(List.class)` (line 324). So a field declared `ArrayList<E>` is a list for an open tag and goes to `getInstance` for a self-closed one. The model does not tell the two declarations apart, and that mismatch is not captured.
- Builder.Instance: for a self-closed tag on a String field, the model assumes `getInstance(String)` gives the empty string and that `setAttributes` on it assigns nothing, so the tag's attributes are dropped. Reflection into `String`'s own private fields is not modelled.
- The overload `setToObj(Object, Field, Object)` (lines 235-250) is merged into `Objects.SetToObj`. Every call site passes the field found by the tag's name on the same object, or null for a name the object lacks, and the by-name lookup finds the same.
- The scratch buffer `attBuffer` (lines 491-492 and 570) is left out. Its cursor never moves, so it has no effect.
- The constructor `Tag(String, int, TagType)` is used only for the root's context and is modelled by `Builder.RootTag`. `getEndPosition` is the tag's `position`.
- The resource `selfClosedTest.xml` that `XMLSelfClosedParserTest` reads is not part of this model, so its whole document is not replayed. `BuilderProofs.SelfClosedObject` states the step its assertions rely on.
