/**
 * Byte buffers and the few text operations the parser applies to them.
 *
 * The parser reads an XML document as a Java `byte[]` and builds Java
 * `String`s from slices of it. Here a buffer is a sequence of bytes and a
 * string built from a slice stays a byte sequence; for ASCII text, Java's
 * `String.length()`, `trim()` and `substring` agree with the byte versions
 * below.
 */
module Bytes {

  newtype byte = b: int | 0 <= b < 256

  type Bytes = seq<byte>

  datatype Option<T> = None | Some(value: T)

  /** Why the parser stops where the Java code would throw an exception out of `parse`. */
  datatype Fault =
    | NullInput        // parse(null)
    | SliceOutOfRange  // new String(bytes, offset, count), Arrays.copyOfRange or substring out of bounds
    | MissingName      // a tag read on the attribute path met no space, so its name stayed null
    | EmptyStack       // Stack.peek() on an empty context stack
    | Unsupported      // the introspector was asked to instantiate a type this model does not build

  datatype Result<T> = Ok(value: T) | Err(fault: Fault)

  const SPACE: byte := 0x20     // ' '
  const NEWLINE: byte := 0x0A   // '\n'
  const BANG: byte := 0x21      // '!'
  const QUOTE: byte := 0x22     // '"'
  const SLASH: byte := 0x2F     // '/'
  const COLON: byte := 0x3A     // ':'
  const LT: byte := 0x3C        // '<'
  const EQ: byte := 0x3D        // '='
  const GT: byte := 0x3E        // '>'
  const LBRACKET: byte := 0x5B  // '['
  const RBRACKET: byte := 0x5D  // ']'

  /** "<![CDATA[", the opening delimiter of a CDATA section (section 2.7 of XML 1.0). */
  const CDATA_OPEN: Bytes := [LT, BANG, LBRACKET, 0x43, 0x44, 0x41, 0x54, 0x41, LBRACKET]

  /** "]]>", the closing delimiter of a CDATA section. */
  const CDATA_CLOSE: Bytes := [RBRACKET, RBRACKET, GT]

  /** The bytes Java's `String.trim()` removes: every character up to and including ' '. */
  predicate IsWhite(b: byte) {
    b <= SPACE
  }

  predicate AllWhite(s: Bytes) {
    forall i | 0 <= i < |s| :: IsWhite(s[i])
  }

  /** Every byte of `s` in positions `lo` up to `hi` is white. */
  predicate WhiteBetween(s: Bytes, lo: int, hi: int)
    requires 0 <= lo <= hi <= |s|
  {
    forall i | lo <= i < hi :: IsWhite(s[i])
  }

  /** `new String(s, offset, count)`: the slice, or nothing where Java throws. */
  function Slice(s: Bytes, offset: int, count: int): (r: Option<Bytes>)
    ensures r.Some? <==> 0 <= offset && 0 <= count && offset + count <= |s|
    ensures r.Some? ==> r.value == s[offset..offset + count]
  {
    if 0 <= offset && 0 <= count && offset + count <= |s| then Some(s[offset..offset + count]) else None
  }

  /** The first loop of `String.trim()`: the index of the first byte from `st` on that is not white. */
  function TrimStart(s: Bytes, st: nat): (r: nat)
    requires st <= |s|
    ensures st <= r <= |s|
    decreases |s| - st
  {
    if st < |s| && IsWhite(s[st]) then TrimStart(s, st + 1) else st
  }

  /** The second loop of `String.trim()`: moves `len` back over white bytes, but not below `st`. */
  function TrimEnd(s: Bytes, st: nat, len: nat): (r: nat)
    requires st <= len <= |s|
    ensures st <= r <= len
  {
    if st < len && IsWhite(s[len - 1]) then TrimEnd(s, st, len - 1) else len
  }

  /** A byte string that `Trim` leaves alone: empty, or not white at either end. */
  predicate Trimmed(s: Bytes) {
    s == [] || (!IsWhite(s[0]) && !IsWhite(s[|s| - 1]))
  }

  /** `String.trim()`: drops white bytes from both ends. */
  function Trim(s: Bytes): (r: Bytes)
    ensures |r| <= |s|
  {
    var st := TrimStart(s, 0);
    s[st..TrimEnd(s, st, |s|)]
  }

  /** `TrimStart` stops at the first byte that is not white and skips only white ones. */
  lemma {:induction false} TrimStartStops(s: Bytes, st: nat)
    requires st <= |s|
    ensures var r := TrimStart(s, st); WhiteBetween(s, st, r) && (r < |s| ==> !IsWhite(s[r]))
    decreases |s| - st
  {
    if st < |s| && IsWhite(s[st]) {
      TrimStartStops(s, st + 1);
    }
  }

  /** `TrimEnd` stops after the last byte that is not white and skips only white ones. */
  lemma {:induction false} TrimEndStops(s: Bytes, st: nat, len: nat)
    requires st <= len <= |s|
    ensures var r := TrimEnd(s, st, len); WhiteBetween(s, r, len) && (st < r ==> !IsWhite(s[r - 1]))
  {
    if st < len && IsWhite(s[len - 1]) {
      TrimEndStops(s, st, len - 1);
    }
  }

  /**
   * `Trim` only cuts white bytes: the result is the slice of `s` from
   * `TrimStart(s, 0)`, every byte before and after it is white, and the
   * result is trimmed.
   */
  lemma TrimKeepsCore(s: Bytes)
    ensures var r := Trim(s); var i := TrimStart(s, 0);
      i + |r| <= |s| && r == s[i..i + |r|] &&
      WhiteBetween(s, 0, i) && WhiteBetween(s, i + |r|, |s|) && Trimmed(r)
  {
    var i := TrimStart(s, 0);
    TrimStartStops(s, 0);
    TrimEndStops(s, i, |s|);
  }

  /** `TrimStart` is the only index after a white run that holds a non-white byte. */
  lemma {:induction false} TrimStartIs(s: Bytes, st: nat, k: nat)
    requires st <= k <= |s| && WhiteBetween(s, st, k) && (k < |s| ==> !IsWhite(s[k]))
    ensures TrimStart(s, st) == k
    decreases |s| - st
  {
    if st < k {
      TrimStartIs(s, st + 1, k);
    }
  }

  /** `TrimEnd` is the only index before a white run that follows a non-white byte. */
  lemma {:induction false} TrimEndIs(s: Bytes, st: nat, len: nat, k: nat)
    requires st <= k <= len <= |s| && WhiteBetween(s, k, len) && (st < k ==> !IsWhite(s[k - 1]))
    ensures TrimEnd(s, st, len) == k
  {
    if k < len {
      TrimEndIs(s, st, len - 1, k);
    }
  }

  /** Trimming white padding off a trimmed string gives the string back. */
  lemma TrimPadded(left: Bytes, s: Bytes, right: Bytes)
    requires AllWhite(left) && AllWhite(right) && Trimmed(s)
    ensures Trim(left + s + right) == s
  {
    var t := left + s + right;
    if s == [] {
      TrimStartIs(t, 0, |t|);
      TrimEndIs(t, |t|, |t|, |t|);
    } else {
      TrimStartIs(t, 0, |left|);
      TrimEndIs(t, |left|, |t|, |left| + |s|);
      assert t[|left|..|left| + |s|] == s;
    }
  }
}
