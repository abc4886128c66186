/**
 * `throwOneEmoji` (dmoji.c:245-267): one candidate line per code point, built in
 * a zeroed 128-byte buffer as the UTF-8 octets of the code point, a space and
 * the character's Unicode name, then written out with a trailing newline.
 */
module EmojiLine {
  import opened Optional
  import opened CStrings
  import opened Pipes
  import Utf8

  /** BUFF_SIZE (dmoji.c:42): the size of every line buffer. */
  const BUFF_SIZE: nat := 128

  /** What the character-name database answers for a code point: its name, or a failure status. */
  datatype NameLookup = Named(name: seq<byte>) | NameFailed

  /** The character-name database, `u_charName` with `U_UNICODE_CHAR_NAME`, taken as given. */
  type Names = int -> NameLookup

  /** The `UErrorCode` values the name lookup can leave behind. */
  datatype UErrorCode = ZeroError | StringNotTerminatedWarning | BufferOverflowError | LookupError

  /** The status `u_charName` reports when the name must go into `capacity` bytes. */
  function NameStatus(lookup: NameLookup, capacity: int): (status: UErrorCode)
    ensures status == ZeroError <==> lookup.Named? && |lookup.name| < capacity
  {
    match lookup
    case NameFailed => LookupError
    case Named(n) =>
      if |n| < capacity then ZeroError
      else if |n| == capacity then StringNotTerminatedWarning
      else BufferOverflowError
  }

  /**
   * The line written for `c`, or None when nothing is written: the encoding
   * fails, or the name lookup leaves any status other than U_ZERO_ERROR (the
   * name has to fit, with its NUL, in what the buffer has left after the
   * encoding and the space). `strcat` appends the space at the first NUL, so
   * the buffer's C string is what counts, for U+0000 too.
   */
  function FormatLine(c: int, names: Names): (r: Option<seq<byte>>)
    ensures r.Some? ==> 0 < |r.value| <= BUFF_SIZE && r.value[|r.value| - 1] == LF
  {
    match Utf8.Encode(c)
    case None => None
    case Some(u) =>
      var head := CStr(u) + [SP];
      if NameStatus(names(c), BUFF_SIZE - |head|) != ZeroError then None
      else Some(head + CStr(names(c).name) + [LF])
  }

  /** The bytes `throwOneEmoji` writes for `c`: its line, or nothing at all. */
  function Emit(c: int, names: Names): (r: seq<byte>)
    ensures |r| <= BUFF_SIZE
    ensures r != [] <==> FormatLine(c, names).Some?
  {
    match FormatLine(c, names)
    case None => []
    case Some(line) => line
  }

  /** The bytes written for the code points `cs`, one `Emit` after another. */
  function Stream(cs: seq<int>, names: Names): seq<byte>
  {
    if cs == [] then [] else Stream(cs[..|cs| - 1], names) + Emit(cs[|cs| - 1], names)
  }

  lemma StreamAppend(cs: seq<int>, c: int, names: Names)
    ensures Stream(cs + [c], names) == Stream(cs, names) + Emit(c, names)
  {
    assert (cs + [c])[..|cs|] == cs;
  }

  lemma {:induction false} StreamConcat(a: seq<int>, b: seq<int>, names: Names)
    ensures Stream(a + b, names) == Stream(a, names) + Stream(b, names)
    decreases |b|
  {
    if b != [] {
      var init, last := b[..|b| - 1], b[|b| - 1];
      assert a + b == (a + init) + [last];
      assert b == init + [last];
      StreamAppend(a + init, last, names);
      StreamAppend(init, last, names);
      StreamConcat(a, init, names);
    } else {
      assert a + b == a;
    }
  }

  /** Output written after output: the stream of the code points thrown so far, extended. */
  lemma StreamExtend(prefix: seq<byte>, a: seq<int>, b: seq<int>, names: Names)
    ensures (prefix + Stream(a, names)) + Stream(b, names) == prefix + Stream(a + b, names)
  {
    StreamConcat(a, b, names);
    Regroup(prefix, Stream(a, names), Stream(b, names));
  }

  /** The line of a code point sits in the stream between the lines before it and those after it. */
  lemma StreamHoldsLine(before: seq<int>, c: int, after: seq<int>, names: Names)
    ensures Stream(before + [c] + after, names) == Stream(before, names) + Emit(c, names) + Stream(after, names)
  {
    StreamConcat(before + [c], after, names);
    StreamAppend(before, c, names);
  }

  /**
   * A line is exactly the UTF-8 octets, one space, the name and a newline; it
   * is written exactly when the code point is a scalar value, the name lookup
   * succeeds and the name leaves room for its NUL in the 128-byte buffer.
   */
  lemma LineShape(c: int, names: Names)
    requires c != 0
    ensures FormatLine(c, names).Some? <==>
      Utf8.IsScalar(c) && names(c).Named? && |Utf8.Encode(c).value| + 1 + |names(c).name| < BUFF_SIZE
    ensures FormatLine(c, names).Some? && NUL !in names(c).name ==>
      FormatLine(c, names).value == Utf8.Encode(c).value + [SP] + names(c).name + [LF]
  {
    if Utf8.IsScalar(c) {
      Utf8.EncodeNulFree(c);
      var u := Utf8.Encode(c).value;
      CStrAfterPrefix(u, []);
      assert u + [] == u;
      if names(c).Named? && NUL !in names(c).name {
        CStrAfterPrefix(names(c).name, []);
        assert names(c).name + [] == names(c).name;
      }
    }
  }

  /** The only newline of a line is its last byte when the name holds none and `c` is not U+000A. */
  lemma LineEndsOnce(c: int, names: Names)
    requires FormatLine(c, names).Some? && c != LF as int
    requires LF !in names(c).name
    ensures forall i :: 0 <= i < |FormatLine(c, names).value| - 1 ==> FormatLine(c, names).value[i] != LF
  {
    var u := Utf8.Encode(c).value;
    var n := names(c).name;
    var l := FormatLine(c, names).value;
    assert l == CStr(u) + [SP] + CStr(n) + [LF];
    if c >= 0x80 {
      Utf8.MultiOctetHigh(c);
    }
    assert LF !in CStr(u);
    assert LF !in CStr(n);
    forall i | 0 <= i < |l| - 1
      ensures l[i] != LF
    {
      if i < |CStr(u)| {
        assert l[i] == CStr(u)[i];
      } else if i > |CStr(u)| {
        assert l[i] == CStr(n)[i - |CStr(u)| - 1];
      }
    }
  }

  /**
   * `u_charName(c, U_UNICODE_CHAR_NAME, buff + at, BUFF_SIZE - at, &u_err)`:
   * writes as much of the name as fits at offset `at`, NUL-terminates it when
   * there is room, and reports a warning when the name fills the space exactly
   * and an overflow error when it does not fit.
   */
  method CharName(lookup: NameLookup, buff: array<byte>, at: nat) returns (status: UErrorCode)
    requires at <= buff.Length
    modifies buff
    ensures status == NameStatus(lookup, buff.Length - at)
    ensures buff[..at] == old(buff[..at])
    ensures status == ZeroError ==>
      buff[..] == old(buff[..at]) + lookup.name + [NUL] + old(buff[at + |lookup.name| + 1..])
  {
    match lookup
    case NameFailed =>
      status := LookupError;
    case Named(n) =>
      var room := buff.Length - at;
      var m := if |n| < room then |n| else room;
      forall i | at <= i < at + m {
        buff[i] := n[i - at];
      }
      if |n| < room {
        buff[at + |n|] := NUL;
        status := ZeroError;
        assert buff[..] == old(buff[..at]) + n + [NUL] + old(buff[at + |n| + 1..]);
      } else if |n| == room {
        status := StringNotTerminatedWarning;
      } else {
        status := BufferOverflowError;
      }
  }

  /** `throwOneEmoji(fd, c)`: writes the line for `c` to `fd`, or nothing when it cannot be built. */
  method ThrowOneEmoji(fd: Pipe, c: int, names: Names)
    modifies fd
    ensures fd.data == old(fd.data) + Emit(c, names)
  {
    var buff := new byte[BUFF_SIZE];
    forall i | 0 <= i < BUFF_SIZE {
      buff[i] := NUL;
    }
    var count, err := Utf8.Append(buff, 0, c);
    if err {
      return;
    }
    ghost var u := Utf8.Encode(c).value;
    assert buff[..] == u + [NUL] + buff[count + 1..];
    CStrAtNul(u, buff[count + 1..]);
    StrCatByte(buff, SP);
    ghost var head := CStr(u) + [SP];
    count := FirstIndex(buff[..], NUL);
    assert buff[..count] == head;
    ghost var before := buff[..];
    var status := CharName(names(c), buff, count);
    if status != ZeroError {
      return;
    }
    ghost var n := names(c).name;
    CStrHeadField(head, n, before[count + |n| + 1..]);
    fd.Write(CStr(buff[..]) + [LF]);
  }
}
