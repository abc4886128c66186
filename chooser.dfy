/**
 * The end of `main` (dmoji.c:95-141): the chooser's exit status is checked,
 * its answer is read once into a 128-byte buffer, the trailing byte is cut,
 * the line is truncated at its first space, and the rest is handed to the
 * clipboard helper. Unusual exit statuses only produce warnings.
 */
module Chooser {
  import opened Optional
  import opened CStrings
  import opened EmojiLine
  import Utf8

  /** The warnings `main` prints on its way. */
  datatype Warning = UnusualChooserExit(status: int) | UnusualClipboardExit(status: int)

  /** How `main` ends: its return value, the bytes written to the clipboard helper (if it was run), its warnings. */
  datatype SessionEnd = SessionEnd(exitCode: int, clipboard: Option<seq<byte>>, warnings: seq<Warning>)

  /**
   * The payload left of the chooser's answer `got`: its last byte is dropped,
   * and what remains is cut at the first space (or at a NUL, where the C
   * string ends anyway). It is the longest prefix without either.
   */
  function Cleaned(got: seq<byte>): (r: seq<byte>)
    requires |got| > 0
    ensures r <= got[..|got| - 1]
    ensures SP !in r && NUL !in r
    ensures |r| < |got| - 1 ==> got[|r|] == SP || got[|r|] == NUL
  {
    var line := CStr(got[..|got| - 1]);
    line[..FirstIndex(line, SP)]
  }

  /** An answer with no space and no NUL comes back whole, less its last byte. */
  lemma CleanedWhole(got: seq<byte>)
    requires |got| > 0
    requires SP !in got[..|got| - 1] && NUL !in got[..|got| - 1]
    ensures Cleaned(got) == got[..|got| - 1]
  {
  }

  /** An answer whose first space comes before any NUL is cut just before that space. */
  lemma CleanedAtFirstSpace(got: seq<byte>, k: nat)
    requires k < |got| - 1 && got[k] == SP
    requires SP !in got[..k] && NUL !in got[..k]
    ensures Cleaned(got) == got[..k]
  {
  }

  /**
   * Formatting a line and cleaning it gives back the UTF-8 octets of its code
   * point, exactly when the code point is neither U+0000 (whose octet ends the
   * C string before the space) nor U+0020 (which is the separator itself).
   * The line also fits in one read of BUFF_SIZE bytes.
   */
  lemma LineRoundTrip(c: int, names: Names)
    requires FormatLine(c, names).Some?
    ensures |FormatLine(c, names).value| <= BUFF_SIZE
    ensures Cleaned(FormatLine(c, names).value) == Utf8.Encode(c).value <==> c != 0 && c != SP as int
  {
    var u := Utf8.Encode(c).value;
    var n := CStr(names(c).name);
    var l := FormatLine(c, names).value;
    var body := CStr(u) + [SP] + n;
    assert l == body + [LF];
    assert l[..|l| - 1] == body;
    CStrAfterPrefix(body, []);
    assert body + [] == body;
    assert body == CStr(u) + ([SP] + n);
    FirstIndexConcat(CStr(u), [SP] + n, SP);
    Utf8.EncodeNulFree(c);
    if c == 0 {
      assert u == [NUL] && CStr(u) == [];
      assert Cleaned(l) == [];
    } else if c == SP as int {
      assert u == [SP] && CStr(u) == [SP];
      assert FirstIndex(CStr(u), SP) == 0;
      assert Cleaned(l) == [];
    } else {
      CStrAfterPrefix(u, []);
      assert u + [] == u;
      if c >= 0x80 {
        Utf8.MultiOctetHigh(c);
      }
      assert SP !in u;
      assert Cleaned(l) == body[..|u|] == u;
    }
  }

  /**
   * `buff[size-1] = '\0'` followed by `strchr(buff, ' ')` and, when a space is
   * found, `*p = '\0'` (dmoji.c:107-116): afterwards the C string in `buff`
   * is the cleaned answer.
   */
  method CutAtSpace(buff: array<byte>, size: nat)
    requires 0 < size <= buff.Length
    modifies buff
    ensures CStr(buff[..]) == Cleaned(old(buff[..size]))
    ensures buff[..] == old(buff[..])[size - 1 := NUL][|Cleaned(old(buff[..size]))| := NUL]
  {
    ghost var got := buff[..size];
    buff[size - 1] := NUL;
    ghost var line := CStr(got[..size - 1]);
    assert Cleaned(got) == line[..FirstIndex(line, SP)];
    assert buff[..] == got[..size - 1] + [NUL] + buff[size..];
    CStrAtNul(got[..size - 1], buff[size..]);
    var p := StrChr(buff[..], SP);
    if p.Some? {
      assert p.value == FirstIndex(line, SP);
      CStrCut(buff[..], p.value);
      buff[p.value] := NUL;
    } else {
      assert FirstIndex(line, SP) == |line|;
      assert line[..|line|] == line;
      assert buff[|line|] == NUL;
      assert buff[..] == buff[..][|line| := NUL];
    }
  }

  /**
   * The block of `main` after `throwEmojisAt` (dmoji.c:95-141), given the
   * chooser's exit status, the bytes one `read` returned, the stale contents
   * of the stack buffer and the clipboard helper's exit status.
   * Zero bytes read means no choice: the function returns 0 and never runs the
   * clipboard helper. Otherwise the cleaned payload goes to the helper. Every
   * path returns 0; unusual statuses only add warnings.
   */
  method Conclude(chooserStatus: int, got: seq<byte>, stale: seq<byte>, clipboardStatus: int) returns (e: SessionEnd)
    requires |got| <= BUFF_SIZE && |stale| == BUFF_SIZE
    ensures e.exitCode == 0
    ensures e.clipboard.None? <==> got == []
    ensures e.clipboard.Some? ==> e.clipboard.value == Cleaned(got)
    ensures e.warnings ==
      (if chooserStatus > 1 then [UnusualChooserExit(chooserStatus)] else []) +
      (if got != [] && clipboardStatus > 0 then [UnusualClipboardExit(clipboardStatus)] else [])
  {
    var buff := new byte[BUFF_SIZE];
    forall i | 0 <= i < BUFF_SIZE {
      buff[i] := stale[i];
    }
    var warnings: seq<Warning> := [];
    if chooserStatus > 1 {
      warnings := warnings + [UnusualChooserExit(chooserStatus)];
    }
    // size = read(p_result[0], buff, BUFF_SIZE)
    forall i | 0 <= i < |got| {
      buff[i] := got[i];
    }
    var size := |got|;
    if size == 0 {
      BeforeEmpty(warnings);
      return SessionEnd(0, None, warnings);
    }
    assert buff[..size] == got;
    CutAtSpace(buff, size);
    // dprintf(p_clip[1], buff): the helper receives the C string
    var payload := CStr(buff[..]);
    if clipboardStatus > 0 {
      warnings := warnings + [UnusualClipboardExit(clipboardStatus)];
    } else {
      BeforeEmpty(warnings);
    }
    e := SessionEnd(0, Some(payload), warnings);
  }
}
