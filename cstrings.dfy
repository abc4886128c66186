/**
 * Octets and the C-string conventions dmoji.c relies on: a `char` buffer holds
 * the string up to its first NUL (what `strlen`, `strcat`, `strchr` and the
 * `%s` conversion of `dprintf` all see).
 */
module CStrings {
  import opened Optional

  /** One octet of a `char` buffer. */
  newtype byte = x: int | 0 <= x < 256

  const NUL: byte := 0x00
  const LF: byte := 0x0A
  const SP: byte := 0x20

  /** Index of the first `b` in `s`, or `|s|` when `s` holds none. */
  function FirstIndex(s: seq<byte>, b: byte): (k: nat)
    ensures k <= |s|
    ensures b !in s[..k]
    ensures k < |s| ==> s[k] == b
  {
    if s == [] then 0
    else if s[0] == b then 0
    else
      var k := 1 + FirstIndex(s[1..], b);
      assert s[..k] == [s[0]] + s[1..][..k - 1];
      k
  }

  /** The C string a buffer holds: its bytes before the first NUL (`strlen` counts them). */
  function CStr(s: seq<byte>): (r: seq<byte>)
    ensures r <= s
    ensures NUL !in r
    ensures |r| < |s| ==> s[|r|] == NUL
  {
    s[..FirstIndex(s, NUL)]
  }

  /** `strchr(s, b)` for a non-NUL `b`: the index of the first `b` inside the C string `s` holds. */
  function StrChr(s: seq<byte>, b: byte): (r: Option<nat>)
    requires b != NUL
    ensures r.None? <==> b !in CStr(s)
    ensures r.Some? ==> r.value < |CStr(s)| && s[r.value] == b && b !in s[..r.value]
  {
    var k := FirstIndex(CStr(s), b);
    if k < |CStr(s)| then Some(k) else None
  }

  /** Concatenation regrouped, stated once so that callers need not rediscover it element by element. */
  lemma Regroup<T>(a: seq<T>, b: seq<T>, c: seq<T>)
    ensures (a + b) + c == a + (b + c)
  {
  }

  lemma AfterEmpty<T>(a: seq<T>)
    ensures [] + a == a
  {
  }

  lemma BeforeEmpty<T>(a: seq<T>)
    ensures a + [] == a
  {
  }

  /** The first `b` of `a + t` is the first of `a` when `a` has one, otherwise the first of `t`, shifted. */
  lemma {:induction false} FirstIndexConcat(a: seq<byte>, t: seq<byte>, b: byte)
    ensures FirstIndex(a + t, b) == if b in a then FirstIndex(a, b) else |a| + FirstIndex(t, b)
  {
    if a == [] {
      assert a + t == t;
    } else {
      assert (a + t)[0] == a[0];
      if a[0] == b {
        assert b in a;
      } else {
        assert (a + t)[1..] == a[1..] + t;
        FirstIndexConcat(a[1..], t, b);
        assert b in a <==> b in a[1..];
      }
    }
  }

  /** A NUL-free head is kept whole: the C string of `a + t` is `a` followed by that of `t`. */
  lemma CStrAfterPrefix(a: seq<byte>, t: seq<byte>)
    requires NUL !in a
    ensures CStr(a + t) == a + CStr(t)
  {
    FirstIndexConcat(a, t, NUL);
    assert (a + t)[..|a| + FirstIndex(t, NUL)] == a + t[..FirstIndex(t, NUL)];
  }

  /** Writing a NUL ends the C string there: nothing after it is seen. */
  lemma CStrAtNul(a: seq<byte>, t: seq<byte>)
    ensures CStr(a + [NUL] + t) == CStr(a)
  {
    assert a + [NUL] + t == a + ([NUL] + t);
    FirstIndexConcat(a, [NUL] + t, NUL);
    if NUL in a {
      assert (a + [NUL] + t)[..FirstIndex(a, NUL)] == a[..FirstIndex(a, NUL)];
    } else {
      assert FirstIndex(a, NUL) == |a|;
      assert (a + [NUL] + t)[..|a|] == a;
    }
  }

  /** Overwriting byte `p` of the C string with NUL (`*p = '\0'`) truncates it to its first `p` bytes. */
  lemma CStrCut(s: seq<byte>, p: nat)
    requires p < |CStr(s)|
    ensures CStr(s[p := NUL]) == CStr(s)[..p]
  {
    assert s[p := NUL] == s[..p] + [NUL] + s[p + 1..];
    CStrAtNul(s[..p], s[p + 1..]);
    assert s[..p] == CStr(s)[..p];
    CStrAfterPrefix(s[..p], []);
    assert s[..p] + [] == s[..p];
  }

  /** A NUL-free head followed by a NUL-terminated field: the C string stops at the field's first NUL. */
  lemma CStrHeadField(head: seq<byte>, field: seq<byte>, rest: seq<byte>)
    requires NUL !in head
    ensures CStr(head + field + [NUL] + rest) == head + CStr(field)
  {
    assert head + field + [NUL] + rest == head + (field + [NUL] + rest);
    CStrAfterPrefix(head, field + [NUL] + rest);
    CStrAtNul(field, rest);
  }

  /** `strcat(buff, [b])` for one non-NUL byte: `b` goes where the C string ends, followed by a new NUL. */
  method StrCatByte(buff: array<byte>, b: byte)
    requires b != NUL && |CStr(buff[..])| + 1 < buff.Length
    modifies buff
    ensures CStr(buff[..]) == CStr(old(buff[..])) + [b]
    ensures buff[..] == old(buff[..])[|CStr(old(buff[..]))| := b][|CStr(old(buff[..]))| + 1 := NUL]
  {
    var len := FirstIndex(buff[..], NUL);
    ghost var head := CStr(buff[..]);
    buff[len] := b;
    buff[len + 1] := NUL;
    assert buff[..] == head + [b] + [NUL] + buff[len + 2..];
    CStrHeadField(head, [b], buff[len + 2..]);
    CStrAfterPrefix([b], []);
    assert [b] + [] == [b];
  }
}
