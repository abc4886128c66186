/**
 * `throwEmojisAt` (dmoji.c:190-243): the Emoji property set, with U+0000..U+00FF
 * removed, is walked item by item; every code point of a range item becomes a
 * candidate line, in ascending order, and string items are skipped.
 */
module EmojiSet {
  import opened CStrings
  import opened Pipes
  import opened EmojiLine

  /** One item of an ICU set: a code-point range or a string of UTF-16 code units. */
  datatype SetItem = Range(start: int, end: int) | Str(units: seq<int>)

  /** The outcome of applying the Emoji property to an empty set: its items, or an error status. */
  datatype PropertySet = Applied(items: seq<SetItem>) | ApplyFailed

  /** The code points removed before the walk (dmoji.c:202): UCHAR_MIN_VALUE..0xff. */
  const CUT_LOW: int := 0
  const CUT_HIGH: int := 0xFF

  /** Capacity, in UTF-16 units, of the buffer `uset_getItem` copies a string item into (dmoji.c:195). */
  const UNIT_BUFF_SIZE: nat := 128

  /**
   * What `uset_getItem` reports for an item: a size (0 for a range, the string
   * length otherwise) with the range bounds, or an error status. A string item
   * is copied into a 128-unit buffer: one that does not fit with its NUL sets
   * an overflow error or a not-terminated warning. The bounds of a string item
   * stay as the loop initialised them (dmoji.c:215).
   */
  datatype Fetched = Item(size: int, start: int, end: int) | FetchError

  function GetItem(item: SetItem): (f: Fetched)
    ensures f.FetchError? <==> item.Str? && |item.units| >= UNIT_BUFF_SIZE
    ensures item.Range? ==> f == Item(0, item.start, item.end)
    ensures item.Str? && |item.units| < UNIT_BUFF_SIZE ==> f == Item(|item.units|, 0, 0)
  {
    match item
    case Range(s, e) => Item(0, s, e)
    case Str(u) => if |u| < UNIT_BUFF_SIZE then Item(|u|, 0, 0) else FetchError
  }

  /** The code points `start..end`, ascending. */
  function Span(start: int, end: int): (r: seq<int>)
    decreases end - start
    ensures |r| == if start <= end then end - start + 1 else 0
    ensures forall k :: 0 <= k < |r| ==> r[k] == start + k
  {
    if start > end then [] else [start] + Span(start + 1, end)
  }

  /** The code points one fetched item contributes: those of a range (size 0), none otherwise. */
  function Points(f: Fetched): seq<int>
  {
    match f
    case FetchError => []
    case Item(size, s, e) => if size != 0 then [] else Span(s, e)
  }

  /** The code points the walk over `items` emits: items in index order, stopping at the first unreadable one. */
  function Walk(items: seq<SetItem>): seq<int>
  {
    if items == [] || GetItem(items[0]).FetchError? then []
    else Points(GetItem(items[0])) + Walk(items[1..])
  }

  function Min(a: int, b: int): int { if a < b then a else b }
  function Max(a: int, b: int): int { if a < b then b else a }

  /** What is left of one item once `lo..hi` is removed: up to two ranges; strings are untouched. */
  function Clip(item: SetItem, lo: int, hi: int): seq<SetItem>
  {
    match item
    case Str(_) => [item]
    case Range(s, e) =>
      (if s < lo then [Range(s, Min(e, lo - 1))] else []) +
      (if e > hi then [Range(Max(s, hi + 1), e)] else [])
  }

  /** `uset_removeRange(set, lo, hi)` on the item list. */
  function RemoveRange(items: seq<SetItem>, lo: int, hi: int): (r: seq<SetItem>)
    ensures forall i :: 0 <= i < |r| && r[i].Range? ==> r[i].end < lo || hi < r[i].start
  {
    if items == [] then [] else Clip(items[0], lo, hi) + RemoveRange(items[1..], lo, hi)
  }

  /** The code points `throwEmojisAt` writes lines for, in order. */
  function Candidates(emoji: PropertySet): seq<int>
  {
    match emoji
    case ApplyFailed => []
    case Applied(items) => Walk(RemoveRange(items, CUT_LOW, CUT_HIGH))
  }

  /** `cs` without the values in `lo..hi`: the reference definition `RemoveRange` is proved against. */
  function Without(cs: seq<int>, lo: int, hi: int): (r: seq<int>)
    ensures forall x :: x in r <==> x in cs && !(lo <= x <= hi)
  {
    if cs == [] then [] else (if lo <= cs[0] <= hi then [] else [cs[0]]) + Without(cs[1..], lo, hi)
  }

  /** Invariants ICU keeps for a set: ranges inside 0..U+10FFFF and not empty; strings not empty. */
  predicate WellFormed(items: seq<SetItem>)
  {
    forall i :: 0 <= i < |items| ==>
      match items[i]
      case Range(s, e) => 0 <= s <= e <= 0x10FFFF
      case Str(u) => |u| > 0
  }

  predicate NoEmptyStrings(items: seq<SetItem>)
  {
    forall i :: 0 <= i < |items| && items[i].Str? ==> |items[i].units| > 0
  }

  /** ICU's range order: every range ends before any later range starts. */
  predicate SortedRanges(items: seq<SetItem>)
  {
    forall i, j :: 0 <= i < j < |items| && items[i].Range? && items[j].Range? ==> items[i].end < items[j].start
  }

  predicate Increasing(cs: seq<int>)
  {
    forall i, j :: 0 <= i < j < |cs| ==> cs[i] < cs[j]
  }

  /** How many items the walk reads: all of them, or those before the first unreadable one. */
  function Reach(items: seq<SetItem>): (n: nat)
    ensures n <= |items|
    ensures forall i :: 0 <= i < n ==> GetItem(items[i]).Item?
    ensures n < |items| ==> GetItem(items[n]).FetchError?
  {
    if items == [] || GetItem(items[0]).FetchError? then 0 else 1 + Reach(items[1..])
  }

  /** Some range among the first `n` items holds `c`. */
  predicate Covers(items: seq<SetItem>, n: nat, c: int)
    requires n <= |items|
  {
    exists i :: 0 <= i < n && items[i].Range? && items[i].start <= c <= items[i].end
  }

  lemma NoEmptyStringsTail(items: seq<SetItem>)
    requires items != [] && NoEmptyStrings(items)
    ensures NoEmptyStrings(items[1..])
  {
    forall i | 0 <= i < |items[1..]|
      ensures items[1..][i] == items[i + 1]
    {
    }
  }

  /** The number of code points in the ranges the walk reads. */
  function RangeTotal(items: seq<SetItem>): nat
  {
    if items == [] || GetItem(items[0]).FetchError? then 0
    else
      (match items[0]
       case Range(s, e) => if s <= e then e - s + 1 else 0
       case Str(_) => 0) + RangeTotal(items[1..])
  }

  // ---------------------------------------------------------------------------
  // The walk

  /** One line per code point of the ranges read; string items contribute none. */
  lemma {:induction false} WalkCount(items: seq<SetItem>)
    requires NoEmptyStrings(items)
    ensures |Walk(items)| == RangeTotal(items)
  {
    if items != [] && GetItem(items[0]).Item? {
      NoEmptyStringsTail(items);
      WalkCount(items[1..]);
    }
  }

  /** The walk emits exactly the code points of the ranges before the first unreadable item. */
  lemma {:induction false} WalkMembers(items: seq<SetItem>, c: int)
    requires NoEmptyStrings(items)
    ensures c in Walk(items) <==> Covers(items, Reach(items), c)
  {
    if items != [] && GetItem(items[0]).Item? {
      var rest := items[1..];
      NoEmptyStringsTail(items);
      WalkMembers(rest, c);
      var f := GetItem(items[0]);
      var head := Points(f);
      assert Walk(items) == head + Walk(rest);
      assert Reach(items) == 1 + Reach(rest);
      var inHead := items[0].Range? && items[0].start <= c <= items[0].end;
      assert c in head <==> inHead by {
        if inHead {
          assert head == Span(items[0].start, items[0].end);
          assert head[c - items[0].start] == c;
        } else if items[0].Str? {
          assert f.size != 0;
        }
      }
      if Covers(rest, Reach(rest), c) {
        var i :| 0 <= i < Reach(rest) && rest[i].Range? && rest[i].start <= c <= rest[i].end;
        assert items[i + 1] == rest[i];
      }
      if Covers(items, Reach(items), c) {
        var i :| 0 <= i < Reach(items) && items[i].Range? && items[i].start <= c <= items[i].end;
        if i > 0 {
          assert rest[i - 1] == items[i];
        }
      }
      if inHead {
        assert items[0].Range? && items[0].start <= c <= items[0].end;
      }
      assert Covers(items, Reach(items), c) <==> inHead || Covers(rest, Reach(rest), c);
      assert c in Walk(items) <==> c in head || c in Walk(rest);
    } else {
      assert Walk(items) == [] && Reach(items) == 0;
    }
  }

  /** An unreadable item ends the walk: nothing after it is emitted, whatever follows. */
  lemma {:induction false} WalkStopsAtError(before: seq<SetItem>, bad: SetItem, after: seq<SetItem>)
    requires GetItem(bad).FetchError?
    ensures Walk(before + [bad] + after) == Walk(before + [bad])
  {
    if before == [] {
      assert (before + [bad] + after)[0] == bad;
      assert (before + [bad])[0] == bad;
    } else {
      assert (before + [bad] + after)[1..] == before[1..] + [bad] + after;
      assert (before + [bad])[1..] == before[1..] + [bad];
      assert (before + [bad] + after)[0] == before[0] == (before + [bad])[0];
      WalkStopsAtError(before[1..], bad, after);
    }
  }

  lemma {:induction false} IncreasingConcat(a: seq<int>, b: seq<int>)
    requires Increasing(a) && Increasing(b)
    requires forall x, y :: x in a && y in b ==> x < y
    ensures Increasing(a + b)
  {
    forall i, j | 0 <= i < j < |a + b|
      ensures (a + b)[i] < (a + b)[j]
    {
      if j < |a| {
      } else if i >= |a| {
        assert (a + b)[i] == b[i - |a|] && (a + b)[j] == b[j - |a|];
      } else {
        assert (a + b)[i] in a && (a + b)[j] in b;
      }
    }
  }

  /** Over ICU's sorted ranges the walk emits strictly ascending code points. */
  lemma {:induction false} WalkAscending(items: seq<SetItem>)
    requires NoEmptyStrings(items) && SortedRanges(items)
    ensures Increasing(Walk(items))
  {
    if items != [] && GetItem(items[0]).Item? {
      var rest := items[1..];
      assert NoEmptyStrings(rest) && SortedRanges(rest) by {
        forall i | 0 <= i < |rest|
          ensures rest[i] == items[i + 1]
        {
        }
      }
      WalkAscending(rest);
      var head := match items[0] case Range(s, e) => Span(s, e) case Str(_) => [];
      assert Walk(items) == head + Walk(rest);
      forall x, y | x in head && y in Walk(rest)
        ensures x < y
      {
        WalkMembers(rest, y);
        var i :| 0 <= i < Reach(rest) && rest[i].Range? && rest[i].start <= y <= rest[i].end;
        assert rest[i] == items[i + 1];
        var k :| 0 <= k < |head| && head[k] == x;
      }
      IncreasingConcat(head, Walk(rest));
    }
  }

  // ---------------------------------------------------------------------------
  // Removing U+0000..U+00FF

  lemma {:induction false} WithoutConcat(a: seq<int>, b: seq<int>, lo: int, hi: int)
    ensures Without(a + b, lo, hi) == Without(a, lo, hi) + Without(b, lo, hi)
  {
    if a == [] {
      assert a + b == b;
      AfterEmpty(Without(b, lo, hi));
    } else {
      var h: seq<int> := if lo <= a[0] <= hi then [] else [a[0]];
      assert (a + b)[0] == a[0];
      assert (a + b)[1..] == a[1..] + b;
      assert Without(a + b, lo, hi) == h + Without(a[1..] + b, lo, hi);
      assert Without(a, lo, hi) == h + Without(a[1..], lo, hi);
      WithoutConcat(a[1..], b, lo, hi);
      Regroup(h, Without(a[1..], lo, hi), Without(b, lo, hi));
    }
  }

  /** Removing `lo..hi` from a range's code points leaves the spans of the pieces `Clip` keeps. */
  lemma {:induction false} SpanWithout(s: int, e: int, lo: int, hi: int)
    requires lo <= hi
    decreases e - s
    ensures Without(Span(s, e), lo, hi) ==
      (if s < lo then Span(s, Min(e, lo - 1)) else []) + (if e > hi then Span(Max(s, hi + 1), e) else [])
  {
    if s <= e {
      SpanWithout(s + 1, e, lo, hi);
      var span := Span(s, e);
      assert span[0] == s && span[1..] == Span(s + 1, e);
      var left: seq<int> := if s + 1 < lo then Span(s + 1, Min(e, lo - 1)) else [];
      var right: seq<int> := if e > hi then Span(Max(s + 1, hi + 1), e) else [];
      assert Without(Span(s + 1, e), lo, hi) == left + right;
      if s < lo {
        assert Without(span, lo, hi) == [s] + Without(Span(s + 1, e), lo, hi);
        assert Span(s, Min(e, lo - 1)) == [s] + left;
        assert Max(s, hi + 1) == Max(s + 1, hi + 1);
        Regroup([s], left, right);
      } else if s <= hi {
        assert Without(span, lo, hi) == [] + Without(Span(s + 1, e), lo, hi);
        assert left == [];
        assert Max(s, hi + 1) == Max(s + 1, hi + 1);
        AfterEmpty(right);
        AfterEmpty(left + right);
      } else {
        assert Without(span, lo, hi) == [s] + Without(Span(s + 1, e), lo, hi);
        assert left == [] && right == Span(s + 1, e);
        AfterEmpty(right);
        AfterEmpty(span);
      }
    }
  }

  /** The walk over the pieces of one clipped range. */
  lemma WalkClipRange(s: int, e: int, lo: int, hi: int)
    ensures Walk(Clip(Range(s, e), lo, hi)) ==
      (if s < lo then Span(s, Min(e, lo - 1)) else []) + (if e > hi then Span(Max(s, hi + 1), e) else [])
  {
    var a := if s < lo then [Range(s, Min(e, lo - 1))] else [];
    var b := if e > hi then [Range(Max(s, hi + 1), e)] else [];
    assert Clip(Range(s, e), lo, hi) == a + b;
    WalkConcat(a, b);
    if a != [] {
      assert a[1..] == [];
    }
    if b != [] {
      assert b[1..] == [];
    }
  }

  /** The walk over a readable head followed by anything is the two walks, one after the other. */
  lemma {:induction false} WalkConcat(a: seq<SetItem>, b: seq<SetItem>)
    requires forall i :: 0 <= i < |a| ==> a[i].Range?
    ensures Walk(a + b) == Walk(a) + Walk(b)
  {
    if a == [] {
      assert a + b == b;
    } else {
      assert (a + b)[0] == a[0];
      assert (a + b)[1..] == a[1..] + b;
      WalkConcat(a[1..], b);
    }
  }

  /**
   * Walking the set after `uset_removeRange(lo, hi)` emits what walking it
   * before would have emitted, less the code points `lo..hi`.
   */
  lemma {:induction false} WalkRemoveRange(items: seq<SetItem>, lo: int, hi: int)
    requires lo <= hi && NoEmptyStrings(items)
    ensures Walk(RemoveRange(items, lo, hi)) == Without(Walk(items), lo, hi)
  {
    if items != [] {
      var x, rest := items[0], items[1..];
      NoEmptyStringsTail(items);
      WalkRemoveRange(rest, lo, hi);
      assert RemoveRange(items, lo, hi) == Clip(x, lo, hi) + RemoveRange(rest, lo, hi);
      match x
      case Range(s, e) =>
        WalkConcat(Clip(x, lo, hi), RemoveRange(rest, lo, hi));
        WalkClipRange(s, e, lo, hi);
        SpanWithout(s, e, lo, hi);
        assert Walk(items) == Span(s, e) + Walk(rest);
        WithoutConcat(Span(s, e), Walk(rest), lo, hi);
      case Str(u) =>
        assert (Clip(x, lo, hi) + RemoveRange(rest, lo, hi))[0] == x;
        assert (Clip(x, lo, hi) + RemoveRange(rest, lo, hi))[1..] == RemoveRange(rest, lo, hi);
        if GetItem(x).Item? {
          assert Walk(items) == Walk(rest);
        }
    }
  }

  /**
   * The candidates are exactly the code points above U+00FF of the ranges
   * the walk reads (those before the first unreadable item).
   */
  lemma CandidatesMembers(items: seq<SetItem>, c: int)
    requires WellFormed(items)
    ensures c in Candidates(Applied(items)) <==> Covers(items, Reach(items), c) && c > 0xFF
  {
    WalkRemoveRange(items, CUT_LOW, CUT_HIGH);
    WalkMembers(items, c);
  }

  /** No candidate lies in U+0000..U+00FF; every candidate is a code point of a range of the set. */
  lemma CandidatesAboveCut(items: seq<SetItem>, c: int)
    requires WellFormed(items)
    requires c in Candidates(Applied(items))
    ensures 0xFF < c <= 0x10FFFF
    ensures Covers(items, Reach(items), c)
  {
    CandidatesMembers(items, c);
    var i :| 0 <= i < Reach(items) && items[i].Range? && items[i].start <= c <= items[i].end;
  }

  /**
   * When every item can be read, the candidates are exactly the code points
   * of the set's ranges above U+00FF.
   */
  lemma CandidatesExact(items: seq<SetItem>, c: int)
    requires WellFormed(items)
    requires Reach(items) == |items|
    ensures c in Candidates(Applied(items)) <==> Covers(items, |items|, c) && c > 0xFF
  {
    CandidatesMembers(items, c);
  }

  /** Over ICU's sorted ranges the candidates come out strictly ascending. */
  lemma CandidatesAscending(items: seq<SetItem>)
    requires WellFormed(items) && SortedRanges(items)
    ensures Increasing(Candidates(Applied(items)))
  {
    WalkRemoveRange(items, CUT_LOW, CUT_HIGH);
    WalkAscending(items);
    WithoutIncreasing(Walk(items), CUT_LOW, CUT_HIGH);
  }

  lemma {:induction false} WithoutIncreasing(cs: seq<int>, lo: int, hi: int)
    requires Increasing(cs)
    ensures Increasing(Without(cs, lo, hi))
  {
    if cs != [] {
      var rest := cs[1..];
      assert Increasing(rest) by {
        forall i, j | 0 <= i < j < |rest|
          ensures rest[i] < rest[j]
        {
          assert rest[i] == cs[i + 1] && rest[j] == cs[j + 1];
        }
      }
      WithoutIncreasing(rest, lo, hi);
      var head := if lo <= cs[0] <= hi then [] else [cs[0]];
      forall x, y | x in head && y in Without(rest, lo, hi)
        ensures x < y
      {
        var k :| 0 <= k < |rest| && rest[k] == y;
        assert cs[k + 1] == y;
      }
      IncreasingConcat(head, Without(rest, lo, hi));
    }
  }

  /** The number of candidates is the number of code points of the clipped ranges read. */
  lemma CandidatesCount(items: seq<SetItem>)
    requires WellFormed(items)
    ensures |Candidates(Applied(items))| == RangeTotal(RemoveRange(items, CUT_LOW, CUT_HIGH))
  {
    RemoveRangeKeepsStrings(items, CUT_LOW, CUT_HIGH);
    WalkCount(RemoveRange(items, CUT_LOW, CUT_HIGH));
  }

  /** The string items of a list, in order. */
  function Strings(items: seq<SetItem>): (r: seq<seq<int>>)
    ensures |r| <= |items|
  {
    if items == [] then []
    else (if items[0].Str? then [items[0].units] else []) + Strings(items[1..])
  }

  lemma {:induction false} StringsConcat(a: seq<SetItem>, b: seq<SetItem>)
    ensures Strings(a + b) == Strings(a) + Strings(b)
  {
    if a == [] {
      assert a + b == b;
      AfterEmpty(Strings(b));
    } else {
      var h: seq<seq<int>> := if a[0].Str? then [a[0].units] else [];
      assert (a + b)[0] == a[0];
      assert (a + b)[1..] == a[1..] + b;
      StringsConcat(a[1..], b);
      Regroup(h, Strings(a[1..]), Strings(b));
    }
  }

  /**
   * `uset_removeRange` touches code points only: the string items come through
   * the cut unchanged and in order, so none of them becomes empty.
   */
  lemma {:induction false} RemoveRangeKeepsStrings(items: seq<SetItem>, lo: int, hi: int)
    requires NoEmptyStrings(items)
    ensures Strings(RemoveRange(items, lo, hi)) == Strings(items)
    ensures NoEmptyStrings(RemoveRange(items, lo, hi))
  {
    if items != [] {
      var rest := items[1..];
      NoEmptyStringsTail(items);
      RemoveRangeKeepsStrings(rest, lo, hi);
      var a: seq<SetItem>, b: seq<SetItem> := Clip(items[0], lo, hi), RemoveRange(rest, lo, hi);
      StringsConcat(a, b);
      if items[0].Str? {
        assert a == [items[0]] && a[1..] == [];
      } else {
        var l: seq<SetItem> := if items[0].start < lo then [Range(items[0].start, Min(items[0].end, lo - 1))] else [];
        var r: seq<SetItem> := if items[0].end > hi then [Range(Max(items[0].start, hi + 1), items[0].end)] else [];
        assert a == l + r;
        StringsConcat(l, r);
        if l != [] { assert l[1..] == []; }
        if r != [] { assert r[1..] == []; }
        assert Strings(a) == [];
        AfterEmpty(Strings(b));
      }
      forall i | 0 <= i < |a + b| && (a + b)[i].Str?
        ensures |(a + b)[i].units| > 0
      {
        if i < |a| {
          assert items[0].Str? && a[i] == items[0];
        } else {
          assert (a + b)[i] == b[i - |a|];
        }
      }
    }
  }

  /** One step of the walk, read at position `i`: an unreadable item ends it, any other contributes its points. */
  lemma WalkStep(items: seq<SetItem>, i: nat)
    requires i < |items|
    ensures GetItem(items[i]).FetchError? ==> Walk(items[i..]) == []
    ensures !GetItem(items[i]).FetchError? ==> Walk(items[i..]) == Points(GetItem(items[i])) + Walk(items[i + 1..])
  {
    assert items[i..][0] == items[i] && items[i..][1..] == items[i + 1..];
  }

  // ---------------------------------------------------------------------------
  // The imperative walk

  /** The inner `for` loop of `throwEmojisAt` (dmoji.c:230-233): a line for each of `start..end`, ascending. */
  method ThrowRange(fd: Pipe, start: int, end: int, names: Names) returns (thrown: nat)
    modifies fd
    ensures thrown == |Span(start, end)|
    ensures fd.data == old(fd.data) + Stream(Span(start, end), names)
  {
    thrown := 0;
    ghost var emitted: seq<int> := [];
    var j := start;
    while j <= end
      invariant emitted + Span(j, end) == Span(start, end)
      invariant thrown == |emitted|
      invariant fd.data == old(fd.data) + Stream(emitted, names)
      decreases end - j
    {
      assert Span(j, end) == [j] + Span(j + 1, end);
      assert (emitted + [j]) + Span(j + 1, end) == emitted + Span(j, end);
      thrown := thrown + 1;
      ThrowOneEmoji(fd, j, names);
      StreamAppend(emitted, j, names);
      Regroup(old(fd.data), Stream(emitted, names), Emit(j, names));
      emitted := emitted + [j];
      j := j + 1;
    }
    assert Span(j, end) == [];
    assert emitted == Span(start, end);
  }

  /**
   * One pass of the item loop of `throwEmojisAt` (dmoji.c:216-234): fetch the
   * item, stop on an error, skip a string item, expand a range item.
   */
  method ThrowItem(fd: Pipe, item: SetItem, names: Names) returns (stop: bool, thrown: nat)
    modifies fd
    ensures stop <==> GetItem(item).FetchError?
    ensures thrown == |Points(GetItem(item))|
    ensures fd.data == old(fd.data) + Stream(Points(GetItem(item)), names)
  {
    var f := GetItem(item);
    if f.FetchError? {
      BeforeEmpty(old(fd.data));
      return true, 0;
    }
    stop := false;
    if f.size != 0 {
      // a string item: only a warning
      BeforeEmpty(old(fd.data));
      thrown := 0;
    } else {
      thrown := ThrowRange(fd, f.start, f.end, names);
    }
  }

  /**
   * The item loop of `throwEmojisAt` (dmoji.c:216-234) over the items left
   * after the cut: it stops at the first item that cannot be fetched.
   */
  method ThrowItems(fd: Pipe, items: seq<SetItem>, names: Names) returns (total: nat)
    modifies fd
    ensures total == |Walk(items)|
    ensures fd.data == old(fd.data) + Stream(Walk(items), names)
  {
    total := 0;
    ghost var emitted: seq<int> := [];
    ghost var all := Walk(items);
    assert items[0..] == items;
    AfterEmpty(all);
    BeforeEmpty(old(fd.data));
    var count := |items|;
    var i := 0;
    while i < count
      invariant 0 <= i <= count
      invariant emitted + Walk(items[i..]) == all
      invariant total == |emitted|
      invariant fd.data == old(fd.data) + Stream(emitted, names)
    {
      WalkStep(items, i);
      ghost var before := fd.data;
      var stop, thrown := ThrowItem(fd, items[i], names);
      ghost var points := Points(GetItem(items[i]));
      if stop {
        BeforeEmpty(emitted);
        BeforeEmpty(before);
        return;
      }
      total := total + thrown;
      StreamExtend(old(fd.data), emitted, points, names);
      Regroup(emitted, points, Walk(items[i + 1..]));
      emitted := emitted + points;
      i := i + 1;
    }
    assert items[count..] == [];
    BeforeEmpty(emitted);
  }

  /**
   * `throwEmojisAt(fd)`: writes one line per candidate to `fd` and returns 0.
   * `total` is the function's diagnostic counter of code points handed to
   * `throwOneEmoji`.
   */
  method ThrowEmojisAt(fd: Pipe, emoji: PropertySet, names: Names) returns (r: int, total: nat)
    modifies fd
    ensures r == 0
    ensures total == |Candidates(emoji)|
    ensures fd.data == old(fd.data) + Stream(Candidates(emoji), names)
  {
    r := 0;
    if emoji.ApplyFailed? {
      BeforeEmpty(old(fd.data));
      return 0, 0;
    }
    var items := RemoveRange(emoji.items, CUT_LOW, CUT_HIGH);
    total := ThrowItems(fd, items, names);
  }
}
