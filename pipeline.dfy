/**
 * The whole run of dmoji.c's `main` once its options are parsed: the candidate
 * stream goes to the chooser (dmenu), its answer is read once, cleaned and
 * copied to the clipboard helper (xsel). The chooser is taken as a function
 * from the bytes it reads to its exit status and the bytes it prints.
 */
module Pipeline {
  import opened Optional
  import opened CStrings
  import opened Pipes
  import opened EmojiLine
  import opened EmojiSet
  import opened Chooser
  import Utf8

  /** What the chooser does with its input: an exit status and the bytes it prints. */
  datatype MenuRun = MenuRun(status: int, output: seq<byte>)

  /** The chooser program, dmenu, as a function of the bytes it reads. */
  type Menu = seq<byte> -> MenuRun

  /**
   * One `read(p_result[0], buff, BUFF_SIZE)` after the chooser has exited:
   * the first BUFF_SIZE bytes of what it printed, or all of them when fewer.
   */
  function ReadOnce(output: seq<byte>): (got: seq<byte>)
    ensures got <= output
    ensures |got| == if |output| < BUFF_SIZE then |output| else BUFF_SIZE
  {
    if |output| <= BUFF_SIZE then output else output[..BUFF_SIZE]
  }

  /**
   * `main` from the first pipe to the return (dmoji.c:67-141): feed every
   * candidate line to the chooser, read its answer, deliver the cleaned
   * payload to the clipboard helper. The result depends on the chooser's
   * status only through a warning.
   */
  method PickAndCopy(emoji: PropertySet, names: Names, dmenu: Menu, stale: seq<byte>, xselStatus: int)
    returns (e: SessionEnd)
    requires |stale| == BUFF_SIZE
    ensures var run := dmenu(Stream(Candidates(emoji), names));
      && e.exitCode == 0
      && (e.clipboard.None? <==> run.output == [])
      && (e.clipboard.Some? ==> e.clipboard.value == Cleaned(ReadOnce(run.output)))
      && (UnusualChooserExit(run.status) in e.warnings <==> run.status > 1)
      && e.warnings ==
           (if run.status > 1 then [UnusualChooserExit(run.status)] else []) +
           (if run.output != [] && xselStatus > 0 then [UnusualClipboardExit(xselStatus)] else [])
  {
    var choices := new Pipe();
    var _, _ := ThrowEmojisAt(choices, emoji, names);
    AfterEmpty(Stream(Candidates(emoji), names));
    var run := dmenu(choices.data);
    e := Conclude(run.status, ReadOnce(run.output), stale, xselStatus);
  }

  /**
   * The point of the pipeline: when the chooser answers with the line of the
   * `k`-th candidate, a line the stream did carry, the clipboard receives
   * exactly that candidate's UTF-8 octets.
   */
  lemma ChosenEmojiIsCopied(items: seq<SetItem>, names: Names, k: nat)
    requires WellFormed(items)
    requires k < |Candidates(Applied(items))|
    requires FormatLine(Candidates(Applied(items))[k], names).Some?
    ensures var cs := Candidates(Applied(items));
      var line := FormatLine(cs[k], names).value;
      && Stream(cs, names) == Stream(cs[..k], names) + line + Stream(cs[k + 1..], names)
      && ReadOnce(line) == line
      && Cleaned(line) == Utf8.Encode(cs[k]).value
  {
    var cs := Candidates(Applied(items));
    assert cs == cs[..k] + [cs[k]] + cs[k + 1..];
    StreamHoldsLine(cs[..k], cs[k], cs[k + 1..], names);
    assert cs[k] > 0xFF by {
      CandidatesAboveCut(items, cs[k]);
    }
    LineRoundTrip(cs[k], names);
  }
}
