# dmoji — a verified model of the candidate stream and the answer cleaner

dmoji lists every emoji that ICU knows as one line per character. The list goes to
the `dmenu` chooser. dmoji reads back the line the user picks, keeps only the
character and hands it to `xsel`, which puts it on the clipboard. This project
models the three pieces of logic inside that process plumbing and proves what they
promise.

- **Candidate enumeration** (`throwEmojisAt`). The Emoji property set, minus
  U+0000..U+00FF, is walked item by item.
  - A range item becomes one line per code point, in ascending order.
  - A string item is skipped.
  - An item that cannot be fetched ends the walk.
  - The ICU set is a sequence of `Range(start, end)` / `Str(units)` items. The
    outcome of applying the property is `Applied(items)` or `ApplyFailed`.
- **Line formatting** (`throwOneEmoji`). The line is built in a zeroed 128-byte
  buffer:
  - `U8_APPEND` writes the UTF-8 octets of the code point (RFC 3629, section 3);
  - `strcat` adds one space;
  - `u_charName` adds the name;
  - `dprintf("%s\n")` writes the C string and a newline.
  
  If the append fails or the name lookup leaves any status other than
  `U_ZERO_ERROR`, nothing is written. The character-name database is a function
  parameter `Names`.
- **Answer cleaning and the exit decision** (the end of `main`). The answer is
  read once into the 128-byte buffer.
  - Zero bytes means no choice: `main` returns 0 and the clipboard helper never
    runs.
  - Otherwise the last byte read becomes NUL and the C string is cut at its first
    space. What remains goes to the clipboard helper.
  - Unusual exit statuses (chooser > 1, clipboard helper > 0) only add warnings.
    Once the pipes and child processes exist, `main` returns 0 on every path.

The modules follow the program:

| module | file | contents |
|---|---|---|
| `CStrings` | cstrings.dfy | `byte`, C strings, `strchr`, `strcat` |
| `Utf8` | utf8.dfy | the RFC 3629 codec and `U8_APPEND` |
| `Pipes` | pipes.dfy | a file descriptor as a class that accumulates the bytes written to it |
| `EmojiLine` | emoji_line.dfy | `throwOneEmoji` |
| `EmojiSet` | emoji_set.dfy | `throwEmojisAt` |
| `Chooser` | chooser.dfy | the end of `main` |
| `Pipeline` | pipeline.dfy | the whole run, with dmenu as a function from its input to its exit status and output |

The imperative parts of the source are methods over arrays and the `Pipe` class.
Each method is proved against a specification function:
- the buffers of `throwOneEmoji` and of `main` are `array<byte>`;
- the loops of `throwEmojisAt` are `while` loops with invariants;
- `Stream(Candidates(set), names)` is exactly what `throwEmojisAt` writes.

Properties of those functions are proved as lemmas:
- the cut removes U+0000..U+00FF;
- the candidates ascend;
- the candidates are counted by the ranges;
- an unreadable item stops the walk;
- UTF-8 decoding and encoding are inverses;
- cleaning a formatted line gives back the character's octets.

Behaviour to note:
- **Separator.** The separator is one space.
- **No choice.** An answer of zero bytes makes `main` return 0.
- **Chooser status.** A non-empty answer is delivered whatever the chooser's
  exit status, 1 included.
- **Clipboard helper failure.** A nonzero status from the clipboard helper only
  warns, and `main` still returns 0.

## Model

| member | source | states |
|---|---|---|
| CStrings.FirstIndex | dmoji.c:258 | `strlen`-style scan: the result is the first index holding `b` (none before it), or the length when there is none |
| CStrings.CStr | dmoji.c:266 | what `%s` sees of a buffer: a prefix with no NUL, ended by a NUL when shorter than the buffer |
| CStrings.StrChr | dmoji.c:113 | `strchr`: None exactly when the C string holds no `b`; otherwise the first index of `b`, inside the C string |
| CStrings.FirstIndexConcat | dmoji.c:113 | the first `b` of `a + t` is the first of `a` if `a` has one, else `|a|` plus the first of `t` |
| CStrings.CStrAfterPrefix | dmoji.c:257-258 | a NUL-free head stays whole in the C string of `a + t` |
| CStrings.CStrAtNul | dmoji.c:108 | writing a NUL ends the C string there, whatever follows |
| CStrings.CStrCut | dmoji.c:114-115 | `*p = '\0'` inside the C string truncates it to its first `p` bytes |
| CStrings.CStrHeadField | dmoji.c:259-266 | a NUL-free head followed by a NUL-terminated field reads as the head plus the field's C string |
| CStrings.StrCatByte | dmoji.c:257 | `strcat(buff, " ")`: the C string gains exactly that byte; the buffer changes only at the old end and the byte after it |
| Utf8.Encode | dmoji.c:252 | an encoding exists exactly for scalar values (0..U+10FFFF, no surrogates), and it has 1 to 4 octets |
| Utf8.Decode | dmoji.c:252 | the reference reading of RFC 3629 that `Encode` is checked against: a decoded value is always a scalar value (that only shortest forms decode is `EncodeDecode`) |
| Utf8.DecodeEncode | dmoji.c:252 | decoding the encoding of any scalar value gives it back |
| Utf8.EncodeDecode | dmoji.c:252 | every well-formed sequence is the encoding of the value it decodes to |
| Utf8.MultiOctetHigh | dmoji.c:252 | every octet of a multi-octet encoding is at least 0x80, so none is a space, NUL or newline |
| Utf8.EncodeNulFree | dmoji.c:257 | an encoding holds a NUL exactly when the code point is U+0000 |
| Utf8.Append | dmoji.c:252-256 | `U8_APPEND`: an error exactly for a non-scalar or an encoding that does not fit, leaving buffer and offset alone; otherwise the octets are written at the offset, the offset advances by their count and nothing else changes |
| Pipes.Pipe.constructor | dmoji.c:71 | a new pipe holds no bytes |
| Pipes.Pipe.Write | dmoji.c:266 | bytes written go after everything written before |
| EmojiLine.NameStatus | dmoji.c:259-261 | `u_charName` leaves `U_ZERO_ERROR` exactly when the lookup succeeds and the name is shorter than the capacity |
| EmojiLine.FormatLine | dmoji.c:245-267 | a line, when there is one, is at most 128 bytes and ends with a newline |
| EmojiLine.LineShape | dmoji.c:251-266 | for `c` other than U+0000: the line exists exactly when `c` is a scalar value, the lookup succeeds and the name leaves room for its NUL after the octets and the space; for a name without NUL the line is exactly `UTF-8(c) + " " + name + "\n"`. U+0000's line is `" " + name + "\n"`, because `strcat` writes the space over its NUL octet (see `FormatLine`) |
| EmojiLine.LineEndsOnce | dmoji.c:266 | the newline is the line's only newline when the name has none and `c` is not U+000A |
| EmojiLine.Emit | dmoji.c:245-267 | what one `throwOneEmoji` call writes: at most 128 bytes, and something exactly when `FormatLine` gives a line; its content is stated by `LineShape` |
| EmojiLine.StreamAppend | dmoji.c:230-233 | the stream of `cs + [c]` is the stream of `cs` followed by the bytes for `c` |
| EmojiLine.StreamConcat | dmoji.c:230-233 | the stream of `a + b` is the stream of `a` followed by that of `b` |
| EmojiLine.StreamExtend | dmoji.c:213-234 | output so far followed by the stream of more code points is the output of all of them |
| EmojiLine.StreamHoldsLine | dmoji.c:230-233 | a code point's line sits in the stream between the lines of the code points before and after it |
| EmojiLine.CharName | dmoji.c:259 | `u_charName` into `buff + count`: its status is `NameStatus` for the room left; the bytes before `count` are kept; on success the buffer is the old head, the name, a NUL and the old rest |
| EmojiLine.ThrowOneEmoji | dmoji.c:245-267 | appends to the descriptor exactly the line for `c`, or nothing |
| EmojiSet.GetItem | dmoji.c:215-217 | `uset_getItem` fails exactly for a string item of at least 128 UTF-16 units; a range reports size 0 and its bounds; a readable string reports its length and leaves the bounds at their initial 0 |
| EmojiSet.Span | dmoji.c:230 | the loop `start..end`: `end - start + 1` values (none when empty), the k-th being `start + k` |
| EmojiSet.RemoveRange | dmoji.c:202 | `uset_removeRange` on the item list: no range left meets `lo..hi`; walking the result is `Without` of the walk (`WalkRemoveRange`); string items are kept unchanged and in order (`RemoveRangeKeepsStrings`) |
| EmojiSet.Walk | dmoji.c:212-235 | the code points the item loop emits, in order; characterised by `WalkMembers` (exactly the code points of ranges read), `WalkCount` (how many) and `WalkStopsAtError` (nothing after an unreadable item) |
| EmojiSet.Candidates | dmoji.c:200-234 | the code points `throwEmojisAt` writes lines for; none after a property error; characterised by `CandidatesMembers`, `CandidatesCount` and `CandidatesAscending` |
| EmojiSet.Without | dmoji.c:202 | the reference for `uset_removeRange`: a value survives exactly when it was there and lies outside `lo..hi` |
| EmojiSet.Reach | dmoji.c:213-220 | the walk reads every item before the first unreadable one |
| EmojiSet.WalkCount | dmoji.c:225-233 | the walk emits as many code points as the ranges it reads hold; string items add none |
| EmojiSet.WalkMembers | dmoji.c:213-234 | the walk emits `c` exactly when a range read before the first unreadable item holds `c` |
| EmojiSet.WalkStopsAtError | dmoji.c:216-220 | nothing after an unreadable item is emitted, whatever follows it |
| EmojiSet.WalkAscending | dmoji.c:213-234 | over ICU's sorted ranges, the walk's code points strictly ascend |
| EmojiSet.SpanWithout | dmoji.c:202 | removing `lo..hi` from a range's code points leaves the code points of the pieces `Clip` keeps |
| EmojiSet.WalkRemoveRange | dmoji.c:202 | walking the clipped set equals walking the set and then removing `lo..hi` |
| EmojiSet.StringsConcat | dmoji.c:202 | the string items of `a + b` are those of `a` followed by those of `b` |
| EmojiSet.RemoveRangeKeepsStrings | dmoji.c:202 | removing a range leaves the string items unchanged and in order, so none of them becomes empty |
| EmojiSet.WithoutIncreasing | dmoji.c:202 | removing values keeps a strictly ascending sequence ascending |
| EmojiSet.CandidatesMembers | dmoji.c:200-234 | `c` is a candidate exactly when a range read before the first unreadable item holds it and `c` is above U+00FF |
| EmojiSet.CandidatesAboveCut | dmoji.c:202 | every candidate is above U+00FF and at most U+10FFFF, and some range read by the walk holds it |
| EmojiSet.CandidatesExact | dmoji.c:200-234 | when every item is readable, the candidates are exactly the code points of the set's ranges above U+00FF |
| EmojiSet.CandidatesAscending | dmoji.c:213-234 | over sorted ranges the candidates strictly ascend |
| EmojiSet.CandidatesCount | dmoji.c:225-233 | the number of candidates is the size of the clipped ranges read |
| EmojiSet.ThrowRange | dmoji.c:230-233 | counts and writes one line per code point of `start..end`, in order |
| EmojiSet.ThrowItem | dmoji.c:215-234 | stops exactly on a fetch error; otherwise writes the item's lines (none for a string) and counts them |
| EmojiSet.ThrowItems | dmoji.c:212-235 | writes the lines of the walk's code points, in order, and counts them |
| EmojiSet.ThrowEmojisAt | dmoji.c:190-243 | returns 0, counts the candidates and writes exactly their lines; a property error writes nothing |
| Chooser.Cleaned | dmoji.c:108-116 | the payload is a prefix of the answer less its last byte, holds no space and no NUL, and ends where a space or NUL ended it |
| Chooser.CleanedWhole | dmoji.c:108-116 | an answer without space or NUL comes back whole, less its last byte |
| Chooser.CleanedAtFirstSpace | dmoji.c:113-115 | an answer is cut just before its first space |
| Chooser.LineRoundTrip | dmoji.c:108-116 | a formatted line fits one read, and cleaning it gives back `UTF-8(c)` exactly when `c` is neither U+0000 nor U+0020 |
| Chooser.CutAtSpace | dmoji.c:108-116 | the buffer changes only by a NUL at `size - 1` and a NUL where the cleaned answer ends; its C string is then the cleaned answer |
| Chooser.Conclude | dmoji.c:95-141 | returns 0; the clipboard helper gets nothing exactly when zero bytes were read, else exactly the cleaned answer; a warning for chooser status > 1 and for clipboard status > 0 |
| Pipeline.ReadOnce | dmoji.c:102 | one read of at most 128 bytes returns a prefix of the chooser's output, of length min(output, 128) |
| Pipeline.PickAndCopy | dmoji.c:67-141 | the chooser sees exactly the candidate stream; the clipboard gets nothing exactly when the chooser printed nothing, else the cleaned first read; warnings are exactly one for chooser status > 1 and, when the chooser printed something, one for clipboard status > 0 |
| Pipeline.ChosenEmojiIsCopied | dmoji.c:93-135 | when the chooser answers with the k-th candidate's line, the stream did carry that line and the clipboard receives exactly that candidate's UTF-8 octets |

## Left out

- Process plumbing is not modelled: `pipe`, `fork`, `dup2`, `execv`, `wait` and `close` (dmoji.c:67-95, 119-183). The chooser and the clipboard helper are parameters: a function from input bytes to exit status and output, and an exit status.
- ICU internals are taken as inputs. The Emoji set is given as its item list, and `u_charName` as the function `Names`. `uset_applyIntPropertyValue` is represented only by the outcome `Applied(items)` or `ApplyFailed`. The invariants ICU keeps are stated as preconditions of the lemmas that need them: ranges are non-empty and inside 0..U+10FFFF, ranges are sorted, and string items are non-empty.
- An empty string item would report size 0, with start and end left at 0, and `throwEmojisAt` would then emit U+0000. The walk functions model this, but the lemmas assume ICU's non-empty strings.
- Failures of `pipe` and `fork` are not modelled. They end the program through `err(1, …)` with exit status 1, both before the chooser runs (dmoji.c:71-78) and before the clipboard helper runs (dmoji.c:121-128).
- Command-line options, help and version text, and the `DBG` diagnostics are not modelled.
- Warnings printed to stderr by `warnx` and the `u_printf` warning for string items are not modelled. Conclude records its warnings as data; the other warnings are dropped.
- Chooser.Conclude: the payload is delivered as `buff` verbatim. The source passes `buff` to `dprintf` as the format string (dmoji.c:135), so a typed answer containing `%` would be reformatted. Emoji payloads hold no `%`.
- Chooser.Conclude: a `read` returning -1 is excluded by the precondition `|got| <= 128`. In the source it would wrap around in the unsigned `size` at dmoji.c:108.
- Pipeline.ReadOnce: one `read` on the pipe is taken to return min(output length, 128) bytes once the chooser has exited. A shorter read that the kernel is allowed to return is not modelled.
- `UChar32` is a signed 32-bit integer. The model uses unbounded integers, because every value involved stays within 0..0x10FFFF and no loop bound can overflow.
