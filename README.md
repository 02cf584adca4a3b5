# WhatsApp message cleaner, modelled in Dafny

The application turns a pasted WhatsApp chat export into the message bodies
alone. Its core is the function `clean_whatsapp_messages` (`app.py:35-46`):

1. it cuts the text with `re.split` at every message header of the form
   `[DD/MM, H:MM am] Sender: `, given by the pattern
   `\[\d{2}/\d{2}, \d{1,2}:\d{2}(?: [ap]m)?\] [^:]+: `;
2. it strips each piece with `str.strip()` and drops the pieces that are left empty;
3. it joins the remaining pieces with a blank line (`"\n\n"`).

The model is made of pure functions and lemmas, because the source is pure.
The three stages are spread over five modules, plus `Wrappers`, which holds
the `Option` type:

- `HeaderPattern` (`header.dfy`) describes the header pattern in two ways:
  - `IsHeader` is the set of strings the pattern describes. It is built
    from the four alternatives of the pattern (one or two hour digits, with
    or without ` am`/` pm`), each spelled out atom by atom.
  - `MatchHeader` is what Python's backtracking matcher returns when it tries
    the pattern at one position. It tries the alternatives in Python's order
    (greedy `\d{1,2}` first, then the greedy optional suffix), and `[^:]+`
    runs to the first colon.
  - The two are proved to agree. With Python's ASCII character classes, the
    header at a position is unique.
- `ReSplit` (`split.dfy`) is `re.split` for a pattern without capture groups,
  written for any pattern given by its match at a position. This covers
  patterns that never match the empty string (`Consumes`) and whose match at
  a position depends only on the text from that position on (no lookbehind,
  `\b` or `^`). The header pattern is one of them.
  - `Search` finds the leftmost match.
  - `Split` cuts at successive non-overlapping matches.
  - `Delimiters` lists the matched texts. Interleaving them with the pieces
    gives back the input.
- `HeaderSplit` (`split.dfy`) is that split with the header pattern. No piece
  contains a header, and every text cut out is a header.
- `Strip` (`strip.dfy`) is `str.strip()`. It is characterised by the
  whitespace it removes on each side. It is idempotent and empty exactly on
  whitespace-only text.
- `Cleaner` (`clean.dfy`) holds:
  - the filter and the join;
  - `CleanMessages` itself;
  - lemmas on how it acts on a log, one message at a time;
  - worked examples.

Python's `\d` and the whitespace of `str.strip()` are Unicode-wide classes. The
model keeps them as two `char -> bool` parameters (`CharClasses`). The
predicate `Sound` fixes them to Python's behaviour on ASCII characters and
leaves the rest open. Results that depend on the classes (uniqueness of the
header at a position, the examples) assume `Sound`.

The am/pm suffix is matched in lower case only, as the code is written. The
pattern is compiled without `re.IGNORECASE`, so `[01/01, 9:05 PM] X: ` is not a
header (`UppercaseSuffixNotHeader`).

## Model

| member | source | states |
|---|---|---|
| HeaderPattern.IsAsciiSpace | app.py:43 | The ASCII characters `str.strip()` removes: space, tab, line feed, vertical tab, form feed, carriage return and the separators `\x1c`-`\x1f`. |
| HeaderPattern.Sound | app.py:37-43 | Python's `\d` and whitespace classes on ASCII: `\d` is `0`-`9` and the whitespace is `IsAsciiSpace`. Other characters are left open. |
| HeaderPattern.FixedPart | app.py:37 | The atoms of the pattern up to `] ` for one alternative: 14 to 18 atoms, `[` first and nowhere else, and the first `:` is the one between hour and minutes, followed by a digit. |
| HeaderPattern.IsHeader | app.py:37 | The strings the pattern describes: one of the four alternatives (`Shapes`) atom by atom, then a sender of one or more non-colon characters, then `: `. |
| HeaderPattern.FirstColon | app.py:37 | The index returned is the first `:` at or after the start position; with none, the rest holds no colon. This is where `[^:]+` must stop. |
| HeaderPattern.ShapeAt | app.py:37 | One alternative of the pattern matches exactly when a prefix of the text is a header of that alternative. That prefix's length is the only length it can match. |
| HeaderPattern.MatchFirst | app.py:37 | Trying the alternatives in order (`Shapes`: two-digit hour before one, suffix before none) yields a length whose prefix is a header of some alternative. `None` means no alternative fits any prefix. |
| HeaderPattern.MatchHeader | app.py:37 | The pattern's match at the start of a text has length at least 17 and covers a header. It is `None` exactly when no prefix is a header. |
| HeaderPattern.HeaderDelimited | app.py:37 | Every header starts with `[`, ends with `: ` and has at least 17 characters. |
| HeaderPattern.ShapesExclusive | app.py:37 | With ASCII digits, at most one alternative's fixed part fits a text. The hour width and the suffix are decided by the text. |
| HeaderPattern.HeaderLengthUnique | app.py:37 | With ASCII digits, two header prefixes of a text are the same prefix, and it is the one the matcher reports. |
| HeaderPattern.HeaderThenText | app.py:37 | A header followed by any text is matched exactly, whatever follows it. |
| HeaderPattern.NoBracketNoMatch | app.py:37 | The pattern never matches at a character other than `[`. |
| HeaderPattern.NoFixedPartNoMatch | app.py:37 | If no alternative's fixed part fits, the pattern does not match. |
| HeaderPattern.NoSuffixHeader | app.py:37 | `[01/01, 9:05] X: ` (no am/pm) is matched in full. |
| HeaderPattern.LowercaseSuffixHeader | app.py:37 | `[31/08, 10:24 pm] A: ` (two-digit hour, lower-case suffix) is matched in full. |
| HeaderPattern.UppercaseSuffixNotHeader | app.py:37 | `[01/01, 9:05 PM] X: ` is not matched: the suffix is lower case only. |
| HeaderPattern.TimeColonOf | app.py:37 | Every header's first colon is the one between hour and minutes of its alternative: no colon comes before it, and a digit, not a space, follows it. |
| HeaderPattern.HeaderNotAcross | app.py:37 | With ASCII classes, a header that starts inside a text cannot run into a header that follows the text: it ends before it. |
| HeaderPattern.MatchBeforeHeader | app.py:37 | With ASCII classes, the pattern matches at a position of a text exactly as it does once a header is appended to the text. |
| ReSplit.Search | app.py:40 | The match found is non-empty, within the text, and leftmost. `None` means the pattern matches nowhere. |
| ReSplit.Split | app.py:40 | `re.split` yields at least one piece. |
| ReSplit.Delimiters | app.py:40 | The texts `re.split` removes: the leftmost match, then the matches in what follows it. |
| ReSplit.DelimitersNonEmpty | app.py:40 | Every text the split removes is non-empty. |
| ReSplit.SearchLeftmost | app.py:40 | A match with none before it is the one the search reports. |
| ReSplit.SplitCount | app.py:40 | There is one more piece than there are matches. |
| ReSplit.SplitRoundTrip | app.py:40 | Putting the matched texts back between the pieces restores the input. |
| ReSplit.SplitAfterUnmatched | app.py:40 | Text in which nothing matches, followed by a match, is the first piece. The rest is split after the match. |
| ReSplit.NoMatchSplit | app.py:40 | A text the pattern matches nowhere comes back as the single piece. |
| ReSplit.SplitThenMatch | app.py:40 | If the pattern matches at each position of `s` as it does in `s + t`, and `t` starts with a match, the split of `s + t` is the split of `s` followed by the split of what follows that match. |
| HeaderSplit.HeaderMatcher | app.py:37-40 | The compiled header pattern only produces non-empty matches inside the text. |
| HeaderSplit.SplitOnHeaders | app.py:40 | Splitting on headers yields at least one piece. |
| HeaderSplit.DelimitersAreHeaders | app.py:40 | Every text the split removes is a header. |
| HeaderSplit.MatchIsHeader | app.py:37-40 | A match inside a text covers a header at that position. |
| HeaderSplit.NoMatchHeaderFree | app.py:40 | The text before the first match contains no header. |
| HeaderSplit.SplitHeaderFree | app.py:40 | No piece of the split contains a header anywhere. |
| HeaderSplit.HeaderFreeSplit | app.py:40 | A text without headers is not cut. |
| HeaderSplit.SplitAtFirstHeader | app.py:40 | With its first header at `i`, the text splits into the text before `i` and the split of what follows the header. |
| HeaderSplit.SplitAtLeadingHeader | app.py:40 | A text that starts with a header splits into an empty first piece, then the split of the rest. |
| HeaderSplit.BracketFreeNoMatch | app.py:37-40 | The pattern matches at no position inside text without `[`. |
| HeaderSplit.SplitAfterBracketFree | app.py:40 | Text without `[` before a match is the first piece. |
| HeaderSplit.SplitBeforeHeader | app.py:40 | Text without `[` followed by a header is the first piece. The split goes on after the header. |
| HeaderSplit.SplitThenHeader | app.py:40 | A header at the end of a text adds one empty last piece to the text's split, and changes nothing else. |
| Strip.LeadingSpace | app.py:43 | The count of leading whitespace characters: all of them whitespace, and followed by a non-whitespace character or the end. |
| Strip.TrailingSpace | app.py:43 | The same count for trailing whitespace. |
| Strip.StripSpace | app.py:43 | `str.strip()` returns a window of the text with only whitespace on either side, and the window neither starts nor ends with whitespace. |
| Strip.StripOffset | app.py:43 | The stripped text is a contiguous slice of the input, at the offset the lemma returns. |
| Strip.StripEmptyIffAllSpace | app.py:43 | Stripping gives the empty text exactly when the text is all whitespace. This is the filter condition `if part.strip()`. |
| Strip.StripTrimmed | app.py:43 | Text that neither starts nor ends with whitespace is left unchanged. |
| Strip.StripWindow | app.py:43 | A non-empty trimmed window with only whitespace around it is exactly what stripping keeps. |
| Strip.StripSurrounded | app.py:43 | Stripping whitespace + trimmed text + whitespace gives the trimmed text. |
| Strip.StripIdempotent | app.py:43 | Stripping twice is stripping once. |
| Cleaner.KeepStripped | app.py:43 | No more parts than pieces; every kept part is non-empty and trimmed. |
| Cleaner.KeptPartsStripped | app.py:43 | Every kept part is the stripped form of one of the pieces. |
| Cleaner.KeepStrippedAppend | app.py:43 | The comprehension distributes over concatenation of the pieces, keeping order. |
| Cleaner.KeepStrippedSingle | app.py:43 | A single piece is kept, stripped, exactly when it is not all whitespace. |
| Cleaner.KeepStrippedBlankHead | app.py:43 | A whitespace-only first piece contributes nothing. |
| Cleaner.KeepStrippedEmpty | app.py:43 | Nothing is kept exactly when every piece is whitespace. |
| Cleaner.Join | app.py:46 | The join starts with the first part, and a single part is joined to itself. |
| Cleaner.JoinAppend | app.py:46 | Joining a concatenation of two non-empty part lists is joining each, with the separator between. |
| Cleaner.JoinTrimmed | app.py:46 | Joining non-empty trimmed parts gives trimmed text, empty exactly when there are no parts. |
| Cleaner.CleanMessages | app.py:35-46 | The cleaned text neither starts nor ends with whitespace. |
| Cleaner.CleanEmptyIff | app.py:35-46 | The result is empty exactly when every piece between headers is whitespace. |
| Cleaner.SliceHeaderFree | app.py:40-43 | A slice of a header-free text is header-free. |
| Cleaner.StripHeaderFree | app.py:43 | Stripping a header-free piece keeps it header-free. |
| Cleaner.KeptPartsHeaderFree | app.py:40-43 | No message that is kept contains a header. |
| Cleaner.CleanHeaderFree | app.py:35-46 | A text without headers is only stripped. |
| Cleaner.BracketFreeHeaderFree | app.py:37 | A text without `[` contains no header. |
| Cleaner.CleanBracketFree | app.py:35-46 | A text without `[` is only stripped. |
| Cleaner.CleanEmpty | app.py:35-46 | The empty log cleans to the empty text. |
| Cleaner.CleanWhitespaceOnly | app.py:35-46 | A whitespace-only log cleans to the empty text. |
| Cleaner.CleanStep | app.py:35-46 | With text without `[` before the first header, the result is defined one message at a time: a blank body vanishes; otherwise its stripped form comes first, followed by a blank line and the rest's messages when there are any. |
| Cleaner.CleanLeadingHeader | app.py:35-46 | A header at the very start leaves nothing behind. |
| Cleaner.CleanLineThen | app.py:35-46 | A non-empty trimmed message without `[`, then a newline and a header, comes out as that message, then the rest's messages after a blank line. |
| Cleaner.CleanPlain | app.py:35-46 | Trimmed text without `[` comes back unchanged. |
| Cleaner.CleanHeaderLineThen | app.py:35-46 | Header, a non-empty trimmed message without `[` and a newline, header, rest: the message comes out, then the rest's messages after a blank line. |
| Cleaner.CleanTrailingHeader | app.py:35-46 | A header at the very end of the log leaves nothing behind: the log cleans as it would without it. |
| Cleaner.CleanLine | app.py:35-46 | A trimmed line without `[` followed by a newline cleans to the line. |
| Cleaner.ExampleTwoMessages | app.py:35-46 | `[31/08, 10:24 pm] A: hello`, newline, `[31/08, 10:30 pm] B: world` cleans to `hello`, a blank line, `world`. |
| Cleaner.ExampleTrailingHeader | app.py:35-46 | `[01/01, 9:05] X: one`, newline, `[01/01, 9:06] X: ` cleans to `one`. |
| Cleaner.ExampleLeadingText | app.py:35-46 | Text before the first header is kept as a message: `intro`, newline, `[01/01, 9:00 am] Y: body` cleans to `intro`, a blank line, `body`. |
| Cleaner.ExamplePlainText | app.py:35-46 | `just text` comes back unchanged. |

## Left out

- The Streamlit page (`app.py:6-33`, `app.py:48-109`): styling, the text area, the button, the result display and the download button. It is user interface and I/O, and it only calls the cleaner. This includes `main`'s check that the input is not blank after `strip()` before calling the cleaner.
- A general regular-expression engine: only the one fixed header pattern is modelled. Its backtracking is written out as the ordered list of its four alternatives.
- The exact Unicode tables of `\d` and of `str.strip()`'s whitespace: they are the `CharClasses` parameters, pinned to Python's behaviour on ASCII by `Sound`. Non-ASCII digits and spaces are left open.
- Header-freedom and idempotence of the whole cleaned output: they do not hold and are not promised. `[^:]+` also matches newlines, so a header can start in one kept part and end in the next. For example, `[31/08, 10:24 pm] A` and `x: y` are each header-free, but joined with `"\n\n"` they contain one. Only each kept message is proved header-free (`Cleaner.KeptPartsHeaderFree`).
- Cleaner.CleanStep, Cleaner.CleanLineThen and Cleaner.CleanHeaderLineThen: they state the message-at-a-time behaviour only for bodies without `[`. Such a body cannot hide the start of a header. Bodies that contain `[` are covered by the general split lemmas (`HeaderSplit.SplitAtFirstHeader`).
- Cleaner.Join: its own contract states only that the join starts with the first part and that one part is joined to itself. The join's structure is stated by `Cleaner.JoinAppend` and `Cleaner.JoinTrimmed`.
- ReSplit.Split: `re.split` is modelled for patterns that never match the empty string and whose match at a position depends only on the text from there on. Python's handling of empty matches and of context-dependent patterns (lookbehind, `\b`, `^`) is not modelled. The header pattern needs neither.
