/**
 * The WhatsApp message cleaner: cut the chat log at every header, strip each
 * piece, drop the pieces that are left empty, and join the rest with a blank
 * line between consecutive messages.
 */
module Cleaner {
  import opened HeaderPattern
  import opened ReSplit
  import opened HeaderSplit
  import opened Strip

  /** What goes between two kept messages: one blank line. */
  const Separator: string := "\n\n"

  /**
   * Every piece, stripped, with the pieces that strip to nothing left out:
   * the list comprehension of the cleaner.
   */
  function KeepStripped(space: char -> bool, segs: seq<string>): (parts: seq<string>)
    ensures |parts| <= |segs|
    ensures forall p :: p in parts ==> p != [] && Trimmed(space, p)
  {
    if segs == [] then []
    else
      var p := StripSpace(space, segs[0]);
      var rest := KeepStripped(space, segs[1..]);
      if p == [] then rest else [p] + rest
  }

  /** Every kept part is the stripped form of one of the pieces. */
  lemma {:induction false} KeptPartsStripped(space: char -> bool, segs: seq<string>)
    ensures forall p :: p in KeepStripped(space, segs) ==> exists seg :: seg in segs && p == StripSpace(space, seg)
  {
    if segs != [] {
      KeptPartsStripped(space, segs[1..]);
      assert forall seg :: seg in segs[1..] ==> seg in segs;
    }
  }

  /** `sep.join(parts)`: the parts in order with `sep` between neighbours. */
  function Join(sep: string, parts: seq<string>): (r: string)
    ensures parts != [] ==> parts[0] <= r
    ensures |parts| == 1 ==> r == parts[0]
  {
    if parts == [] then []
    else if |parts| == 1 then parts[0]
    else parts[0] + sep + Join(sep, parts[1..])
  }

  /**
   * `clean_whatsapp_messages`: the message bodies of the chat log, headers
   * removed. The result neither starts nor ends with whitespace.
   */
  function CleanMessages(cc: CharClasses, s: string): (r: string)
    ensures Trimmed(cc.space, r)
  {
    var parts := KeepStripped(cc.space, SplitOnHeaders(cc, s));
    JoinTrimmed(cc.space, Separator, parts);
    Join(Separator, parts)
  }

  /** The cleaner returns the empty text exactly when every piece between headers is whitespace. */
  lemma CleanEmptyIff(cc: CharClasses, s: string)
    ensures CleanMessages(cc, s) == [] <==> forall seg :: seg in SplitOnHeaders(cc, s) ==> AllSpace(cc.space, seg)
  {
    var segs := SplitOnHeaders(cc, s);
    JoinTrimmed(cc.space, Separator, KeepStripped(cc.space, segs));
    KeepStrippedEmpty(cc.space, segs);
  }

  /** Filtering pieces one after the other: the kept parts of a concatenation are the kept parts of each side, in order. */
  lemma {:induction false} KeepStrippedAppend(space: char -> bool, a: seq<string>, b: seq<string>)
    ensures KeepStripped(space, a + b) == KeepStripped(space, a) + KeepStripped(space, b)
    decreases |a|
  {
    if a == [] {
      assert a + b == b;
    } else {
      assert (a + b)[1..] == a[1..] + b;
      KeepStrippedAppend(space, a[1..], b);
    }
  }

  /** A single piece is kept, stripped, exactly when it is not all whitespace. */
  lemma KeepStrippedSingle(space: char -> bool, seg: string)
    ensures KeepStripped(space, [seg]) == if AllSpace(space, seg) then [] else [StripSpace(space, seg)]
  {
    StripEmptyIffAllSpace(space, seg);
    assert [seg][1..] == [];
  }

  /** A blank first piece contributes nothing. */
  lemma KeepStrippedBlankHead(space: char -> bool, seg: string, tail: seq<string>)
    requires AllSpace(space, seg)
    ensures KeepStripped(space, [seg] + tail) == KeepStripped(space, tail)
  {
    StripEmptyIffAllSpace(space, seg);
    assert ([seg] + tail)[1..] == tail;
  }

  /** Nothing is kept exactly when every piece is whitespace. */
  lemma {:induction false} KeepStrippedEmpty(space: char -> bool, segs: seq<string>)
    ensures KeepStripped(space, segs) == [] <==> forall seg :: seg in segs ==> AllSpace(space, seg)
    decreases |segs|
  {
    if segs != [] {
      StripEmptyIffAllSpace(space, segs[0]);
      KeepStrippedEmpty(space, segs[1..]);
      assert forall seg :: seg in segs ==> seg == segs[0] || seg in segs[1..];
    }
  }

  /** Joining splits over a concatenation of two non-empty lists of parts. */
  lemma {:induction false} JoinAppend(sep: string, a: seq<string>, b: seq<string>)
    requires a != [] && b != []
    ensures Join(sep, a + b) == Join(sep, a) + sep + Join(sep, b)
    decreases |a|
  {
    if |a| == 1 {
      assert (a + b)[1..] == b;
    } else {
      assert (a + b)[1..] == a[1..] + b;
      JoinAppend(sep, a[1..], b);
    }
  }

  /**
   * Joining non-empty trimmed parts gives a trimmed text, empty exactly when
   * there are no parts: it starts with the first part and ends with the last.
   */
  lemma {:induction false} JoinTrimmed(space: char -> bool, sep: string, parts: seq<string>)
    requires forall p :: p in parts ==> p != [] && Trimmed(space, p)
    ensures Trimmed(space, Join(sep, parts))
    ensures Join(sep, parts) == [] <==> parts == []
    decreases |parts|
  {
    if |parts| > 1 {
      assert parts[0] in parts;
      assert forall p :: p in parts[1..] ==> p in parts;
      JoinTrimmed(space, sep, parts[1..]);
      var tail := Join(sep, parts[1..]);
      var r := parts[0] + sep + tail;
      assert r[0] == parts[0][0];
      assert r[|r| - 1] == tail[|tail| - 1];
    } else if |parts| == 1 {
      assert parts[0] in parts;
    }
  }

  /** A slice of a header-free text is header-free. */
  lemma SliceHeaderFree(cc: CharClasses, t: string, u: string, a: nat, b: nat)
    requires a <= b <= |t| && u == t[a..b] && HeaderFree(cc, t)
    ensures HeaderFree(cc, u)
  {
    forall j, k | 0 <= j <= k <= |u| ensures !IsHeader(cc, u[j..k]) {
      assert forall i :: 0 <= i < k - j ==> u[j..k][i] == t[a + j + i];
      assert u[j..k] == t[a + j..a + k];
    }
  }

  /** Stripping a header-free text leaves it header-free. */
  lemma StripHeaderFree(cc: CharClasses, t: string)
    requires HeaderFree(cc, t)
    ensures HeaderFree(cc, StripSpace(cc.space, t))
  {
    var r := StripSpace(cc.space, t);
    var a := StripOffset(cc.space, t);
    SliceHeaderFree(cc, t, r, a, a + |r|);
  }

  /** No kept message contains a header: each one is a stripped piece between headers. */
  lemma KeptPartsHeaderFree(cc: CharClasses, s: string)
    ensures forall p :: p in KeepStripped(cc.space, SplitOnHeaders(cc, s)) ==> HeaderFree(cc, p)
  {
    var segs := SplitOnHeaders(cc, s);
    SplitHeaderFree(cc, s);
    KeptPartsStripped(cc.space, segs);
    forall p | p in KeepStripped(cc.space, segs) ensures HeaderFree(cc, p) {
      var seg :| seg in segs && p == StripSpace(cc.space, seg);
      StripHeaderFree(cc, seg);
    }
  }

  /** A text with no header in it is only stripped. */
  lemma CleanHeaderFree(cc: CharClasses, s: string)
    requires HeaderFree(cc, s)
    ensures CleanMessages(cc, s) == StripSpace(cc.space, s)
  {
    HeaderFreeSplit(cc, s);
    KeepStrippedSingle(cc.space, s);
    StripEmptyIffAllSpace(cc.space, s);
  }

  /** A text with no `[` holds no header. */
  lemma BracketFreeHeaderFree(cc: CharClasses, s: string)
    requires '[' !in s
    ensures HeaderFree(cc, s)
  {
    forall j, k | 0 <= j <= k <= |s| ensures !IsHeader(cc, s[j..k]) {
      if IsHeader(cc, s[j..k]) {
        HeaderDelimited(cc, s[j..k]);
      }
    }
  }

  /** A text with no `[` is only stripped. */
  lemma CleanBracketFree(cc: CharClasses, s: string)
    requires '[' !in s
    ensures CleanMessages(cc, s) == StripSpace(cc.space, s)
  {
    BracketFreeHeaderFree(cc, s);
    CleanHeaderFree(cc, s);
  }

  /** The empty log cleans to the empty text. */
  lemma CleanEmpty(cc: CharClasses)
    ensures CleanMessages(cc, "") == ""
  {
    BracketFreeHeaderFree(cc, "");
    CleanHeaderFree(cc, "");
  }

  /** A log of whitespace only cleans to the empty text. */
  lemma CleanWhitespaceOnly(cc: CharClasses, s: string)
    requires Sound(cc) && AllSpace(cc.space, s)
    ensures CleanMessages(cc, s) == ""
  {
    assert '[' !in s by {
      assert !cc.space('[');
    }
    BracketFreeHeaderFree(cc, s);
    CleanHeaderFree(cc, s);
    StripEmptyIffAllSpace(cc.space, s);
  }

  /**
   * The cleaner works one message at a time: the body before the first
   * header is stripped and, unless it is blank, put in front of the rest's
   * messages with a blank line between.
   */
  lemma {:induction false} CleanStep(cc: CharClasses, body: string, h: string, rest: string)
    requires Sound(cc) && IsHeader(cc, h) && '[' !in body
    ensures AllSpace(cc.space, body) ==> CleanMessages(cc, body + h + rest) == CleanMessages(cc, rest)
    ensures !AllSpace(cc.space, body) && CleanMessages(cc, rest) == [] ==>
      CleanMessages(cc, body + h + rest) == StripSpace(cc.space, body)
    ensures !AllSpace(cc.space, body) && CleanMessages(cc, rest) != [] ==>
      CleanMessages(cc, body + h + rest) == StripSpace(cc.space, body) + Separator + CleanMessages(cc, rest)
  {
    var space := cc.space;
    var tail := SplitOnHeaders(cc, rest);
    SplitBeforeHeader(cc, body, h, rest);
    KeepStrippedAppend(space, [body], tail);
    KeepStrippedSingle(space, body);
    var more := KeepStripped(space, tail);
    JoinTrimmed(space, Separator, more);
    if !AllSpace(space, body) {
      if more == [] {
        assert [StripSpace(space, body)] + more == [StripSpace(space, body)];
      } else {
        JoinAppend(Separator, [StripSpace(space, body)], more);
      }
    } else {
      assert [] + more == more;
    }
  }

  /** A header at the very start of the log leaves no message behind. */
  lemma CleanLeadingHeader(cc: CharClasses, h: string, rest: string)
    requires Sound(cc) && IsHeader(cc, h)
    ensures CleanMessages(cc, h + rest) == CleanMessages(cc, rest)
  {
    SplitAtLeadingHeader(cc, h, rest);
    KeepStrippedBlankHead(cc.space, [], SplitOnHeaders(cc, rest));
  }

  /** A one-line message `b` followed by a header comes out as `b`, then the rest's messages. */
  lemma CleanLineThen(cc: CharClasses, b: string, h: string, rest: string)
    requires Sound(cc) && IsHeader(cc, h)
    requires b != [] && Trimmed(cc.space, b) && '[' !in b
    ensures CleanMessages(cc, rest) == [] ==> CleanMessages(cc, b + "\n" + h + rest) == b
    ensures CleanMessages(cc, rest) != [] ==> CleanMessages(cc, b + "\n" + h + rest) == b + Separator + CleanMessages(cc, rest)
  {
    var line := b + "\n";
    assert AllSpace(cc.space, "\n");
    StripSurrounded(cc.space, [], b, "\n");
    assert [] + b + "\n" == line;
    StripEmptyIffAllSpace(cc.space, line);
    assert '[' !in line;
    CleanStep(cc, line, h, rest);
  }

  /** Text without `[` that has no surrounding whitespace comes back unchanged. */
  lemma CleanPlain(cc: CharClasses, s: string)
    requires '[' !in s && Trimmed(cc.space, s)
    ensures CleanMessages(cc, s) == s
  {
    CleanBracketFree(cc, s);
    StripTrimmed(cc.space, s);
  }

  lemma AppendAssoc(x: string, y: string, z: string)
    ensures x + y + z == x + (y + z)
  {
  }

  /** A header, a one-line message `b`, and another header: `b` comes out, then the rest's messages. */
  lemma CleanHeaderLineThen(cc: CharClasses, h1: string, b: string, h2: string, rest: string)
    requires Sound(cc) && IsHeader(cc, h1) && IsHeader(cc, h2)
    requires b != [] && Trimmed(cc.space, b) && '[' !in b
    ensures CleanMessages(cc, rest) == [] ==> CleanMessages(cc, h1 + b + "\n" + h2 + rest) == b
    ensures CleanMessages(cc, rest) != [] ==>
      CleanMessages(cc, h1 + b + "\n" + h2 + rest) == b + Separator + CleanMessages(cc, rest)
  {
    AppendAssoc(h1, b, "\n");
    AppendAssoc(h1, b + "\n", h2);
    AppendAssoc(h1, b + "\n" + h2, rest);
    CleanLeadingHeader(cc, h1, b + "\n" + h2 + rest);
    CleanLineThen(cc, b, h2, rest);
  }

  /** A header at the very end of the log leaves nothing behind: the log cleans as it would without it. */
  lemma CleanTrailingHeader(cc: CharClasses, s: string, h: string)
    requires Sound(cc) && IsHeader(cc, h)
    ensures CleanMessages(cc, s + h) == CleanMessages(cc, s)
  {
    var segs := SplitOnHeaders(cc, s);
    SplitThenHeader(cc, s, h);
    KeepStrippedAppend(cc.space, segs, [[]]);
    KeepStrippedSingle(cc.space, []);
    assert KeepStripped(cc.space, segs) + [] == KeepStripped(cc.space, segs);
  }

  /** Text whose first and last characters are ASCII and not whitespace is trimmed under Python's classes. */
  lemma TrimmedAscii(cc: CharClasses, t: string)
    requires Sound(cc) && t != []
    requires t[0] < '\U{80}' && !IsAsciiSpace(t[0])
    requires t[|t| - 1] < '\U{80}' && !IsAsciiSpace(t[|t| - 1])
    ensures Trimmed(cc.space, t)
  {
  }

  /** The headers of the two-message example, a two-digit hour with a lower-case suffix. */
  lemma TwoMessagesHeaders(cc: CharClasses)
    requires Sound(cc)
    ensures IsHeader(cc, "[31/08, 10:24 pm] A: ") && IsHeader(cc, "[31/08, 10:30 pm] B: ")
  {
    var h1: string := "[31/08, 10:24 pm] A: ";
    var h2: string := "[31/08, 10:30 pm] B: ";
    FixedParts();
    assert HeaderShape(cc, h1, Shape(2, true)) by { assert h1[18..19] == "A"; }
    assert HeaderShape(cc, h2, Shape(2, true)) by { assert h2[18..19] == "B"; }
    assert Shape(2, true) in Shapes;
  }

  /**
   * The log `[31/08, 10:24 pm] A: hello` / `[31/08, 10:30 pm] B: world` (two
   * lines) cleans to `hello`, a blank line, and `world`.
   */
  lemma ExampleTwoMessages(cc: CharClasses)
    requires Sound(cc)
    ensures CleanMessages(cc, "[31/08, 10:24 pm] A: " + "hello" + "\n" + "[31/08, 10:30 pm] B: " + "world")
      == "hello" + "\n\n" + "world"
  {
    assert '[' !in "hello" && '[' !in "world";
    TrimmedAscii(cc, "hello");
    TrimmedAscii(cc, "world");
    CleanPlain(cc, "world");
    TwoMessagesHeaders(cc);
    CleanHeaderLineThen(cc, "[31/08, 10:24 pm] A: ", "hello", "[31/08, 10:30 pm] B: ", "world");
  }

  /** The headers of the trailing-header example, without am/pm suffix. */
  lemma TrailingHeaderHeaders(cc: CharClasses)
    requires Sound(cc)
    ensures IsHeader(cc, "[01/01, 9:05] X: ") && IsHeader(cc, "[01/01, 9:06] X: ")
  {
    var h1: string := "[01/01, 9:05] X: ";
    var h2: string := "[01/01, 9:06] X: ";
    FixedParts();
    assert HeaderShape(cc, h1, Shape(1, false)) by { assert h1[14..15] == "X"; }
    assert HeaderShape(cc, h2, Shape(1, false)) by { assert h2[14..15] == "X"; }
    assert Shape(1, false) in Shapes;
  }

  /** The log `[01/01, 9:05] X: one` / `[01/01, 9:06] X: ` cleans to `one`: the last header leaves nothing. */
  lemma ExampleTrailingHeader(cc: CharClasses)
    requires Sound(cc)
    ensures CleanMessages(cc, "[01/01, 9:05] X: " + "one" + "\n" + "[01/01, 9:06] X: ") == "one"
  {
    assert '[' !in "one";
    TrimmedAscii(cc, "one");
    CleanLine(cc, "one");
    var h1: string := "[01/01, 9:05] X: ";
    TrailingHeaderHeaders(cc);
    CleanTrailingHeader(cc, h1 + "one" + "\n", "[01/01, 9:06] X: ");
    AppendAssoc(h1, "one", "\n");
    CleanLeadingHeader(cc, h1, "one" + "\n");
  }

  /** A bracket-free trimmed line followed by a newline cleans to the line. */
  lemma CleanLine(cc: CharClasses, b: string)
    requires Sound(cc) && '[' !in b && Trimmed(cc.space, b)
    ensures CleanMessages(cc, b + "\n") == b
  {
    CleanBracketFree(cc, b + "\n");
    assert IsAsciiSpace('\n');
    StripSurrounded(cc.space, [], b, "\n");
    assert [] + b + "\n" == b + "\n";
  }

  /** The header of the leading-text example, a one-digit hour with a suffix. */
  lemma LeadingTextHeader(cc: CharClasses)
    requires Sound(cc)
    ensures IsHeader(cc, "[01/01, 9:00 am] Y: ")
  {
    var h: string := "[01/01, 9:00 am] Y: ";
    FixedParts();
    assert HeaderShape(cc, h, Shape(1, true)) by { assert h[17..18] == "Y"; }
    assert Shape(1, true) in Shapes;
  }

  /** The log `intro` / `[01/01, 9:00 am] Y: body` keeps the text before the first header as a message. */
  lemma ExampleLeadingText(cc: CharClasses)
    requires Sound(cc)
    ensures CleanMessages(cc, "intro" + "\n" + "[01/01, 9:00 am] Y: " + "body") == "intro" + "\n\n" + "body"
  {
    assert '[' !in "intro" && '[' !in "body";
    TrimmedAscii(cc, "intro");
    TrimmedAscii(cc, "body");
    CleanPlain(cc, "body");
    LeadingTextHeader(cc);
    CleanLineThen(cc, "intro", "[01/01, 9:00 am] Y: ", "body");
  }

  /** Text without headers comes back unchanged. */
  lemma ExamplePlainText(cc: CharClasses)
    requires Sound(cc)
    ensures CleanMessages(cc, "just text") == "just text"
  {
    TrimmedAscii(cc, "just text");
    CleanPlain(cc, "just text");
  }
}
