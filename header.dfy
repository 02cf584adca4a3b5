module Wrappers {
  datatype Option<+T> = None | Some(value: T)
}

/**
 * The WhatsApp export header `[DD/MM, H:MM am] Sender: ` recognised by the
 * fixed pattern of the cleaner:
 *
 *   \[ \d{2} / \d{2} , ' ' \d{1,2} : \d{2} (?: ' ' [ap]m)? \] ' ' [^:]+ : ' '
 *
 * `IsHeader` is the set of strings the pattern describes; `MatchHeader` is
 * what Python's backtracking matcher returns when it tries the pattern at the
 * start of a string. The two are proved to agree.
 */
module HeaderPattern {
  import opened Wrappers

  /**
   * The two Unicode-aware character classes the cleaner relies on: `digit` is
   * Python's `\d` in a `str` pattern (any decimal digit, Bengali ones
   * included) and `space` is what `str.strip()` removes. They are kept as
   * parameters; `Sound` fixes them on ASCII only.
   */
  datatype CharClasses = CharClasses(digit: char -> bool, space: char -> bool)

  /** The ASCII characters Python's `str.isspace()` accepts. */
  predicate IsAsciiSpace(c: char)
  {
    c == ' ' || c == '\t' || c == '\n' || c == '\r' || c == '\U{b}' || c == '\U{c}' || '\U{1c}' <= c <= '\U{1f}'
  }

  /** On ASCII the classes are exactly Python's; beyond ASCII they are left open. */
  ghost predicate Sound(cc: CharClasses)
  {
    && (forall c: char :: c < '\U{80}' ==> (cc.digit(c) <==> '0' <= c <= '9'))
    && (forall c: char :: c < '\U{80}' ==> (cc.space(c) <==> IsAsciiSpace(c)))
  }

  /** The am/pm letter of the optional suffix: lower case only, as the pattern has no IGNORECASE flag. */
  predicate IsMeridiemLetter(c: char)
  {
    c == 'a' || c == 'p'
  }

  /** One alternative of the pattern: the hour has 1 or 2 digits, the suffix ` am`/` pm` is present or not. */
  datatype Shape = Shape(hourDigits: nat, meridiem: bool)

  /**
   * The alternatives in the order Python's backtracking tries them: `\d{1,2}`
   * is greedy (two hour digits before one), and so is `(?: [ap]m)?` (suffix
   * before none).
   */
  const Shapes: seq<Shape> := [Shape(2, true), Shape(2, false), Shape(1, true), Shape(1, false)]

  /** One position of the fixed part of the pattern: a literal character, `\d`, or the `[ap]` of the suffix. */
  datatype Atom = Lit(c: char) | Digit | Meridiem

  /** Whether character `c` is accepted by atom `a`. */
  predicate AtomAccepts(cc: CharClasses, a: Atom, c: char)
  {
    match a
    case Lit(x) => c == x
    case Digit => cc.digit(c)
    case Meridiem => IsMeridiemLetter(c)
  }

  /** Where the colon between hours and minutes sits in an alternative's fixed part. */
  function TimeColon(sh: Shape): nat
  {
    if sh.hourDigits == 2 then 10 else 9
  }

  /**
   * The fixed part `\[\d{2}/\d{2}, \d{1,2}:\d{2}(?: [ap]m)?\] ` of one
   * alternative, atom by atom. Only its first atom is `[`, and its first colon
   * is the time colon, followed by a minute digit.
   */
  function FixedPart(sh: Shape): (atoms: seq<Atom>)
    ensures |atoms| == 13 + (if sh.hourDigits == 2 then 2 else 1) + (if sh.meridiem then 3 else 0)
    ensures atoms[0] == Lit('[') && forall k :: 1 <= k < |atoms| ==> atoms[k] != Lit('[')
    ensures atoms[TimeColon(sh)] == Lit(':') && atoms[TimeColon(sh) + 1] == Digit
    ensures forall k :: 0 <= k < TimeColon(sh) ==> atoms[k] != Lit(':')
  {
    [Lit('['), Digit, Digit, Lit('/'), Digit, Digit, Lit(','), Lit(' ')]
    + (if sh.hourDigits == 2 then [Digit, Digit] else [Digit])
    + [Lit(':'), Digit, Digit]
    + (if sh.meridiem then [Lit(' '), Meridiem, Lit('m')] else [])
    + [Lit(']'), Lit(' ')]
  }

  /** `t` starts with the fixed part of alternative `sh`. */
  predicate PrefixShape(cc: CharClasses, t: string, sh: Shape)
  {
    var atoms := FixedPart(sh);
    |t| >= |atoms| && forall k :: 0 <= k < |atoms| ==> AtomAccepts(cc, atoms[k], t[k])
  }

  /** `h` is, in full, a header of alternative `sh`: the fixed part, a non-empty colon-free sender, then `: `. */
  predicate HeaderShape(cc: CharClasses, h: string, sh: Shape)
  {
    var p := |FixedPart(sh)|;
    && PrefixShape(cc, h, sh)
    && |h| >= p + 3
    && ':' !in h[p..|h| - 2]
    && h[|h| - 2] == ':' && h[|h| - 1] == ' '
  }

  /** `h` belongs to the language of the header pattern. */
  predicate IsHeader(cc: CharClasses, h: string)
  {
    exists sh :: sh in Shapes && HeaderShape(cc, h, sh)
  }

  /** Index of the first `:` in `s` at or after `from`: where `[^:]+` must stop. */
  function FirstColon(s: string, from: nat): (r: Option<nat>)
    requires from <= |s|
    ensures r.Some? ==> from <= r.value < |s| && s[r.value] == ':' && ':' !in s[from..r.value]
    ensures r.None? ==> ':' !in s[from..]
    decreases |s| - from
  {
    if from == |s| then None
    else if s[from] == ':' then Some(from)
    else FirstColon(s, from + 1)
  }

  lemma SliceOfPrefix(t: string, n: nat, a: nat, b: nat)
    requires a <= b <= n <= |t|
    ensures t[..n][a..b] == t[a..b]
  {
  }

  /** The fixed part only reads the characters it covers. */
  lemma PrefixShapeOfPrefix(cc: CharClasses, t: string, n: nat, sh: Shape)
    requires |FixedPart(sh)| <= n <= |t|
    ensures PrefixShape(cc, t[..n], sh) == PrefixShape(cc, t, sh)
  {
    assert forall k :: 0 <= k < |FixedPart(sh)| ==> t[..n][k] == t[k];
  }

  /** A header prefix of `t` of alternative `sh` ends at the first colon after the fixed part, plus two. */
  lemma {:induction false} HeaderShapeEnd(cc: CharClasses, t: string, n: nat, sh: Shape)
    requires n <= |t|
    requires HeaderShape(cc, t[..n], sh)
    ensures PrefixShape(cc, t, sh)
    ensures FirstColon(t, |FixedPart(sh)|) == Some(n - 2)
    ensures n - 2 > |FixedPart(sh)| && t[n - 1] == ' '
  {
    var p := |FixedPart(sh)|;
    PrefixShapeOfPrefix(cc, t, n, sh);
    SliceOfPrefix(t, n, p, n - 2);
    var q := FirstColon(t, p);
    assert t[n - 2] in t[p..];
  }

  /**
   * The matcher for one alternative: after the fixed part, `[^:]+` runs to
   * the first colon, which must not be the first sender character and must
   * be followed by a space. The result is the match length, and it is the
   * only length at which this alternative matches.
   */
  function ShapeAt(cc: CharClasses, t: string, sh: Shape): (r: Option<nat>)
    ensures r.Some? ==> r.value <= |t| && HeaderShape(cc, t[..r.value], sh)
    ensures forall n :: 0 <= n <= |t| && HeaderShape(cc, t[..n], sh) ==> r == Some(n)
  {
    var p := |FixedPart(sh)|;
    var r :=
      if !PrefixShape(cc, t, sh) then None
      else match FirstColon(t, p)
        case None => None
        case Some(q) => if q > p && q + 1 < |t| && t[q + 1] == ' ' then Some(q + 2) else None;
    assert r.Some? ==> HeaderShape(cc, t[..r.value], sh) by {
      if r.Some? {
        PrefixShapeOfPrefix(cc, t, r.value, sh);
        SliceOfPrefix(t, r.value, p, r.value - 2);
      }
    }
    assert forall n :: 0 <= n <= |t| && HeaderShape(cc, t[..n], sh) ==> r == Some(n) by {
      forall n | 0 <= n <= |t| && HeaderShape(cc, t[..n], sh) ensures r == Some(n) {
        HeaderShapeEnd(cc, t, n, sh);
      }
    }
    r
  }

  /** Try the alternatives `shapes` in order and return the first match length. */
  function MatchFirst(cc: CharClasses, t: string, shapes: seq<Shape>): (r: Option<nat>)
    ensures r.Some? ==> r.value <= |t| && exists sh :: sh in shapes && HeaderShape(cc, t[..r.value], sh)
    ensures r.None? ==> forall sh, n :: sh in shapes && 0 <= n <= |t| ==> !HeaderShape(cc, t[..n], sh)
  {
    if shapes == [] then None
    else
      var r := ShapeAt(cc, t, shapes[0]);
      if r.Some? then
        assert shapes[0] in shapes;
        r
      else
        var rest := MatchFirst(cc, t, shapes[1..]);
        assert forall sh :: sh in shapes ==> sh == shapes[0] || sh in shapes[1..];
        assert rest.Some? ==> exists sh :: sh in shapes && HeaderShape(cc, t[..rest.value], sh) by {
          if rest.Some? {
            var sh :| sh in shapes[1..] && HeaderShape(cc, t[..rest.value], sh);
            assert sh in shapes;
          }
        }
        rest
  }

  /** A header starts with `[`, ends with `: ` and is at least 17 characters long. */
  lemma HeaderDelimited(cc: CharClasses, h: string)
    requires IsHeader(cc, h)
    ensures |h| >= 17 && h[0] == '[' && h[|h| - 2..] == ": "
  {
    var sh :| sh in Shapes && HeaderShape(cc, h, sh);
    assert FixedPart(sh)[0] == Lit('[');
  }

  /**
   * What the pattern matches at the start of `t` (Python's `pattern.match`),
   * as the length of the match: `None` exactly when no prefix of `t` is a
   * header.
   */
  function MatchHeader(cc: CharClasses, t: string): (r: Option<nat>)
    ensures r.Some? ==> 17 <= r.value <= |t| && IsHeader(cc, t[..r.value])
    ensures r.None? <==> forall n :: 0 <= n <= |t| ==> !IsHeader(cc, t[..n])
  {
    var r := MatchFirst(cc, t, Shapes);
    if r.Some? then HeaderDelimited(cc, t[..r.value]); r else r
  }

  /** With Python's ASCII digits, at most one alternative fits the text at a position. */
  lemma {:induction false} ShapesExclusive(cc: CharClasses, t: string, sh1: Shape, sh2: Shape)
    requires Sound(cc)
    requires sh1 in Shapes && sh2 in Shapes
    requires PrefixShape(cc, t, sh1) && PrefixShape(cc, t, sh2)
    ensures sh1 == sh2
  {
    var p1, p2 := FixedPart(sh1), FixedPart(sh2);
    // position 9 is the second hour digit or the colon after a one-digit hour
    assert AtomAccepts(cc, p1[9], t[9]) && AtomAccepts(cc, p2[9], t[9]);
    assert !cc.digit(':');
    // position 11 + hour digits is the space before am/pm or the closing bracket
    var k := 11 + sh1.hourDigits;
    assert AtomAccepts(cc, p1[k], t[k]) && AtomAccepts(cc, p2[k], t[k]);
  }

  /** The alternative of a header prefix of `t`, whose fixed part is then a fixed part of `t`. */
  lemma ShapeOf(cc: CharClasses, t: string, n: nat) returns (sh: Shape)
    requires n <= |t| && IsHeader(cc, t[..n])
    ensures sh in Shapes && PrefixShape(cc, t, sh) && HeaderShape(cc, t[..n], sh)
  {
    sh :| sh in Shapes && HeaderShape(cc, t[..n], sh);
    PrefixShapeOfPrefix(cc, t, n, sh);
  }

  /**
   * The length of a header at a given position is determined by the text: if
   * two prefixes of `t` are headers they are the same prefix, and it is the
   * one `MatchHeader` reports.
   */
  lemma {:induction false} HeaderLengthUnique(cc: CharClasses, t: string, m: nat, n: nat)
    requires Sound(cc)
    requires m <= |t| && n <= |t|
    requires IsHeader(cc, t[..m]) && IsHeader(cc, t[..n])
    ensures m == n && MatchHeader(cc, t) == Some(n)
  {
    var shm := ShapeOf(cc, t, m);
    var shn := ShapeOf(cc, t, n);
    ShapesExclusive(cc, t, shm, shn);
    var r := MatchHeader(cc, t).value;
    var shr := ShapeOf(cc, t, r);
    ShapesExclusive(cc, t, shm, shr);
    var _ := ShapeAt(cc, t, shm);
  }

  /** With Python's classes, a header followed by anything is matched exactly. */
  lemma {:induction false} HeaderThenText(cc: CharClasses, h: string, rest: string)
    requires Sound(cc) && IsHeader(cc, h)
    ensures MatchHeader(cc, h + rest) == Some(|h|)
  {
    var t := h + rest;
    assert t[..|h|] == h;
    var r := MatchHeader(cc, t);
    HeaderLengthUnique(cc, t, r.value, |h|);
  }

  /** The pattern can only match where the text has a `[`. */
  lemma NoBracketNoMatch(cc: CharClasses, t: string)
    requires t == [] || t[0] != '['
    ensures MatchHeader(cc, t) == None
  {
    forall n | 0 <= n <= |t| ensures !IsHeader(cc, t[..n]) {
      if IsHeader(cc, t[..n]) {
        HeaderDelimited(cc, t[..n]);
      }
    }
  }

  /** With Python's digits, no atom of a fixed part but the first accepts `[`. */
  lemma BracketOnlyFirst(cc: CharClasses, sh: Shape)
    requires Sound(cc)
    ensures forall k :: 1 <= k < |FixedPart(sh)| ==> !AtomAccepts(cc, FixedPart(sh)[k], '[')
  {
    assert !cc.digit('[');
  }

  /** With Python's digits, the first colon of a header is its time colon, and a digit follows it. */
  lemma TimeColonOf(cc: CharClasses, h: string) returns (c: nat)
    requires Sound(cc) && IsHeader(cc, h)
    ensures c + 1 < |h| && h[c] == ':' && h[c + 1] != ' '
    ensures forall k :: 0 <= k < c ==> h[k] != ':'
    ensures cc.digit(h[c + 1])
    ensures exists sh :: sh in Shapes && HeaderShape(cc, h, sh) && c == TimeColon(sh)
  {
    var sh :| sh in Shapes && HeaderShape(cc, h, sh);
    var atoms := FixedPart(sh);
    c := TimeColon(sh);
    assert AtomAccepts(cc, atoms[c], h[c]) && AtomAccepts(cc, atoms[c + 1], h[c + 1]);
    assert !cc.digit(' ') && !cc.digit(':');
    forall k | 0 <= k < c ensures h[k] != ':' {
      assert AtomAccepts(cc, atoms[k], h[k]);
    }
  }

  /** With Python's digits, a `[` past the start of a text lies beyond any fixed part the text starts with. */
  lemma FixedPartBeforeBracket(cc: CharClasses, u: string, sh: Shape, d: nat)
    requires Sound(cc) && PrefixShape(cc, u, sh) && 1 <= d < |u| && u[d] == '['
    ensures |FixedPart(sh)| <= d
  {
    BracketOnlyFirst(cc, sh);
  }

  /**
   * A colon-free run from `p` to a closing `: ` cannot reach past `d` when
   * the text from `d` on starts with a non-space and its first colon is not
   * followed by a space.
   */
  lemma ClosingColonBefore(u: string, p: nat, n: nat, d: nat, c: nat)
    requires p <= d < |u| && p + 2 <= n <= |u|
    requires FirstColon(u, p) == Some(n - 2) && u[n - 1] == ' '
    requires u[d] != ' ' && d + c + 1 < |u| && u[d + c] == ':' && u[d + c + 1] != ' '
    requires forall k :: d <= k < d + c ==> u[k] != ':'
    ensures n <= d
  {
    forall k | p <= k < n - 2 ensures u[k] != ':' {
      assert u[k] == u[p..n - 2][k - p];
    }
  }

  /**
   * With Python's classes, a header of `s + h` that starts inside `s` ends
   * inside `s` when `h` is a header. Its fixed part cannot cover the `[` of
   * `h`, so `h` would have to hold the sender's closing `: `, but the first
   * colon of `h` is followed by a digit.
   */
  lemma HeaderNotAcross(cc: CharClasses, s: string, h: string, j: nat, n: nat)
    requires Sound(cc) && IsHeader(cc, h)
    requires j < |s| && n <= |s| + |h| - j && IsHeader(cc, (s + h)[j..][..n])
    ensures j + n <= |s|
  {
    var u := (s + h)[j..];
    var d := |s| - j;
    var sh := ShapeOf(cc, u, n);
    HeaderShapeEnd(cc, u, n, sh);
    HeaderDelimited(cc, h);
    var c := TimeColonOf(cc, h);
    assert u[d..] == h;
    FixedPartBeforeBracket(cc, u, sh, d);
    assert forall k :: d <= k < d + c ==> u[k] == h[k - d];
    ClosingColonBefore(u, |FixedPart(sh)|, n, d, c);
  }

  /**
   * With Python's classes, appending a header to `s` does not change what the
   * pattern matches at any position inside `s`.
   */
  lemma MatchBeforeHeader(cc: CharClasses, s: string, h: string, j: nat)
    requires Sound(cc) && IsHeader(cc, h) && j < |s|
    ensures MatchHeader(cc, (s + h)[j..]) == MatchHeader(cc, s[j..])
  {
    var u, v := (s + h)[j..], s[j..];
    forall m | 0 <= m <= |u| && IsHeader(cc, u[..m]) ensures m <= |v| && IsHeader(cc, v[..m]) {
      HeaderNotAcross(cc, s, h, j, m);
      assert u[..m] == v[..m];
    }
    forall m | 0 <= m <= |v| ensures u[..m] == v[..m] {
    }
    match MatchHeader(cc, v)
    case Some(n) => HeaderLengthUnique(cc, u, n, n);
    case None =>
  }

  /** The fixed parts of the four alternatives, spelled out. */
  lemma FixedParts()
    ensures FixedPart(Shape(2, true)) == [Lit('['), Digit, Digit, Lit('/'), Digit, Digit, Lit(','), Lit(' '),
      Digit, Digit, Lit(':'), Digit, Digit, Lit(' '), Meridiem, Lit('m'), Lit(']'), Lit(' ')]
    ensures FixedPart(Shape(2, false)) == [Lit('['), Digit, Digit, Lit('/'), Digit, Digit, Lit(','), Lit(' '),
      Digit, Digit, Lit(':'), Digit, Digit, Lit(']'), Lit(' ')]
    ensures FixedPart(Shape(1, true)) == [Lit('['), Digit, Digit, Lit('/'), Digit, Digit, Lit(','), Lit(' '),
      Digit, Lit(':'), Digit, Digit, Lit(' '), Meridiem, Lit('m'), Lit(']'), Lit(' ')]
    ensures FixedPart(Shape(1, false)) == [Lit('['), Digit, Digit, Lit('/'), Digit, Digit, Lit(','), Lit(' '),
      Digit, Lit(':'), Digit, Digit, Lit(']'), Lit(' ')]
  {
  }

  /** `[01/01, 9:05] X: `, with no am/pm suffix, is a header. */
  lemma NoSuffixHeader(cc: CharClasses)
    requires Sound(cc)
    ensures MatchHeader(cc, "[01/01, 9:05] X: ") == Some(17)
  {
    var h: string := "[01/01, 9:05] X: ";
    var sh := Shape(1, false);
    assert FixedPart(sh) == [Lit('['), Digit, Digit, Lit('/'), Digit, Digit, Lit(','), Lit(' '),
      Digit, Lit(':'), Digit, Digit, Lit(']'), Lit(' ')];
    assert h[14..15] == "X";
    assert HeaderShape(cc, h, sh);
    HeaderThenText(cc, h, []);
    assert h + [] == h;
  }

  /** `[31/08, 10:24 pm] A: `, with a two-digit hour and a lower-case suffix, is a header. */
  lemma LowercaseSuffixHeader(cc: CharClasses)
    requires Sound(cc)
    ensures MatchHeader(cc, "[31/08, 10:24 pm] A: ") == Some(21)
  {
    var h: string := "[31/08, 10:24 pm] A: ";
    var sh := Shape(2, true);
    assert FixedPart(sh) == [Lit('['), Digit, Digit, Lit('/'), Digit, Digit, Lit(','), Lit(' '),
      Digit, Digit, Lit(':'), Digit, Digit, Lit(' '), Meridiem, Lit('m'), Lit(']'), Lit(' ')];
    assert h[18..19] == "A";
    assert HeaderShape(cc, h, sh);
    HeaderThenText(cc, h, []);
    assert h + [] == h;
  }

  /** Text that begins with no alternative's fixed part has no header prefix. */
  lemma NoFixedPartNoMatch(cc: CharClasses, t: string)
    requires forall sh :: sh in Shapes ==> !PrefixShape(cc, t, sh)
    ensures MatchHeader(cc, t) == None
  {
    forall n | 0 <= n <= |t| ensures !IsHeader(cc, t[..n]) {
      if IsHeader(cc, t[..n]) {
        var sh := ShapeOf(cc, t, n);
      }
    }
  }

  /** Lower case only: `[01/01, 9:05 PM] X: ` is not a header, nor is any prefix of it. */
  lemma UppercaseSuffixNotHeader(cc: CharClasses)
    requires Sound(cc)
    ensures MatchHeader(cc, "[01/01, 9:05 PM] X: ") == None
  {
    var t: string := "[01/01, 9:05 PM] X: ";
    assert t[9] == ':' && t[12] == ' ' && t[13] == 'P';
    assert !cc.digit(':');
    assert !PrefixShape(cc, t, Shape(2, true)) by {
      assert FixedPart(Shape(2, true))[9] == Digit;
    }
    assert !PrefixShape(cc, t, Shape(2, false)) by {
      assert FixedPart(Shape(2, false))[9] == Digit;
    }
    assert !PrefixShape(cc, t, Shape(1, true)) by {
      assert FixedPart(Shape(1, true))[13] == Meridiem;
    }
    assert !PrefixShape(cc, t, Shape(1, false)) by {
      assert FixedPart(Shape(1, false))[12] == Lit(']');
    }
    NoFixedPartNoMatch(cc, t);
  }
}
