/**
 * The text operations the annotator performs with regular expressions, written out over
 * characters:
 *   - `text.split(/(\r?\n)/)`, which keeps the separators, so that line i sits at index 2*i;
 *   - `text.replace(/\d$/gm, '')`, which drops the digit in front of every line end;
 *   - `text.match(/\d$/mg)`, which collects those digits;
 *   - `line.replace(/\d?$/, String(type))`, which sets the state digit of one line.
 * With the `m` flag JavaScript's `$` matches in front of any line terminator (`\n`, `\r`,
 * U+2028, U+2029) and at the end of the input, while the split breaks only on `\r?\n`.
 * The two views agree on text in which every `\r` starts a `\r\n` and neither U+2028 nor U+2029
 * occurs (`NoStray`); the lemmas at the end of this module prove that agreement.
 */
module MirrorText {

  /** A state digit 0-9 as the mirror stores it; the commands write 0 (todo) to 3 (obsolete). */
  type Digit = d: nat | d < 10

  predicate IsDigit(c: char) { '0' <= c <= '9' }

  function DigitValue(c: char): (d: Digit)
    requires IsDigit(c)
    ensures DigitChar(d) == c
  {
    c as int - '0' as int
  }

  /** `String(type)` for a one-digit number. */
  function DigitChar(d: Digit): (c: char)
    ensures IsDigit(c)
  {
    ('0' as int + d) as char
  }

  lemma DigitRoundTrip(d: Digit)
    ensures DigitValue(DigitChar(d)) == d
  {
  }

  /** The characters JavaScript's multiline `$` treats as line ends. */
  predicate IsLineTerminator(c: char) {
    c == '\n' || c == '\r' || c == '\U{2028}' || c == '\U{2029}'
  }

  predicate EndsWithDigit(line: string) {
    |line| > 0 && IsDigit(line[|line| - 1])
  }

  predicate EndsWithCR(line: string) {
    |line| > 0 && line[|line| - 1] == '\r'
  }

  predicate HasNoTerminator(line: string) {
    forall k :: 0 <= k < |line| ==> !IsLineTerminator(line[k])
  }

  /** Text on which `$` and the `\r?\n` split see the same line ends. */
  predicate NoStray(s: string) {
    forall k :: 0 <= k < |s| ==>
      s[k] != '\U{2028}' && s[k] != '\U{2029}' && (s[k] == '\r' ==> NewlineAt(s, k + 1))
  }

  predicate NewlineAt(s: string, i: nat) {
    i < |s| && s[i] == '\n'
  }

  // ---------------------------------------------------------------------------------------
  // Character-level regular expressions
  // ---------------------------------------------------------------------------------------

  /** `s.replace(/\d$/gm, '')`: every digit that stands right before a line terminator or at the
      end of the text is removed. */
  function StripText(s: string): (r: string)
    ensures |r| <= |s|
  {
    if |s| == 0 then ""
    else if IsDigit(s[0]) && (|s| == 1 || IsLineTerminator(s[1])) then StripText(s[1..])
    else [s[0]] + StripText(s[1..])
  }

  /** `s.match(/\d$/mg)` with every match turned into its number (an empty sequence stands for
      the `null` that `match` returns when nothing matches). */
  function LineEndDigits(s: string): (ds: seq<Digit>)
    ensures |ds| <= |s|
  {
    if |s| == 0 then []
    else if IsDigit(s[0]) && (|s| == 1 || IsLineTerminator(s[1])) then [DigitValue(s[0])] + LineEndDigits(s[1..])
    else LineEndDigits(s[1..])
  }

  // ---------------------------------------------------------------------------------------
  // Splitting into lines and separators
  // ---------------------------------------------------------------------------------------

  /** Index of the first `\n` in `s`, or `|s|` when there is none. */
  function NewlineIndex(s: string): (q: nat)
    ensures q <= |s|
    ensures q < |s| ==> s[q] == '\n'
    ensures forall k :: 0 <= k < q ==> s[k] != '\n'
  {
    if |s| == 0 || s[0] == '\n' then 0 else 1 + NewlineIndex(s[1..])
  }

  /** `s.split(/(\r?\n)/)`: contents and separators alternate, contents at even indices. The
      leftmost match of `\r?\n` ends at the first `\n` and takes the `\r` before it, if any. */
  function Split(s: string): (pieces: seq<string>)
    ensures |pieces| % 2 == 1
    decreases |s|
  {
    var q := NewlineIndex(s);
    if q == |s| then [s]
    else
      var c := if q > 0 && s[q - 1] == '\r' then q - 1 else q;
      [s[..c], s[c..q + 1]] + Split(s[q + 1..])
  }

  /** Number of `\n` characters in `s`. */
  function NewlineCount(s: string): nat {
    if |s| == 0 then 0 else (if s[0] == '\n' then 1 else 0) + NewlineCount(s[1..])
  }

  /** `pieces.join('')`. */
  function Join(pieces: seq<string>): (s: string)
    ensures |pieces| > 0 ==> pieces[0] <= s
    ensures |pieces| == 1 ==> s == pieces[0]
  {
    if |pieces| == 0 then "" else pieces[0] + Join(pieces[1..])
  }

  predicate IsSeparator(p: string) { p == "\n" || p == "\r\n" }

  /** The shape of every result of `Split`: an odd number of pieces, contents without `\n` at
      even indices, a separator at every odd index, and a `\n` separator never preceded by a
      content that ends in `\r` (that `\r` would have belonged to the separator). */
  predicate WellFormed(p: seq<string>) {
    |p| % 2 == 1 && forall k :: 0 <= k < |p| ==> PieceOk(p, k)
  }

  predicate PieceOk(p: seq<string>, k: nat)
    requires k < |p|
  {
    if k % 2 == 0 then '\n' !in p[k]
    else IsSeparator(p[k]) && (p[k] == "\n" ==> !EndsWithCR(p[k - 1]))
  }

  /** Well formed, and no content holds a character that `$` would take for a line end. */
  predicate Clean(p: seq<string>) {
    WellFormed(p) && forall k :: 0 <= k < |p| ==> ContentClean(p, k)
  }

  predicate ContentClean(p: seq<string>, k: nat)
    requires k < |p|
  {
    k % 2 == 1 || HasNoTerminator(p[k])
  }

  /** Number of lines, counting the (possibly empty) piece after the last separator. */
  function LineCount(p: seq<string>): nat { (|p| + 1) / 2 }

  /** `s.replace(/\d?$/, '')` on one line: one trailing digit, if present, is dropped. */
  function StripLine(line: string): string {
    if EndsWithDigit(line) then line[..|line| - 1] else line
  }

  /** Every content piece with its trailing digit dropped, separators as they are. */
  function StripPieces(p: seq<string>): (r: seq<string>)
    ensures |r| == |p|
  {
    seq(|p|, k requires 0 <= k < |p| => if k % 2 == 0 then StripLine(p[k]) else p[k])
  }

  /** The digit of every content piece that ends in one, in line order. */
  function TrailingDigits(p: seq<string>): seq<Digit>
    decreases |p|
  {
    if |p| == 0 then []
    else LastDigit(p[0]) + (if |p| <= 2 then [] else TrailingDigits(p[2..]))
  }

  /** The state digit of one line, if the line ends in one. */
  function LastDigit(line: string): seq<Digit> {
    if EndsWithDigit(line) then [DigitValue(line[|line| - 1])] else []
  }

  // ---------------------------------------------------------------------------------------
  // Lemmas: split and join
  // ---------------------------------------------------------------------------------------

  lemma JoinAppend(a: seq<string>, b: seq<string>)
    ensures Join(a + b) == Join(a) + Join(b)
  {
    if |a| > 0 {
      assert (a + b)[1..] == a[1..] + b;
      JoinAppend(a[1..], b);
    } else {
      assert a + b == b;
    }
  }

  lemma JoinPair(p: seq<string>)
    requires |p| >= 2
    ensures Join(p) == p[0] + p[1] + Join(p[2..])
  {
    assert p[1..][1..] == p[2..];
  }

  lemma JoinCons2(a: string, b: string, rest: seq<string>)
    ensures Join([a, b] + rest) == a + b + Join(rest)
  {
    JoinPair([a, b] + rest);
    assert ([a, b] + rest)[2..] == rest;
  }

  lemma SplitParts(s: string, c: nat, q: nat)
    requires c <= q < |s|
    ensures s[..c] + s[c..q + 1] + s[q + 1..] == s
  {
  }

  /** Split-then-join is the identity on every text. */
  lemma {:induction false} JoinSplit(s: string)
    ensures Join(Split(s)) == s
    decreases |s|
  {
    var q := NewlineIndex(s);
    if q < |s| {
      var c := if q > 0 && s[q - 1] == '\r' then q - 1 else q;
      var rest := s[q + 1..];
      assert Split(s) == [s[..c], s[c..q + 1]] + Split(rest);
      JoinSplit(rest);
      JoinCons2(s[..c], s[c..q + 1], Split(rest));
      SplitParts(s, c, q);
    } else {
      assert Split(s) == [s];
      assert Join([s]) == s + Join([]);
    }
  }

  lemma NoStraySuffix(s: string, i: nat)
    requires i <= |s| && NoStray(s)
    ensures NoStray(s[i..])
  {
    forall k | 0 <= k < |s| - i
      ensures s[i..][k] != '\U{2028}' && s[i..][k] != '\U{2029}'
      ensures s[i..][k] == '\r' ==> NewlineAt(s[i..], k + 1)
    {
      assert s[i..][k] == s[i + k];
      assert NewlineAt(s, i + k + 1) ==> s[i..][k + 1] == s[i + k + 1];
    }
  }

  /** In text without stray terminators, a prefix that holds no `\n` and is not cut right after
      a `\r` holds no line terminator at all. */
  lemma NoStrayPrefix(s: string, c: nat)
    requires NoStray(s) && c <= |s|
    requires forall k :: 0 <= k < c ==> s[k] != '\n'
    requires c > 0 ==> s[c - 1] != '\r'
    ensures HasNoTerminator(s[..c])
  {
    forall k | 0 <= k < c ensures !IsLineTerminator(s[..c][k]) {
      assert s[..c][k] == s[k];
      assert !NewlineAt(s, k + 1) || k + 1 == c;
    }
  }

  lemma WellFormedCons(a: string, b: string, rest: seq<string>)
    requires '\n' !in a && IsSeparator(b) && (b == "\n" ==> !EndsWithCR(a))
    requires WellFormed(rest)
    ensures WellFormed([a, b] + rest)
    ensures Clean(rest) && HasNoTerminator(a) ==> Clean([a, b] + rest)
  {
    var p := [a, b] + rest;
    forall k | 0 <= k < |p| ensures PieceOk(p, k) && (Clean(rest) && HasNoTerminator(a) ==> ContentClean(p, k)) {
      if k >= 2 {
        assert p[k] == rest[k - 2] && PieceOk(rest, k - 2);
        assert Clean(rest) ==> ContentClean(rest, k - 2);
        if k >= 3 {
          assert p[k - 1] == rest[k - 3];
        }
      }
    }
  }

  lemma WellFormedTail(p: seq<string>)
    requires WellFormed(p) && |p| > 1
    ensures |p| >= 3 && WellFormed(p[2..])
    ensures Clean(p) ==> Clean(p[2..])
  {
    var rest := p[2..];
    forall k | 0 <= k < |rest| ensures PieceOk(rest, k) && (Clean(p) ==> ContentClean(rest, k)) {
      assert rest[k] == p[k + 2] && PieceOk(p, k + 2);
      assert Clean(p) ==> ContentClean(p, k + 2);
      if k >= 1 {
        assert rest[k - 1] == p[k + 1];
      }
    }
  }

  /** What well-formedness says about the first line and the separator after it. */
  lemma FirstPieces(p: seq<string>)
    requires WellFormed(p)
    ensures '\n' !in p[0]
    ensures |p| > 1 ==> IsSeparator(p[1]) && (p[1] == "\n" ==> !EndsWithCR(p[0]))
    ensures Clean(p) ==> HasNoTerminator(p[0])
  {
    assert PieceOk(p, 0);
    if |p| > 1 {
      assert PieceOk(p, 1);
    }
    if Clean(p) {
      assert ContentClean(p, 0);
    }
  }

  /** Replacing contents by contents without `\n` that either are unchanged or do not end in
      `\r` keeps the pieces well formed; it keeps them clean if no terminator comes in. */
  lemma ContentsReplaced(p: seq<string>, q: seq<string>)
    requires WellFormed(p) && |q| == |p|
    requires forall k :: 0 <= k < |p| && k % 2 == 1 ==> q[k] == p[k]
    requires forall k :: 0 <= k < |p| && k % 2 == 0 ==> '\n' !in q[k] && (q[k] == p[k] || !EndsWithCR(q[k]))
    ensures WellFormed(q)
    ensures Clean(p) && (forall k :: 0 <= k < |p| && k % 2 == 0 ==> HasNoTerminator(p[k]) ==> HasNoTerminator(q[k]))
      ==> Clean(q)
  {
    forall k | 0 <= k < |q| ensures PieceOk(q, k) {
      assert PieceOk(p, k);
    }
    if Clean(p) && (forall k :: 0 <= k < |p| && k % 2 == 0 ==> HasNoTerminator(p[k]) ==> HasNoTerminator(q[k])) {
      forall k | 0 <= k < |q| ensures ContentClean(q, k) {
        assert ContentClean(p, k);
      }
    }
  }

  /** The first step of `Split` on a text that holds a `\n`. */
  lemma SplitHead(s: string) returns (c: nat, q: nat)
    requires NewlineIndex(s) < |s|
    ensures c <= q < |s| && q == NewlineIndex(s)
    ensures c == q || (c + 1 == q && s[c] == '\r')
    ensures c == q && q > 0 ==> s[q - 1] != '\r'
    ensures Split(s) == [s[..c], s[c..q + 1]] + Split(s[q + 1..])
    ensures '\n' !in s[..c] && IsSeparator(s[c..q + 1]) && (s[c..q + 1] == "\n" ==> !EndsWithCR(s[..c]))
  {
    q := NewlineIndex(s);
    c := if q > 0 && s[q - 1] == '\r' then q - 1 else q;
    assert forall k :: 0 <= k < c ==> s[..c][k] == s[k];
  }

  /** Every split is well formed. */
  lemma {:induction false} SplitWellFormed(s: string)
    ensures WellFormed(Split(s))
    decreases |s|
  {
    if NewlineIndex(s) == |s| {
      assert PieceOk([s], 0);
    } else {
      var c, q := SplitHead(s);
      SplitWellFormed(s[q + 1..]);
      WellFormedCons(s[..c], s[c..q + 1], Split(s[q + 1..]));
    }
  }

  /** The split of a text without stray terminators is clean. */
  lemma {:induction false} SplitClean(s: string)
    requires NoStray(s)
    ensures Clean(Split(s))
    decreases |s|
  {
    SplitWellFormed(s);
    if NewlineIndex(s) == |s| {
      if |s| > 0 {
        assert !NewlineAt(s, |s|);
      }
      NoStrayPrefix(s, |s|);
      assert s[..|s|] == s;
      assert ContentClean([s], 0);
    } else {
      var c, q := SplitHead(s);
      NoStraySuffix(s, q + 1);
      SplitClean(s[q + 1..]);
      if c + 1 == q && c > 0 {
        assert !NewlineAt(s, c);
      }
      NoStrayPrefix(s, c);
      WellFormedCons(s[..c], s[c..q + 1], Split(s[q + 1..]));
    }
  }

  /** Joining a well-formed sequence of pieces and splitting the result gives the pieces back. */
  lemma {:induction false} SplitJoin(p: seq<string>)
    requires WellFormed(p)
    ensures Split(Join(p)) == p
    decreases |p|
  {
    if |p| == 1 {
      SplitJoinOne(p);
    } else {
      WellFormedTail(p);
      SplitJoin(p[2..]);
      FirstPieces(p);
      SplitJoinStep(p);
    }
  }

  lemma SplitJoinOne(p: seq<string>)
    requires WellFormed(p) && |p| == 1
    ensures Split(Join(p)) == p
  {
    FirstPieces(p);
    assert Join(p) == p[0] + Join(p[1..]);
    assert p[0] + Join(p[1..]) == p[0];
    assert forall k :: 0 <= k < |p[0]| ==> p[0][k] != '\n';
  }

  lemma SplitJoinStep(p: seq<string>)
    requires |p| >= 2 && '\n' !in p[0] && IsSeparator(p[1]) && (p[1] == "\n" ==> !EndsWithCR(p[0]))
    requires Split(Join(p[2..])) == p[2..]
    ensures Split(Join(p)) == p
  {
    JoinPair(p);
    SplitFirst(p[0], p[1], Join(p[2..]));
    assert [p[0], p[1]] + p[2..] == p;
  }

  /** The first line and separator of a text come off as the first two pieces of its split. */
  lemma SplitFirst(a: string, b: string, z: string)
    requires '\n' !in a && IsSeparator(b) && (b == "\n" ==> !EndsWithCR(a))
    ensures Split(a + b + z) == [a, b] + Split(z)
  {
    var s := a + b + z;
    var c := |a|;
    var q := c + |b| - 1;
    assert forall k :: 0 <= k < c ==> s[k] == a[k];
    assert s[q] == '\n';
    NewlineIndexAt(s, q);
    if b == "\r\n" {
      assert s[q - 1] == '\r';
    } else {
      assert c > 0 ==> s[q - 1] == a[c - 1];
    }
    assert s[..c] == a;
    assert s[c..q + 1] == b;
    assert s[q + 1..] == z;
  }

  lemma NewlineIndexAt(s: string, q: nat)
    requires q < |s| && s[q] == '\n'
    requires forall k :: 0 <= k < q ==> s[k] != '\n'
    ensures NewlineIndex(s) == q
  {
    if q > 0 {
      NewlineIndexAt(s[1..], q - 1);
    }
  }

  // ---------------------------------------------------------------------------------------
  // Lemmas: the multiline `$` and the split agree on clean text
  // ---------------------------------------------------------------------------------------

  /** A character that is not a digit at a line end is kept. */
  lemma StripKeep(c: char, t: string)
    requires !IsDigit(c) || (|t| > 0 && !IsLineTerminator(t[0]))
    ensures StripText([c] + t) == [c] + StripText(t)
  {
    assert ([c] + t)[1..] == t;
  }

  /** A digit at a line end is dropped. */
  lemma StripDrop(c: char, t: string)
    requires IsDigit(c) && (|t| == 0 || IsLineTerminator(t[0]))
    ensures StripText([c] + t) == StripText(t)
  {
    assert ([c] + t)[1..] == t;
  }

  /** A terminator-free content followed by a line end: `$` matches only at its end. */
  lemma {:induction false} StripConcat(x: string, y: string)
    requires HasNoTerminator(x)
    requires |y| == 0 || IsLineTerminator(y[0])
    ensures StripText(x + y) == StripLine(x) + StripText(y)
    decreases |x|
  {
    if |x| == 0 {
      assert x + y == y;
    } else if |x| == 1 {
      StripLast(x[0], y);
      assert x == [x[0]];
    } else {
      assert HasNoTerminator(x[1..]) by {
        assert forall k :: 0 <= k < |x| - 1 ==> x[1..][k] == x[k + 1];
      }
      StripConcat(x[1..], y);
      StripStep(x, y);
    }
  }

  lemma StripLast(c: char, y: string)
    requires |y| == 0 || IsLineTerminator(y[0])
    ensures StripText([c] + y) == StripLine([c]) + StripText(y)
  {
    if IsDigit(c) {
      StripDrop(c, y);
      assert StripLine([c]) == [];
    } else {
      StripKeep(c, y);
    }
  }

  lemma StripStep(x: string, y: string)
    requires |x| >= 2 && !IsLineTerminator(x[1])
    requires StripText(x[1..] + y) == StripLine(x[1..]) + StripText(y)
    ensures StripText(x + y) == StripLine(x) + StripText(y)
  {
    StripStepLeft(x, y);
    StripStepRight(x, StripText(y));
  }

  lemma StripStepLeft(x: string, y: string)
    requires |x| >= 2 && !IsLineTerminator(x[1])
    ensures StripText(x + y) == [x[0]] + StripText(x[1..] + y)
  {
    var s := x + y;
    assert s[1] == x[1];
    assert s[1..] == x[1..] + y;
    StripFirstKept(s);
  }

  lemma StripStepRight(x: string, z: string)
    requires |x| >= 2
    ensures StripLine(x) + z == [x[0]] + (StripLine(x[1..]) + z)
  {
    StripLineCons(x);
  }

  lemma StripFirstKept(s: string)
    requires |s| >= 2 && !IsLineTerminator(s[1])
    ensures StripText(s) == [s[0]] + StripText(s[1..])
  {
  }

  lemma StripLineCons(x: string)
    requires |x| >= 2
    ensures StripLine(x) == [x[0]] + StripLine(x[1..])
  {
    assert x[1..][|x| - 2] == x[|x| - 1];
    if EndsWithDigit(x) {
      assert x[..|x| - 1] == [x[0]] + x[1..][..|x| - 2];
    } else {
      assert x == [x[0]] + x[1..];
    }
  }

  lemma {:induction false} DigitsConcat(x: string, y: string)
    requires HasNoTerminator(x)
    requires |y| == 0 || IsLineTerminator(y[0])
    ensures LineEndDigits(x + y) == LastDigit(x) + LineEndDigits(y)
    decreases |x|
  {
    var s := x + y;
    if |x| == 0 {
      assert s == y;
    } else {
      assert s[1..] == x[1..] + y;
      DigitsConcat(x[1..], y);
      if |x| == 1 {
        assert x[1..] == [];
        assert s[1..] == y;
      } else {
        assert s[1] == x[1];
        assert !IsLineTerminator(x[1]);
        assert x[|x| - 1] == x[1..][|x| - 2];
      }
    }
  }

  /** A separator holds no digit, so it passes through both operations unchanged. */
  lemma SeparatorConcat(sep: string, z: string)
    requires IsSeparator(sep)
    ensures StripText(sep + z) == sep + StripText(z)
    ensures LineEndDigits(sep + z) == LineEndDigits(z)
  {
    var s := sep + z;
    if sep == "\r\n" {
      assert s[1..] == "\n" + z;
      assert s[1..][1..] == z;
    } else {
      assert s[1..] == z;
    }
  }

  /** On clean pieces, `replace(/\d$/gm, '')` drops exactly one trailing digit per line. */
  lemma {:induction false} StripByLines(p: seq<string>)
    requires Clean(p)
    ensures StripText(Join(p)) == Join(StripPieces(p))
    decreases |p|
  {
    FirstPieces(p);
    if |p| == 1 {
      StripConcat(p[0], "");
      assert Join(p) == p[0] + "";
      assert Join(StripPieces(p)) == StripLine(p[0]) + "";
    } else {
      WellFormedTail(p);
      StripByLines(p[2..]);
      StripPiecesCons(p);
      JoinCons2(StripLine(p[0]), p[1], StripPieces(p[2..]));
      JoinPair(p);
      StripLinesStep(p[0], p[1], Join(p[2..]));
    }
  }

  lemma StripPiecesCons(p: seq<string>)
    requires |p| >= 3
    ensures StripPieces(p) == [StripLine(p[0]), p[1]] + StripPieces(p[2..])
  {
    var r := [StripLine(p[0]), p[1]] + StripPieces(p[2..]);
    forall k | 0 <= k < |p| ensures StripPieces(p)[k] == r[k] {
      if k >= 2 {
        assert r[k] == StripPieces(p[2..])[k - 2];
      }
    }
  }

  lemma Assoc(x: string, y: string, w: string)
    ensures x + (y + w) == x + y + w
  {
  }

  lemma StripLinesStep(a: string, b: string, z: string)
    requires HasNoTerminator(a) && IsSeparator(b)
    ensures StripText(a + b + z) == StripLine(a) + b + StripText(z)
  {
    var w := b + z;
    assert w[0] == b[0];
    SeparatorConcat(b, z);
    StripConcat(a, w);
    Assoc(a, b, z);
    Assoc(StripLine(a), b, StripText(z));
  }

  /** On clean pieces, `match(/\d$/mg)` reads exactly the digits that end lines, in line order. */
  lemma {:induction false} DigitsByLines(p: seq<string>)
    requires Clean(p)
    ensures LineEndDigits(Join(p)) == TrailingDigits(p)
    decreases |p|
  {
    FirstPieces(p);
    if |p| == 1 {
      DigitsConcat(p[0], "");
      assert Join(p) == p[0] + "";
    } else {
      WellFormedTail(p);
      DigitsByLines(p[2..]);
      JoinPair(p);
      DigitsStep(p[0], p[1], Join(p[2..]));
    }
  }

  lemma DigitsStep(a: string, b: string, z: string)
    requires HasNoTerminator(a) && IsSeparator(b)
    ensures LineEndDigits(a + b + z) == LastDigit(a) + LineEndDigits(z)
  {
    var w := b + z;
    assert w[0] == b[0];
    SeparatorConcat(b, z);
    DigitsConcat(a, w);
    Assoc(a, b, z);
  }

  /** Stripping with the regular expression removes digits only, so a valid mirror has as many
      lines as its source. */
  lemma SameLineCount(mirror: string, source: string)
    requires StripText(mirror) == source
    ensures LineCount(Split(mirror)) == LineCount(Split(source))
  {
    SplitLength(mirror);
    SplitLength(source);
    StripKeepsNewlines(mirror);
  }

  lemma {:induction false} StripKeepsNewlines(s: string)
    ensures NewlineCount(StripText(s)) == NewlineCount(s)
    decreases |s|
  {
    if |s| > 0 {
      StripKeepsNewlines(s[1..]);
      var r := StripText(s[1..]);
      if !(IsDigit(s[0]) && (|s| == 1 || IsLineTerminator(s[1]))) {
        assert ([s[0]] + r)[1..] == r;
      }
    }
  }

  /** A `\n` at `q` with none before it: the count is one more than after it. */
  lemma {:induction false} NewlineCountAt(s: string, q: nat)
    requires q < |s| && s[q] == '\n'
    requires forall k :: 0 <= k < q ==> s[k] != '\n'
    ensures NewlineCount(s) == 1 + NewlineCount(s[q + 1..])
    decreases q
  {
    if q > 0 {
      NewlineCountAt(s[1..], q - 1);
      assert s[1..][q..] == s[q + 1..];
    }
  }

  lemma NoNewlineCount(s: string)
    requires forall k :: 0 <= k < |s| ==> s[k] != '\n'
    ensures NewlineCount(s) == 0
  {
    if |s| > 0 {
      NoNewlineCount(s[1..]);
    }
  }

  /** The split has one separator per `\n`. */
  lemma {:induction false} SplitLength(s: string)
    ensures |Split(s)| == 2 * NewlineCount(s) + 1
    decreases |s|
  {
    var q := NewlineIndex(s);
    if q < |s| {
      NewlineCountAt(s, q);
      SplitLength(s[q + 1..]);
    } else {
      NoNewlineCount(s);
    }
  }

  // ---------------------------------------------------------------------------------------
  // Lemmas: the multiline `$` on any text
  // ---------------------------------------------------------------------------------------

  /** One step of the replacement: the first character is dropped exactly when it is a digit
      at a line end. */
  lemma StripUnfold(s: string)
    requires |s| > 0
    ensures StripText(s) ==
      (if IsDigit(s[0]) && (|s| == 1 || IsLineTerminator(s[1])) then "" else [s[0]]) + StripText(s[1..])
  {
  }

  /** In front of a line end, `$` treats the end of `x` as it does at the end of the text, so the
      replacement works on `x` and on the rest separately. */
  lemma {:induction false} StripBeforeLineEnd(x: string, y: string)
    requires |y| == 0 || IsLineTerminator(y[0])
    ensures StripText(x + y) == StripText(x) + StripText(y)
    decreases |x|
  {
    if |x| == 0 {
      assert x + y == y;
    } else if |x| == 1 {
      StripBeforeLineEndOne(x, y);
    } else {
      StripBeforeLineEnd(x[1..], y);
      StripBeforeLineEndStep(x, y);
    }
  }

  lemma StripBeforeLineEndOne(x: string, y: string)
    requires |x| == 1 && (|y| == 0 || IsLineTerminator(y[0]))
    ensures StripText(x + y) == StripText(x) + StripText(y)
  {
    var s := x + y;
    var h := if IsDigit(x[0]) then "" else [x[0]];
    assert x[1..] == [] && StripText(x[1..]) == "";
    StripUnfold(x);
    assert StripText(x) == h;
    assert s[0] == x[0] && s[1..] == y;
    assert |s| == 1 || IsLineTerminator(s[1]);
    StripUnfold(s);
  }

  lemma StripBeforeLineEndStep(x: string, y: string)
    requires |x| >= 2
    requires StripText(x[1..] + y) == StripText(x[1..]) + StripText(y)
    ensures StripText(x + y) == StripText(x) + StripText(y)
  {
    var s := x + y;
    assert s[0] == x[0] && s[1] == x[1];
    assert s[1..] == x[1..] + y;
    StripUnfold(s);
    StripUnfold(x);
    var h := if IsDigit(x[0]) && IsLineTerminator(x[1]) then "" else [x[0]];
    Assoc(h, StripText(x[1..]), StripText(y));
  }

  /** Which digit ends a text makes no difference to the replacement: it is dropped either way,
      and what precedes it sees a digit after it either way. */
  lemma {:induction false} StripLastDigitSwap(w: string, d: char, e: char)
    requires IsDigit(d) && IsDigit(e)
    ensures StripText(w + [d]) == StripText(w + [e])
    decreases |w|
  {
    var s, t := w + [d], w + [e];
    StripUnfold(s);
    StripUnfold(t);
    if |w| > 0 {
      assert s[1..] == w[1..] + [d];
      assert t[1..] == w[1..] + [e];
      StripLastDigitSwap(w[1..], d, e);
    }
  }

  /** A digit appended to a text that does not end in one is dropped, and changes nothing else. */
  lemma {:induction false} StripAppendDigit(x: string, d: char)
    requires IsDigit(d) && !EndsWithDigit(x)
    ensures StripText(x + [d]) == StripText(x)
    decreases |x|
  {
    var s := x + [d];
    StripUnfold(s);
    if |x| == 0 {
      assert s[1..] == "";
    } else {
      StripUnfold(x);
      assert s[1..] == x[1..] + [d];
      if |x| == 1 {
        assert StripText(x[1..]) == "";
      } else {
        assert x[1..][|x| - 2] == x[|x| - 1];
        StripAppendDigit(x[1..], d);
      }
    }
  }

  /** A line and its separator come off the replacement of a joined text one after the other. */
  lemma StripJoinStep(a: string, b: string, z: string)
    requires IsSeparator(b)
    ensures StripText(a + b + z) == StripText(a) + b + StripText(z)
  {
    var w := b + z;
    assert w[0] == b[0];
    StripBeforeLineEnd(a, w);
    SeparatorConcat(b, z);
    Assoc(a, b, z);
    Assoc(StripText(a), b, StripText(z));
  }

  /** `q` agrees with `p` at index `k` as far as the replacement can tell. */
  predicate SameStripAt(p: seq<string>, q: seq<string>, k: nat)
    requires k < |p| && k < |q|
  {
    if k % 2 == 1 then q[k] == p[k] else StripText(q[k]) == StripText(p[k])
  }

  /** On any text: replacing contents by contents with the same replacement result, and keeping
      the separators, keeps the replacement result of the whole text. */
  lemma {:induction false} StripJoinContents(p: seq<string>, q: seq<string>)
    requires WellFormed(p) && |q| == |p|
    requires forall k :: 0 <= k < |p| ==> SameStripAt(p, q, k)
    ensures StripText(Join(q)) == StripText(Join(p))
    decreases |p|
  {
    assert SameStripAt(p, q, 0);
    if |p| > 1 {
      FirstPieces(p);
      assert SameStripAt(p, q, 1);
      WellFormedTail(p);
      forall k | 0 <= k < |p| - 2 ensures SameStripAt(p[2..], q[2..], k) {
        assert SameStripAt(p, q, k + 2);
      }
      StripJoinContents(p[2..], q[2..]);
      JoinPair(p);
      JoinPair(q);
      StripJoinStep(p[0], p[1], Join(p[2..]));
      StripJoinStep(q[0], q[1], Join(q[2..]));
    }
  }
}
