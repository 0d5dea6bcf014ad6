/**
 * Reading a mirror file: the staleness check of `loadFileForEditor` and the state reader
 * `getAnnotationsFromFile` (src/annotator.ts). The mirror is a copy of the source in which every
 * line carries its review state as one digit at the end of the line, just before the line's
 * terminator. The file system is left out: the mirror's contents (or `None` when the mirror
 * file does not exist) and the live source text are parameters.
 */
module Mirror {
  import opened Wrappers
  import opened MirrorText

  /** `loadFileForEditor`: the mirror is returned as it is when dropping the digit in front of
      every line end gives exactly the source text, and is withheld otherwise. */
  function LoadFile(mirror: Option<string>, source: string): (r: Option<string>)
    ensures r.None? || r == mirror
    ensures r.Some? ==> StripText(r.value) == source
  {
    if mirror.None? then None
    else if StripText(mirror.value) != source then None
    else mirror
  }

  /** `getAnnotationsFromFile`: nothing for a missing or empty text, nothing when no line ends
      in a digit (`match` returns `null`), otherwise the digits that end lines, in order. */
  function Annotations(file: Option<string>): (r: Option<seq<Digit>>)
    ensures r.Some? ==> file.Some? && file.value != "" && 0 < |r.value| <= |file.value|
  {
    if file.None? || file.value == "" then None
    else
      var digits := LineEndDigits(file.value);
      if digits == [] then None else Some(digits)
  }

  /** `loadAnnotationsForEditor` for an open editor: load, check, then read the states. */
  function LoadAnnotations(mirror: Option<string>, source: string): (r: Option<seq<Digit>>)
    ensures r.Some? ==> mirror.Some? && StripText(mirror.value) == source
  {
    Annotations(LoadFile(mirror, source))
  }

  // ---------------------------------------------------------------------------------------
  // The mirror format, as a reference encoder
  // ---------------------------------------------------------------------------------------

  /** The pieces of a mirror: every content of `p` followed by the digit of its state. */
  function EncodePieces(p: seq<string>, states: seq<Digit>): (e: seq<string>)
    requires |states| == LineCount(p)
    ensures |e| == |p|
  {
    seq(|p|, k requires 0 <= k < |p| => if k % 2 == 0 then p[k] + [DigitChar(states[k / 2])] else p[k])
  }

  /** The mirror text of `source` holding one state per line. */
  function Encode(source: string, states: seq<Digit>): string
    requires |states| == LineCount(Split(source))
  {
    Join(EncodePieces(Split(source), states))
  }

  lemma StripAppendedDigit(line: string, d: Digit)
    ensures StripLine(line + [DigitChar(d)]) == line
    ensures LastDigit(line + [DigitChar(d)]) == [d]
  {
    assert (line + [DigitChar(d)])[..|line|] == line;
    DigitRoundTrip(d);
  }

  /** Encoding keeps the pieces well formed (and clean, if they were), and stripping the
      appended digits gives the pieces back. */
  lemma EncodeShape(p: seq<string>, states: seq<Digit>)
    requires WellFormed(p) && |states| == LineCount(p)
    ensures WellFormed(EncodePieces(p, states))
    ensures Clean(p) ==> Clean(EncodePieces(p, states))
    ensures StripPieces(EncodePieces(p, states)) == p
  {
    var e := EncodePieces(p, states);
    forall k | 0 <= k < |p| && k % 2 == 0
      ensures '\n' !in e[k] && StripLine(e[k]) == p[k] && !EndsWithCR(e[k])
      ensures HasNoTerminator(p[k]) ==> HasNoTerminator(e[k])
    {
      StripAppendedDigit(p[k], states[k / 2]);
      assert PieceOk(p, k);
      assert forall i :: 0 <= i < |e[k]| ==> e[k][i] == if i < |p[k]| then p[k][i] else DigitChar(states[k / 2]);
    }
    ContentsReplaced(p, e);
  }

  /** The digits read from encoded pieces are the states they were encoded with. */
  lemma {:induction false} EncodeDigits(p: seq<string>, states: seq<Digit>)
    requires WellFormed(p) && |states| == LineCount(p)
    ensures TrailingDigits(EncodePieces(p, states)) == states
    decreases |p|
  {
    var e := EncodePieces(p, states);
    StripAppendedDigit(p[0], states[0]);
    if |p| > 1 {
      WellFormedTail(p);
      EncodeDigits(p[2..], states[1..]);
      EncodePiecesCons(p, states);
      assert e[2..] == EncodePieces(p[2..], states[1..]);
      assert states == [states[0]] + states[1..];
    } else {
      assert |states| == 1;
    }
  }

  lemma EncodePiecesCons(p: seq<string>, states: seq<Digit>)
    requires |p| >= 3 && |states| == LineCount(p)
    ensures EncodePieces(p, states)[0] == p[0] + [DigitChar(states[0])]
    ensures EncodePieces(p, states)[2..] == EncodePieces(p[2..], states[1..])
  {
    var e := EncodePieces(p, states);
    var tail := EncodePieces(p[2..], states[1..]);
    forall k | 0 <= k < |p| - 2 ensures e[2..][k] == tail[k] {
      assert (k + 2) / 2 == k / 2 + 1;
    }
  }

  /** The split of an encoded mirror is the encoded split of the source. */
  lemma EncodeSplit(source: string, states: seq<Digit>)
    requires |states| == LineCount(Split(source))
    ensures Split(Encode(source, states)) == EncodePieces(Split(source), states)
  {
    SplitWellFormed(source);
    EncodeShape(Split(source), states);
    SplitJoin(EncodePieces(Split(source), states));
  }

  /** Round trip: a mirror written for `source` is accepted against `source` and reads back
      exactly the states it was written with, one per line. */
  lemma RoundTrip(source: string, states: seq<Digit>)
    requires NoStray(source) && |states| == LineCount(Split(source))
    ensures LoadFile(Some(Encode(source, states)), source) == Some(Encode(source, states))
    ensures LoadAnnotations(Some(Encode(source, states)), source) == Some(states)
  {
    var p := Split(source);
    var e := EncodePieces(p, states);
    SplitClean(source);
    EncodeShape(p, states);
    EncodeDigits(p, states);
    StripByLines(e);
    DigitsByLines(e);
    JoinSplit(source);
    assert |states| > 0;
  }

  /** Staleness: once the source differs from the text a mirror was written for, the mirror is
      withheld and no states are read from it. */
  lemma Stale(source: string, states: seq<Digit>, changed: string)
    requires NoStray(source) && |states| == LineCount(Split(source))
    requires changed != source
    ensures LoadFile(Some(Encode(source, states)), changed) == None
    ensures LoadAnnotations(Some(Encode(source, states)), changed) == None
  {
    RoundTrip(source, states);
  }

  /** Line by line: a mirror without stray terminators is accepted exactly when
      dropping one trailing digit from each of its lines gives the source, and then the states
      read are the digits that end its lines, in line order. */
  lemma {:induction false} AcceptLines(mirror: string, source: string)
    requires NoStray(mirror)
    ensures LoadFile(Some(mirror), source).Some? <==> Join(StripPieces(Split(mirror))) == source
    ensures LoadFile(Some(mirror), source).Some? && mirror != "" && TrailingDigits(Split(mirror)) != [] ==>
      LoadAnnotations(Some(mirror), source) == Some(TrailingDigits(Split(mirror)))
  {
    SplitClean(mirror);
    StripByLines(Split(mirror));
    DigitsByLines(Split(mirror));
    JoinSplit(mirror);
  }

  /** Only lines that end in a digit contribute a state, so a mirror line without one shifts the
      states of every later line up by one: here line 1 is marked done, and the state sequence
      read back reports it for line 0. */
  lemma MissingDigitShifts()
    ensures LoadAnnotations(Some("a\nb1"), "a\nb") == Some([1])
  {
    var m := "a\nb1";
    assert m[1..] == "\nb1";
    assert m[1..][1..] == "b1";
    assert m[1..][1..][1..] == "1";
    assert m[1..][1..][1..][1..] == "";
    assert StripText(m) == "a\nb";
    assert LineEndDigits(m) == [1];
  }

  /** `getAnnotationsFromFile`, line by line: for a non-empty text without stray terminators,
      nothing when no line ends in a digit, and otherwise the digits that end lines, in line
      order. */
  lemma AnnotationsByLines(f: string)
    requires f != "" && NoStray(f)
    ensures Annotations(Some(f)) ==
      if TrailingDigits(Split(f)) == [] then None else Some(TrailingDigits(Split(f)))
  {
    SplitClean(f);
    DigitsByLines(Split(f));
    JoinSplit(f);
  }

  /** A lone `\r` ends a line for `$` but not for the split: the mirror written for the one-line
      source `5\r` is also accepted against the different source `\r`, and reads back as two
      states, the first taken from the source's own `5`. */
  lemma LoneCarriageReturn()
    ensures Encode("5\r", [0]) == "5\r0"
    ensures LoadAnnotations(Some("5\r0"), "\r") == Some([5, 0])
  {
    var src := "5\r";
    assert NewlineIndex(src[1..][1..]) == 0;
    assert NewlineIndex(src) == 2;
    assert Split(src) == [src];
    assert DigitChar(0) == '0';
    assert src + [DigitChar(0)] == "5\r0";
    assert EncodePieces([src], [0]) == ["5\r0"];
    var m := "5\r0";
    assert m[1..] == "\r0";
    assert m[1..][1..] == "0";
    assert m[1..][1..][1..] == "";
    assert StripText(m) == "\r";
    assert LineEndDigits(m) == [5, 0];
  }
}
