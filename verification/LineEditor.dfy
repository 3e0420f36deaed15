/**
  common/console.cpp:450-1002: the line editor.  A byte buffer, a width per character and two cursors
  refine a plain buffer of code points with one position; the terminal is kept as the column of its cursor.
  */
module LineEditor {
  import opened Basics
  import opened Utf8
  import opened RawLines

  /** The editor as its user sees it: code points, their widths, and the position between two of them. */
  datatype Buffer = Buffer(cps: seq<CodePoint>, widths: seq<nat>, at: nat)

  predicate Proper(b: Buffer) { |b.cps| == |b.widths| && b.at <= |b.cps| }

  function Width(measured: int): nat { if measured < 0 then 0 else measured }

  // ----- what the keys mean -----

  function Inserted(b: Buffer, cp: CodePoint, w: nat): (r: Buffer)
    requires Proper(b)
    ensures Proper(r)
  {
    Buffer(b.cps[..b.at] + [cp] + b.cps[b.at..], b.widths[..b.at] + [w] + b.widths[b.at..], b.at + 1)
  }

  function Deleted(b: Buffer): (r: Buffer)
    requires Proper(b)
    ensures Proper(r)
  {
    if b.at == |b.cps| then b
    else Buffer(b.cps[..b.at] + b.cps[b.at + 1..], b.widths[..b.at] + b.widths[b.at + 1..], b.at)
  }

  function Backspaced(b: Buffer): (r: Buffer)
    requires Proper(b)
    ensures Proper(r)
  {
    if b.at == 0 then b else Deleted(b.(at := b.at - 1))
  }

  /** Back over the characters before `at` for which `p` is `want`. */
  function BackOver(cps: seq<CodePoint>, at: nat, p: CodePoint -> bool, want: bool): (r: nat)
    requires at <= |cps|
    ensures r <= at
    decreases at
  {
    if at > 0 && p(cps[at - 1]) == want then BackOver(cps, at - 1, p, want) else at
  }

  function ForwardOver(cps: seq<CodePoint>, at: nat, p: CodePoint -> bool, want: bool): (r: nat)
    requires at <= |cps|
    ensures at <= r <= |cps|
    decreases |cps| - at
  {
    if at < |cps| && p(cps[at]) == want then ForwardOver(cps, at + 1, p, want) else at
  }

  function WordLeft(b: Buffer, isSpace: CodePoint -> bool): (r: Buffer)
    requires Proper(b)
    ensures Proper(r)
  {
    b.(at := BackOver(b.cps, BackOver(b.cps, b.at, isSpace, true), isSpace, false))
  }

  function WordRight(b: Buffer, isSpace: CodePoint -> bool): (r: Buffer)
    requires Proper(b)
    ensures Proper(r)
  {
    var word := ForwardOver(b.cps, b.at, isSpace, true);
    b.(at := ForwardOver(b.cps, ForwardOver(b.cps, word, isSpace, false), isSpace, true))
  }

  function WidthsOf(cps: seq<CodePoint>, measure: nat -> int): (r: seq<nat>)
    ensures |r| == |cps| && forall i :: 0 <= i < |cps| ==> r[i] == Width(measure(cps[i]))
  {
    seq<nat>(|cps|, i requires 0 <= i < |cps| => Width(measure(cps[i])))
  }

  /** How many characters end at or before the byte `cursor`; all of them when it is negative. */
  function Before(cps: seq<CodePoint>, cursor: int): (r: nat)
    ensures r <= |cps|
  {
    if cps == [] then 0
    else
      var n := |Encode(cps[0])|;
      if 0 <= cursor < n then 0 else 1 + Before(cps[1..], if cursor < 0 then cursor else cursor - n)
  }

  /** The widths of the characters that are read. */
  function RawWidths(chars: seq<Decoded>, measure: nat -> int): (r: seq<nat>)
    ensures |r| == |chars| && forall i :: 0 <= i < |r| ==> r[i] == Width(measure(chars[i].cp))
  {
    seq<nat>(|chars|, i requires 0 <= i < |chars| => Width(measure(chars[i].cp)))
  }

  /** A given line replaces everything, with the cursor at its end or at a given byte. */
  function Loaded(cps: seq<CodePoint>, measure: nat -> int, cursor: int): (r: Buffer)
    ensures Proper(r)
  {
    Buffer(cps, WidthsOf(cps, measure), Before(cps, cursor))
  }

  datatype Key =
    | Insert(cp: CodePoint, measured: int)
    | Backspace | Delete | Left | Right | Home | End | CtrlLeft | CtrlRight
    | History(line: seq<CodePoint>)
    | Completion(line: seq<CodePoint>, cursor: int)

  function Pressed(b: Buffer, k: Key, isSpace: CodePoint -> bool, measure: nat -> int): (r: Buffer)
    requires Proper(b)
    ensures Proper(r)
  {
    match k
    case Insert(cp, measured) => Inserted(b, cp, Width(measured))
    case Backspace => Backspaced(b)
    case Delete => Deleted(b)
    case Left => if b.at > 0 then b.(at := b.at - 1) else b
    case Right => if b.at < |b.cps| then b.(at := b.at + 1) else b
    case Home => b.(at := 0)
    case End => b.(at := |b.cps|)
    case CtrlLeft => WordLeft(b, isSpace)
    case CtrlRight => WordRight(b, isSpace)
    case History(line) => Loaded(line, measure, -1)
    case Completion(line, cursor) => Loaded(line, measure, cursor)
  }

  function PressedAll(b: Buffer, ks: seq<Key>, isSpace: CodePoint -> bool, measure: nat -> int): (r: Buffer)
    requires Proper(b)
    ensures Proper(r)
  {
    if ks == [] then b
    else Pressed(PressedAll(b, ks[..|ks| - 1], isSpace, measure), ks[|ks| - 1], isSpace, measure)
  }

  // ----- sums of widths -----

  function TotalWidth(ws: seq<nat>): nat {
    if ws == [] then 0 else ws[0] + TotalWidth(ws[1..])
  }

  lemma {:induction false} SumAppend(a: seq<nat>, b: seq<nat>)
    ensures TotalWidth(a + b) == TotalWidth(a) + TotalWidth(b)
  {
    if a == [] {
      assert a + b == b;
    } else {
      assert (a + b)[1..] == a[1..] + b;
      SumAppend(a[1..], b);
    }
  }

  lemma SumStep(ws: seq<nat>, i: nat)
    requires i < |ws|
    ensures TotalWidth(ws[..i + 1]) == TotalWidth(ws[..i]) + ws[i]
  {
    assert ws[..i + 1] == ws[..i] + [ws[i]];
    SumAppend(ws[..i], [ws[i]]);
    assert [ws[i]][1..] == [];
  }

  lemma OffsetCons(cps: seq<CodePoint>, r: nat)
    requires cps != [] && r < |cps|
    ensures Offset(cps, r + 1) == |Encode(cps[0])| + Offset(cps[1..], r)
  {
    assert cps[..r + 1] == [cps[0]] + cps[1..][..r];
  }

  /** The cursor of a loaded line is at the last border that is not behind the byte asked for. */
  lemma {:induction false} LoadedCursorIsNearest(cps: seq<CodePoint>, cursor: int)
    requires cursor >= 0
    ensures var b := Before(cps, cursor); Offset(cps, b) <= cursor && (b < |cps| ==> cursor < Offset(cps, b + 1))
  {
    assert cps[..0] == [];
    if cps != [] {
      var n := |Encode(cps[0])|;
      OffsetCons(cps, 0);
      assert cps[1..][..0] == [];
      if cursor >= n {
        var b := Before(cps[1..], cursor - n);
        LoadedCursorIsNearest(cps[1..], cursor - n);
        OffsetCons(cps, b);
        if b < |cps| - 1 {
          OffsetCons(cps, b + 1);
        }
      }
    }
  }

  // ----- a line that encodes a text, read as bytes -----

  /** The characters of a text, as they are read. */
  function CharsFor(cps: seq<CodePoint>): (r: seq<Decoded>)
    ensures |r| == |cps| && forall i :: 0 <= i < |r| ==> r[i] == Decoded(cps[i], |Encode(cps[i])|)
  {
    seq(|cps|, i requires 0 <= i < |cps| => Decoded(cps[i], |Encode(cps[i])|))
  }

  /** The line read from `at` on gives these characters. */
  ghost predicate ReadsAs(line: seq<Byte>, at: nat, chars: seq<Decoded>) { at <= |line| && CharsOf(line, at) == chars }

  lemma ReadsAsStep(line: seq<Byte>, at: nat, next: nat, d: Decoded, rest: seq<Decoded>, chars: seq<Decoded>)
    requires at < |line| && d == Decode(line, at) && next == at + d.used && ReadsAs(line, next, rest) && chars == [d] + rest
    ensures ReadsAs(line, at, chars)
  {
    CharsStep(line, at, next, d);
  }

  lemma {:induction false} CharsOfText(pre: seq<Byte>, cps: seq<CodePoint>, line: seq<Byte>)
    requires line == pre + EncodeAll(cps)
    ensures ReadsAs(line, |pre|, CharsFor(cps))
    decreases |cps|
  {
    if cps != [] {
      var d, e, next := HeadHere(pre, cps, line);
      CharsOfText(pre + e, cps[1..], line);
      ReadsAsStep(line, |pre|, next, d, CharsFor(cps[1..]), CharsFor(cps));
    }
  }

  lemma ReachedCons(d: Decoded, rest: seq<Decoded>, pos: nat, next: nat, cursor: int)
    requires next == pos + d.used
    ensures var none := 0 <= cursor < next;
            && Reached([d] + rest, pos, cursor) == (if none then 0 else 1 + Reached(rest, next, cursor))
            && ReachedByte([d] + rest, pos, cursor) == if none then pos else ReachedByte(rest, next, cursor)
  {
    assert ([d] + rest)[1..] == rest;
  }

  /** The cursor found by reading is the one of the text. */
  lemma {:induction false} ReachedInText(pos: nat, cps: seq<CodePoint>, cursor: int, rel: int)
    requires if cursor < 0 then rel == cursor else 0 <= rel == cursor - pos
    ensures Reached(CharsFor(cps), pos, cursor) == Before(cps, rel)
    ensures ReachedByte(CharsFor(cps), pos, cursor) == pos + Offset(cps, Before(cps, rel))
    decreases |cps|
  {
    assert cps[..0] == [];
    if cps != [] {
      var d, rest := CharsFor(cps)[0], CharsFor(cps[1..]);
      assert CharsFor(cps) == [d] + rest;
      var next := pos + d.used;
      ReachedCons(d, rest, pos, next, cursor);
      if !(0 <= cursor < next) {
        var rel' := if cursor < 0 then cursor else cursor - next;
        ReachedInText(next, cps[1..], cursor, rel');
        OffsetCons(cps, Before(cps[1..], rel'));
      }
    }
  }

  /** After `k` characters: what is left to read, and the cursor. */
  ghost predicate Loading(line: seq<Byte>, cursor: int, idx: nat, k: nat, at: nat, atByte: nat) {
    var chars := CharsOf(line, 0);
    && idx <= |line| && k <= |chars| && CharsOf(line, idx) == chars[k..] && Found(chars, cursor, idx, k, at, atByte)
  }

  lemma LoadStarts(line: seq<Byte>, cursor: int)
    ensures Loading(line, cursor, 0, 0, 0, 0)
  {
    assert CharsOf(line, 0)[0..] == CharsOf(line, 0);
  }

  lemma LoadStep(line: seq<Byte>, cursor: int, idx: nat, k: nat, at: nat, atByte: nat)
    requires Loading(line, cursor, idx, k, at, atByte) && idx < |line|
    ensures k < |CharsOf(line, 0)| && CharsOf(line, 0)[k] == Decode(line, idx)
    ensures var next := idx + Decode(line, idx).used;
            Loading(line, cursor, next, k + 1,
                    if 0 <= cursor < next then at else at + 1, if 0 <= cursor < next then atByte else next)
  {
    var d := Decode(line, idx);
    FindStep(CharsOf(line, 0), cursor, idx, idx + d.used, k, at, atByte, CharsOf(line, idx + d.used), d);
  }

  /** Where the cursor is after `k` of the characters, which end at `idx`. */
  ghost predicate Found(chars: seq<Decoded>, cursor: int, idx: nat, k: nat, at: nat, atByte: nat)
    requires k <= |chars|
  {
    && at <= k
    && (if 0 <= cursor < idx then at == Reached(chars, 0, cursor) && atByte == ReachedByte(chars, 0, cursor)
        else
          && at == k && atByte == idx && k + Reached(chars[k..], idx, cursor) == Reached(chars, 0, cursor)
          && ReachedByte(chars[k..], idx, cursor) == ReachedByte(chars, 0, cursor))
  }

  lemma FindStep(
    chars: seq<Decoded>, cursor: int, idx: nat, next: nat, k: nat, at: nat, atByte: nat, rest: seq<Decoded>, d: Decoded)
    requires k <= |chars| && Found(chars, cursor, idx, k, at, atByte) && chars[k..] == [d] + rest && next == idx + d.used
    requires d.used > 0
    ensures k < |chars| && chars[k] == d && rest == chars[k + 1..]
    ensures Found(chars, cursor, next, k + 1,
                  if 0 <= cursor < next then at else at + 1, if 0 <= cursor < next then atByte else next)
  {
    assert chars[k..][0] == chars[k] && chars[k..][1..] == chars[k + 1..] && ([d] + rest)[1..] == rest;
  }

  lemma LoadEnds(line: seq<Byte>, cursor: int, idx: nat, k: nat, at: nat, atByte: nat)
    requires Loading(line, cursor, idx, k, at, atByte) && idx == |line|
    ensures var chars := CharsOf(line, 0);
            k == |chars| && at == Reached(chars, 0, cursor) && atByte == ReachedByte(chars, 0, cursor)
    ensures cursor < 0 ==> at == k
  {
  }

  /** The widths so far: how far the cursor went forward, and how far back it has to go. */
  ghost predicate Putting(all: seq<nat>, k: nat, widths: seq<nat>, at: nat, forward: nat, back: nat) {
    at <= k <= |all| && widths == all[..k] && forward == TotalWidth(widths) == TotalWidth(widths[..at]) + back
  }

  lemma PutStep(all: seq<nat>, k: nat, w: nat, widths: seq<nat>, at: nat, forward: nat, back: nat)
    requires Putting(all, k, widths, at, forward, back) && k < |all| && w == all[k]
    ensures Putting(all, k + 1, widths + [w], at, forward + w, back + w)
    ensures at == k ==> Putting(all, k + 1, widths + [w], at + 1, forward + w, back)
  {
    SumStep(all, k);
    assert all[..k + 1] == widths + [w] && (widths + [w])[..at] == widths[..at];
    if at == k {
      assert widths[..at] == widths && (widths + [w])[..at + 1] == widths + [w];
    }
  }

  /** Reading the bytes of a text loads the text. */
  lemma RawIsLoaded(cps: seq<CodePoint>, measure: nat -> int, cursor: int)
    ensures var line, b := EncodeAll(cps), Before(cps, cursor);
            && RawWidths(CharsOf(line, 0), measure) == WidthsOf(cps, measure)
            && Reached(CharsOf(line, 0), 0, cursor) == b && ReachedByte(CharsOf(line, 0), 0, cursor) == Offset(cps, b)
  {
    assert [] + EncodeAll(cps) == EncodeAll(cps);
    CharsOfText([], cps, EncodeAll(cps));
    ReachedInText(0, cps, cursor, cursor);
  }

  /** The bytes, widths, cursors and column of the editor fit the code points. */
  ghost predicate Fits(cps: seq<CodePoint>, line: seq<Byte>, widths: seq<nat>, charPos: nat, bytePos: nat, column: int) {
    && |widths| == |cps| && charPos <= |cps|
    && line == EncodeAll(cps)
    && bytePos == Offset(cps, charPos)
    && column == TotalWidth(widths[..charPos])
  }

  /** No sequence of code points fits: the editor has lost its text. */
  ghost predicate NothingFits(line: seq<Byte>, widths: seq<nat>, charPos: nat, bytePos: nat, column: int) {
    forall any :: !Fits(any, line, widths, charPos, bytePos, column)
  }

  /** The fields of a loaded line fit some text exactly when the line encodes one. */
  lemma SomethingFits(line: seq<Byte>, measure: nat -> int, cursor: int)
    ensures var ws, at := RawWidths(CharsOf(line, 0), measure), Reached(CharsOf(line, 0), 0, cursor);
            NothingFits(line, ws, at, ReachedByte(CharsOf(line, 0), 0, cursor), TotalWidth(ws[..at])) <==> !ReEncodes(line, 0)
  {
    ReEncodesExactly(line);
    if cps :| line == EncodeAll(cps) {
      RawIsLoaded(cps, measure, cursor);
      var ws, at := RawWidths(CharsOf(line, 0), measure), Reached(CharsOf(line, 0), 0, cursor);
      assert Fits(cps, line, ws, at, ReachedByte(CharsOf(line, 0), 0, cursor), TotalWidth(ws[..at]));
    }
  }

  /** A line whose widths outnumber its characters fits no code points. */
  lemma TooManyWidths(cps: seq<CodePoint>, line: seq<Byte>, widths: seq<nat>, charPos: nat, bytePos: nat, column: int)
    requires line == EncodeAll(cps) && |widths| != |cps|
    ensures NothingFits(line, widths, charPos, bytePos, column)
  {
    LeadsCount(cps);
    forall other ensures !Fits(other, line, widths, charPos, bytePos, column) {
      LeadsCount(other);
    }
  }

  /** Inserting the bytes of one character at a border. */
  lemma InsertBytes(cps: seq<CodePoint>, at: nat, cp: CodePoint)
    requires at <= |cps|
    ensures var k, line := Offset(cps, at), EncodeAll(cps);
            && k <= |line|
            && line[..k] + Encode(cp) + line[k..] == EncodeAll(cps[..at] + [cp] + cps[at..])
            && Offset(cps[..at] + [cp] + cps[at..], at + 1) == k + |Encode(cp)|
  {
    var new' := cps[..at] + [cp] + cps[at..];
    SplitAt(cps, at);
    EncodeAppend(cps[..at] + [cp], cps[at..]);
    EncodeAppend(cps[..at], [cp]);
    EncodeOne(cp);
    assert new'[..at + 1] == cps[..at] + [cp];
    var k, line := Offset(cps, at), EncodeAll(cps);
    assert line[..k] == EncodeAll(cps[..at]) && line[k..] == EncodeAll(cps[at..]);
  }

  /** Inserting a code point keeps the fit. */
  lemma InsertedFits(cps: seq<CodePoint>, line: seq<Byte>, widths: seq<nat>, at: nat, k: nat, column: int, cp: CodePoint, w: nat)
    requires Fits(cps, line, widths, at, k, column)
    ensures k <= |line|
    ensures Fits(cps[..at] + [cp] + cps[at..], line[..k] + Encode(cp) + line[k..],
                 widths[..at] + [w] + widths[at..], at + 1, k + |Encode(cp)|, column + w)
  {
    InsertBytes(cps, at, cp);
    InsertedWidth(widths, at, w);
  }

  /** Inserting a value keeps the fit when it is a code point; otherwise nothing fits any more. */
  lemma InsertFits(cps: seq<CodePoint>, line: seq<Byte>, widths: seq<nat>, at: nat, k: nat, column: int, ch: nat, w: nat)
    requires Fits(cps, line, widths, at, k, column)
    ensures k <= |line|
    ensures var line', widths' := line[..k] + Encode(ch) + line[k..], widths[..at] + [w] + widths[at..];
            if ch <= 0x10FFFF then
              Fits(cps[..at] + [ch] + cps[at..], line', widths', at + 1, k + |Encode(ch)|, column + w)
            else NothingFits(line', widths', at + 1, k + |Encode(ch)|, column + w)
  {
    SplitAt(cps, at);
    if ch <= 0x10FFFF {
      InsertedFits(cps, line, widths, at, k, column, ch, w);
    } else {
      NothingWritten(line, k, ch);
      TooManyWidths(cps, line, widths[..at] + [w] + widths[at..], at + 1, k + |Encode(ch)|, column + w);
    }
  }

  lemma NothingWritten(line: seq<Byte>, k: nat, ch: nat)
    requires k <= |line| && ch > 0x10FFFF
    ensures line[..k] + Encode(ch) + line[k..] == line
  {
  }

  lemma InsertedWidth(widths: seq<nat>, at: nat, w: nat)
    requires at <= |widths|
    ensures TotalWidth((widths[..at] + [w] + widths[at..])[..at + 1]) == TotalWidth(widths[..at]) + w
  {
    var widths' := widths[..at] + [w] + widths[at..];
    assert widths'[..at] == widths[..at];
    SumStep(widths', at);
  }

  /** Erasing the bytes of one character. */
  lemma EraseBytes(cps: seq<CodePoint>, at: nat)
    requires at < |cps|
    ensures var k, n, line := Offset(cps, at), Offset(cps, at + 1), EncodeAll(cps);
            && k <= n <= |line|
            && line[..k] + line[n..] == EncodeAll(cps[..at] + cps[at + 1..])
            && Offset(cps[..at] + cps[at + 1..], at) == k
  {
    var k, n, line := Offset(cps, at), Offset(cps, at + 1), EncodeAll(cps);
    SplitAt(cps, at);
    SplitAt(cps, at + 1);
    CharAt(cps, at);
    EncodeAppend(cps[..at], cps[at + 1..]);
    assert line[..k] == EncodeAll(cps[..at]) && line[n..] == EncodeAll(cps[at + 1..]);
    assert (cps[..at] + cps[at + 1..])[..at] == cps[..at];
  }

  /** Erasing one character keeps the fit. */
  lemma EraseFits(cps: seq<CodePoint>, line: seq<Byte>, widths: seq<nat>, at: nat, k: nat, column: int)
    requires Fits(cps, line, widths, at, k, column) && at < |cps|
    ensures var n := Offset(cps, at + 1);
            && k <= n <= |line|
            && Fits(cps[..at] + cps[at + 1..], line[..k] + line[n..], widths[..at] + widths[at + 1..], at, k, column)
  {
    EraseBytes(cps, at);
    assert (widths[..at] + widths[at + 1..])[..at] == widths[..at];
  }

  /** What the loop of `set_line_contents` knows after `k` characters, which end at `idx`. */
  ghost predicate Put(
    line: seq<Byte>, measure: nat -> int, cursor: int, idx: nat, k: nat, widths: seq<nat>, at: nat, atByte: nat, forward: nat,
    back: nat)
  {
    && Loading(line, cursor, idx, k, at, atByte)
    && Putting(RawWidths(CharsOf(line, 0), measure), k, widths, at, forward, back)
  }

  lemma PutStarts(line: seq<Byte>, measure: nat -> int, cursor: int)
    ensures Put(line, measure, cursor, 0, 0, [], 0, 0, 0, 0)
  {
    LoadStarts(line, cursor);
  }

  lemma PutTurn(
    line: seq<Byte>, measure: nat -> int, cursor: int, idx: nat, next: nat, k: nat, w: nat, widths: seq<nat>, at: nat,
    atByte: nat, forward: nat, back: nat)
    requires Put(line, measure, cursor, idx, k, widths, at, atByte, forward, back) && idx < |line|
    requires next == idx + Decode(line, idx).used
    requires w == var width := measure(Decode(line, idx).cp); if width < 0 then 0 else width
    ensures 0 <= cursor < next ==> Put(line, measure, cursor, next, k + 1, widths + [w], at, atByte, forward + w, back + w)
    ensures !(0 <= cursor < next) ==> Put(line, measure, cursor, next, k + 1, widths + [w], at + 1, next, forward + w, back)
  {
    LoadStep(line, cursor, idx, k, at, atByte);
    PutStep(RawWidths(CharsOf(line, 0), measure), k, w, widths, at, forward, back);
  }

  lemma PutEnds(
    line: seq<Byte>, measure: nat -> int, cursor: int, idx: nat, k: nat, widths: seq<nat>, at: nat, atByte: nat, forward: nat,
    back: nat)
    requires Put(line, measure, cursor, idx, k, widths, at, atByte, forward, back) && idx == |line|
    ensures widths == RawWidths(CharsOf(line, 0), measure)
    ensures at == Reached(CharsOf(line, 0), 0, cursor) && atByte == ReachedByte(CharsOf(line, 0), 0, cursor) && at <= |widths|
    ensures forward == TotalWidth(widths) == TotalWidth(widths[..at]) + back && (cursor < 0 ==> back == 0)
  {
    LoadEnds(line, cursor, idx, k, at, atByte);
    var all := RawWidths(CharsOf(line, 0), measure);
    assert all[..k] == all && widths[..k] == widths;
  }

  /** One turn of the loop of `set_line_contents`. */
  method PutOne(line: seq<Byte>, measure: nat -> int, cursor: int, idx: nat, ghost k: nat, widths: seq<nat>, at: nat, atByte: nat,
                forward: nat, back: nat)
    returns (next: nat, widths': seq<nat>, at': nat, atByte': nat, forward': nat, back': nat)
    requires idx < |line| && Put(line, measure, cursor, idx, k, widths, at, atByte, forward, back)
    ensures idx < next <= |line| && Put(line, measure, cursor, next, k + 1, widths', at', atByte', forward', back')
  {
    var d := Decode(line, idx);
    var realWidth := measure(d.cp);
    if realWidth < 0 {
      realWidth := 0;
    }
    next := idx + d.used;
    PutTurn(line, measure, cursor, idx, next, k, realWidth, widths, at, atByte, forward, back);
    widths', forward' := widths + [realWidth], forward + realWidth;
    if cursor >= 0 && cursor < next {
      at', atByte', back' := at, atByte, back + realWidth;
    } else {
      at', atByte', back' := at + 1, next, back;
    }
  }

  /** The loop of `set_line_contents` (lines 507-523): prints the line and finds the cursor. */
  method PutLine(line: seq<Byte>, measure: nat -> int, cursor: int)
    returns (widths: seq<nat>, charPos: nat, bytePos: nat, forward: nat, back: nat)
    ensures widths == RawWidths(CharsOf(line, 0), measure)
    ensures charPos == Reached(CharsOf(line, 0), 0, cursor) && bytePos == ReachedByte(CharsOf(line, 0), 0, cursor)
    ensures forward == TotalWidth(widths) == TotalWidth(widths[..charPos]) + back && (cursor < 0 ==> back == 0)
  {
    widths, charPos, bytePos, forward, back := [], 0, 0, 0, 0;
    ghost var k := 0;
    var idx := 0;
    PutStarts(line, measure, cursor);
    while idx < |line|
      invariant idx <= |line| && Put(line, measure, cursor, idx, k, widths, charPos, bytePos, forward, back)
      decreases |line| - idx
    {
      idx, widths, charPos, bytePos, forward, back := PutOne(line, measure, cursor, idx, k, widths, charPos, bytePos, forward, back);
      k := k + 1;
    }
    PutEnds(line, measure, cursor, idx, k, widths, charPos, bytePos, forward, back);
  }

  class Editor {
    var line: seq<Byte>
    var widths: seq<nat>
    var charPos: nat
    var bytePos: nat
    ghost var cps: seq<CodePoint>
    ghost var column: int  // how far the terminal's cursor is from where the line starts

    ghost predicate Valid()
      reads this
    {
      Fits(cps, line, widths, charPos, bytePos, column)
    }

    ghost function View(): Buffer
      reads this
    {
      Buffer(cps, widths, charPos)
    }

    constructor ()
      ensures Valid() && View() == Buffer([], [], 0)
    {
      line, widths, charPos, bytePos, cps, column := [], [], 0, 0, [], 0;
    }

    /** Prints the characters from `from` on and returns how wide they are. */
    method Redraw(from: nat) returns (tailWidth: nat)
      requires from <= |widths|
      modifies this`column
      ensures tailWidth == TotalWidth(widths[from..]) && column == old(column) + tailWidth
    {
      tailWidth := 0;
      var i := from;
      while i < |widths|
        invariant from <= i <= |widths|
        invariant tailWidth + TotalWidth(widths[i..]) == TotalWidth(widths[from..]) && column == old(column) + tailWidth
      {
        assert widths[i..][1..] == widths[i + 1..];
        tailWidth := tailWidth + widths[i];
        column := column + widths[i];
        i := i + 1;
      }
      assert widths[i..] == [];
    }

    /** The two insert branches (lines 964-995): at the end of the line or in the middle. */
    method Place(bytes: seq<Byte>, w: nat)
      requires charPos <= |widths| && bytePos <= |line| && (charPos == |widths| ==> bytePos == |line|)
      modifies this`line, this`widths, this`charPos, this`bytePos, this`column
      ensures line == old(line)[..old(bytePos)] + bytes + old(line)[old(bytePos)..]
      ensures widths == old(widths)[..old(charPos)] + [w] + old(widths)[old(charPos)..]
      ensures charPos == old(charPos) + 1 && bytePos == old(bytePos) + |bytes| && column == old(column) + w
    {
      if charPos == |widths| {
        line := line + bytes;
        column := column + w;
        widths := widths + [w];
      } else {
        line := line[..bytePos] + bytes + line[bytePos..];
        column := column + w;
        widths := widths[..charPos] + [w] + widths[charPos..];
        var tailWidth := Redraw(charPos + 1);
        column := column - tailWidth;
      }
      bytePos := bytePos + |bytes|;
      charPos := charPos + 1;
    }

    /** The insert branch (lines 958-996), for any value the keyboard may deliver. */
    method InsertChar(ch: nat, measured: int)
      requires Valid()
      modifies this
      ensures ch <= 0x10FFFF ==> Valid() && View() == Inserted(old(View()), ch, Width(measured))
      ensures NothingFits(line, widths, charPos, bytePos, column) <==> ch > 0x10FFFF
    {
      var w := if measured < 0 then 0 else measured;
      BorderAt(cps, charPos);
      InsertFits(cps, line, widths, charPos, bytePos, column, ch, w);
      ghost var at := charPos;
      Place(Encode(ch), w);
      if ch <= 0x10FFFF {
        cps := cps[..at] + [ch] + cps[at..];
        assert Fits(cps, line, widths, charPos, bytePos, column);
      }
    }

    /** `delete_at_cursor` (lines 456-482). */
    method DeleteAtCursor()
      requires Valid()
      modifies this
      ensures Valid() && View() == Deleted(old(View()))
    {
      if charPos >= |widths| {
        return;
      }
      var next := NextCharPos(line, bytePos, cps, charPos);
      EraseFits(cps, line, widths, charPos, bytePos, column);
      var w := widths[charPos];
      line := line[..bytePos] + line[next..];
      widths := widths[..charPos] + widths[charPos + 1..];
      cps := cps[..charPos] + cps[charPos + 1..];
      var tailWidth := Redraw(charPos);
      column := column + w;
      column := column - (tailWidth + w);
    }

    /** One character to the left, with its width; nothing at the start of the line. */
    method StepLeft()
      requires Valid()
      modifies this
      ensures Valid() && View() == (if old(charPos) > 0 then old(View()).(at := old(charPos) - 1) else old(View()))
      ensures line == old(line) && widths == old(widths)
    {
      if charPos > 0 {
        SumStep(widths, charPos - 1);
        column := column - widths[charPos - 1];
        bytePos := PrevCharPos(line, bytePos, cps, charPos);
        charPos := charPos - 1;
      }
    }

    method StepRight()
      requires Valid()
      modifies this
      ensures Valid() && View() == (if old(charPos) < |old(cps)| then old(View()).(at := old(charPos) + 1) else old(View()))
    {
      if charPos < |widths| {
        SumStep(widths, charPos);
        column := column + widths[charPos];
        bytePos := NextCharPos(line, bytePos, cps, charPos);
        charPos := charPos + 1;
      }
    }

    /** The backspace branch (lines 929-957). */
    method BackspaceKey()
      requires Valid()
      modifies this
      ensures Valid() && View() == Backspaced(old(View()))
    {
      if charPos > 0 {
        StepLeft();
        DeleteAtCursor();
      }
    }

    /** The displacement of `move_to_line_start` (lines 529-537), which needs only the widths. */
    method ToStart()
      requires charPos <= |widths| && column == TotalWidth(widths[..charPos])
      modifies this`charPos, this`bytePos, this`column
      ensures charPos == 0 && bytePos == 0 && column == 0
    {
      var back := 0;
      var i := 0;
      while i < charPos
        invariant 0 <= i <= charPos && back == TotalWidth(widths[..i])
        modifies {}
      {
        SumStep(widths, i);
        back := back + widths[i];
        i := i + 1;
      }
      column := column - back;
      charPos, bytePos := 0, 0;
    }

    /** `move_to_line_start`. */
    method MoveToLineStart()
      requires Valid()
      modifies this
      ensures Valid() && View() == old(View()).(at := 0)
      ensures column == 0
    {
      BorderAt(cps, 0);
      ToStart();
    }

    /** `move_to_line_end` (lines 539-547). */
    method MoveToLineEnd()
      requires Valid()
      modifies this
      ensures Valid() && View() == old(View()).(at := |old(cps)|)
    {
      var forward := 0;
      var i := charPos;
      while i < |widths|
        invariant charPos <= i <= |widths| && TotalWidth(widths[..charPos]) + forward == TotalWidth(widths[..i])
        modifies {}
      {
        SumStep(widths, i);
        forward := forward + widths[i];
        i := i + 1;
      }
      column := column + forward;
      charPos, bytePos := |widths|, |line|;
      assert cps[..|cps|] == cps;
    }

    /** One of the two loops of `move_word_left` (lines 590-612). */
    method SkipLeft(c: nat, b: nat, isSpace: CodePoint -> bool, want: bool) returns (c': nat, b': nat, moved: nat)
      requires Valid() && c <= |cps| && b == Offset(cps, c)
      ensures c' == BackOver(cps, c, isSpace, want) && b' == Offset(cps, c')
      ensures TotalWidth(widths[..c']) + moved == TotalWidth(widths[..c])
    {
      c', b', moved := c, b, 0;
      while c' > 0
        invariant c' <= c && b' == Offset(cps, c')
        invariant BackOver(cps, c', isSpace, want) == BackOver(cps, c, isSpace, want)
        invariant TotalWidth(widths[..c']) + moved == TotalWidth(widths[..c])
      {
        var prev := PrevCharPos(line, b', cps, c');
        CharDecodes(cps, c' - 1);
        if isSpace(Decode(line, prev).cp) != want {
          break;
        }
        SumStep(widths, c' - 1);
        moved := moved + widths[c' - 1];
        c', b' := c' - 1, prev;
      }
    }

    /** One of the three loops of `move_word_right` (lines 628-659). */
    method SkipRight(c: nat, b: nat, isSpace: CodePoint -> bool, want: bool) returns (c': nat, b': nat, moved: nat)
      requires Valid() && c <= |cps| && b == Offset(cps, c)
      ensures c' == ForwardOver(cps, c, isSpace, want) && b' == Offset(cps, c')
      ensures TotalWidth(widths[..c']) == TotalWidth(widths[..c]) + moved
    {
      c', b', moved := c, b, 0;
      while c' < |widths|
        invariant c <= c' <= |widths| && b' == Offset(cps, c')
        invariant ForwardOver(cps, c', isSpace, want) == ForwardOver(cps, c, isSpace, want)
        invariant TotalWidth(widths[..c']) == TotalWidth(widths[..c]) + moved
      {
        CharDecodes(cps, c');
        if isSpace(Decode(line, b').cp) != want {
          break;
        }
        SumStep(widths, c');
        moved := moved + widths[c'];
        b' := b' + Decode(line, b').used;
        c' := c' + 1;
      }
    }

    /** `move_word_left` (lines 581-617). */
    method MoveWordLeft(isSpace: CodePoint -> bool)
      requires Valid()
      modifies this
      ensures Valid() && View() == WordLeft(old(View()), isSpace)
    {
      if charPos == 0 {
        return;
      }
      var c, b, m := SkipLeft(charPos, bytePos, isSpace, true);
      var c', b', m' := SkipLeft(c, b, isSpace, false);
      column := column - (m + m');
      charPos, bytePos := c', b';
    }

    /** `move_word_right` (lines 619-664). */
    method MoveWordRight(isSpace: CodePoint -> bool)
      requires Valid()
      modifies this
      ensures Valid() && View() == WordRight(old(View()), isSpace)
    {
      if charPos >= |widths| {
        return;
      }
      var c, b, m := SkipRight(charPos, bytePos, isSpace, true);
      var c', b', m' := SkipRight(c, b, isSpace, false);
      var c'', b'', m'' := SkipRight(c', b', isSpace, true);
      column := column + (m + m' + m'');
      charPos, bytePos := c'', b'';
    }

    /** `set_line_contents` (lines 497-527) for any bytes; a negative cursor stands for the end of the line. */
    method LoadBytes(newLine: seq<Byte>, measure: nat -> int, cursor: int)
      requires charPos <= |widths| && column == TotalWidth(widths[..charPos])
      modifies this`line, this`widths, this`charPos, this`bytePos, this`column
      ensures line == newLine && widths == RawWidths(CharsOf(newLine, 0), measure)
      ensures charPos == Reached(CharsOf(newLine, 0), 0, cursor) && bytePos == ReachedByte(CharsOf(newLine, 0), 0, cursor)
      ensures column == TotalWidth(widths[..charPos])
    {
      ToStart();
      // clearing the old line prints spaces and goes back over them
      line := newLine;
      var forward, back;
      widths, charPos, bytePos, forward, back := PutLine(newLine, measure, cursor);
      column := column + forward;
      if cursor >= 0 {
        column := column - back;
      }
    }

    /** The same, for the text that the bytes may encode: some text fits the fields exactly when they do. */
    method SetLineContents(newLine: seq<Byte>, ghost newCps: seq<CodePoint>, measure: nat -> int, cursor: int)
      requires charPos <= |widths| && column == TotalWidth(widths[..charPos])
      modifies this
      ensures line == newLine && widths == RawWidths(CharsOf(newLine, 0), measure)
      ensures charPos == Reached(CharsOf(newLine, 0), 0, cursor) && bytePos == ReachedByte(CharsOf(newLine, 0), 0, cursor)
      ensures column == TotalWidth(widths[..charPos])
      ensures newLine == EncodeAll(newCps) ==> Valid() && View() == Loaded(newCps, measure, cursor)
      ensures NothingFits(line, widths, charPos, bytePos, column) <==> !ReEncodes(newLine, 0)
    {
      LoadBytes(newLine, measure, cursor);
      cps := newCps;
      SomethingFits(newLine, measure, cursor);
      if newLine == EncodeAll(newCps) {
        RawIsLoaded(newCps, measure, cursor);
      }
    }

    /** One key of the read loop. */
    method Press(k: Key, isSpace: CodePoint -> bool, measure: nat -> int)
      requires Valid()
      modifies this
      ensures Valid() && Proper(old(View())) && View() == Pressed(old(View()), k, isSpace, measure)
    {
      match k {
        case Insert(cp, measured) => InsertChar(cp, measured);
        case Backspace => BackspaceKey();
        case Delete => DeleteAtCursor();
        case Left => StepLeft();
        case Right => StepRight();
        case Home => MoveToLineStart();
        case End => MoveToLineEnd();
        case CtrlLeft => MoveWordLeft(isSpace);
        case CtrlRight => MoveWordRight(isSpace);
        case History(text) => SetLineContents(EncodeAll(text), text, measure, -1);
        case Completion(text, cursor) => SetLineContents(EncodeAll(text), text, measure, cursor);
      }
    }

    /** Every sequence of keys does to the bytes what it means for the code points. */
    method PressAll(ks: seq<Key>, isSpace: CodePoint -> bool, measure: nat -> int)
      requires Valid()
      modifies this
      ensures Valid() && Proper(old(View())) && View() == PressedAll(old(View()), ks, isSpace, measure)
      ensures line == EncodeAll(View().cps) && bytePos == Offset(View().cps, charPos) && column == TotalWidth(widths[..charPos])
    {
      var i := 0;
      assert ks[..0] == [];
      while i < |ks|
        invariant 0 <= i <= |ks| && Valid() && Proper(old(View()))
        invariant View() == PressedAll(old(View()), ks[..i], isSpace, measure)
      {
        Press(ks[i], isSpace, measure);
        assert ks[..i + 1][..i] == ks[..i];
        i := i + 1;
      }
      assert ks[..i] == ks;
    }
  }

  // ----- what the keys promise -----

  /** Backspace undoes an insert. */
  lemma BackspaceUndoesInsert(b: Buffer, cp: CodePoint, w: nat)
    requires Proper(b)
    ensures Backspaced(Inserted(b, cp, w)) == b
  {
    var i := Inserted(b, cp, w);
    assert i.cps[..b.at] + i.cps[b.at + 1..] == b.cps;
    assert i.widths[..b.at] + i.widths[b.at + 1..] == b.widths;
  }

  lemma {:induction false} BackOverStops(cps: seq<CodePoint>, at: nat, p: CodePoint -> bool, want: bool)
    requires at <= |cps|
    ensures var r := BackOver(cps, at, p, want);
            && (forall i :: r <= i < at ==> p(cps[i]) == want)
            && (r == 0 || p(cps[r - 1]) != want)
    decreases at
  {
    if at > 0 && p(cps[at - 1]) == want {
      BackOverStops(cps, at - 1, p, want);
    }
  }

  /** Where a word starts: not on a space, and at the start of the line or behind a space. */
  predicate WordStart(cps: seq<CodePoint>, i: nat, isSpace: CodePoint -> bool)
    requires i <= |cps|
  {
    (i == 0 || isSpace(cps[i - 1])) && (i < |cps| ==> !isSpace(cps[i]))
  }

  /** Ctrl-Left goes to the nearest word start before the cursor, or to the start of the line if there is none. */
  lemma WordLeftIsNearest(b: Buffer, isSpace: CodePoint -> bool)
    requires Proper(b)
    ensures var r := WordLeft(b, isSpace);
            && r.cps == b.cps && r.widths == b.widths && r.at <= b.at
            && (r.at > 0 ==> r.at < b.at && WordStart(b.cps, r.at, isSpace))
            && forall i :: r.at < i < b.at ==> !WordStart(b.cps, i, isSpace)
  {
    var k := BackOver(b.cps, b.at, isSpace, true);
    var r := BackOver(b.cps, k, isSpace, false);
    BackOverStops(b.cps, b.at, isSpace, true);
    BackOverStops(b.cps, k, isSpace, false);
    forall i | r < i < b.at ensures !WordStart(b.cps, i, isSpace) {
      assert i < k ==> !isSpace(b.cps[i - 1]);
      assert i == k ==> isSpace(b.cps[i]);
      assert i > k ==> isSpace(b.cps[i]);
    }
  }

  lemma {:induction false} ForwardOverStops(cps: seq<CodePoint>, at: nat, p: CodePoint -> bool, want: bool)
    requires at <= |cps|
    ensures var r := ForwardOver(cps, at, p, want);
            && (forall i :: at <= i < r ==> p(cps[i]) == want)
            && (r == |cps| || p(cps[r]) != want)
    decreases |cps| - at
  {
    if at < |cps| && p(cps[at]) == want {
      ForwardOverStops(cps, at + 1, p, want);
    }
  }

  /**
    Ctrl-Right goes to the nearest word start behind the word at or after the cursor, or to the end of the
    line if there is none.  From a blank it passes one word start, that of the word it goes over.
    */
  lemma WordRightIsNextStart(b: Buffer, isSpace: CodePoint -> bool)
    requires Proper(b)
    ensures var r := WordRight(b, isSpace);
            var over := ForwardOver(b.cps, b.at, isSpace, true);
            && r.cps == b.cps && r.widths == b.widths && r.at >= b.at
            && (r.at < |b.cps| ==> r.at > b.at && WordStart(b.cps, r.at, isSpace))
            && forall i :: b.at < i < r.at && WordStart(b.cps, i, isSpace) ==> i == over
  {
    var w := ForwardOver(b.cps, b.at, isSpace, true);
    var e := ForwardOver(b.cps, w, isSpace, false);
    ForwardOverStops(b.cps, b.at, isSpace, true);
    ForwardOverStops(b.cps, w, isSpace, false);
    ForwardOverStops(b.cps, e, isSpace, true);
    var r := ForwardOver(b.cps, e, isSpace, true);
    if r < |b.cps| {
      assert e < r;
      assert isSpace(b.cps[r - 1]);
    }
    forall i | b.at < i < r && i != w ensures !WordStart(b.cps, i, isSpace) {
      assert i < w ==> isSpace(b.cps[i]);
      assert w < i < e ==> !isSpace(b.cps[i - 1]);
      assert e <= i ==> isSpace(b.cps[i]);
    }
  }

  // ----- what single keys do, said of the text in front of the cursor and behind it -----

  /** The text and the cursor after a key that was pressed between `pre` and `suf`. */
  ghost predicate KeyMeans(pre: seq<CodePoint>, suf: seq<CodePoint>, k: Key, isSpace: CodePoint -> bool, r: Buffer) {
    match k
    case Insert(cp, _) => r.cps == pre + [cp] + suf && r.at == |pre| + 1
    case Backspace => if pre == [] then r.cps == suf && r.at == 0 else r.cps == pre[..|pre| - 1] + suf && r.at == |pre| - 1
    case Delete => r.cps == (if suf == [] then pre else pre + suf[1..]) && r.at == |pre|
    case Left => r.cps == pre + suf && r.at == if pre == [] then 0 else |pre| - 1
    case Right => r.cps == pre + suf && r.at == if suf == [] then |pre| else |pre| + 1
    case Home => r.cps == pre + suf && r.at == 0
    case End => r.cps == pre + suf && r.at == |pre| + |suf|
    case CtrlLeft =>
      && r.cps == pre + suf && r.at <= |pre| && (r.at > 0 ==> r.at < |pre| && WordStart(r.cps, r.at, isSpace))
      && forall i :: r.at < i < |pre| ==> !WordStart(r.cps, i, isSpace)
    case CtrlRight =>
      && r.cps == pre + suf && |pre| <= r.at <= |r.cps| && (r.at < |r.cps| ==> r.at > |pre| && WordStart(r.cps, r.at, isSpace))
    case History(line) => r.cps == line && r.at == |line|
    case Completion(line, cursor) =>
      && r.cps == line && r.at <= |line|
      && if cursor < 0 then r.at == |line|
         else Offset(line, r.at) <= cursor && (r.at < |line| ==> cursor < Offset(line, r.at + 1))
  }

  /** Every character of the text is as wide as the terminal said; a width below 0 counts as none. */
  ghost predicate Measured(b: Buffer, measure: nat -> int) {
    |b.widths| == |b.cps| && forall i :: 0 <= i < |b.cps| ==> b.widths[i] == if measure(b.cps[i]) > 0 then measure(b.cps[i]) else 0
  }

  /** If the terminal measures alike whenever it prints, the widths are those of the characters after any keys. */
  lemma {:induction false} StaysMeasured(b: Buffer, ks: seq<Key>, isSpace: CodePoint -> bool, measure: nat -> int)
    requires Proper(b) && Measured(b, measure)
    requires forall k :: k in ks && k.Insert? ==> k.measured == measure(k.cp)
    ensures Measured(PressedAll(b, ks, isSpace, measure), measure)
  {
    if ks != [] {
      var n := |ks| - 1;
      StaysMeasured(b, ks[..n], isSpace, measure);
      assert ks[n] in ks;
      KeyMeasured(PressedAll(b, ks[..n], isSpace, measure), ks[n], isSpace, measure);
    }
  }

  lemma InsertMeasured(b: Buffer, cp: CodePoint, w: nat, measure: nat -> int)
    requires Proper(b) && Measured(b, measure) && w == Width(measure(cp))
    ensures Measured(Inserted(b, cp, w), measure)
  {
    var r := Inserted(b, cp, w);
    forall i | 0 <= i < |r.cps| ensures r.widths[i] == if measure(r.cps[i]) > 0 then measure(r.cps[i]) else 0 {
      if i < b.at {
        assert r.cps[i] == b.cps[i] && r.widths[i] == b.widths[i];
      } else if i > b.at {
        assert r.cps[i] == b.cps[i - 1] && r.widths[i] == b.widths[i - 1];
      }
    }
  }

  lemma DeleteMeasured(b: Buffer, measure: nat -> int)
    requires Proper(b) && Measured(b, measure)
    ensures Measured(Deleted(b), measure)
  {
    if b.at < |b.cps| {
      var r := Deleted(b);
      forall i | 0 <= i < |r.cps| ensures r.widths[i] == if measure(r.cps[i]) > 0 then measure(r.cps[i]) else 0 {
        var k := if i < b.at then i else i + 1;
        assert r.cps[i] == b.cps[k] && r.widths[i] == b.widths[k];
      }
    }
  }

  lemma KeyMeasured(b: Buffer, k: Key, isSpace: CodePoint -> bool, measure: nat -> int)
    requires Proper(b) && Measured(b, measure) && (k.Insert? ==> k.measured == measure(k.cp))
    ensures Measured(Pressed(b, k, isSpace, measure), measure)
  {
    match k {
      case Insert(cp, measured) => InsertMeasured(b, cp, Width(measured), measure);
      case Delete => DeleteMeasured(b, measure);
      case Backspace => if b.at > 0 { DeleteMeasured(b.(at := b.at - 1), measure); }
      case Left =>
      case Right =>
      case Home =>
      case End =>
      case CtrlLeft =>
      case CtrlRight =>
      case History(_) =>
      case Completion(_, _) =>
    }
  }

  lemma AllBefore(cps: seq<CodePoint>, cursor: int)
    requires cursor < 0
    ensures Before(cps, cursor) == |cps|
  {
  }

  lemma EditsMean(pre: seq<CodePoint>, suf: seq<CodePoint>, b: Buffer, k: Key, isSpace: CodePoint -> bool, measure: nat -> int)
    requires Proper(b) && b.cps == pre + suf && b.at == |pre| && (k.Insert? || k.Backspace? || k.Delete?)
    ensures KeyMeans(pre, suf, k, isSpace, Pressed(b, k, isSpace, measure))
  {
    assert b.cps[..b.at] == pre && b.cps[b.at..] == suf;
  }

  lemma KeysMean(pre: seq<CodePoint>, suf: seq<CodePoint>, b: Buffer, k: Key, isSpace: CodePoint -> bool, measure: nat -> int)
    requires Proper(b) && b.cps == pre + suf && b.at == |pre|
    ensures KeyMeans(pre, suf, k, isSpace, Pressed(b, k, isSpace, measure))
  {
    match k {
      case CtrlLeft => WordLeftIsNearest(b, isSpace);
      case CtrlRight => WordRightIsNextStart(b, isSpace);
      case History(line) => AllBefore(line, -1);
      case Completion(line, cursor) => if cursor < 0 { AllBefore(line, cursor); } else { LoadedCursorIsNearest(line, cursor); }
      case Insert(_, _) => EditsMean(pre, suf, b, k, isSpace, measure);
      case Backspace => EditsMean(pre, suf, b, k, isSpace, measure);
      case Delete => EditsMean(pre, suf, b, k, isSpace, measure);
      case Left =>
      case Right =>
      case Home =>
      case End =>
    }
  }

  /** Left and Right undo each other, and delete and backspace are each other's mirror. */
  lemma KeysUndo(b: Buffer, isSpace: CodePoint -> bool, measure: nat -> int)
    requires Proper(b)
    ensures b.at > 0 ==>
              var l := Pressed(b, Left, isSpace, measure);
              && Pressed(l, Right, isSpace, measure) == b
              && Pressed(l, Delete, isSpace, measure) == Pressed(b, Backspace, isSpace, measure)
    ensures b.at < |b.cps| ==>
              var r := Pressed(b, Right, isSpace, measure);
              && Pressed(r, Left, isSpace, measure) == b
              && Pressed(r, Backspace, isSpace, measure) == Pressed(b, Delete, isSpace, measure)
  {
  }
}
