/**
 The terminal input translator: a stream of xterm mouse reports among other bytes is rewritten to
 QNX mouse reports (src/fd_filter.cpp). A report is a control sequence introducer, ESC [, as in
 section 5.4 of ECMA-48, then M and three payload bytes.
 */
module TerminalFilters {
  import opened Words
  import opened Timespecs

  const ESC: byte := 27
  const BRACKET: byte := 91
  const LETTER_M: byte := 77
  const REPORT_SIZE := 6

  const ESC_TIMEOUT := Ms(200)

  // ----- numbers as snprintf writes them

  function Digits(n: nat): (s: seq<byte>)
    ensures |s| > 0
  {
    if n < 10 then [48 + n] else Digits(n / 10) + [48 + n % 10]
  }

  function Decimal(n: int): (s: seq<byte>)
    ensures |s| > 0
  {
    if n < 0 then [45] + Digits(-n) else Digits(n)
  }

  /** ESC [ fields separated by ; and a final t. */
  function QnxReport(fields: seq<int>): seq<byte> { [ESC, BRACKET] + Fields(fields) + [116] }

  function Fields(fields: seq<int>): seq<byte> {
    if fields == [] then [] else if |fields| == 1 then Decimal(fields[0]) else Decimal(fields[0]) + [59] + Fields(fields[1..])
  }

  // ----- buttons

  const K_MOUSE_BSELECT: nat := 0x400
  const K_MOUSE_BADJUST: nat := 0x200
  const K_MOUSE_BMENU: nat := 0x100

  /** Bitwise or with a single bit. */
  function OrBit(v: nat, bit: nat): nat
    requires bit > 0
  {
    if v / bit % 2 == 1 then v else v + bit
  }

  datatype Translated = Translated(message: seq<byte>, buttons: nat)

  /** One report: motion, release, or press of a button. Bits are those of two's complement. */
  function Mouse(payload: seq<byte>, buttons: nat): Translated
    requires |payload| == 3
  {
    var b := (payload[0] as int) - 32;
    var column := (payload[1] as int) - 33;
    var row := (payload[2] as int) - 33;
    if b / 32 % 2 == 1 then
      Translated(QnxReport([33, row, column, buttons / 0x100]), buttons)
    else if b % 4 == 3 then
      Translated(QnxReport([32, row, column, buttons / 0x100]), 0)
    else
      var button := if b % 4 == 0 then K_MOUSE_BSELECT else if b % 4 == 1 then K_MOUSE_BADJUST else K_MOUSE_BMENU;
      Translated(QnxReport([31, row, column, button / 0x100, 1]), OrBit(buttons, button))
  }

  lemma MouseStart(payload: seq<byte>, buttons: nat)
    requires |payload| == 3
    ensures |Mouse(payload, buttons).message| > 3 && Mouse(payload, buttons).message[..3] == [ESC, BRACKET, 51]
  {
  }

  // ----- the reference translator: one pass over the input

  /** What comes out, the buttons afterwards, and the input held back. */
  datatype Fed = Fed(out: seq<byte>, buttons: nat, held: seq<byte>)
  {
    function After(prefix: seq<byte>): Fed { this.(out := prefix + out) }
  }

  predicate IsIncomplete(s: seq<byte>) { s == [ESC] || s == [ESC, BRACKET] }

  predicate IsReport(s: seq<byte>) { |s| >= REPORT_SIZE && s[..3] == [ESC, BRACKET, LETTER_M] }

  function Feed(s: seq<byte>, buttons: nat): Fed {
    if s == [] then Fed([], buttons, [])
    else if IsIncomplete(s) then Fed([], buttons, s)
    else if IsReport(s) then
      var t := Mouse(s[3..REPORT_SIZE], buttons);
      Feed(s[REPORT_SIZE..], t.buttons).After(t.message)
    else Feed(s[1..], buttons).After(s[..1])
  }

  lemma {:induction false} HeldIsIncomplete(s: seq<byte>, buttons: nat)
    ensures Feed(s, buttons).held == [] || IsIncomplete(Feed(s, buttons).held)
  {
    if s != [] && !IsIncomplete(s) {
      if IsReport(s) {
        HeldIsIncomplete(s[REPORT_SIZE..], Mouse(s[3..REPORT_SIZE], buttons).buttons);
      } else {
        HeldIsIncomplete(s[1..], buttons);
      }
    }
  }

  lemma StartsWithoutEsc(s: seq<byte>)
    requires s != [] && s[0] != ESC
    ensures !IsIncomplete(s) && !IsReport(s)
  {
  }

  /** Input without ESC passes through. */
  lemma {:induction false} FeedPlain(s: seq<byte>, n: nat, buttons: nat)
    requires n <= |s| && forall i :: 0 <= i < n ==> s[i] != ESC
    ensures Feed(s, buttons) == Feed(s[n..], buttons).After(s[..n])
  {
    hide Mouse;
    if n > 0 {
      FeedPlain(s[1..], n - 1, buttons);
      assert s[1..][n - 1..] == s[n..] && s[..1] + s[1..][..n - 1] == s[..n];
      StartsWithoutEsc(s);
      AfterAfter(Feed(s[n..], buttons), s[..1], s[1..][..n - 1]);
    } else {
      assert s[0..] == s;
    }
  }

  // ----- what the translation is, without a look at how it is made

  predicate NoReports(s: seq<byte>) { forall i :: 0 <= i < |s| ==> !IsReport(s[i..]) }

  lemma NoReportsTail(s: seq<byte>)
    requires s != [] && NoReports(s)
    ensures !IsReport(s) && NoReports(s[1..])
  {
    assert s[0..] == s;
    forall i | 0 <= i < |s[1..]| ensures !IsReport(s[1..][i..]) {
      assert s[1..][i..] == s[i + 1..];
    }
  }

  /** An escape sequence that has only begun at the end of the input. */
  function Begun(s: seq<byte>): seq<byte> {
    if |s| >= 1 && s[|s| - 1] == ESC then [ESC]
    else if |s| >= 2 && s[|s| - 2..] == [ESC, BRACKET] then [ESC, BRACKET]
    else []
  }

  lemma BegunTail(s: seq<byte>)
    requires s != [] && !IsIncomplete(s)
    ensures Begun(s) == Begun(s[1..])
  {
    if |s| >= 3 {
      assert s[1..][|s| - 3..] == s[|s| - 2..];
    } else if |s| == 2 {
      assert s[0..] == s;
      assert s == [s[0], s[1]];
    }
  }

  /**
   Input without reports goes out unchanged, other escape sequences included; only a sequence that
   has just begun at its end is held back. The buttons stay as they are.
   */
  lemma {:induction false} FeedNoReports(s: seq<byte>, buttons: nat)
    requires NoReports(s)
    ensures Feed(s, buttons).out + Feed(s, buttons).held == s
    ensures Feed(s, buttons).held == Begun(s) && Feed(s, buttons).buttons == buttons
    decreases |s|
  {
    if s != [] && !IsIncomplete(s) {
      NoReportsTail(s);
      FeedNoReports(s[1..], buttons);
      BegunTail(s);
      var f := Feed(s[1..], buttons);
      assert s[..1] + f.out + f.held == s[..1] + (f.out + f.held);
    }
  }

  /** The first report in the input is replaced; what stands in front of it goes out unchanged. */
  lemma {:induction false} FeedReplacesReport(a: seq<byte>, r: seq<byte>, rest: seq<byte>, buttons: nat)
    requires |r| == REPORT_SIZE && IsReport(r) && forall i :: 0 <= i < |a| ==> !IsReport((a + r + rest)[i..])
    ensures var t := Mouse(r[3..REPORT_SIZE], buttons);
      Feed(a + r + rest, buttons) == Feed(rest, t.buttons).After(a + t.message)
    decreases |a|
  {
    hide Mouse;
    var s := a + r + rest;
    var t := Mouse(r[3..REPORT_SIZE], buttons);
    if a == [] {
      assert s[..REPORT_SIZE] == r && s[..3] == r[..3] && s[3..REPORT_SIZE] == r[3..REPORT_SIZE] && s[REPORT_SIZE..] == rest;
      assert [] + t.message == t.message;
    } else {
      assert s[0..] == s && s[..1] == a[..1] && s[1..] == a[1..] + r + rest;
      forall i | 0 <= i < |a[1..]| ensures !IsReport((a[1..] + r + rest)[i..]) {
        assert s[1..][i..] == s[i + 1..];
      }
      FeedReplacesReport(a[1..], r, rest, buttons);
      AfterAfter(Feed(rest, t.buttons), a[..1], a[1..] + t.message);
      assert a[..1] + (a[1..] + t.message) == a + t.message;
    }
  }

  // ----- cutting the input

  /** The position n lies behind ESC [ M and before the end of a report of the stream s. */
  predicate InsidePayload(s: seq<byte>, n: nat) {
    n > 0 && s != [] &&
    if IsReport(s) then (if n < REPORT_SIZE then 3 <= n else InsidePayload(s[REPORT_SIZE..], n - REPORT_SIZE))
    else InsidePayload(s[1..], n - 1)
  }

  function FeedTwice(a: seq<byte>, b: seq<byte>, buttons: nat): Fed {
    var f := Feed(a, buttons);
    Feed(f.held + b, f.buttons).After(f.out)
  }

  lemma AfterAfter(f: Fed, p: seq<byte>, q: seq<byte>)
    ensures f.After(q).After(p) == f.After(p + q)
  {
  }

  lemma AfterCancels(f: Fed, g: Fed, p: seq<byte>)
    ensures f.After(p) == g.After(p) <==> f == g
  {
    assert (p + f.out)[|p|..] == f.out && (p + g.out)[|p|..] == g.out;
  }

  /** A report that is cut in its payload goes out as it came in. */
  lemma CutReportRaw(a: seq<byte>, buttons: nat)
    requires 3 <= |a| < REPORT_SIZE && a[..3] == [ESC, BRACKET, LETTER_M]
    ensures |Feed(a, buttons).out| >= 3 && Feed(a, buttons).out[..3] == [ESC, BRACKET, LETTER_M]
  {
    assert a[1..][0] == BRACKET && a[2..][0] == LETTER_M && a[1..][1..] == a[2..] && a[2..][1..] == a[3..];
    assert a[..1] == [ESC] && a[1..][..1] == [BRACKET] && a[2..][..1] == [LETTER_M];
    var rest := Feed(a[3..], buttons);
    assert Feed(a[2..], buttons) == rest.After([LETTER_M]);
    assert Feed(a[1..], buttons) == Feed(a[2..], buttons).After([BRACKET]);
    assert Feed(a, buttons) == Feed(a[1..], buttons).After([ESC]);
  }

  lemma HeadOfJoin(a: seq<byte>, b: seq<byte>)
    requires a != []
    ensures (a + b)[..1] == a[..1] && (a + b)[1..] == a[1..] + b
    ensures |a| >= REPORT_SIZE ==> (a + b)[..REPORT_SIZE] == a[..REPORT_SIZE] && (a + b)[REPORT_SIZE..] == a[REPORT_SIZE..] + b
    ensures |a| >= 3 ==> (a + b)[..3] == a[..3]
    ensures |a| >= REPORT_SIZE ==> (a + b)[3..REPORT_SIZE] == a[3..REPORT_SIZE]
  {
  }

  lemma IncompleteNotCut(a: seq<byte>, b: seq<byte>)
    requires IsIncomplete(a)
    ensures !InsidePayload(a + b, |a|)
  {
    HeadOfJoin(a, b);
    var s := a + b;
    if !IsReport(s) && |a| == 2 {
      assert s[1..][0] == BRACKET;
      StartsWithoutEsc(s[1..]);
      assert !InsidePayload(s[1..], 1);
    }
  }

  /**
   Feeding the input in two pieces gives the same bytes, buttons and held-back input as feeding it
   at once exactly when the cut does not fall into the payload of a report.
   */
  lemma {:induction false} SplitExact(a: seq<byte>, b: seq<byte>, buttons: nat)
    ensures FeedTwice(a, b, buttons) == Feed(a + b, buttons) <==> !InsidePayload(a + b, |a|)
  {
    hide Mouse;
    if a == [] {
      assert a + b == b && [] + b == b;
    } else if IsIncomplete(a) {
      IncompleteNotCut(a, b);
    } else {
      HeadOfJoin(a, b);
      if IsReport(a) {
        var t := Mouse(a[3..REPORT_SIZE], buttons);
        var rest := a[REPORT_SIZE..];
        SplitExact(rest, b, t.buttons);
        AfterAfter(Feed(Feed(rest, t.buttons).held + b, Feed(rest, t.buttons).buttons), t.message, Feed(rest, t.buttons).out);
        AfterCancels(FeedTwice(rest, b, t.buttons), Feed(rest + b, t.buttons), t.message);
      } else if IsReport(a + b) {
        CutInPayload(a, b, buttons);
      } else {
        var rest := a[1..];
        SplitExact(rest, b, buttons);
        AfterAfter(Feed(Feed(rest, buttons).held + b, Feed(rest, buttons).buttons), a[..1], Feed(rest, buttons).out);
        AfterCancels(FeedTwice(rest, b, buttons), Feed(rest + b, buttons), a[..1]);
      }
    }
  }

  lemma CutInPayload(a: seq<byte>, b: seq<byte>, buttons: nat)
    requires a != [] && !IsIncomplete(a) && !IsReport(a) && IsReport(a + b)
    ensures InsidePayload(a + b, |a|) && FeedTwice(a, b, buttons) != Feed(a + b, buttons)
  {
    HeadOfJoin(a, b);
    if |a| < 3 {
      ShortPrefixIncomplete(a, b);
    }
    CutReportRaw(a, buttons);
    MouseStart((a + b)[3..REPORT_SIZE], buttons);
    assert Feed(a + b, buttons).out[..3] == [ESC, BRACKET, 51];
    assert FeedTwice(a, b, buttons).out[..3] == Feed(a, buttons).out[..3];
  }

  lemma ShortPrefixIncomplete(a: seq<byte>, b: seq<byte>)
    requires 0 < |a| < 3 && IsReport(a + b)
    ensures IsIncomplete(a)
  {
    var head := (a + b)[..3];
    assert head[0] == a[0] && (|a| == 2 ==> head[1] == a[1]);
  }

  /** What is held back at the end does not depend on what went out before. */
  lemma HeldOfRest(s: seq<byte>, buttons: nat)
    requires s != [] && !IsIncomplete(s)
    ensures Feed(s, buttons).held ==
      if IsReport(s) then Feed(s[REPORT_SIZE..], Mouse(s[3..REPORT_SIZE], buttons).buttons).held else Feed(s[1..], buttons).held
  {
    hide Mouse;
  }

  lemma FeedHeld(held: seq<byte>, buttons: nat)
    requires held == [] || IsIncomplete(held)
    ensures Feed(held, buttons) == Fed([], buttons, held)
  {
  }

  /** Later cuts stay where they are, seen from the input that was held back at an earlier cut. */
  lemma {:induction false} LaterCuts(a: seq<byte>, b: seq<byte>, buttons: nat, n: nat)
    requires !InsidePayload(a + b, |a|) && n <= |b|
    ensures InsidePayload(a + b, |a| + n) <==> InsidePayload(Feed(a, buttons).held + b, |Feed(a, buttons).held| + n)
  {
    hide Mouse, Feed;
    if a == [] || IsIncomplete(a) {
      FeedHeld(a, buttons);
    } else {
      HeadOfJoin(a, b);
      HeldOfRest(a, buttons);
      if IsReport(a) {
        LaterCuts(a[REPORT_SIZE..], b, Mouse(a[3..REPORT_SIZE], buttons).buttons, n);
      } else if IsReport(a + b) {
        CutInPayload(a, b, buttons);
      } else {
        LaterCuts(a[1..], b, buttons, n);
      }
    }
  }

  function Concat(pieces: seq<seq<byte>>): seq<byte>
    decreases |pieces|
  {
    if pieces == [] then [] else pieces[0] + Concat(pieces[1..])
  }

  /** No boundary between pieces of the stream h + pieces, h being what is held back, is inside a payload. */
  predicate CutsAllowed(s: seq<byte>, from: nat, pieces: seq<seq<byte>>)
    decreases |pieces|
  {
    pieces == [] || (!InsidePayload(s, from + |pieces[0]|) && CutsAllowed(s, from + |pieces[0]|, pieces[1..]))
  }

  function FeedPieces(held: seq<byte>, buttons: nat, pieces: seq<seq<byte>>): Fed
    decreases |pieces|
  {
    if pieces == [] then Fed([], buttons, held)
    else
      var f := Feed(held + pieces[0], buttons);
      FeedPieces(f.held, f.buttons, pieces[1..]).After(f.out)
  }

  lemma {:induction false} CutsAllowedTail(a: seq<byte>, b: seq<byte>, buttons: nat, n: nat, pieces: seq<seq<byte>>)
    requires !InsidePayload(a + b, |a|) && n + |Concat(pieces)| <= |b|
    ensures CutsAllowed(a + b, |a| + n, pieces) <==> CutsAllowed(Feed(a, buttons).held + b, |Feed(a, buttons).held| + n, pieces)
    decreases |pieces|
  {
    if pieces != [] {
      LaterCuts(a, b, buttons, n + |pieces[0]|);
      CutsAllowedTail(a, b, buttons, n + |pieces[0]|, pieces[1..]);
    }
  }

  /** The strings differ at a place that both have, so they differ whatever is put behind them. */
  predicate Clash(x: seq<byte>, y: seq<byte>) {
    exists p :: 0 <= p < |x| && p < |y| && x[p] != y[p]
  }

  lemma ClashInside(prefix: seq<byte>, x: seq<byte>, y: seq<byte>, xs: seq<byte>, ys: seq<byte>)
    requires Clash(x, y)
    ensures Clash(prefix + x + xs, prefix + y + ys)
  {
    var p :| 0 <= p < |x| && p < |y| && x[p] != y[p];
    assert (prefix + x + xs)[|prefix| + p] == x[p] && (prefix + y + ys)[|prefix| + p] == y[p];
  }

  lemma ClashBehind(prefix: seq<byte>, x: seq<byte>, y: seq<byte>)
    requires Clash(x, y)
    ensures Clash(prefix + x, prefix + y)
  {
    ClashInside(prefix, x, y, [], []);
    assert prefix + x + [] == prefix + x && prefix + y + [] == prefix + y;
  }

  /** What was put out before a cut inside a payload is not how the translation of the whole begins. */
  lemma {:induction false} CutClashes(a: seq<byte>, b: seq<byte>, buttons: nat)
    requires InsidePayload(a + b, |a|)
    ensures Clash(Feed(a, buttons).out, Feed(a + b, buttons).out)
  {
    hide Mouse;
    if IsIncomplete(a) {
      IncompleteNotCut(a, b);
      assert false;
    }
    HeadOfJoin(a, b);
    if IsReport(a) {
      var t := Mouse(a[3..REPORT_SIZE], buttons);
      CutClashes(a[REPORT_SIZE..], b, t.buttons);
      ClashBehind(t.message, Feed(a[REPORT_SIZE..], t.buttons).out, Feed(a[REPORT_SIZE..] + b, t.buttons).out);
    } else if IsReport(a + b) {
      PayloadClash(a, b, buttons);
    } else {
      CutClashes(a[1..], b, buttons);
      ClashBehind(a[..1], Feed(a[1..], buttons).out, Feed(a[1..] + b, buttons).out);
    }
  }

  lemma PayloadClash(a: seq<byte>, b: seq<byte>, buttons: nat)
    requires a != [] && !IsIncomplete(a) && !IsReport(a) && IsReport(a + b)
    ensures Clash(Feed(a, buttons).out, Feed(a + b, buttons).out)
  {
    HeadOfJoin(a, b);
    if |a| < 3 {
      ShortPrefixIncomplete(a, b);
    }
    CutReportRaw(a, buttons);
    MouseStart((a + b)[3..REPORT_SIZE], buttons);
    var x, y := Feed(a, buttons).out, Feed(a + b, buttons).out;
    assert x[2] == x[..3][2] == LETTER_M && y[2] == y[..3][2] == 51;
  }

  /** Any number of pieces, from any held-back beginning: the same as the whole, or different for good. */
  lemma {:induction false} PiecesFromHeld(held: seq<byte>, buttons: nat, pieces: seq<seq<byte>>)
    requires held == [] || IsIncomplete(held)
    ensures CutsAllowed(held + Concat(pieces), |held|, pieces) ==>
      FeedPieces(held, buttons, pieces) == Feed(held + Concat(pieces), buttons)
    ensures !CutsAllowed(held + Concat(pieces), |held|, pieces) ==>
      Clash(FeedPieces(held, buttons, pieces).out, Feed(held + Concat(pieces), buttons).out)
    decreases |pieces|
  {
    hide Feed;
    if pieces == [] {
      assert held + [] == held;
      FeedHeld(held, buttons);
    } else {
      var a, b := held + pieces[0], Concat(pieces[1..]);
      assert held + Concat(pieces) == a + b;
      var f := Feed(a, buttons);
      var rest := FeedPieces(f.held, f.buttons, pieces[1..]);
      if InsidePayload(a + b, |a|) {
        CutClashes(a, b, buttons);
        ClashInside([], f.out, Feed(a + b, buttons).out, rest.out, []);
        assert [] + f.out + rest.out == f.out + rest.out && [] + Feed(a + b, buttons).out + [] == Feed(a + b, buttons).out;
      } else {
        SplitExact(a, b, buttons);
        HeldIsIncomplete(a, buttons);
        CutsAllowedTail(a, b, buttons, 0, pieces[1..]);
        PiecesFromHeld(f.held, f.buttons, pieces[1..]);
        if !CutsAllowed(a + b, |a|, pieces[1..]) {
          ClashBehind(f.out, rest.out, Feed(f.held + b, f.buttons).out);
        }
      }
    }
  }

  lemma ClashDiffers(x: seq<byte>, y: seq<byte>)
    requires Clash(x, y)
    ensures x != y
  {
  }

  /** How the input arrives in pieces makes no difference exactly when no piece ends inside a payload. */
  lemma PiecesDoNotMatter(buttons: nat, pieces: seq<seq<byte>>)
    ensures FeedPieces([], buttons, pieces) == Feed(Concat(pieces), buttons) <==> CutsAllowed(Concat(pieces), 0, pieces)
  {
    assert [] + Concat(pieces) == Concat(pieces);
    PiecesFromHeld([], buttons, pieces);
    if !CutsAllowed(Concat(pieces), 0, pieces) {
      ClashDiffers(FeedPieces([], buttons, pieces).out, Feed(Concat(pieces), buttons).out);
    }
  }

  /** A report that arrives in two pieces, cut behind its first payload byte. */
  lemma CutMatters()
    ensures var (a, b) := ([ESC, BRACKET, LETTER_M, 32], [33, 33]);
      InsidePayload(a + b, 4) && FeedTwice(a, b, 0) != Feed(a + b, 0)
  {
    var (a, b) := ([ESC, BRACKET, LETTER_M, 32], [33, 33]);
    assert (a + b)[..3] == [ESC, BRACKET, LETTER_M];
    SplitExact(a, b, 0);
  }

  // ----- the object

  datatype EscType = UNKNOWN | RECOGNIZED | INCOMPLETE

  /** The held-back sequence times out 200 ms after it began. */
  predicate Expired(now: Timespec, start: Timespec) { now.AtLeast(start.Plus(ESC_TIMEOUT)) }

  lemma NotExpiredAtOnce(now: Timespec)
    requires now.Normal()
    ensures !Expired(now, now)
  {
  }

  /** The wait is over once at least 200 milliseconds have passed since it began, and not before. */
  lemma ExpiredExact(now: Timespec, start: Timespec)
    requires now.Normal() && start.Normal()
    ensures Expired(now, start) <==> now.Total() - start.Total() >= 200_000_000
  {
    MsTotal(200);
    Arithmetic(start, ESC_TIMEOUT);
    Arithmetic(now, start.Plus(ESC_TIMEOUT));
  }

  /** One call of `process`: an incomplete sequence that was waited for too long goes out as it is. */
  function Step(s: seq<byte>, buttons: nat, waiting: bool, expired: bool): Fed {
    if waiting && expired && IsIncomplete(s) then Fed(s, buttons, []) else Feed(s, buttons)
  }

  class TerminalFilter {
    var buttons: nat
    var waitingForEsc: bool
    var escStartTime: Timespec
    var buffer: seq<byte>
    var ready: seq<byte>

    constructor ()
      ensures Quiet() && buttons == 0 && buffer == [] && ready == []
    {
      buttons, waitingForEsc, escStartTime, buffer, ready := 0, false, Timespec(0, 0), [], [];
    }

    /** What holds before and after every call: something is held back exactly while waiting. */
    predicate Quiet()
      reads this
    {
      if waitingForEsc then IsIncomplete(buffer) else buffer == []
    }

    /** Data read from the host is appended to the buffer. */
    method Append(data: seq<byte>)
      modifies this`buffer
      ensures buffer == old(buffer) + data
    {
      buffer := buffer + data;
    }

    method Transfer(size: nat)
      requires size <= |buffer|
      modifies this`buffer, this`ready
      ensures buffer == old(buffer)[size..] && ready == old(ready) + old(buffer)[..size]
    {
      ready := ready + buffer[..size];
      buffer := buffer[size..];
    }

    method Drop(size: nat)
      requires size <= |buffer|
      modifies this`buffer
      ensures buffer == old(buffer)[size..]
    {
      buffer := buffer[size..];
    }

    method ParseEsc() returns (t: EscType)
      requires buffer != [] && buffer[0] == ESC
      modifies this`buffer, this`ready, this`buttons
      ensures t == INCOMPLETE <==> IsIncomplete(old(buffer))
      ensures t == RECOGNIZED <==> IsReport(old(buffer))
      ensures t != RECOGNIZED ==> buffer == old(buffer) && ready == old(ready) && buttons == old(buttons)
      ensures t == RECOGNIZED ==> var m := Mouse(old(buffer)[3..REPORT_SIZE], old(buttons));
        buffer == old(buffer)[REPORT_SIZE..] && ready == old(ready) + m.message && buttons == m.buttons
    {
      if |buffer| < 2 {
        return INCOMPLETE;
      }
      if buffer[1] == BRACKET {
        if |buffer| < 3 {
          return INCOMPLETE;
        }
      } else {
        NoReport(buffer, 1);
        return UNKNOWN;
      }
      if buffer[2] == LETTER_M {
        if |buffer| < REPORT_SIZE {
          return UNKNOWN;
        }
        assert buffer[..3] == [ESC, BRACKET, LETTER_M];
        var m := Mouse(buffer[3..REPORT_SIZE], buttons);
        buttons := m.buttons;
        ready := ready + m.message;
        Drop(REPORT_SIZE);
        return RECOGNIZED;
      }
      NoReport(buffer, 2);
      return UNKNOWN;
    }

    /** All that will have become ready when `process` returns, with buttons and what is held back then. */
    function Outcome(now: Timespec): Fed
      reads this
    {
      Step(buffer, buttons, waitingForEsc, Expired(now, escStartTime)).After(ready)
    }

    /** Move everything in front of the next ESC. */
    method TransferPlain(now: Timespec)
      requires waitingForEsc ==> buffer != [] && buffer[0] == ESC
      modifies this`buffer, this`ready
      ensures Outcome(now) == old(Outcome(now)) && |buffer| <= |old(buffer)|
      ensures buffer != [] ==> buffer[0] == ESC
      ensures old(buffer) != [] && old(buffer)[0] == ESC ==> buffer == old(buffer)
      ensures (forall j :: 0 <= j < |old(buffer)| ==> old(buffer)[j] != ESC) ==> buffer == []
    {
      hide Feed, Expired;
      var i := 0;
      while i < |buffer|
        invariant 0 <= i <= |buffer| && forall j :: 0 <= j < i ==> buffer[j] != ESC
      {
        if buffer[i] == ESC {
          break;
        }
        i := i + 1;
      }
      PlainStep(buffer, i, buttons, waitingForEsc, Expired(now, escStartTime));
      AfterAfter(Step(buffer[i..], buttons, waitingForEsc, Expired(now, escStartTime)), ready, buffer[..i]);
      Transfer(i);
    }

    /** Deal with the ESC at the head of the buffer; `stop` when `process` returns. */
    method EscStep(now: Timespec) returns (stop: bool)
      requires now.Normal() && buffer != [] && buffer[0] == ESC
      modifies this
      ensures Outcome(now) == old(Outcome(now))
      ensures stop ==> waitingForEsc && IsIncomplete(buffer) && Fed(ready, buttons, buffer) == Outcome(now)
      ensures stop ==> buffer == old(buffer) && old(waitingForEsc) && escStartTime == old(escStartTime)
      ensures !stop && waitingForEsc ==>
        !old(waitingForEsc) && IsIncomplete(buffer) && buffer == old(buffer) && escStartTime == now
      ensures !stop && !waitingForEsc ==> |buffer| < |old(buffer)|
      ensures !stop && old(waitingForEsc) && IsIncomplete(old(buffer)) ==> !waitingForEsc && buffer == old(buffer)[1..]
    {
      hide Mouse, Expired;
      NotExpiredAtOnce(now);
      ghost var s, r := buffer, ready;
      if IsReport(s) {
        ghost var m := Mouse(s[3..REPORT_SIZE], buttons);
        AfterAfter(Feed(s[REPORT_SIZE..], m.buttons), r, m.message);
      } else {
        AfterAfter(Feed(s[1..], buttons), r, s[..1]);
      }
      var t := ParseEsc();
      match t {
        case RECOGNIZED =>
          waitingForEsc := false;
        case UNKNOWN =>
          waitingForEsc := false;
          Transfer(1);
        case INCOMPLETE =>
          if waitingForEsc {
            if Expired(now, escStartTime) {
              FlushIncomplete(s, buttons);
              Transfer(1);
              waitingForEsc := false;
            } else {
              return true;
            }
          } else {
            escStartTime := now;
            waitingForEsc := true;
          }
      }
      return false;
    }

    /**
     Translate what is in the buffer. The call terminates; it appends to `ready` exactly what the
     reference translator produces; and it ends with either an empty buffer and no wait, or ESC or
     ESC [ in the buffer and the wait set.
     */
    method Process(now: Timespec)
      requires now.Normal()
      requires waitingForEsc ==> buffer != [] && buffer[0] == ESC
      modifies this
      ensures var f := Step(old(buffer), old(buttons), old(waitingForEsc), Expired(now, old(escStartTime)));
        ready == old(ready) + f.out && buttons == f.buttons && buffer == f.held
      ensures Quiet()
      ensures buffer != [] ==>
        escStartTime == if old(waitingForEsc) && IsIncomplete(old(buffer)) then old(escStartTime) else now
    {
      hide Feed, Expired;
      ghost var resumed := waitingForEsc && IsIncomplete(buffer);
      ghost var goal := Outcome(now);
      ghost var buffer0, start0 := buffer, escStartTime;
      while true
        invariant waitingForEsc ==> buffer != [] && buffer[0] == ESC
        invariant Outcome(now) == goal
        invariant resumed ==> if waitingForEsc then buffer == buffer0 && escStartTime == start0 else buffer == buffer0[1..]
        invariant !resumed && waitingForEsc && IsIncomplete(buffer) ==> escStartTime == now
        decreases |buffer|, !waitingForEsc
      {
        TransferPlain(now);
        if |buffer| == 0 {
          EmptyOutcome(buttons, waitingForEsc, Expired(now, escStartTime), ready);
          return;
        }
        var stop := EscStep(now);
        if stop {
          return;
        }
      }
    }

    /** `read` takes at most n of the ready bytes. */
    method Take(n: nat) returns (bytes: seq<byte>)
      modifies this`ready
      ensures bytes + ready == old(ready)
      ensures |bytes| == if |old(ready)| < n then |old(ready)| else n
    {
      var k := if |ready| < n then |ready| else n;
      bytes := ready[..k];
      ready := ready[k..];
    }
  }

  lemma NoReport(s: seq<byte>, k: nat)
    requires 0 < k < 3 && k < |s| && s[k] != [ESC, BRACKET, LETTER_M][k]
    ensures !IsReport(s)
  {
  }

  /** The bytes of an incomplete sequence, one after the other. */
  lemma FlushIncomplete(s: seq<byte>, buttons: nat)
    requires IsIncomplete(s)
    ensures Feed(s[1..], buttons).After(s[..1]) == Fed(s, buttons, [])
  {
  }

  lemma EmptyOutcome(buttons: nat, waiting: bool, expired: bool, ready: seq<byte>)
    ensures Step([], buttons, waiting, expired).After(ready) == Fed(ready, buttons, [])
  {
  }

  lemma PlainStep(s: seq<byte>, i: nat, buttons: nat, waiting: bool, expired: bool)
    requires i <= |s| && forall j :: 0 <= j < i ==> s[j] != ESC
    requires waiting ==> s != [] && s[0] == ESC
    ensures Step(s, buttons, waiting, expired) == Step(s[i..], buttons, waiting, expired).After(s[..i])
  {
    FeedPlain(s, i, buttons);
    if waiting {
      assert i == 0 && s[0..] == s;
    }
  }

  // ----- whole sessions

  /** Input arrives and is processed, a sequence that is held back times out, or the guest reads. */
  datatype Op = Input(piece: seq<byte>) | Timeout | Reads(n: nat)

  datatype Session = Session(delivered: seq<byte>, ready: seq<byte>, buttons: nat, held: seq<byte>)

  function Perform(s: Session, op: Op): Session {
    match op
    case Input(piece) =>
      var f := Feed(s.held + piece, s.buttons);
      Session(s.delivered, s.ready + f.out, f.buttons, f.held)
    case Timeout => s.(ready := s.ready + s.held, held := [])
    case Reads(n) =>
      var k := if |s.ready| < n then |s.ready| else n;
      s.(delivered := s.delivered + s.ready[..k], ready := s.ready[k..])
  }

  function PerformAll(s: Session, ops: seq<Op>): Session
    decreases |ops|
  {
    if ops == [] then s else PerformAll(Perform(s, ops[0]), ops[1..])
  }

  /** A call of `process` with new input in the buffer is an input, followed by a timeout if that strikes. */
  lemma ProcessIsOps(s: Session, piece: seq<byte>, waiting: bool, expired: bool)
    ensures var f := Step(s.held + piece, s.buttons, waiting, expired);
      var ops := if waiting && expired && IsIncomplete(s.held + piece) then [Input(piece), Timeout] else [Input(piece)];
      PerformAll(s, ops) == Session(s.delivered, s.ready + f.out, f.buttons, f.held)
  {
    hide PerformAll, Feed;
    PerformOne(s, Input(piece));
    var buffer := s.held + piece;
    if waiting && expired && IsIncomplete(buffer) {
      FeedHeld(buffer, s.buttons);
      PerformTwo(s, Input(piece), Timeout);
      assert s.ready + [] + buffer == s.ready + buffer;
    }
  }

  lemma PerformOne(s: Session, op: Op)
    ensures PerformAll(s, [op]) == Perform(s, op)
  {
  }

  lemma PerformTwo(s: Session, op: Op, next: Op)
    ensures PerformAll(s, [op, next]) == Perform(Perform(s, op), next)
  {
    assert [op, next][1..] == [next];
    PerformOne(Perform(s, op), next);
  }

  /** The input in bursts, one more than there are timeouts, each in its pieces. */
  function Bursts(ops: seq<Op>): (bs: seq<seq<seq<byte>>>)
    ensures bs != []
    decreases |ops|
  {
    if ops == [] then [[]]
    else
      var bs := Bursts(ops[1..]);
      match ops[0]
      case Input(piece) => [[piece] + bs[0]] + bs[1..]
      case Timeout => [[]] + bs
      case Reads(_) => bs
  }

  /** Each burst is translated in one pass; what a timeout finds held back goes out as it is. */
  function TranslateBursts(bs: seq<seq<seq<byte>>>, buttons: nat): Fed
    requires bs != []
    decreases |bs|
  {
    var f := Feed(Concat(bs[0]), buttons);
    if |bs| == 1 then f else TranslateBursts(bs[1..], f.buttons).After(f.out + f.held)
  }

  predicate AllCutsAllowed(bs: seq<seq<seq<byte>>>) {
    forall i :: 0 <= i < |bs| ==> CutsAllowed(Concat(bs[i]), 0, bs[i])
  }

  /** The same, piece by piece, from a held-back beginning. */
  function FeedBursts(held: seq<byte>, buttons: nat, bs: seq<seq<seq<byte>>>): Fed
    requires bs != []
    decreases |bs|
  {
    var f := FeedPieces(held, buttons, bs[0]);
    if |bs| == 1 then f else FeedBursts([], f.buttons, bs[1..]).After(f.out + f.held)
  }

  lemma {:induction false} SessionConserves(s: Session, ops: seq<Op>)
    ensures var t, f := PerformAll(s, ops), FeedBursts(s.held, s.buttons, Bursts(ops));
      Fed(t.delivered + t.ready, t.buttons, t.held) == f.After(s.delivered + s.ready)
    decreases |ops|
  {
    hide Feed;
    if ops == [] {
      assert Bursts(ops) == [[]];
      assert s.delivered + s.ready + [] == s.delivered + s.ready;
    } else {
      var s' := Perform(s, ops[0]);
      SessionConserves(s', ops[1..]);
      match ops[0]
      case Input(piece) =>
        var f := Feed(s.held + piece, s.buttons);
        InputFirst(s.held, s.buttons, piece, Bursts(ops[1..]));
        AfterAfter(FeedBursts(f.held, f.buttons, Bursts(ops[1..])), s.delivered + s.ready, f.out);
        assert s'.delivered + s'.ready == s.delivered + s.ready + f.out;
      case Timeout =>
        assert ([[]] + Bursts(ops[1..]))[1..] == Bursts(ops[1..]);
        AfterAfter(FeedBursts([], s.buttons, Bursts(ops[1..])), s.delivered + s.ready, [] + s.held);
        assert s'.delivered + s'.ready == s.delivered + s.ready + ([] + s.held);
      case Reads(n) =>
        assert s'.delivered + s'.ready == s.delivered + s.ready;
    }
  }

  /** A piece in front of the first burst. */
  lemma InputFirst(held: seq<byte>, buttons: nat, piece: seq<byte>, bs: seq<seq<seq<byte>>>)
    requires bs != []
    ensures var f := Feed(held + piece, buttons);
      FeedBursts(held, buttons, [[piece] + bs[0]] + bs[1..]) == FeedBursts(f.held, f.buttons, bs).After(f.out)
  {
    hide Feed, FeedPieces, FeedBursts;
    var f := Feed(held + piece, buttons);
    var (first, rest) := (bs[0], bs[1..]);
    assert bs == [first] + rest;
    var g := FeedPieces(f.held, f.buttons, first);
    PieceFirst(held, buttons, piece, first);
    BurstStep(f.held, f.buttons, first, rest);
    BurstStep(held, buttons, [piece] + first, rest);
    if rest != [] {
      AfterAfter(FeedBursts([], g.buttons, rest), f.out, g.out + g.held);
      assert f.out + (g.out + g.held) == f.out + g.out + g.held;
    }
  }

  lemma BurstStep(held: seq<byte>, buttons: nat, first: seq<seq<byte>>, rest: seq<seq<seq<byte>>>)
    ensures var f := FeedPieces(held, buttons, first);
      FeedBursts(held, buttons, [first] + rest)
      == if rest == [] then f else FeedBursts([], f.buttons, rest).After(f.out + f.held)
  {
  }

  lemma PieceFirst(held: seq<byte>, buttons: nat, piece: seq<byte>, pieces: seq<seq<byte>>)
    ensures var f := Feed(held + piece, buttons);
      FeedPieces(held, buttons, [piece] + pieces) == FeedPieces(f.held, f.buttons, pieces).After(f.out)
  {
  }

  lemma {:induction false} BurstsExact(buttons: nat, bs: seq<seq<seq<byte>>>)
    requires bs != []
    ensures AllCutsAllowed(bs) ==> FeedBursts([], buttons, bs) == TranslateBursts(bs, buttons)
    ensures !AllCutsAllowed(bs) ==> Clash(FeedBursts([], buttons, bs).out, TranslateBursts(bs, buttons).out)
    decreases |bs|
  {
    hide Feed, FeedPieces, Concat, CutsAllowed, Clash;
    var f, g := FeedPieces([], buttons, bs[0]), Feed(Concat(bs[0]), buttons);
    assert [] + Concat(bs[0]) == Concat(bs[0]);
    PiecesFromHeld([], buttons, bs[0]);
    if |bs| == 1 {
      assert AllCutsAllowed(bs) <==> CutsAllowed(Concat(bs[0]), 0, bs[0]);
    } else {
      AllCutsStep(bs);
      var rest, ref := FeedBursts([], f.buttons, bs[1..]), TranslateBursts(bs[1..], g.buttons);
      if CutsAllowed(Concat(bs[0]), 0, bs[0]) {
        BurstsExact(f.buttons, bs[1..]);
        if !AllCutsAllowed(bs[1..]) {
          ClashBehind(f.out + f.held, rest.out, ref.out);
        }
      } else {
        ClashInside([], f.out, g.out, f.held + rest.out, g.held + ref.out);
        assert [] + f.out + (f.held + rest.out) == f.out + f.held + rest.out;
        assert [] + g.out + (g.held + ref.out) == g.out + g.held + ref.out;
      }
    }
  }

  function ConcatBursts(bs: seq<seq<seq<byte>>>): seq<byte>
    decreases |bs|
  {
    if bs == [] then [] else Concat(bs[0]) + ConcatBursts(bs[1..])
  }

  lemma {:induction false} NoReportsNoCuts(s: seq<byte>, n: nat)
    requires NoReports(s)
    ensures !InsidePayload(s, n)
    decreases |s|
  {
    if s != [] && n > 0 {
      NoReportsTail(s);
      NoReportsNoCuts(s[1..], n - 1);
    }
  }

  lemma {:induction false} NoReportsAllowed(s: seq<byte>, from: nat, pieces: seq<seq<byte>>)
    requires NoReports(s)
    ensures CutsAllowed(s, from, pieces)
    decreases |pieces|
  {
    if pieces != [] {
      NoReportsNoCuts(s, from + |pieces[0]|);
      NoReportsAllowed(s, from + |pieces[0]|, pieces[1..]);
    }
  }

  lemma {:induction false} BurstsUnchanged(bs: seq<seq<seq<byte>>>, buttons: nat)
    requires bs != [] && forall i :: 0 <= i < |bs| ==> NoReports(Concat(bs[i]))
    ensures var f := TranslateBursts(bs, buttons); f.out + f.held == ConcatBursts(bs) && f.buttons == buttons
    decreases |bs|
  {
    hide Feed, Concat, NoReports;
    FeedNoReports(Concat(bs[0]), buttons);
    var f := Feed(Concat(bs[0]), buttons);
    if |bs| > 1 {
      BurstsUnchanged(bs[1..], buttons);
      var g := TranslateBursts(bs[1..], buttons);
      assert f.out + f.held + g.out + g.held == f.out + f.held + (g.out + g.held);
    } else {
      assert bs[1..] == [] && Concat(bs[0]) + [] == Concat(bs[0]);
    }
  }

  /**
   A session without mouse reports: the bytes the guest got, those still ready and those held back
   are together the whole input, whatever was read when, however the input was cut, and whichever
   sequences timed out.
   */
  lemma SessionUnchanged(ops: seq<Op>)
    requires forall i :: 0 <= i < |Bursts(ops)| ==> NoReports(Concat(Bursts(ops)[i]))
    ensures var t := PerformAll(Session([], [], 0, []), ops);
      t.delivered + t.ready + t.held == ConcatBursts(Bursts(ops)) && t.buttons == 0
  {
    hide PerformAll, TranslateBursts, NoReports, Concat;
    forall i | 0 <= i < |Bursts(ops)| ensures CutsAllowed(Concat(Bursts(ops)[i]), 0, Bursts(ops)[i]) {
      NoReportsAllowed(Concat(Bursts(ops)[i]), 0, Bursts(ops)[i]);
    }
    SessionIsTranslation(ops);
    BurstsUnchanged(Bursts(ops), 0);
  }

  lemma AllCutsStep(bs: seq<seq<seq<byte>>>)
    requires |bs| > 1
    ensures AllCutsAllowed(bs) <==> CutsAllowed(Concat(bs[0]), 0, bs[0]) && AllCutsAllowed(bs[1..])
  {
  }

  /**
   Whatever the guest reads and when, and whenever a held-back sequence times out: the bytes the
   guest got followed by the bytes still ready are the one-pass translation of the bursts between
   the timeouts, with nothing lost, repeated or reordered, exactly when no piece of input ended
   inside a payload.
   */
  lemma SessionIsTranslation(ops: seq<Op>)
    ensures var t := PerformAll(Session([], [], 0, []), ops);
      Fed(t.delivered + t.ready, t.buttons, t.held) == TranslateBursts(Bursts(ops), 0) <==> AllCutsAllowed(Bursts(ops))
  {
    hide PerformAll, FeedBursts, TranslateBursts, AllCutsAllowed, Clash;
    SessionConserves(Session([], [], 0, []), ops);
    BurstsExact(0, Bursts(ops));
    var f := FeedBursts([], 0, Bursts(ops));
    assert [] + [] + f.out == f.out;
    if !AllCutsAllowed(Bursts(ops)) {
      ClashDiffers(f.out, TranslateBursts(Bursts(ops), 0).out);
    }
  }
}
