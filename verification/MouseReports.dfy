/**
 What the translator means for mouse events (src/fd_filter.cpp): events as xterm reports them come
 out as the QNX reports of the same events, and the button word is the set of buttons that are down.
 */
module MouseReports {
  import opened Words
  import opened TerminalFilters

  datatype Button = Select | Adjust | Menu

  /** Rows and columns count from 0, up to the 222 that a report can carry. */
  datatype Event =
    | Press(button: Button, row: nat, column: nat)
    | Release(row: nat, column: nat)
    | Motion(low: nat, row: nat, column: nat)
  {
    predicate Valid() { row < 223 && column < 223 && (Motion? ==> low < 4) }

    /** The low bits and the motion bit of the first payload byte. */
    function Code(): nat {
      match this
      case Press(Select, _, _) => 0
      case Press(Adjust, _, _) => 1
      case Press(Menu, _, _) => 2
      case Release(_, _) => 3
      case Motion(low, _, _) => 32 + low
    }
  }

  /** An event with the modifier keys that were down: shift 4, meta 8, control 16. */
  datatype Input = Input(event: Event, shift: bool, meta: bool, control: bool)
  {
    function Modifiers(): nat { (if shift then 4 else 0) + (if meta then 8 else 0) + (if control then 16 else 0) }
  }

  /** The report xterm sends: ESC [ M, then code, column and row, each moved up by 32 and the positions by one more. */
  function Xterm(i: Input): (s: seq<byte>)
    requires i.event.Valid()
    ensures |s| == REPORT_SIZE
  {
    [ESC, BRACKET, LETTER_M, 32 + i.event.Code() + i.Modifiers(), 33 + i.event.column, 33 + i.event.row]
  }

  function Weight(b: Button): nat { match b case Select => 4 case Adjust => 2 case Menu => 1 }

  /** A set of buttons as QNX numbers it. */
  function Number(down: set<Button>): nat {
    (if Select in down then 4 else 0) + (if Adjust in down then 2 else 0) + (if Menu in down then 1 else 0)
  }

  /** The buttons down after an event: one release lifts them all. */
  function After(down: set<Button>, e: Event): set<Button> {
    match e
    case Press(b, _, _) => down + {b}
    case Release(_, _) => {}
    case Motion(_, _, _) => down
  }

  /** The QNX report: kind, row, column, buttons, and for a press the number of clicks. */
  function Meaning(down: set<Button>, e: Event): seq<int> {
    match e
    case Press(b, row, column) => [31, row, column, Weight(b), 1]
    case Release(row, column) => [32, row, column, Number(down)]
    case Motion(_, row, column) => [33, row, column, Number(down)]
  }

  lemma OrBitAdds(down: set<Button>, b: Button)
    ensures OrBit(Number(down) * 0x100, Weight(b) * 0x100) == Number(down + {b}) * 0x100
  {
  }

  /** One report is translated to the QNX report of its event, whatever the modifiers. */
  lemma EventTranslated(i: Input, down: set<Button>)
    requires i.event.Valid()
    ensures Mouse(Xterm(i)[3..REPORT_SIZE], Number(down) * 0x100)
         == Translated(QnxReport(Meaning(down, i.event)), Number(After(down, i.event)) * 0x100)
  {
    hide QnxReport, OrBit, Input.Modifiers;
    var payload := Xterm(i)[3..REPORT_SIZE];
    assert payload == [32 + i.event.Code() + i.Modifiers(), 33 + i.event.column, 33 + i.event.row];
    CodeBits(i);
    if i.event.Press? {
      OrBitAdds(down, i.event.button);
    }
  }

  /** The modifiers leave the bits of the event alone. */
  lemma CodeBits(i: Input)
    requires i.event.Valid()
    ensures var (c, b) := (i.event.Code(), i.event.Code() + i.Modifiers()); b % 4 == c % 4 && b / 32 == c / 32
  {
  }

  function XtermAll(inputs: seq<Input>): seq<byte>
    requires forall k :: 0 <= k < |inputs| ==> inputs[k].event.Valid()
    decreases |inputs|
  {
    if inputs == [] then [] else Xterm(inputs[0]) + XtermAll(inputs[1..])
  }

  function Reports(inputs: seq<Input>, down: set<Button>): seq<byte>
    decreases |inputs|
  {
    if inputs == [] then []
    else QnxReport(Meaning(down, inputs[0].event)) + Reports(inputs[1..], After(down, inputs[0].event))
  }

  function Down(inputs: seq<Input>, down: set<Button>): set<Button>
    decreases |inputs|
  {
    if inputs == [] then down else Down(inputs[1..], After(down, inputs[0].event))
  }

  /**
   Every sequence of mouse events comes out as the QNX reports of the same events in the same
   order, with nothing held back, and the button word stands for exactly the buttons that are down.
   */
  lemma {:induction false} EventsTranslated(inputs: seq<Input>, down: set<Button>)
    requires forall k :: 0 <= k < |inputs| ==> inputs[k].event.Valid()
    ensures Feed(XtermAll(inputs), Number(down) * 0x100)
         == Fed(Reports(inputs, down), Number(Down(inputs, down)) * 0x100, [])
    decreases |inputs|
  {
    hide Mouse, QnxReport, Number, Xterm, After, Meaning;
    if inputs != [] {
      var head, rest := Xterm(inputs[0]), XtermAll(inputs[1..]);
      EventTranslated(inputs[0], down);
      EventsTranslated(inputs[1..], After(down, inputs[0].event));
      XtermIsReport(inputs[0], rest);
    }
  }

  lemma XtermIsReport(i: Input, rest: seq<byte>)
    requires i.event.Valid()
    ensures IsReport(Xterm(i) + rest) && !IsIncomplete(Xterm(i) + rest)
    ensures (Xterm(i) + rest)[3..REPORT_SIZE] == Xterm(i)[3..REPORT_SIZE] && (Xterm(i) + rest)[REPORT_SIZE..] == rest
  {
  }

  // ----- reports can be read back

  /** The fields of a report, between ESC [ and the final t, separated by semicolons. */
  function ReadFields(s: seq<byte>): seq<int>
    decreases |s|
  {
    var n := UpToSemicolon(s);
    [ReadDecimal(s[..n])] + (if n < |s| then ReadFields(s[n + 1..]) else [])
  }

  function UpToSemicolon(s: seq<byte>): (n: nat)
    ensures n <= |s| && (n < |s| ==> s[n] == 59) && forall k :: 0 <= k < n ==> s[k] != 59
  {
    if s == [] || s[0] == 59 then 0 else 1 + UpToSemicolon(s[1..])
  }

  predicate Numeral(s: seq<byte>) { forall k :: 0 <= k < |s| ==> s[k] == 45 || 48 <= s[k] <= 57 }

  lemma {:induction false} DigitsNumeral(n: nat)
    ensures Numeral(Digits(n)) && (n > 0 ==> Digits(n)[0] != 48)
  {
    if n >= 10 {
      DigitsNumeral(n / 10);
    }
  }

  /** Numbers have no leading zeros. */
  lemma DecimalNumeral(n: int)
    ensures Numeral(Decimal(n)) && (n > 0 ==> Decimal(n)[0] != 48) && (n == 0 ==> Decimal(n) == [48])
  {
    DigitsNumeral(if n < 0 then -n else n);
  }

  lemma {:induction false} FieldsReadBack(fields: seq<int>)
    requires fields != []
    ensures ReadFields(Fields(fields)) == fields
    decreases |fields|
  {
    hide Decimal, ReadDecimal, ReadFields, Numeral;
    var d := Decimal(fields[0]);
    DecimalNumeral(fields[0]);
    DecimalReadsBack(fields[0]);
    if |fields| == 1 {
      ReadLast(d);
    } else {
      FieldsReadBack(fields[1..]);
      ReadFirst(d, Fields(fields[1..]));
      assert fields == [fields[0]] + fields[1..];
    }
  }

  lemma ReadLast(d: seq<byte>)
    requires Numeral(d)
    ensures ReadFields(d) == [ReadDecimal(d)]
  {
    hide ReadDecimal;
    assert UpToSemicolon(d) == |d| && d[..|d|] == d;
  }

  lemma ReadFirst(d: seq<byte>, rest: seq<byte>)
    requires Numeral(d)
    ensures ReadFields(d + [59] + rest) == [ReadDecimal(d)] + ReadFields(rest)
  {
    hide ReadDecimal;
    var s := d + [59] + rest;
    FirstSemicolon(s, |d|);
    assert s[..|d|] == d && s[|d| + 1..] == rest;
  }

  lemma FirstSemicolon(s: seq<byte>, n: nat)
    requires n < |s| && s[n] == 59 && Numeral(s[..n])
    ensures UpToSemicolon(s) == n
  {
    assert forall k :: 0 <= k < n ==> s[k] == s[..n][k];
  }

  /** A report starts with ESC [, ends with t, and has exactly its fields in between. */
  lemma ReportReadsBack(fields: seq<int>)
    requires fields != []
    ensures var s := QnxReport(fields);
      && |s| > 3 && s[..2] == [27, 91] && s[|s| - 1] == 116
      && ReadFields(s[2..|s| - 1]) == fields
  {
    hide Decimal;
    FieldsReadBack(fields);
    var s := QnxReport(fields);
    assert s[2..|s| - 1] == Fields(fields);
  }

  // ----- the numbers can be read back

  function ReadDigits(s: seq<byte>): int {
    if s == [] then 0 else 10 * ReadDigits(s[..|s| - 1]) + (s[|s| - 1] as int) - 48
  }

  function ReadDecimal(s: seq<byte>): int {
    if s != [] && s[0] == 45 then -ReadDigits(s[1..]) else ReadDigits(s)
  }

  lemma {:induction false} DigitsReadBack(n: nat)
    ensures ReadDigits(Digits(n)) == n && Digits(n)[0] != 45
  {
    if n >= 10 {
      DigitsReadBack(n / 10);
      assert Digits(n)[..|Digits(n)| - 1] == Digits(n / 10);
    } else {
      assert Digits(n)[..0] == [];
    }
  }

  /** Numbers are written so that they read back, negative ones included. */
  lemma DecimalReadsBack(n: int)
    ensures ReadDecimal(Decimal(n)) == n
  {
    DigitsReadBack(if n < 0 then -n else n);
    if n < 0 {
      assert Decimal(n)[1..] == Digits(-n);
    }
  }
}
