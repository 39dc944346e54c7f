/** What a line of the maintenance console is, what is sent for each byte typed, and what a remote terminal shows of it. */
module LineEditor {
  import opened Bytes
  import opened Arithmetic

  const PROMPT: string := "note4> "
  const MAXIMUM_LINE_SIZE: nat := 256
  const HISTORY_ENTRIES: nat := 8
  const MAXIMUM_ESCAPE_SIZE: nat := 16

  const ESC: char := '\U{1b}'
  const BELL: char := '\U{07}'

  // --- the remote terminal ----------------------------------------------------------

  datatype Parser = Ground | Escaped | Sequence(count: nat)

  /** The row the cursor is on; the rows above never change again and the rows below are blank. */
  datatype Terminal = Terminal(row: string, column: nat, parser: Parser)

  function Spaces(n: nat): (s: string)
    ensures |s| == n
  {
    seq(n, _ => ' ')
  }

  /** `c` overwrites the cell under the cursor, behind blanks where the row is too short. */
  function Overwrite(row: string, column: nat, c: char): string {
    if column < |row| then row[column := c] else row + Spaces(column - |row|) + [c]
  }

  predicate Printable(c: char) { ' ' <= c <= '~' }

  predicate IsDigit(c: char) { '0' <= c <= '9' }

  function Repeats(count: nat): nat { if count == 0 then 1 else count }

  function Show(t: Terminal, c: char): Terminal {
    match t.parser
    case Ground =>
      if c == ESC then t.(parser := Escaped)
      else if c == '\r' then t.(column := 0)
      else if c == '\n' then t.(row := "")
      else if Printable(c) then t.(row := Overwrite(t.row, t.column, c), column := t.column + 1)
      else t
    case Escaped => t.(parser := if c == '[' then Sequence(0) else Ground)
    case Sequence(n) =>
      if IsDigit(c) then t.(parser := Sequence(10 * n + (c as int - '0' as int)))
      else if c == 'C' then t.(column := t.column + Repeats(n), parser := Ground)
      else if c == 'D' then t.(column := if Repeats(n) < t.column then t.column - Repeats(n) else 0, parser := Ground)
      else if c == 'K' && n == 2 then t.(row := "", parser := Ground)
      else t.(parser := Ground)
  }

  function Shown(t: Terminal, text: string): Terminal
    decreases |text|
  {
    if text == "" then t else Shown(Show(t, text[0]), text[1..])
  }

  lemma {:induction false} ShownConcat(t: Terminal, a: string, b: string)
    ensures Shown(t, a + b) == Shown(Shown(t, a), b)
    decreases |a|
  {
    if a == "" {
      assert a + b == b;
    } else {
      assert (a + b)[0] == a[0] && (a + b)[1..] == a[1..] + b;
      ShownConcat(Show(t, a[0]), a[1..], b);
    }
  }

  lemma TwoShown(t: Terminal, c: char, d: char)
    ensures Shown(t, [c]) == Show(t, c) && Shown(t, [c, d]) == Show(Show(t, c), d)
  {
    assert [c][1..] == "" && [c, d][1..] == [d] && [d][1..] == "";
    assert Shown(Show(t, c), [d]) == Show(Show(t, c), d);
  }

  function Decimal(n: nat): (s: string)
    ensures s != ""
  {
    if n < 10 then [('0' as int + n) as char] else Decimal(n / 10) + [('0' as int + n % 10) as char]
  }

  /** A decimal count is read back by the terminal. */
  lemma {:induction false} DecimalIsRead(t: Terminal, n: nat)
    requires t.parser == Sequence(0)
    ensures Shown(t, Decimal(n)) == t.(parser := Sequence(n))
  {
    if n >= 10 {
      DecimalIsRead(t, n / 10);
      var last := [('0' as int + n % 10) as char];
      ShownConcat(t, Decimal(n / 10), last);
      var u := t.(parser := Sequence(n / 10));
      assert last[1..] == "";
      assert Shown(u, last) == Show(u, last[0]);
    } else {
      assert Decimal(n)[1..] == "";
      assert Shown(t, Decimal(n)) == Show(t, Decimal(n)[0]);
    }
  }

  function Movement(distance: nat, direction: char): string {
    [ESC, '['] + Decimal(distance) + [direction]
  }

  /** Counts within a line fit the sixteen bytes a movement is formatted into. */
  lemma MovementSize(distance: nat, direction: char)
    requires distance <= MAXIMUM_LINE_SIZE
    ensures |Movement(distance, direction)| < 16
  {
    assert distance >= 10 ==> Decimal(distance) == Decimal(distance / 10) + Decimal(distance % 10);
    assert distance >= 100 ==> |Decimal(distance / 10)| == 1 + |Decimal(distance / 100)|;
  }

  /** A movement takes the cursor exactly that far. */
  lemma MovementIsShown(t: Terminal, distance: nat, direction: char)
    requires t.parser == Ground && distance > 0
    requires direction == 'C' || (direction == 'D' && distance <= t.column)
    ensures Shown(t, Movement(distance, direction)) ==
            t.(column := if direction == 'C' then t.column + distance else t.column - distance)
  {
    hide Decimal;
    var u := t.(parser := Sequence(0));
    var head := [ESC, '['];
    TwoShown(t, ESC, '[');
    ShownConcat(t, head, Decimal(distance));
    DecimalIsRead(u, distance);
    ShownConcat(t, head + Decimal(distance), [direction]);
    var v := t.(parser := Sequence(distance));
    TwoShown(v, direction, direction);
  }

  ghost predicate AllPrintable(s: string) {
    forall i :: 0 <= i < |s| ==> Printable(s[i])
  }

  /** Printable text at the end of the row is appended to it. */
  lemma {:induction false} TextIsShown(t: Terminal, text: string)
    requires t.parser == Ground && t.column == |t.row| && AllPrintable(text)
    ensures Shown(t, text) == Terminal(t.row + text, t.column + |text|, Ground)
    decreases |text|
  {
    if text != "" {
      var u := Show(t, text[0]);
      assert u.row == t.row + [text[0]];
      TextIsShown(u, text[1..]);
      assert t.row + [text[0]] + text[1..] == t.row + text;
    } else {
      assert t.row + text == t.row;
    }
  }

  lemma NewLineIsShown(t: Terminal)
    requires t.parser == Ground
    ensures Shown(t, "\r\n") == Terminal("", 0, Ground)
  {
    TwoShown(t, '\r', '\n');
  }

  // --- the session as a value --------------------------------------------------------

  datatype ParseStatus =
    | ParsedOk
    | Empty
    | InvalidArgument
    | LineTooLong
    | TooManyArguments
    | TokenTooLong
    | UnterminatedQuote
    | InvalidEscape

  datatype ExecuteStatus =
    | ExecutedOk
    | UnknownCommand
    | InvalidArguments
    | Unavailable
    | Pending
    | Busy
    | TimedOut
    | Binary
    | Denied
    | UnknownOutcome

  datatype EscapeState = NoEscape | Escape | ControlSequence | Ss3

  /** What the executor and the line parser answer, should they be asked. */
  datatype Answers = Answers(
    parse: ParseStatus,
    execute: ExecuteStatus,
    output: string,
    binarySession: bool,
    cancelled: ExecuteStatus)

  datatype Session = Session(
    connected: bool,
    active: bool,
    binary: bool,
    line: string,
    cursor: nat,
    error: ParseStatus,
    escape: EscapeState,
    escapeSize: nat,
    parameter: nat,
    parameterValid: bool,
    previousWasCr: bool,
    history: seq<string>,
    offset: nat)

  /** A state and the text it was reached by sending. */
  datatype Sent = Sent(session: Session, text: string)

  function ParseError(status: ParseStatus): (text: string)
    ensures AllPrintable(text)
  {
    match status
    case LineTooLong => "line too long"
    case TooManyArguments => "too many arguments"
    case TokenTooLong => "token too long"
    case UnterminatedQuote => "unterminated quote"
    case InvalidEscape => "invalid escape"
    case _ => "invalid input"
  }

  function Joined(a: string, b: string): (text: string)
    requires AllPrintable(a) && AllPrintable(b)
    ensures AllPrintable(text)
  {
    a + b
  }

  function UnknownOutcomeText(): (text: string)
    ensures AllPrintable(text)
  {
    Joined("outcome unknown; inspect", " device before retrying")
  }

  function RefusalText(status: ExecuteStatus): (text: string)
    ensures AllPrintable(text)
  {
    match status
    case UnknownCommand => "unknown command"
    case InvalidArguments => "invalid arguments"
    case Unavailable => "temporarily unavailable"
    case _ => "command busy"
  }

  function FailureText(status: ExecuteStatus): (text: string)
    ensures AllPrintable(text)
  {
    match status
    case TimedOut => "owner request timed out"
    case Denied => Joined("confirmation denied", " or expired")
    case UnknownOutcome => UnknownOutcomeText()
    case _ => "command failed"
  }

  function ExecuteError(status: ExecuteStatus): (text: string)
    ensures AllPrintable(text)
  {
    if status == UnknownCommand || status == InvalidArguments || status == Unavailable || status == Busy then
      RefusalText(status)
    else FailureText(status)
  }

  function Cleared(s: Session): Session {
    s.(line := "", cursor := 0, error := ParsedOk, escape := NoEscape)
  }

  /** A session without a peer: only the history and the escape counters are left. */
  function Lost(s: Session): Session {
    Cleared(s).(connected := false, active := false, binary := false, previousWasCr := false, offset := 0)
  }

  const GREETING: string := "\r\nNote4 maintenance CLI\r\n"

  function Connected(s: Session): Sent {
    Sent(Cleared(s).(connected := true, previousWasCr := false, offset := 0), GREETING + PROMPT)
  }

  function Redraw(s: Session): string {
    "\r" + [ESC, '[', '2', 'K'] + PROMPT + s.line +
    if s.cursor < |s.line| then Movement(|s.line| - s.cursor, 'D') else ""
  }

  function Move(s: Session, position: nat): (r: Sent)
    ensures r.session == s.(cursor := position)
  {
    if position == s.cursor then Sent(s, "")
    else if position > s.cursor then Sent(s.(cursor := position), Movement(position - s.cursor, 'C'))
    else Sent(s.(cursor := position), Movement(s.cursor - position, 'D'))
  }

  function Reject(s: Session, error: ParseStatus): Sent {
    if s.error != ParsedOk then Sent(s.(escape := NoEscape), "")
    else Sent(s.(escape := NoEscape, error := error), [BELL])
  }

  /** The line that `offset` steps back in history shows. */
  function Recalled(s: Session, offset: nat): string {
    if 0 < offset <= |s.history| then s.history[|s.history| - offset] else ""
  }

  function Stepped(s: Session, older: bool): nat {
    if older then Min(s.offset + 1, |s.history|) else if s.offset > 0 then s.offset - 1 else 0
  }

  function Navigate(s: Session, older: bool): (r: Sent)
    ensures s.cursor <= |s.line| ==> r.session.cursor <= |r.session.line|
  {
    if s.history == [] then Sent(s, "")
    else
      var offset := Stepped(s, older);
      var line := Recalled(s, offset);
      var t := Cleared(s).(offset := offset, line := line, cursor := |line|);
      Sent(t, Redraw(t))
  }

  function Erase(s: Session, at: nat): Session
    requires at < |s.line|
  {
    s.(line := s.line[..at] + s.line[at + 1..])
  }

  /** Home, end and delete, told apart by the parameter. */
  function Keypad(s: Session): (r: Sent)
    requires s.cursor <= |s.line|
    ensures r.session.cursor <= |r.session.line|
  {
    hide Redraw, Movement, Move;
    if s.parameter == 1 || s.parameter == 7 then Move(s, 0)
    else if s.parameter == 4 || s.parameter == 8 then Move(s, |s.line|)
    else if s.parameter == 3 && s.cursor < |s.line| then Sent(Erase(s, s.cursor), Redraw(Erase(s, s.cursor)))
    else Sent(s, "")
  }

  /** The final byte of a complete escape sequence. */
  function Command(s: Session, value: byte): (r: Sent)
    requires s.cursor <= |s.line|
    ensures r.session.cursor <= |r.session.line|
  {
    hide Redraw, Movement, Move, Navigate, Keypad;
    var count := Repeats(s.parameter);
    if value == 'A' as byte then (if count == 1 then Navigate(s, true) else Sent(s, ""))
    else if value == 'B' as byte then (if count == 1 then Navigate(s, false) else Sent(s, ""))
    else if value == 'C' as byte then Move(s, s.cursor + Min(count, |s.line| - s.cursor))
    else if value == 'D' as byte then Move(s, s.cursor - Min(count, s.cursor))
    else if value == 'H' as byte then (if count == 1 then Move(s, 0) else Sent(s, ""))
    else if value == 'F' as byte then (if count == 1 then Move(s, |s.line|) else Sent(s, ""))
    else if value == '~' as byte then Keypad(s)
    else Sent(s, "")
  }

  /** A digit of the parameter, which is bounded by the length of a line; any other byte here spoils it. */
  function Parameter(s: Session, value: byte): Session {
    if s.escape == ControlSequence && s.parameterValid && '0' as byte <= value <= '9' as byte then
      s.(parameter := Min(MAXIMUM_LINE_SIZE, 10 * s.parameter + (value - '0' as byte) as nat))
    else s.(parameterValid := false)
  }

  function EscapeByte(s: Session, value: byte): (r: Sent)
    requires s.cursor <= |s.line|
    ensures r.session.cursor <= |r.session.line|
  {
    if s.escape == Escape then
      if value == '[' as byte then Sent(s.(escape := ControlSequence), "")
      else if value == 'O' as byte then Sent(s.(escape := Ss3), "")
      else Reject(s, InvalidEscape)
    else
      var t := s.(escapeSize := s.escapeSize + 1);
      if t.escapeSize > MAXIMUM_ESCAPE_SIZE || value < 0x20 || value > 0x7e then Reject(t, InvalidEscape)
      else if value <= 0x3f then Sent(Parameter(t, value), "")
      else
        var u := t.(escape := NoEscape);
        if u.parameterValid then Command(u, value) else Sent(u, "")
  }

  /** A line is remembered unless it is empty or repeats the latest one; the oldest of nine is forgotten. */
  function Remember(history: seq<string>, line: string): seq<string> {
    if line == "" || (history != [] && history[|history| - 1] == line) then history
    else if |history| < HISTORY_ENTRIES then history + [line]
    else history[1..] + [line]
  }

  function Broken(text: string): string { text + "\r\n" }

  predicate Failed(status: ExecuteStatus) { status != ExecutedOk && status != Pending && status != Binary }

  /** What a command says: its output, and why it failed. */
  function Report(output: string, status: ExecuteStatus): string {
    (if output != "" then Broken(output) else "") +
    (if Failed(status) then Broken("error: " + ExecuteError(status)) else "")
  }

  function Finish(s: Session, a: Answers, status: ExecuteStatus): Sent {
    var t := s.(binary := if status == Binary then a.binarySession else s.binary, active := status == Pending);
    Sent(t, Report(a.output, status) + if !t.active && !t.binary then PROMPT else "")
  }

  function Submit(s: Session, a: Answers): Sent {
    var parse := if s.error == ParsedOk then a.parse else s.error;
    if parse == ParsedOk then
      var r := Finish(Cleared(s).(history := Remember(s.history, s.line), offset := 0), a, a.execute);
      Sent(r.session, "\r\n" + r.text)
    else
      Sent(Cleared(s).(offset := 0),
           "\r\n" + (if parse != Empty then Broken("error: " + ParseError(parse)) else "") + PROMPT)
  }

  function Cancelled(s: Session, a: Answers): Sent {
    Sent(Cleared(s).(active := false, previousWasCr := false, offset := 0),
         Broken("^C") + (if a.cancelled == UnknownOutcome then Broken(ExecuteError(a.cancelled)) else "") + PROMPT)
  }

  function Insert(s: Session, c: char): Session
    requires s.cursor <= |s.line|
  {
    s.(line := s.line[..s.cursor] + [c] + s.line[s.cursor..], cursor := s.cursor + 1, offset := 0)
  }

  function TextByte(s: Session, value: byte): (r: Sent)
    requires s.cursor <= |s.line|
    ensures r.session.cursor <= |r.session.line|
  {
    hide Redraw;
    if value < 0x20 || value > 0x7e then Reject(s, InvalidArgument)
    else if |s.line| == MAXIMUM_LINE_SIZE then Reject(s, LineTooLong)
    else
      var t := Insert(s, value as char);
      Sent(t, if s.cursor == |s.line| then [value as char] else Redraw(t))
  }

  /** A byte that edits the line. */
  function EditByte(s: Session, typed: byte): (r: Sent)
    requires s.cursor <= |s.line|
    ensures r.session.cursor <= |r.session.line|
  {
    hide Redraw, Movement, Move, EscapeByte, TextByte;
    if s.error != ParsedOk then Sent(s, "")
    else if s.escape != NoEscape then EscapeByte(s, typed)
    else if typed == 0x1b then
      Sent(s.(escape := Escape, escapeSize := 0, parameter := 0, parameterValid := true), "")
    else if typed == 0x01 then Move(s, 0)
    else if typed == 0x05 then Move(s, |s.line|)
    else if typed == 0x08 || typed == 0x7f then
      if s.cursor == 0 then Sent(s, "")
      else
        var t := Erase(s, s.cursor - 1).(cursor := s.cursor - 1);
        Sent(t, Redraw(t))
    else TextByte(s, if typed == 0x09 then 0x20 else typed)
  }

  function TypedByte(s: Session, value: byte, a: Answers): Sent
    requires s.cursor <= |s.line|
  {
    if value == 0x03 then Cancelled(s, a)
    else if s.active then Sent(s, "")
    else if value == '\r' as byte || value == '\n' as byte then
      if value == '\n' as byte && s.previousWasCr then Sent(s.(previousWasCr := false), "")
      else
        var t := s.(previousWasCr := value == '\r' as byte);
        var r := if t.escape != NoEscape then Reject(t, InvalidEscape) else Sent(t, "");
        var u := Submit(r.session, a);
        Sent(u.session, r.text + u.text)
    else EditByte(s.(previousWasCr := false), value)
  }

  // --- the screen agrees with the line -------------------------------------------------

  ghost predicate ValidSession(s: Session) {
    s.cursor <= |s.line| <= MAXIMUM_LINE_SIZE && AllPrintable(s.line) && s.offset <= |s.history| <= HISTORY_ENTRIES &&
    (forall i :: 0 <= i < |s.history| ==>
      0 < |s.history[i]| <= MAXIMUM_LINE_SIZE && AllPrintable(s.history[i])) &&
    (s.active || s.binary || !s.connected ==> s.line == "") && !(s.active && s.binary) &&
    (s.active || s.binary ==> s.connected)
  }

  /** With nothing running, the row is the prompt and the line, and the cursor is where the session holds it. */
  ghost predicate ScreenAgrees(t: Terminal, s: Session) {
    s.connected ==>
      t.parser == Ground &&
      if s.binary then true
      else if s.active then t.row == "" && t.column == 0
      else t == Terminal(PROMPT + s.line, |PROMPT| + s.cursor, Ground)
  }

  /** The output of a command leaves no escape sequence unfinished. */
  ghost predicate Settles(output: string) {
    forall t: Terminal :: t.parser == Ground ==> Shown(t, output).parser == Ground
  }

  /** Redrawing shows the line whatever the row held. */
  lemma RedrawIsShown(t: Terminal, s: Session)
    requires t.parser == Ground && s.cursor <= |s.line| && AllPrintable(s.line)
    ensures Shown(t, Redraw(s)) == Terminal(PROMPT + s.line, |PROMPT| + s.cursor, Ground)
  {
    hide Shown, Movement;
    var back := "\r" + [ESC, '[', '2', 'K'];
    var moves := if s.cursor < |s.line| then Movement(|s.line| - s.cursor, 'D') else "";
    RowIsErased(t);
    var blank := Terminal("", 0, Ground);
    var text := PROMPT + s.line;
    assert Redraw(s) == back + text + moves;
    ShownConcat(t, back, text);
    ShownConcat(t, back + text, moves);
    assert AllPrintable(text);
    TextIsShown(blank, text);
    var full := Terminal(text, |text|, Ground);
    assert "" + text == text;
    if s.cursor < |s.line| {
      MovementIsShown(full, |s.line| - s.cursor, 'D');
    } else {
      NothingShown(full);
    }
  }

  lemma NothingShown(t: Terminal)
    ensures Shown(t, "") == t
  {
  }

  lemma RowIsErased(t: Terminal)
    requires t.parser == Ground
    ensures Shown(t, "\r" + [ESC, '[', '2', 'K']) == Terminal("", 0, Ground)
  {
    hide Shown;
    var home := t.(column := 0);
    TwoShown(t, '\r', '\r');
    TwoShown(home, ESC, '[');
    TwoShown(home.(parser := Sequence(0)), '2', 'K');
    ShownConcat(t, "\r", [ESC, '['] + ['2', 'K']);
    ShownConcat(home, [ESC, '['], ['2', 'K']);
    assert [ESC, '['] + ['2', 'K'] == [ESC, '[', '2', 'K'];
    assert "\r" == ['\r'];
  }

  lemma PromptIsShown(t: Terminal)
    requires t == Terminal("", 0, Ground)
    ensures Shown(t, PROMPT) == Terminal(PROMPT, |PROMPT|, Ground)
  {
    TextIsShown(t, PROMPT);
  }

  /** Text and a line break lead to a blank row. */
  lemma LineIsShown(t: Terminal, text: string)
    requires t.parser == Ground && Settles(text)
    ensures Shown(t, Broken(text)) == Terminal("", 0, Ground)
  {
    ShownConcat(t, text, "\r\n");
    NewLineIsShown(Shown(t, text));
  }

  lemma {:induction false} PlainTextSettles(text: string)
    requires AllPrintable(text)
    ensures Settles(text)
    decreases |text|
  {
    forall t: Terminal | t.parser == Ground
      ensures Shown(t, text).parser == Ground
    {
      PlainStaysGround(t, text);
    }
  }

  lemma {:induction false} PlainStaysGround(t: Terminal, text: string)
    requires AllPrintable(text) && t.parser == Ground
    ensures Shown(t, text).parser == Ground
    decreases |text|
  {
    if text != "" {
      PlainStaysGround(Show(t, text[0]), text[1..]);
    }
  }

  lemma MoveKeepsScreen(t: Terminal, s: Session, position: nat)
    requires ScreenAgrees(t, s) && s.connected && !s.active && !s.binary && position <= |s.line|
    ensures ScreenAgrees(Shown(t, Move(s, position).text), Move(s, position).session)
  {
    hide Shown, Movement;
    if position == s.cursor {
      NothingShown(t);
    } else if position > s.cursor {
      MovementIsShown(t, position - s.cursor, 'C');
    } else {
      MovementIsShown(t, s.cursor - position, 'D');
    }
  }

  lemma RejectKeepsScreen(t: Terminal, s: Session, error: ParseStatus)
    requires ScreenAgrees(t, s)
    requires s.connected && !s.active && !s.binary
    ensures ScreenAgrees(Shown(t, Reject(s, error).text), Reject(s, error).session)
  {
    TwoShown(t, BELL, BELL);
  }

  /** The session is at the prompt, editing. */
  ghost predicate Editing(s: Session) {
    ValidSession(s) && s.connected && !s.active && !s.binary
  }

  lemma ErasedIsValid(s: Session, at: nat)
    requires Editing(s) && at < |s.line|
    ensures Editing(Erase(s, at).(cursor := at))
  {
  }

  lemma InsertedIsValid(s: Session, c: char)
    requires Editing(s) && |s.line| < MAXIMUM_LINE_SIZE && Printable(c)
    ensures Editing(Insert(s, c))
  {
    var t := Insert(s, c);
    assert forall i :: 0 <= i < |t.line| ==>
      t.line[i] == if i < s.cursor then s.line[i] else if i == s.cursor then c else s.line[i - 1];
  }

  lemma NavigateKeepsScreen(t: Terminal, s: Session, older: bool)
    requires Editing(s) && ScreenAgrees(t, s)
    ensures var r := Navigate(s, older);
            Editing(r.session) && ScreenAgrees(Shown(t, r.text), r.session)
  {
    hide Shown, Redraw;
    if s.history != [] {
      var r := Navigate(s, older);
      assert r.session.offset <= |s.history|;
      RedrawIsShown(t, r.session);
    } else {
      NothingShown(t);
    }
  }

  lemma CommandKeepsScreen(t: Terminal, s: Session, value: byte)
    requires Editing(s) && ScreenAgrees(t, s)
    ensures var r := Command(s, value);
            Editing(r.session) && ScreenAgrees(Shown(t, r.text), r.session)
  {
    hide Shown, Redraw, Movement, Navigate, Move, Erase, ScreenAgrees;
    NothingShown(t);
    if value == 'A' as byte || value == 'B' as byte {
      NavigateKeepsScreen(t, s, value == 'A' as byte);
    } else if value == '~' as byte && s.parameter == 3 && s.cursor < |s.line| {
      DeleteKeepsScreen(t, s);
    } else {
      var count := Repeats(s.parameter);
      MoveKeepsEditing(t, s, s.cursor + Min(count, |s.line| - s.cursor));
      MoveKeepsEditing(t, s, s.cursor - Min(count, s.cursor));
      MoveKeepsEditing(t, s, 0);
      MoveKeepsEditing(t, s, |s.line|);
    }
  }

  lemma DeleteKeepsScreen(t: Terminal, s: Session)
    requires Editing(s) && ScreenAgrees(t, s) && s.cursor < |s.line|
    ensures var u := Erase(s, s.cursor);
            Editing(u) && ScreenAgrees(Shown(t, Redraw(u)), u)
  {
    ErasedIsValid(s, s.cursor);
    RedrawIsShown(t, Erase(s, s.cursor));
  }

  lemma MoveKeepsEditing(t: Terminal, s: Session, position: nat)
    requires Editing(s) && ScreenAgrees(t, s) && position <= |s.line|
    ensures var r := Move(s, position);
            Editing(r.session) && ScreenAgrees(Shown(t, r.text), r.session)
  {
    MoveKeepsScreen(t, s, position);
  }

  lemma EscapeKeepsScreen(t: Terminal, s: Session, value: byte)
    requires Editing(s) && ScreenAgrees(t, s)
    ensures var r := EscapeByte(s, value);
            Editing(r.session) && ScreenAgrees(Shown(t, r.text), r.session)
  {
    hide Shown, Command;
    NothingShown(t);
    RejectKeepsScreen(t, s, InvalidEscape);
    RejectKeepsScreen(t, s.(escapeSize := s.escapeSize + 1), InvalidEscape);
    CommandKeepsScreen(t, s.(escapeSize := s.escapeSize + 1, escape := NoEscape), value);
  }

  lemma EditKeepsScreen(t: Terminal, s: Session, value: byte)
    requires Editing(s) && ScreenAgrees(t, s)
    ensures var r := EditByte(s, value);
            Editing(r.session) && ScreenAgrees(Shown(t, r.text), r.session)
  {
    hide Shown, Redraw, Movement, EscapeByte, Insert, Erase, Move;
    NothingShown(t);
    EscapeKeepsScreen(t, s, value);
    RejectKeepsScreen(t, s, InvalidArgument);
    RejectKeepsScreen(t, s, LineTooLong);
    if value == 0x01 || value == 0x05 {
      MoveKeepsEditing(t, s, 0);
      MoveKeepsEditing(t, s, |s.line|);
    } else if value == 0x08 || value == 0x7f {
      if s.cursor > 0 {
        ErasedIsValid(s, s.cursor - 1);
        RedrawIsShown(t, Erase(s, s.cursor - 1).(cursor := s.cursor - 1));
      }
    } else {
      var c := (if value == 0x09 then 0x20 else value) as char;
      if Printable(c) && |s.line| < MAXIMUM_LINE_SIZE {
        InsertKeepsScreen(t, s, c);
      }
    }
  }

  lemma InsertKeepsScreen(t: Terminal, s: Session, c: char)
    requires Editing(s) && ScreenAgrees(t, s) && Printable(c) && |s.line| < MAXIMUM_LINE_SIZE
    ensures var u := Insert(s, c);
            Editing(u) && ScreenAgrees(Shown(t, if s.cursor == |s.line| then [c] else Redraw(u)), u)
  {
    hide Insert, Shown, Redraw;
    InsertedIsValid(s, c);
    if s.cursor == |s.line| {
      AppendIsShown(t, s, c);
    } else {
      RedrawIsShown(t, Insert(s, c));
    }
  }

  lemma AppendIsShown(t: Terminal, s: Session, c: char)
    requires Editing(s) && ScreenAgrees(t, s) && s.cursor == |s.line| && Printable(c)
    ensures ScreenAgrees(Shown(t, [c]), Insert(s, c))
  {
    TwoShown(t, c, c);
    assert s.line[..s.cursor] + [c] + s.line[s.cursor..] == s.line + [c];
    assert PROMPT + s.line + Spaces(0) + [c] == PROMPT + (s.line + [c]);
  }

  const BLANK: Terminal := Terminal("", 0, Ground)

  lemma PlainLineIsShown(t: Terminal, text: string)
    requires t.parser == Ground && AllPrintable(text)
    ensures Shown(t, Broken(text)) == BLANK
  {
    PlainTextSettles(text);
    LineIsShown(t, text);
  }

  /** Whole lines on a blank row, then the prompt: only the prompt is left on the row. */
  lemma PromptAfter(lines: string)
    requires Shown(BLANK, lines) == BLANK
    ensures Shown(BLANK, lines + PROMPT) == Terminal(PROMPT, |PROMPT|, Ground)
  {
    ShownConcat(BLANK, lines, PROMPT);
    PromptIsShown(BLANK);
  }

  lemma ReportIsShown(output: string, status: ExecuteStatus)
    requires Settles(output)
    ensures Shown(BLANK, Report(output, status)) == BLANK
  {
    hide Shown, Settles, Broken, ExecuteError;
    var first := if output != "" then Broken(output) else "";
    var error := if Failed(status) then Broken("error: " + ExecuteError(status)) else "";
    ShownConcat(BLANK, first, error);
    NothingShown(BLANK);
    LineIsShown(BLANK, output);
    PlainLineIsShown(BLANK, "error: " + ExecuteError(status));
  }

  /** What a command leaves on the screen: nothing of its own on the row, and a fresh prompt when nothing runs on. */
  lemma FinishKeepsScreen(s: Session, a: Answers, status: ExecuteStatus)
    requires ValidSession(s) && s.connected && s.line == "" && !s.binary && Settles(a.output)
    ensures var r := Finish(s, a, status);
            ValidSession(r.session) && ScreenAgrees(Shown(BLANK, r.text), r.session)
  {
    hide Shown, Settles, Report;
    var r := Finish(s, a, status);
    ReportIsShown(a.output, status);
    if !r.session.active && !r.session.binary {
      PromptAfter(Report(a.output, status));
      assert PROMPT + "" == PROMPT;
    } else {
      assert Report(a.output, status) + "" == Report(a.output, status);
    }
  }

  lemma RememberedIsValid(history: seq<string>, line: string)
    requires |history| <= HISTORY_ENTRIES && |line| <= MAXIMUM_LINE_SIZE && AllPrintable(line)
    requires forall i :: 0 <= i < |history| ==> 0 < |history[i]| <= MAXIMUM_LINE_SIZE && AllPrintable(history[i])
    ensures var h := Remember(history, line);
            |h| <= HISTORY_ENTRIES &&
            forall i :: 0 <= i < |h| ==> 0 < |h[i]| <= MAXIMUM_LINE_SIZE && AllPrintable(h[i])
  {
  }

  lemma SubmitKeepsScreen(t: Terminal, s: Session, a: Answers)
    requires Editing(s) && t.parser == Ground && Settles(a.output)
    ensures var r := Submit(s, a);
            ValidSession(r.session) && ScreenAgrees(Shown(t, r.text), r.session)
  {
    hide Shown, Settles, Finish, Remember, Broken, ParseError;
    NewLineIsShown(t);
    var parse := if s.error == ParsedOk then a.parse else s.error;
    if parse == ParsedOk {
      RememberedIsValid(s.history, s.line);
      var u := Cleared(s).(history := Remember(s.history, s.line), offset := 0);
      FinishKeepsScreen(u, a, a.execute);
      ShownConcat(t, "\r\n", Finish(u, a, a.execute).text);
    } else {
      var error := if parse != Empty then Broken("error: " + ParseError(parse)) else "";
      NothingShown(BLANK);
      PlainLineIsShown(BLANK, "error: " + ParseError(parse));
      PromptAfter(error);
      ShownConcat(t, "\r\n", error + PROMPT);
      assert "\r\n" + error + PROMPT == "\r\n" + (error + PROMPT);
      assert PROMPT + "" == PROMPT;
    }
  }

  lemma CancelKeepsScreen(t: Terminal, s: Session, a: Answers)
    requires ValidSession(s) && s.connected && !s.binary && t.parser == Ground
    ensures var r := Cancelled(s, a);
            ValidSession(r.session) && ScreenAgrees(Shown(t, r.text), r.session)
  {
    hide Shown, Settles, Broken, ExecuteError;
    var error := if a.cancelled == UnknownOutcome then Broken(ExecuteError(a.cancelled)) else "";
    NothingShown(BLANK);
    PlainLineIsShown(t, "^C");
    PlainLineIsShown(BLANK, ExecuteError(a.cancelled));
    PromptAfter(error);
    ShownConcat(t, Broken("^C"), error + PROMPT);
    assert Broken("^C") + error + PROMPT == Broken("^C") + (error + PROMPT);
    assert PROMPT + "" == PROMPT;
  }

  /** After every byte, the screen agrees with the line. */
  lemma TypedKeepsScreen(t: Terminal, s: Session, value: byte, a: Answers)
    requires ValidSession(s) && s.connected && !s.binary && ScreenAgrees(t, s) && Settles(a.output)
    ensures var r := TypedByte(s, value, a);
            ValidSession(r.session) && ScreenAgrees(Shown(t, r.text), r.session)
  {
    hide Shown, Settles, Cancelled, Submit, EditByte;
    NothingShown(t);
    if value == 0x03 {
      CancelKeepsScreen(t, s, a);
    } else if !s.active {
      if value == '\r' as byte || value == '\n' as byte {
        var u := s.(previousWasCr := value == '\r' as byte);
        var r := if u.escape != NoEscape then Reject(u, InvalidEscape) else Sent(u, "");
        RejectKeepsScreen(t, u, InvalidEscape);
        SubmitKeepsScreen(Shown(t, r.text), r.session, a);
        ShownConcat(t, r.text, Submit(r.session, a).text);
      } else {
        EditKeepsScreen(t, s.(previousWasCr := false), value);
      }
    }
  }

  // --- every run ------------------------------------------------------------------------

  datatype Event =
    | Typed(value: byte, answers: Answers)
    | Reported(status: ExecuteStatus, answers: Answers)
    | BinaryClosed
    | Dropped
    | Attached(screen: Terminal)

  datatype Console = Console(session: Session, screen: Terminal)

  function BinaryEnded(s: Session): Sent {
    Sent(Cleared(s).(binary := false, previousWasCr := false), "\r\n" + PROMPT)
  }

  /** A byte typed, a report of the running command, the end of a binary session, a lost peer or a new one. */
  function Happens(c: Console, e: Event): Console {
    var s := c.session;
    match e
    case Typed(value, a) =>
      if s.connected && !s.binary && s.cursor <= |s.line| then Sends(c, TypedByte(s, value, a)) else c
    case Reported(status, a) => if s.connected && s.active then Sends(c, Finish(s, a, status)) else c
    case BinaryClosed => if s.connected && s.binary then Sends(c, BinaryEnded(s)) else c
    case Dropped => Console(Lost(s), c.screen)
    case Attached(screen) => if s.connected then c else Sends(Console(s, screen), Connected(s))
  }

  function Sends(c: Console, r: Sent): Console {
    Console(r.session, Shown(c.screen, r.text))
  }

  /** Command output leaves no escape sequence open, and a terminal that attaches is between sequences. */
  ghost predicate Fair(e: Event) {
    match e
    case Typed(_, a) => Settles(a.output)
    case Reported(_, a) => Settles(a.output)
    case Attached(screen) => screen.parser == Ground
    case _ => true
  }

  const NEW_SESSION: Session :=
    Session(false, false, false, "", 0, ParsedOk, NoEscape, 0, 0, true, false, [], 0)

  function After(events: seq<Event>, screen: Terminal): Console {
    if events == [] then Console(NEW_SESSION, screen)
    else Happens(After(events[..|events| - 1], screen), events[|events| - 1])
  }

  lemma ConnectedKeepsScreen(t: Terminal, s: Session)
    requires ValidSession(s) && !s.connected && t.parser == Ground
    ensures var r := Connected(s);
            ValidSession(r.session) && ScreenAgrees(Shown(t, r.text), r.session)
  {
    hide Shown, Settles, Broken;
    PlainLineIsShown(t, "");
    PlainLineIsShown(BLANK, "Note4 maintenance CLI");
    BrokenParts();
    ShownConcat(t, Broken(""), Broken("Note4 maintenance CLI"));
    ShownConcat(t, GREETING, PROMPT);
    PromptIsShown(BLANK);
    assert PROMPT + "" == PROMPT;
  }

  lemma BrokenParts()
    ensures GREETING == Broken("") + Broken("Note4 maintenance CLI") && Broken("") == "\r\n"
  {
  }

  lemma HappensKeepsScreen(c: Console, e: Event)
    requires ValidSession(c.session) && ScreenAgrees(c.screen, c.session) && Fair(e)
    ensures var d := Happens(c, e);
            ValidSession(d.session) && ScreenAgrees(d.screen, d.session)
  {
    hide Shown, Settles, TypedByte, Finish, Connected;
    var s := c.session;
    match e {
      case Typed(value, a) =>
        if s.connected && !s.binary {
          TypedKeepsScreen(c.screen, s, value, a);
        }
      case Reported(status, a) =>
        if s.connected && s.active {
          FinishKeepsScreen(s, a, status);
        }
      case BinaryClosed =>
        if s.connected && s.binary {
          NewLineIsShown(c.screen);
          ShownConcat(c.screen, "\r\n", PROMPT);
          PromptIsShown(BLANK);
          assert PROMPT + "" == PROMPT;
        }
      case Dropped =>
      case Attached(screen) =>
        if !s.connected {
          ConnectedKeepsScreen(screen, s);
        }
    }
  }

  lemma NewSessionIsValid()
    ensures ValidSession(NEW_SESSION) && !NEW_SESSION.connected
  {
  }

  /** In every run, whenever the console is at its prompt, the screen shows the prompt and exactly the line. */
  lemma {:induction false} ScreenAlwaysAgrees(events: seq<Event>, screen: Terminal)
    requires forall i :: 0 <= i < |events| ==> Fair(events[i])
    ensures var c := After(events, screen);
            ValidSession(c.session) &&
            (c.session.connected && !c.session.active && !c.session.binary ==>
              c.screen == Terminal(PROMPT + c.session.line, |PROMPT| + c.session.cursor, Ground))
    ensures ScreenAgrees(After(events, screen).screen, After(events, screen).session)
  {
    NewSessionIsValid();
    hide Fair, Happens, AllPrintable, NEW_SESSION;
    if events != [] {
      ScreenAlwaysAgrees(events[..|events| - 1], screen);
      HappensKeepsScreen(After(events[..|events| - 1], screen), events[|events| - 1]);
    }
  }

  // --- what the keys mean ----------------------------------------------------------------

  /** At the prompt, with no rejected input and no escape sequence begun. */
  ghost predicate Ready(s: Session) {
    Editing(s) && s.error == ParsedOk && s.escape == NoEscape
  }

  function Typing(s: Session, text: string): Session
    requires s.cursor <= |s.line|
    decreases |text|
  {
    if text == "" || text[0] > '~' then s else Typing(EditByte(s, text[0] as byte).session, text[1..])
  }

  lemma TypedIsInserted(s: Session, c: char)
    requires Ready(s) && Printable(c) && |s.line| < MAXIMUM_LINE_SIZE
    ensures EditByte(s, c as byte).session == Insert(s, c)
  {
    hide Redraw, EscapeByte, Move, Erase;
  }

  /** Printable text is inserted at the cursor. */
  lemma {:induction false} TextIsInserted(s: Session, text: string)
    requires Ready(s) && AllPrintable(text) && text != "" && |s.line| + |text| <= MAXIMUM_LINE_SIZE
    ensures Typing(s, text) ==
            s.(line := s.line[..s.cursor] + text + s.line[s.cursor..], cursor := s.cursor + |text|, offset := 0)
    decreases |text|
  {
    hide EditByte;
    var u := Insert(s, text[0]);
    TypedIsInserted(s, text[0]);
    InsertedIsValid(s, text[0]);
    assert u.line[..u.cursor] == s.line[..s.cursor] + [text[0]] && u.line[u.cursor..] == s.line[s.cursor..];
    if |text| > 1 {
      TextIsInserted(u, text[1..]);
      assert s.line[..s.cursor] + [text[0]] + text[1..] == s.line[..s.cursor] + text;
    } else {
      assert text == [text[0]] && text[1..] == "";
      assert Typing(u, text[1..]) == u;
    }
  }

  /** Bytes typed at the prompt, of a command line as well as within it. */
  function Entered(s: Session, text: string, a: Answers): Session
    requires s.cursor <= |s.line|
    decreases |text|
  {
    if text == "" || text[0] > '~' || text[0] < ' ' then s
    else
      hide TextByte, EscapeByte, Move;
      Entered(TypedByte(s, text[0] as byte, a).session, text[1..], a)
  }

  /** Where a session begins: with a new peer, behind a cancelled line or command, or behind a binary session. */
  ghost predicate Begins(s: Session, x: Session, a: Answers) {
    || s == Connected(Lost(x)).session
    || (x.connected && !x.binary && s == Cancelled(x, a).session)
    || (x.connected && !x.active && s == BinaryEnded(x).session)
  }

  lemma {:induction false} EnteringIsTyping(s: Session, text: string, a: Answers)
    requires Ready(s) && !s.previousWasCr && AllPrintable(text) && |s.line| + |text| <= MAXIMUM_LINE_SIZE
    ensures Entered(s, text, a) == Typing(s, text)
    decreases |text|
  {
    assert text != "" ==> Printable(text[0]) && AllPrintable(text[1..]);
    hide EditByte, AllPrintable;
    if text != "" {
      TypedIsInserted(s, text[0]);
      assert s.(previousWasCr := false) == s;
      InsertedIsValid(s, text[0]);
      EnteringIsTyping(Insert(s, text[0]), text[1..], a);
    }
  }

  lemma MessageSizes()
    ensures |ExecuteError(UnknownCommand)| == 15 && |ExecuteError(InvalidArguments)| == 17
    ensures |ExecuteError(Busy)| == 12 && |ExecuteError(Denied)| == 30 && |ExecuteError(UnknownOutcome)| == 47
    ensures |ExecuteError(Unavailable)| == |ExecuteError(TimedOut)| == 23
    ensures ExecuteError(Unavailable)[0] == 't' && ExecuteError(TimedOut)[0] == 'o'
  {
    hide AllPrintable;
  }

  /** What a command says is followed by a reason exactly when it failed, and every failure has its own. */
  lemma OnlyFailuresAreExplained(output: string, status: ExecuteStatus, other: ExecuteStatus)
    ensures var said := if output == "" then "" else output + "\r\n";
      Report(output, status) ==
      if status in {ExecutedOk, Pending, Binary} then said else said + "error: " + ExecuteError(status) + "\r\n"
    ensures status !in {ExecutedOk, Pending, Binary} && other !in {ExecutedOk, Pending, Binary} && status != other ==>
              ExecuteError(status) != ExecuteError(other)
  {
    hide ExecuteError;
    var why := ExecuteError(status);
    assert (if output == "" then "" else Broken(output)) + Broken("error: " + why) ==
           (if output == "" then "" else output + "\r\n") + "error: " + why + "\r\n";
    MessageSizes();
  }

  /** An empty line at the prompt, with nothing running. */
  ghost predicate AtPrompt(s: Session) {
    Ready(s) && s.line == "" && s.cursor == 0 && !s.previousWasCr && s.connected && !s.active && !s.binary
  }

  lemma BeginningIsAtPrompt(x: Session, s: Session, b: Answers)
    requires ValidSession(x) && Begins(s, x, b)
    ensures AtPrompt(s) && s.history == x.history
  {
  }

  /** `r` executed the line `text` typed at the prompt of `s`. */
  ghost predicate Executes(s: Session, text: string, a: Answers, r: Sent) {
    var goesOn := a.execute == Pending || (a.execute == Binary && a.binarySession);
    && r.session.history == Remember(s.history, text)
    && r.session.line == "" && r.session.cursor == 0 && r.session.connected
    && r.session.active == (a.execute == Pending)
    && r.session.binary == (a.execute == Binary && a.binarySession)
    && r.text == "\r\n" + Report(a.output, a.execute) + if goesOn then "" else PROMPT
  }

  /** The return key, the newline that may follow it, and a newline alone. */
  lemma ReturnExecutes(s: Session, t: Session, a: Answers)
    requires AtPrompt(s) && t == s.(line := t.line, cursor := |t.line|, offset := 0) && a.parse == ParsedOk
    ensures var r := TypedByte(t, '\r' as byte, a);
      && Executes(s, t.line, a, r)
      && (!r.session.active ==> TypedByte(r.session, '\n' as byte, a) == Sent(r.session.(previousWasCr := false), ""))
      && TypedByte(t, '\n' as byte, a) == Sent(r.session.(previousWasCr := false), r.text)
  {
    hide Report, Remember, EditByte, AllPrintable;
  }

  /** However a prompt was reached, a line typed there and ended by a return, or by a return and a newline, is executed
      once and remembered. */
  lemma TypedLineIsExecuted(x: Session, s: Session, text: string, b: Answers, a: Answers)
    requires ValidSession(x) && Begins(s, x, b)
    requires AllPrintable(text) && 0 < |text| <= MAXIMUM_LINE_SIZE && a.parse == ParsedOk
    ensures s.history == x.history && AtPrompt(s)
    ensures var line := Entered(s, text, a);
      && line.line == text && line.cursor == |text|
      && var r := TypedByte(line, '\r' as byte, a);
         && Executes(s, text, a, r)
         && (!r.session.active ==> TypedByte(r.session, '\n' as byte, a) == Sent(r.session.(previousWasCr := false), ""))
         && TypedByte(line, '\n' as byte, a) == Sent(r.session.(previousWasCr := false), r.text)
  {
    BeginningIsAtPrompt(x, s, b);
    hide Begins, Executes, TypedByte, Typing, Entered, AllPrintable;
    EnteringIsTyping(s, text, a);
    TextIsInserted(s, text);
    assert s.line[..0] + text + s.line[0..] == text;
    ReturnExecutes(s, Typing(s, text), a);
  }

  /** A backspace takes back the character typed before it. */
  lemma BackspaceUndoesTyping(s: Session, c: char)
    requires Ready(s) && Printable(c) && |s.line| < MAXIMUM_LINE_SIZE
    ensures EditByte(EditByte(s, c as byte).session, 0x7f).session == s.(offset := 0)
  {
    hide Redraw, EscapeByte, Move;
    TypedIsInserted(s, c);
    var u := Insert(s, c);
    InsertedIsValid(s, c);
    assert u.line[..s.cursor] + u.line[s.cursor + 1..] == s.line;
  }

  /** The sequence of an arrow key. */
  function Key(s: Session, final: byte): (t: Session)
    requires s.cursor <= |s.line|
    ensures t.cursor <= |t.line|
  {
    var a := EditByte(s, 0x1b).session;
    var b := EditByte(a, '[' as byte).session;
    EditByte(b, final).session
  }

  function Ups(s: Session, n: nat): Session
    requires s.cursor <= |s.line|
    ensures Ups(s, n).cursor <= |Ups(s, n).line|
  {
    if n == 0 then s else Key(Ups(s, n - 1), 'A' as byte)
  }

  /** Pressing the up key `n` times recalls the n-th latest line, and the oldest one from there on. */
  lemma {:induction false} UpRecallsHistory(s: Session, n: nat)
    requires Ready(s) && s.offset == 0 && n > 0 && s.history != []
    ensures var t := Ups(s, n);
            Ready(t) && t.history == s.history && t.offset == Min(n, |s.history|) &&
            t.line == s.history[|s.history| - Min(n, |s.history|)] && t.cursor == |t.line|
  {
    hide Key, AllPrintable;
    if n > 1 {
      UpRecallsHistory(s, n - 1);
    }
    UpOnce(Ups(s, n - 1));
  }

  lemma UpOnce(s: Session)
    requires Ready(s) && s.history != []
    ensures var t := Key(s, 'A' as byte);
            Ready(t) && t.history == s.history && t.offset == Min(s.offset + 1, |s.history|) &&
            t.line == s.history[|s.history| - t.offset] && t.cursor == |t.line|
  {
    hide Redraw;
  }

  // --- whole key sequences ---------------------------------------------------------------

  /** Bytes typed one after the other. */
  function Pressed(s: Session, bytes: seq<byte>): (t: Session)
    requires s.cursor <= |s.line|
    ensures t.cursor <= |t.line|
    decreases |bytes|
  {
    if bytes == [] then s else EditByte(Pressed(s, bytes[..|bytes| - 1]), bytes[|bytes| - 1]).session
  }

  lemma PressedOne(s: Session, bytes: seq<byte>, value: byte)
    requires s.cursor <= |s.line|
    ensures Pressed(s, bytes + [value]) == EditByte(Pressed(s, bytes), value).session
  {
    hide EditByte;
    assert (bytes + [value])[..|bytes|] == bytes;
  }

  predicate IsDigitByte(b: byte) { '0' as byte <= b <= '9' as byte }

  /** The number some digits stand for. */
  function Value(digits: seq<byte>): nat
    requires forall i :: 0 <= i < |digits| ==> IsDigitByte(digits[i])
  {
    if digits == [] then 0
    else
      var last := digits[|digits| - 1];
      assert IsDigitByte(last);
      10 * Value(digits[..|digits| - 1]) + (last - '0' as byte) as nat
  }

  /** The control sequence of a key: its introducer, parameter bytes and final byte. */
  function Csi(parameters: seq<byte>, final: byte): seq<byte> {
    [0x1b, '[' as byte] + parameters + [final]
  }

  /** A sequence of the other kind, without parameters. */
  function Ss3Key(final: byte): seq<byte> { [0x1b, 'O' as byte, final] }

  /** Parameter bytes that fit a sequence with its final byte. */
  predicate Parameters(ps: seq<byte>) {
    |ps| < MAXIMUM_ESCAPE_SIZE && forall i :: 0 <= i < |ps| ==> 0x20 <= ps[i] <= 0x3f
  }

  predicate Digits(ds: seq<byte>) {
    |ds| < MAXIMUM_ESCAPE_SIZE && forall i :: 0 <= i < |ds| ==> IsDigitByte(ds[i])
  }

  /** The parameter read so far: nothing once a byte other than a digit came. */
  function Read(s: Session, ps: seq<byte>): Session {
    var t := s.(escape := ControlSequence, escapeSize := |ps|, parameter := 0, parameterValid := true);
    if ps == [] then t else Parameter(Read(s, ps[..|ps| - 1]).(escapeSize := |ps|), ps[|ps| - 1])
  }

  lemma {:induction false} ParametersAreRead(s: Session, ps: seq<byte>)
    requires Ready(s) && Parameters(ps)
    ensures Pressed(s, [0x1b, '[' as byte] + ps) == Read(s, ps)
  {
    hide Redraw, Movement, Move, Command, TextByte, Erase, Parameter, AllPrintable;
    if ps == [] {
      assert [0x1b, '[' as byte] + ps == [] + [0x1b] + ['[' as byte];
      PressedOne(s, [], 0x1b);
      PressedOne(s, [] + [0x1b], '[' as byte);
    } else {
      var front, last := ps[..|ps| - 1], ps[|ps| - 1];
      ParametersAreRead(s, front);
      assert [0x1b, '[' as byte] + ps == [0x1b, '[' as byte] + front + [last];
      PressedOne(s, [0x1b, '[' as byte] + front, last);
      ReadStays(s, front);
    }
  }

  lemma {:induction false} ReadStays(s: Session, ps: seq<byte>)
    ensures var t := Read(s, ps);
            t == s.(escape := ControlSequence, escapeSize := |ps|, parameter := t.parameter, parameterValid := t.parameterValid)
  {
    if ps != [] {
      ReadStays(s, ps[..|ps| - 1]);
    }
  }

  lemma {:induction false} DigitsAreRead(s: Session, ds: seq<byte>)
    requires Digits(ds)
    ensures Read(s, ds).parameterValid && Read(s, ds).parameter == Min(MAXIMUM_LINE_SIZE, Value(ds))
  {
    if ds != [] {
      DigitsAreRead(s, ds[..|ds| - 1]);
      ReadStays(s, ds[..|ds| - 1]);
    }
  }

  lemma {:induction false} SpoiledIsRead(s: Session, ps: seq<byte>, i: nat)
    requires i < |ps| && !IsDigitByte(ps[i])
    ensures !Read(s, ps).parameterValid
  {
    if i < |ps| - 1 {
      SpoiledIsRead(s, ps[..|ps| - 1], i);
    }
  }

  /** A complete sequence does what its final byte commands with the parameter read. */
  lemma CsiCommands(s: Session, ps: seq<byte>, final: byte)
    requires Ready(s) && Parameters(ps) && 0x40 <= final <= 0x7e
    ensures var t := Read(s, ps).(escape := NoEscape, escapeSize := |ps| + 1);
            t.cursor <= |t.line| && Pressed(s, Csi(ps, final)) == if t.parameterValid then Command(t, final).session else t
  {
    hide Redraw, Movement, Move, Command, TextByte, Erase, Parameter, Read, AllPrintable;
    ParametersAreRead(s, ps);
    PressedOne(s, [0x1b, '[' as byte] + ps, final);
    ReadStays(s, ps);
  }

  /** Nothing but the cursor differs, and editing goes on. */
  ghost predicate OnlyMoved(s: Session, t: Session, cursor: nat) {
    Ready(t) && t.line == s.line && t.history == s.history && t.offset == s.offset && t.cursor == cursor
  }

  lemma CsiMoves(s: Session, ds: seq<byte>, final: byte) returns (t: Session)
    requires Ready(s) && Digits(ds) && 0x40 <= final <= 0x7e
    ensures t == s.(escapeSize := |ds| + 1, parameter := Min(MAXIMUM_LINE_SIZE, Value(ds)), parameterValid := true)
    ensures Ready(t) && Pressed(s, Csi(ds, final)) == Command(t, final).session
  {
    hide Command, AllPrintable;
    CsiCommands(s, ds, final);
    DigitsAreRead(s, ds);
    ReadStays(s, ds);
    t := Read(s, ds).(escape := NoEscape, escapeSize := |ds| + 1);
  }

  lemma CommandMoves(t: Session)
    requires t.cursor <= |t.line|
    ensures var n := Repeats(t.parameter);
      && Command(t, 'D' as byte).session == t.(cursor := t.cursor - Min(n, t.cursor))
      && Command(t, 'C' as byte).session == t.(cursor := t.cursor + Min(n, |t.line| - t.cursor))
      && Command(t, 'H' as byte).session == (if n == 1 then t.(cursor := 0) else t)
      && Command(t, 'F' as byte).session == (if n == 1 then t.(cursor := |t.line|) else t)
      && Command(t, '~' as byte) == Keypad(t)
      && (t.parameter == 1 || t.parameter == 7 ==> Keypad(t).session == t.(cursor := 0))
      && (t.parameter == 4 || t.parameter == 8 ==> Keypad(t).session == t.(cursor := |t.line|))
  {
    hide Redraw, Move, Navigate, Erase, Repeats, Min;
  }

  lemma MovedIsReady(t: Session, s: Session, cursor: nat)
    requires Ready(t) && cursor <= |t.line| && t.line == s.line && t.history == s.history && t.offset == s.offset
    ensures OnlyMoved(s, t.(cursor := cursor), cursor)
  {
    hide AllPrintable;
  }

  /** A key of the other kind does what the control sequence without a parameter does. */
  lemma ShortKeysAgree(s: Session, final: byte)
    requires Ready(s) && 0x40 <= final <= 0x7e
    ensures Pressed(s, Ss3Key(final)) == Pressed(s, Csi([], final))
  {
    assert Pressed(s, []) == s;
    hide Redraw, Movement, Move, Command, TextByte, Erase, Parameter, AllPrintable, Pressed;
    CsiCommands(s, [], final);
    assert Ss3Key(final) == [] + [0x1b] + ['O' as byte] + [final];
    PressedOne(s, [], 0x1b);
    PressedOne(s, [] + [0x1b], 'O' as byte);
    PressedOne(s, [] + [0x1b] + ['O' as byte], final);
  }

  /** The arrow keys move the cursor as often as their parameter says, or once, and stop at the ends of the line. */
  lemma ArrowsMove(s: Session, ds: seq<byte>)
    requires Ready(s) && Digits(ds)
    ensures var n := if Value(ds) == 0 then 1 else Value(ds);
      && OnlyMoved(s, Pressed(s, Csi(ds, 'D' as byte)), if n < s.cursor then s.cursor - n else 0)
      && OnlyMoved(s, Pressed(s, Csi(ds, 'C' as byte)), if s.cursor + n < |s.line| then s.cursor + n else |s.line|)
  {
    hide Pressed, Csi, Value, Command, Keypad, OnlyMoved, Ready;
    var n := if Value(ds) == 0 then 1 else Value(ds);
    var t := CsiMoves(s, ds, 'D' as byte);
    var u := CsiMoves(s, ds, 'C' as byte);
    ReadyIsShort(s);
    CommandMoves(t);
    MovedIsReady(t, s, if n < s.cursor then s.cursor - n else 0);
    MovedIsReady(t, s, if s.cursor + n < |s.line| then s.cursor + n else |s.line|);
  }

  lemma ReadyIsShort(s: Session)
    requires Ready(s)
    ensures s.cursor <= |s.line| <= MAXIMUM_LINE_SIZE
  {
  }

  /** Home and end keys, in all their forms. */
  lemma EndsMove(s: Session, ds: seq<byte>)
    requires Ready(s) && Digits(ds)
    ensures OnlyMoved(s, EditByte(s, 0x01).session, 0) && OnlyMoved(s, EditByte(s, 0x05).session, |s.line|)
    ensures var n := Value(ds);
      && OnlyMoved(s, Pressed(s, Csi(ds, 'H' as byte)), if n <= 1 then 0 else s.cursor)
      && OnlyMoved(s, Pressed(s, Csi(ds, 'F' as byte)), if n <= 1 then |s.line| else s.cursor)
      && (n == 1 || n == 7 ==> OnlyMoved(s, Pressed(s, Csi(ds, '~' as byte)), 0))
      && (n == 4 || n == 8 ==> OnlyMoved(s, Pressed(s, Csi(ds, '~' as byte)), |s.line|))
  {
    hide Pressed, Csi, Value, Redraw, Movement, Command, Keypad, OnlyMoved, EscapeByte, TextByte;
    var t := CsiMoves(s, ds, 'H' as byte);
    var f := CsiMoves(s, ds, 'F' as byte);
    var k := CsiMoves(s, ds, '~' as byte);
    CommandMoves(t);
    hide Ready;
    MovedIsReady(t, s, 0);
    MovedIsReady(t, s, s.cursor);
    MovedIsReady(t, s, |s.line|);
    MovedIsReady(s, s, 0);
    MovedIsReady(s, s, |s.line|);
  }

  /** The delete key removes the character under the cursor. */
  lemma DeleteRemoves(s: Session, ds: seq<byte>)
    requires Ready(s) && Digits(ds) && Value(ds) == 3
    ensures var t := Pressed(s, Csi(ds, '~' as byte));
      && Ready(t) && t.cursor == s.cursor && t.history == s.history && t.offset == s.offset
      && t.line == if s.cursor < |s.line| then s.line[..s.cursor] + s.line[s.cursor + 1..] else s.line
  {
    hide Pressed, Csi, Value, Redraw, Movement, Move;
    var t := CsiMoves(s, ds, '~' as byte);
    if t.cursor < |t.line| {
      ErasedIsValid(t, t.cursor);
    }
  }

  /** No other complete sequence does anything. */
  lemma OtherKeysDoNothing(s: Session, ps: seq<byte>, final: byte)
    requires Ready(s) && Parameters(ps) && 0x40 <= final <= 0x7e
    requires
      || (exists i :: 0 <= i < |ps| && !IsDigitByte(ps[i]))
      || final !in ['A' as byte, 'B' as byte, 'C' as byte, 'D' as byte, 'F' as byte, 'H' as byte, '~' as byte]
      || (Digits(ps) && final in ['A' as byte, 'B' as byte, 'F' as byte, 'H' as byte] && Value(ps) > 1)
      || (Digits(ps) && final == '~' as byte && Value(ps) !in [1, 3, 4, 7, 8])
    ensures OnlyMoved(s, Pressed(s, Csi(ps, final)), s.cursor)
  {
    hide Pressed, Csi, Redraw, Movement, Move, Navigate, AllPrintable;
    CsiCommands(s, ps, final);
    ReadStays(s, ps);
    if i :| 0 <= i < |ps| && !IsDigitByte(ps[i]) {
      SpoiledIsRead(s, ps, i);
    } else {
      assert Digits(ps);
      DigitsAreRead(s, ps);
      hide Read, Value;
    }
  }

  /** A sequence that goes on for too long is rejected, and with it the line. */
  lemma LongSequenceIsRejected(s: Session, ps: seq<byte>, next: byte)
    requires Ready(s) && |ps| == MAXIMUM_ESCAPE_SIZE && forall i :: 0 <= i < |ps| ==> 0x20 <= ps[i] <= 0x3f
    ensures Pressed(s, Csi(ps, next)).error == InvalidEscape
  {
    hide Redraw, Movement, Move, Command, TextByte, Erase, Parameter, Read, AllPrintable;
    var front, last := ps[..|ps| - 1], ps[|ps| - 1];
    ParametersAreRead(s, front);
    ReadStays(s, front);
    assert [0x1b, '[' as byte] + ps == [0x1b, '[' as byte] + front + [last];
    PressedOne(s, [0x1b, '[' as byte] + front, last);
    PressedOne(s, [0x1b, '[' as byte] + ps, next);
    ParameterStays(Read(s, front).(escapeSize := |ps|), last);
  }

  lemma ParameterStays(s: Session, value: byte)
    ensures var t := Parameter(s, value);
            t == s.(parameter := t.parameter, parameterValid := t.parameterValid)
  {
  }

  /** What follows a rejected byte is ignored, until the line is submitted: then it runs nothing and is forgotten. */
  lemma RejectedIsIgnored(s: Session, value: byte, a: Answers)
    requires s.error != ParsedOk && s.cursor <= |s.line|
    ensures EditByte(s, value) == Sent(s, "")
    ensures Submit(s, a).session == Cleared(s).(offset := 0) && Submit(s, a).session.history == s.history
  {
  }

  /** Bytes that no line can hold are rejected, and so is text behind a full line; a tab is a space. */
  lemma RejectedExactly(s: Session, value: byte)
    requires Ready(s) && value !in [0x01, 0x05, 0x08, 0x1b, 0x7f]
    ensures var t := EditByte(s, value).session;
      && (t.error != ParsedOk <==> (value != 0x09 && !(0x20 <= value <= 0x7e)) || |s.line| == MAXIMUM_LINE_SIZE)
      && (t.error != ParsedOk ==> t.line == s.line && EditByte(s, value).text == [BELL])
      && (value == 0x09 ==> EditByte(s, value) == EditByte(s, 0x20))
  {
    hide Redraw, Movement, Move, EscapeByte;
  }

  /** The down key goes back to the line shown before the up key. */
  lemma DownUndoesUp(s: Session)
    requires Ready(s) && s.offset < |s.history|
    ensures var t := Key(Key(s, 'A' as byte), 'B' as byte);
            Ready(t) && t.history == s.history && t.offset == s.offset && t.line == Recalled(s, s.offset) &&
            t.cursor == |t.line|
  {
    UpOnce(s);
    DownOnce(Key(s, 'A' as byte));
    hide Key;
  }

  lemma DownOnce(s: Session)
    requires Ready(s) && s.history != []
    ensures var t, offset := Key(s, 'B' as byte), if s.offset > 0 then s.offset - 1 else 0;
            Ready(t) && t.history == s.history && t.offset == offset && t.line == Recalled(s, offset) && t.cursor == |t.line|
  {
    hide Redraw;
  }

  /** The lines worth remembering: no empty one, and none twice in a row. */
  function Distinctive(lines: seq<string>): seq<string> {
    if lines == [] then []
    else
      var front, line := Distinctive(lines[..|lines| - 1]), lines[|lines| - 1];
      if line == "" || (front != [] && front[|front| - 1] == line) then front else front + [line]
  }

  function Latest(lines: seq<string>, n: nat): seq<string> {
    if |lines| <= n then lines else lines[|lines| - n..]
  }

  function Remembered(lines: seq<string>): seq<string> {
    if lines == [] then [] else Remember(Remembered(lines[..|lines| - 1]), lines[|lines| - 1])
  }

  /** The history is the eight latest distinctive lines that were submitted. */
  lemma {:induction false} HistoryIsLatestLines(lines: seq<string>)
    ensures Remembered(lines) == Latest(Distinctive(lines), HISTORY_ENTRIES)
  {
    hide Remember, Latest;
    if lines != [] {
      HistoryIsLatestLines(lines[..|lines| - 1]);
      LatestRemembers(Distinctive(lines[..|lines| - 1]), lines[|lines| - 1]);
    } else {
      NothingLatest();
    }
  }

  lemma NothingLatest()
    ensures Latest([], HISTORY_ENTRIES) == []
  {
  }

  lemma LatestRemembers(front: seq<string>, line: string)
    ensures Remember(Latest(front, HISTORY_ENTRIES), line) ==
            Latest(if line == "" || (front != [] && front[|front| - 1] == line) then front else front + [line],
                   HISTORY_ENTRIES)
  {
    var h := Latest(front, HISTORY_ENTRIES);
    assert front != [] ==> h != [] && h[|h| - 1] == front[|front| - 1];
  }

  /** The line an event submits, if it does: a line break at the prompt, nothing rejected before it, that parses. */
  function SubmittedLine(s: Session, e: Event): seq<string> {
    if e.Typed? && s.connected && !s.binary && s.cursor <= |s.line| && !s.active &&
       (e.value == '\r' as byte || (e.value == '\n' as byte && !s.previousWasCr)) &&
       s.error == ParsedOk && s.escape == NoEscape && e.answers.parse == ParsedOk then [s.line]
    else []
  }

  /** The lines submitted in a run, in their order, over all connections. */
  function SubmittedLines(events: seq<Event>, screen: Terminal): seq<string> {
    if events == [] then []
    else
      var front := events[..|events| - 1];
      SubmittedLines(front, screen) + SubmittedLine(After(front, screen).session, events[|events| - 1])
  }

  lemma NavigateKeepsHistory(s: Session, older: bool)
    ensures Navigate(s, older).session.history == s.history
  {
    hide Redraw, Recalled;
  }

  lemma CommandKeepsHistory(s: Session, value: byte)
    requires s.cursor <= |s.line|
    ensures Command(s, value).session.history == s.history
  {
    NavigateKeepsHistory(s, true);
    NavigateKeepsHistory(s, false);
    hide Redraw, Move, Navigate, Repeats, Min;
  }

  lemma EscapeKeepsHistory(s: Session, value: byte)
    requires s.cursor <= |s.line|
    ensures EscapeByte(s, value).session.history == s.history
  {
    CommandKeepsHistory(s.(escapeSize := s.escapeSize + 1, escape := NoEscape), value);
    hide Command;
  }

  lemma EditingKeepsHistory(s: Session, typed: byte)
    requires s.cursor <= |s.line|
    ensures EditByte(s, typed).session.history == s.history
  {
    EscapeKeepsHistory(s, typed);
    TextKeepsHistory(s, if typed == 0x09 then 0x20 else typed);
    if s.cursor > 0 {
      EraseKeepsHistory(s, s.cursor - 1);
    }
    hide EscapeByte, Redraw, Move, TextByte, Erase;
  }

  lemma TextKeepsHistory(s: Session, value: byte)
    requires s.cursor <= |s.line|
    ensures TextByte(s, value).session.history == s.history
  {
    hide Redraw;
  }

  lemma EraseKeepsHistory(s: Session, at: nat)
    requires at < |s.line|
    ensures Erase(s, at).history == s.history
  {
  }

  lemma TypedHistory(s: Session, value: byte, a: Answers)
    requires s.connected && !s.binary && s.cursor <= |s.line|
    ensures var lines := SubmittedLine(s, Typed(value, a));
            TypedByte(s, value, a).session.history ==
            if lines == [] then s.history else Remember(s.history, lines[0])
  {
    hide EditByte, Report, Remember, Broken, ParseError, ExecuteError;
    EditingKeepsHistory(s.(previousWasCr := false), value);
  }

  /** In every run, the history is the eight latest distinctive lines submitted, whatever was typed in between. */
  lemma {:induction false} HistoryOfRun(events: seq<Event>, screen: Terminal)
    ensures After(events, screen).session.history ==
            Latest(Distinctive(SubmittedLines(events, screen)), HISTORY_ENTRIES)
  {
    HistoryFolds(events, screen);
    HistoryIsLatestLines(SubmittedLines(events, screen));
  }

  lemma {:induction false} HistoryFolds(events: seq<Event>, screen: Terminal)
    ensures After(events, screen).session.history == Remembered(SubmittedLines(events, screen))
  {
    hide Shown, Connected, TypedByte, Finish, Remember;
    if events != [] {
      var front, e := events[..|events| - 1], events[|events| - 1];
      HistoryFolds(front, screen);
      var c := After(front, screen);
      var lines := SubmittedLine(c.session, e);
      if !e.Typed? {
        OthersKeepHistory(c, e);
      } else if c.session.connected && !c.session.binary && c.session.cursor <= |c.session.line| {
        TypedHistory(c.session, e.value, e.answers);
      }
      var before := SubmittedLines(front, screen);
      if lines != [] {
        assert (before + lines)[..|before|] == before;
      } else {
        assert before + lines == before;
      }
    }
  }

  lemma OthersKeepHistory(c: Console, e: Event)
    requires !e.Typed?
    ensures Happens(c, e).session.history == c.session.history
  {
    hide Shown, Report;
  }
}
