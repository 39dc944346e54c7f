/** The console session as it runs: a line buffer, a cursor and a history ring, changed in place. */
module CliSession {
  import opened Bytes
  import opened Arithmetic
  import opened LineEditor

  /** The remembered lines in a ring whose next free place is `next`, oldest first. */
  function Ring(slots: seq<string>, next: nat, size: nat): (lines: seq<string>)
    requires |slots| == HISTORY_ENTRIES && next < HISTORY_ENTRIES && size <= HISTORY_ENTRIES
    ensures |lines| == size
  {
    seq(size, k requires 0 <= k < size => slots[(next + HISTORY_ENTRIES - size + k) % HISTORY_ENTRIES])
  }

  /** Writing at the next place remembers the line, and forgets the oldest of a full ring. */
  lemma RingRemembers(slots: seq<string>, next: nat, size: nat, line: string)
    requires |slots| == HISTORY_ENTRIES && next < HISTORY_ENTRIES && size <= HISTORY_ENTRIES
    ensures var lines := Ring(slots, next, size);
            Ring(slots[next := line], (next + 1) % HISTORY_ENTRIES, if size < HISTORY_ENTRIES then size + 1 else size) ==
            (if size < HISTORY_ENTRIES then lines else lines[1..]) + [line]
  {
    var after := slots[next := line];
    var m := (next + 1) % HISTORY_ENTRIES;
    var n := if size < HISTORY_ENTRIES then size + 1 else size;
    var lines := Ring(slots, next, size);
    var expected := (if size < HISTORY_ENTRIES then lines else lines[1..]) + [line];
    forall k | 0 <= k < n
      ensures Ring(after, m, n)[k] == expected[k]
    {
      RingPlace(next, n, k);
    }
  }

  lemma RingPlace(next: nat, n: nat, k: nat)
    requires next < HISTORY_ENTRIES && 0 < n <= HISTORY_ENTRIES && k < n
    ensures ((next + 1) % HISTORY_ENTRIES + HISTORY_ENTRIES - n + k) % HISTORY_ENTRIES ==
            (next + HISTORY_ENTRIES - (n - 1) + k) % HISTORY_ENTRIES
    ensures (next + HISTORY_ENTRIES - (n - 1) + k) % HISTORY_ENTRIES == next <==> k == n - 1
  {
  }

  /** Nothing of the connection is left. */
  predicate IsLost(s: Session) {
    !s.connected && !s.active && !s.binary && s.line == "" && s.cursor == 0 && s.error == ParsedOk &&
    s.escape == NoEscape && !s.previousWasCr && s.offset == 0
  }

  lemma LostIsValid(before: Session, after: Session, lost: Session)
    requires ValidSession(before) && ValidSession(after) && IsLost(lost)
    requires lost.history == before.history || lost.history == after.history
    ensures ValidSession(lost)
  {
  }

  lemma LostIsKept(before: Session, after: Session, lost: Session, screen: Terminal)
    requires ValidSession(before) && ValidSession(after) && IsLost(lost)
    requires lost.history == before.history || lost.history == after.history
    ensures ValidSession(lost) && ScreenAgrees(screen, lost)
  {
    LostIsValid(before, after, lost);
  }

  lemma AttachedIsEditing(attached: Terminal, s: Session)
    requires ValidSession(s) && !s.connected && attached.parser == Ground
    ensures var r := Connected(s);
            ValidSession(r.session) && ScreenAgrees(Shown(attached, r.text), r.session) && !r.session.binary
  {
    ConnectedKeepsScreen(attached, s);
  }

  lemma FinishKeepsHistory(s: Session, a: Answers, status: ExecuteStatus)
    ensures Finish(s, a, status).session.history == s.history
  {
  }

  /** The pieces a cancellation is sent in show what it says as a whole. */
  lemma CancelledIsShown(t: Terminal, s: Session, a: Answers)
    ensures var begun := Shown(t, "^C\r\n");
            var told := if a.cancelled == UnknownOutcome then Shown(Shown(begun, ExecuteError(a.cancelled)), "\r\n") else begun;
            Shown(t, Cancelled(s, a).text) == Shown(told, PROMPT)
  {
    hide Shown, ExecuteError;
    var said, text := Broken("^C"), ExecuteError(a.cancelled);
    assert said == "^C\r\n";
    if a.cancelled == UnknownOutcome {
      ShownConcat(t, said, text);
      ShownConcat(t, said + text, "\r\n");
      assert said + Broken(text) == said + text + "\r\n";
      ShownConcat(t, said + Broken(text), PROMPT);
    } else {
      assert said + "" == said;
      ShownConcat(t, said, PROMPT);
    }
  }

  class CliSession {
    const line: array<char>
    var lineSize: nat
    var cursor: nat
    const history: array<string>
    var historySize: nat
    var historyNext: nat
    var historyOffset: nat
    var escapeState: EscapeState
    var escapeSize: nat
    var escapeParameter: nat
    var escapeParameterValid: bool
    var lineError: ParseStatus
    var connected: bool
    var previousWasCr: bool
    var commandActive: bool
    var binaryActive: bool
    /** What the peer's terminal shows of everything written to it. */
    ghost var screen: Terminal

    ghost predicate Shape()
      reads this, line, history
    {
      line.Length == MAXIMUM_LINE_SIZE + 1 && history.Length == HISTORY_ENTRIES &&
      cursor <= lineSize <= MAXIMUM_LINE_SIZE && line[lineSize] == '\0' &&
      historyNext < HISTORY_ENTRIES && historyOffset <= historySize <= HISTORY_ENTRIES &&
      forall i :: 0 <= i < HISTORY_ENTRIES ==> |history[i]| <= MAXIMUM_LINE_SIZE
    }

    ghost function View(): Session
      requires Shape()
      reads this, line, history
    {
      Session(connected, commandActive, binaryActive, line[..lineSize], cursor, lineError, escapeState, escapeSize,
              escapeParameter, escapeParameterValid, previousWasCr, Ring(history[..], historyNext, historySize),
              historyOffset)
    }

    /** The session went the way of `r`, or lost its peer while writing. */
    ghost predicate Follows(before: Session, shown: Terminal, r: Sent)
      reads this, line, history
    {
      Shape() &&
      if connected then View() == r.session && screen == Shown(shown, r.text)
      else IsLost(View()) && (View().history == before.history || View().history == r.session.history)
    }

    constructor (shown: Terminal)
      ensures Shape() && View() == NEW_SESSION && screen == shown
      ensures fresh(line) && fresh(history)
    {
      line := new char[MAXIMUM_LINE_SIZE + 1](_ => '\0');
      history := new string[HISTORY_ENTRIES](_ => "");
      lineSize, cursor, historySize, historyNext, historyOffset := 0, 0, 0, 0, 0;
      escapeState, escapeSize, escapeParameter, escapeParameterValid := NoEscape, 0, 0, true;
      lineError, connected, previousWasCr, commandActive, binaryActive := ParsedOk, false, false, false, false;
      screen := shown;
    }

    method ClearLine()
      requires line.Length == MAXIMUM_LINE_SIZE + 1
      modifies line, this`lineSize, this`cursor, this`lineError, this`escapeState
      ensures lineSize == cursor == 0 && line[0] == '\0' && lineError == ParsedOk && escapeState == NoEscape
    {
      forall i | 0 <= i < line.Length {
        line[i] := '\0';
      }
      lineSize, cursor := 0, 0;
      lineError, escapeState := ParsedOk, NoEscape;
    }

    method Detach()
      modifies this`binaryActive, this`commandActive, this`connected, this`previousWasCr, this`historyOffset
      ensures !binaryActive && !commandActive && !connected && !previousWasCr && historyOffset == 0
    {
      binaryActive, commandActive, connected := false, false, false;
      previousWasCr, historyOffset := false, 0;
    }

    method Reset()
      requires Shape()
      modifies this, line
      ensures Shape() && View() == Lost(old(View()))
    {
      Detach();
      ClearLine();
    }

    /** Writing to the peer may fail, and a failure ends the session. */
    method Write(data: string) returns (ok: bool)
      requires Shape()
      modifies this, line
      ensures Shape()
      ensures old(connected) && data != "" && !ok ==> View() == Lost(old(View()))
      ensures !(old(connected) && data != "" && !ok) ==>
        View() == old(View()) && ok == (connected || data == "") &&
        screen == if old(connected) then Shown(old(screen), data) else old(screen)
    {
      if !connected || data == "" {
        return data == "";
      }
      var accepted: bool := *;
      if !accepted {
        Reset();
        return false;
      }
      screen := Shown(screen, data);
      ok := true;
    }

    method MoveCursor(position: nat)
      requires Shape() && connected && position <= lineSize
      modifies this, line
      ensures Follows(old(View()), old(screen), Move(old(View()), position))
    {
      hide Shown, Movement;
      if position == cursor {
        NothingShown(screen);
        return;
      }
      ghost var s := View();
      var movement := if position > cursor then Movement(position - cursor, 'C') else Movement(cursor - position, 'D');
      MovementSize(if position > cursor then position - cursor else cursor - position, 'C');
      cursor := position;
      assert View() == s.(cursor := position);
      var ok := Write(movement);
    }

    method RejectLine(error: ParseStatus)
      requires Shape() && connected
      modifies this, line
      ensures Follows(old(View()), old(screen), Reject(old(View()), error))
    {
      hide Shown;
      NothingShown(screen);
      escapeState := NoEscape;
      if lineError != ParsedOk {
        return;
      }
      lineError := error;
      ghost var s := View();
      var ok := Write([BELL]);
    }

    method RedrawLine()
      requires Shape() && connected
      modifies this, line
      ensures Follows(old(View()), old(screen), Sent(old(View()), Redraw(old(View()))))
    {
      hide Shown, Movement, Ring;
      ghost var s, t := View(), screen;
      var back := "\r" + [ESC, '[', '2', 'K'];
      var ok := Write(back);
      ok := Write(PROMPT);
      ghost var text := back + PROMPT;
      ShownConcat(t, back, PROMPT);
      ok := Write(line[..lineSize]);
      ShownConcat(t, text, s.line);
      if connected && cursor < lineSize {
        var movement := Movement(lineSize - cursor, 'D');
        ok := Write(movement);
        ShownConcat(t, text + s.line, movement);
      }
      assert text + s.line + "" == text + s.line;
    }

    /** Moves the tail and its terminator over the character at `at`. */
    method EraseAt(at: nat)
      requires Shape() && at < lineSize
      modifies line, this`lineSize
      ensures lineSize == old(lineSize) - 1 && line[lineSize] == '\0'
      ensures line[..lineSize] == old(line[..at]) + old(line[at + 1..lineSize])
    {
      forall i | at <= i < lineSize {
        line[i] := line[i + 1];
      }
      lineSize := lineSize - 1;
    }

    /** Moves the tail and its terminator up. */
    method OpenGap()
      requires Shape() && lineSize < MAXIMUM_LINE_SIZE
      modifies line
      ensures line[..cursor] == old(line[..cursor])
      ensures line[cursor + 1..lineSize + 1] == old(line[cursor..lineSize]) && line[lineSize + 1] == '\0'
    {
      forall i | cursor < i <= lineSize + 1 {
        line[i] := line[i - 1];
      }
    }

    /** Moves the tail and its terminator up, and puts `c` at the cursor. */
    method InsertAtCursor(c: char)
      requires Shape() && lineSize < MAXIMUM_LINE_SIZE
      modifies line, this`lineSize, this`cursor
      ensures lineSize == old(lineSize) + 1 && cursor == old(cursor) + 1 && line[lineSize] == '\0'
      ensures line[..lineSize] == old(line[..cursor]) + [c] + old(line[cursor..lineSize])
      ensures line[cursor - 1] == c
    {
      OpenGap();
      line[cursor] := c;
      cursor, lineSize := cursor + 1, lineSize + 1;
    }

    method LoadLine(text: string)
      requires line.Length == MAXIMUM_LINE_SIZE + 1 && |text| <= MAXIMUM_LINE_SIZE
      modifies line, this`lineSize, this`cursor
      ensures lineSize == cursor == |text| && line[..lineSize] == text && line[lineSize] == '\0'
    {
      lineSize := |text|;
      forall i | 0 <= i < |text| {
        line[i] := text[i];
      }
      line[|text|] := '\0';
      cursor := lineSize;
    }

    method AddHistory()
      requires Shape()
      modifies history, this`historyNext, this`historySize
      ensures Shape() && View() == old(View()).(history := Remember(old(View()).history, old(View()).line))
    {
      ghost var s := View();
      if lineSize == 0 {
        return;
      }
      if historySize != 0 {
        var latest := (historyNext + HISTORY_ENTRIES - 1) % HISTORY_ENTRIES;
        assert s.history[historySize - 1] == history[latest];
        if history[latest] == line[..lineSize] {
          return;
        }
      }
      Store();
    }

    /** Puts the line at the next place of the ring. */
    method Store()
      requires Shape()
      modifies history, this`historyNext, this`historySize
      ensures Shape()
      ensures View() == old(View()).(history :=
                (if old(historySize) < HISTORY_ENTRIES then old(View()).history else old(View()).history[1..]) +
                [old(View()).line])
    {
      hide Ring;
      RingRemembers(history[..], historyNext, historySize, line[..lineSize]);
      history[historyNext] := line[..lineSize];
      historyNext := (historyNext + 1) % HISTORY_ENTRIES;
      if historySize < HISTORY_ENTRIES {
        historySize := historySize + 1;
      }
    }

    method NavigateHistory(older: bool)
      requires Shape() && connected
      modifies this, line
      ensures Follows(old(View()), old(screen), Navigate(old(View()), older))
    {
      hide Shown, Redraw, Ring;
      NothingShown(screen);
      if historySize == 0 {
        return;
      }
      ghost var s := View();
      StepHistory(older);
      Recall();
      assert View() == Navigate(s, older).session;
      RedrawLine();
    }

    method StepHistory(older: bool)
      requires Shape() && historySize != 0
      modifies this`historyOffset
      ensures Shape() && View() == old(View()).(offset := Stepped(old(View()), older))
    {
      if older {
        if historyOffset < historySize {
          historyOffset := historyOffset + 1;
        }
      } else if historyOffset > 0 {
        historyOffset := historyOffset - 1;
      }
    }

    /** Replaces the line by the one the history offset stands for. */
    method Recall()
      requires Shape()
      modifies line, this`lineSize, this`cursor, this`lineError, this`escapeState
      ensures Shape()
      ensures View() == Cleared(old(View())).(line := Recalled(old(View()), historyOffset),
                                              cursor := |Recalled(old(View()), historyOffset)|)
    {
      ghost var s := View();
      ClearLine();
      if historyOffset != 0 {
        var index := (historyNext + HISTORY_ENTRIES - historyOffset) % HISTORY_ENTRIES;
        assert s.history[historySize - historyOffset] == history[index];
        LoadLine(history[index]);
      }
    }

    method FinishExecution(status: ExecuteStatus, a: Answers)
      requires Shape() && connected
      modifies this, line
      ensures Follows(old(View()), old(screen), Finish(old(View()), a, status))
    {
      hide Shown, Report, Ring;
      ghost var s, t := View(), screen;
      if status == Binary {
        binaryActive := a.binarySession;
      }
      commandActive := status == Pending;
      assert View() == Finish(s, a, status).session;
      WriteReport(a.output, status);
      if connected && !commandActive && !binaryActive {
        var ok := Write(PROMPT);
        ShownConcat(t, Report(a.output, status), PROMPT);
      } else if connected {
        assert Report(a.output, status) + "" == Report(a.output, status);
      }
    }

    /** Writes what a command said; nothing more once the peer is lost. */
    method WriteReport(output: string, status: ExecuteStatus)
      requires Shape() && connected
      modifies this, line
      ensures Follows(old(View()), old(screen), Sent(old(View()), Report(output, status)))
    {
      hide Shown, ExecuteError, Ring;
      ghost var t := screen;
      ghost var said := if output != "" then Broken(output) else "";
      NothingShown(t);
      if output != "" {
        var ok := Write(output);
        if !ok {
          return;
        }
        ok := Write("\r\n");
        if !ok {
          return;
        }
        ShownConcat(t, output, "\r\n");
      }
      if Failed(status) {
        ghost var u := screen;
        ghost var why := Broken("error: " + ExecuteError(status));
        WriteError(ExecuteError(status));
        ShownConcat(t, said, why);
      } else {
        assert said + "" == said;
      }
    }

    method WriteError(message: string)
      requires Shape() && connected
      modifies this, line
      ensures Follows(old(View()), old(screen), Sent(old(View()), Broken("error: " + message)))
    {
      hide Shown, Ring;
      ghost var t := screen;
      var ok := Write("error: ");
      ok := Write(message);
      ok := Write("\r\n");
      ShownConcat(t, "error: ", message);
      ShownConcat(t, "error: " + message, "\r\n");
      NothingShown(Shown(t, "error: "));
      assert "error: " + "" == "error: ";
    }

    method SubmitLine(a: Answers)
      requires Shape() && connected
      modifies this, line, history
      ensures Follows(old(View()), old(screen), Submit(old(View()), a))
    {
      hide Shown, Ring, Finish, Broken, ParseError, Remember;
      ghost var s, t := View(), screen;
      var ok := Write("\r\n");
      if !ok {
        return;
      }
      var parse := if lineError == ParsedOk then a.parse else lineError;
      if parse == ParsedOk {
        ExecuteLine(a);
        ghost var u := Cleared(s).(history := Remember(s.history, s.line), offset := 0);
        FinishKeepsHistory(u, a, a.execute);
        ShownConcat(t, "\r\n", Finish(u, a, a.execute).text);
        return;
      }
      ghost var error := if parse != Empty then Broken("error: " + ParseError(parse)) else "";
      NothingShown(screen);
      if parse != Empty {
        WriteError(ParseError(parse));
      }
      ShownConcat(t, "\r\n", error);
      PromptOnClearedLine(s, Shown(t, "\r\n" + error));
      ShownConcat(t, "\r\n" + error, PROMPT);
    }

    method ExecuteLine(a: Answers)
      requires Shape() && connected
      modifies this, line, history
      ensures var s := old(View());
              var u := Cleared(s).(history := Remember(s.history, s.line), offset := 0);
              Follows(u, old(screen), Finish(u, a, a.execute))
    {
      hide Shown, Ring, Finish, Remember;
      ghost var s := View();
      AddHistory();
      ClearLine();
      historyOffset := 0;
      assert View() == Cleared(s).(history := Remember(s.history, s.line), offset := 0);
      FinishExecution(a.execute, a);
    }

    /** Empties the line and leaves history browsing, at a new prompt. */
    method PromptOnClearedLine(ghost s: Session, ghost t: Terminal)
      requires Shape() && (if connected then View() == s && screen == t else IsLost(View()) && View().history == s.history)
      modifies this, line
      ensures Follows(s, t, Sent(Cleared(s).(offset := 0), PROMPT))
    {
      hide Shown, Ring;
      ClearLine();
      historyOffset := 0;
      var ok := Write(PROMPT);
    }

    method Cancel(a: Answers)
      requires Shape() && connected
      modifies this, line
      ensures Follows(old(View()), old(screen), Cancelled(old(View()), a))
    {
      hide Shown, Ring, ExecuteError;
      ghost var s, t := View(), screen;
      commandActive := false;
      escapeState := NoEscape;
      previousWasCr := false;
      ClearLine();
      historyOffset := 0;
      ghost var u := Cancelled(s, a).session;
      assert View() == u;
      var ok := Write("^C\r\n");
      if a.cancelled == UnknownOutcome {
        ok := Write(ExecuteError(a.cancelled));
        ok := Write("\r\n");
      }
      ok := Write(PROMPT);
      CancelledIsShown(t, s, a);
    }

    method ProcessEscape(value: byte)
      requires Shape() && connected && escapeState != NoEscape
      modifies this, line
      ensures Follows(old(View()), old(screen), EscapeByte(old(View()), value))
    {
      hide Shown, Ring, Command;
      NothingShown(screen);
      if escapeState == Escape {
        if value == '[' as byte {
          escapeState := ControlSequence;
        } else if value == 'O' as byte {
          escapeState := Ss3;
        } else {
          RejectLine(InvalidEscape);
        }
        return;
      }
      ContinueSequence(value);
    }

    method ContinueSequence(value: byte)
      requires Shape() && connected && escapeState != NoEscape && escapeState != Escape
      modifies this, line
      ensures Follows(old(View()), old(screen), EscapeByte(old(View()), value))
    {
      hide Shown, Ring, Command, Reject, Parameter;
      NothingShown(screen);
      escapeSize := escapeSize + 1;
      if escapeSize > MAXIMUM_ESCAPE_SIZE || value < 0x20 || value > 0x7e {
        RejectLine(InvalidEscape);
        return;
      }
      if value <= 0x3f {
        CollectParameter(value);
        return;
      }
      escapeState := NoEscape;
      if escapeParameterValid {
        RunCommand(value);
      }
    }

    method CollectParameter(value: byte)
      requires Shape()
      modifies this`escapeParameter, this`escapeParameterValid
      ensures Shape() && View() == Parameter(old(View()), value)
    {
      hide Ring;
      if escapeState == ControlSequence && escapeParameterValid && '0' as byte <= value <= '9' as byte {
        escapeParameter := Min(MAXIMUM_LINE_SIZE, 10 * escapeParameter + (value - '0' as byte) as nat);
      } else {
        escapeParameterValid := false;
      }
    }

    /** The final byte of a complete escape sequence. */
    method RunCommand(value: byte)
      requires Shape() && connected
      modifies this, line
      ensures Follows(old(View()), old(screen), Command(old(View()), value))
    {
      hide Shown, Ring, Move, Navigate, Redraw;
      NothingShown(screen);
      var count := Repeats(escapeParameter);
      if value == 'A' as byte {
        if count == 1 {
          NavigateHistory(true);
        }
      } else if value == 'B' as byte {
        if count == 1 {
          NavigateHistory(false);
        }
      } else if value == 'C' as byte {
        MoveCursor(cursor + Min(count, lineSize - cursor));
      } else if value == 'D' as byte {
        MoveCursor(cursor - Min(count, cursor));
      } else if value == 'H' as byte {
        if count == 1 {
          MoveCursor(0);
        }
      } else if value == 'F' as byte {
        if count == 1 {
          MoveCursor(lineSize);
        }
      } else if value == '~' as byte {
        if escapeParameter == 1 || escapeParameter == 7 {
          MoveCursor(0);
        } else if escapeParameter == 4 || escapeParameter == 8 {
          MoveCursor(lineSize);
        } else if escapeParameter == 3 && cursor < lineSize {
          ghost var s := View();
          EraseAt(cursor);
          assert View() == Erase(s, cursor);
          RedrawLine();
        }
      }
    }

    method ProcessByte(value: byte, a: Answers)
      requires Shape() && connected
      modifies this, line, history
      ensures Follows(old(View()), old(screen), TypedByte(old(View()), value, a))
    {
      hide Shown, Ring, Cancelled, Submit, EditByte;
      ghost var s, t := View(), screen;
      NothingShown(screen);
      if value == 0x03 {
        Cancel(a);
        return;
      }
      if commandActive {
        return;
      }
      if value == '\r' as byte || value == '\n' as byte {
        if value == '\n' as byte && previousWasCr {
          previousWasCr := false;
          return;
        }
        previousWasCr := value == '\r' as byte;
        ghost var u := View();
        ghost var r := if u.escape != NoEscape then Reject(u, InvalidEscape) else Sent(u, "");
        if escapeState != NoEscape {
          RejectLine(InvalidEscape);
        }
        if connected {
          SubmitLine(a);
          ShownConcat(t, r.text, Submit(r.session, a).text);
        }
        return;
      }
      previousWasCr := false;
      Edit(value);
    }

    method Edit(typed: byte)
      requires Shape() && connected
      modifies this, line
      ensures Follows(old(View()), old(screen), EditByte(old(View()), typed))
    {
      hide Shown, Ring, Move, EscapeByte, Redraw, Insert, Erase, Reject;
      NothingShown(screen);
      if lineError != ParsedOk {
        return;
      }
      if escapeState != NoEscape {
        ProcessEscape(typed);
        return;
      }
      if typed == 0x1b {
        escapeState := Escape;
        escapeSize, escapeParameter, escapeParameterValid := 0, 0, true;
        return;
      }
      if typed == 0x01 || typed == 0x05 {
        MoveCursor(if typed == 0x01 then 0 else lineSize);
        return;
      }
      if typed == 0x08 || typed == 0x7f {
        if cursor == 0 {
          return;
        }
        Backspace();
        return;
      }
      var value := if typed == 0x09 then 0x20 else typed;
      if value < 0x20 || value > 0x7e {
        RejectLine(InvalidArgument);
        return;
      }
      if lineSize == MAXIMUM_LINE_SIZE {
        RejectLine(LineTooLong);
        return;
      }
      TypeCharacter(value as char);
    }

    method Backspace()
      requires Shape() && connected && cursor > 0
      modifies this, line
      ensures var s := old(View());
              var t := Erase(s, s.cursor - 1).(cursor := s.cursor - 1);
              Follows(s, old(screen), Sent(t, Redraw(t)))
    {
      hide Shown, Ring, Redraw;
      ghost var s := View();
      cursor := cursor - 1;
      EraseAt(cursor);
      assert View() == Erase(s, s.cursor - 1).(cursor := s.cursor - 1);
      RedrawLine();
    }

    method TypeCharacter(c: char)
      requires Shape() && connected && lineSize < MAXIMUM_LINE_SIZE
      modifies this, line
      ensures var s := old(View());
              Follows(s, old(screen), Sent(Insert(s, c), if s.cursor == |s.line| then [c] else Redraw(Insert(s, c))))
    {
      hide Shown, Ring, Redraw;
      ghost var s := View();
      var append := cursor == lineSize;
      InsertAtCursor(c);
      historyOffset := 0;
      assert View() == Insert(s, c);
      if append {
        var ok := Write([line[cursor - 1]]);
      } else {
        RedrawLine();
      }
    }

    method OnConnected(ghost attached: Terminal)
      requires Shape() && !connected
      modifies this, line
      ensures Shape()
      ensures if connected then View() == Connected(old(View())).session && screen == Shown(attached, Connected(old(View())).text)
              else IsLost(View()) && View().history == old(View()).history
    {
      hide Shown, Ring;
      ghost var s := View();
      screen := attached;
      connected := true;
      previousWasCr := false;
      historyOffset := 0;
      ClearLine();
      assert View() == Connected(s).session;
      var ok := Write(GREETING);
      ok := Write(PROMPT);
      ShownConcat(attached, GREETING, PROMPT);
    }

    /** The screen is as the line, and the session is sound. */
    ghost predicate Valid()
      reads this, line, history
    {
      Shape() && ValidSession(View()) && ScreenAgrees(screen, View())
    }

    /**
     * One turn of the owner task. `open` is what a binary session answers, `attached` the terminal of a new peer,
     * and each byte of `input` comes with what the executor would answer.
     */
    method Poll(nowConnected: bool, open: bool, input: seq<byte>, answers: seq<Answers>, status: ExecuteStatus,
                report: Answers, ghost attached: Terminal)
      requires Valid() && |input| == |answers| <= 32
      requires Settles(report.output) && forall i :: 0 <= i < |answers| ==> Settles(answers[i].output)
      requires attached.parser == Ground
      modifies this, line, history
      ensures Valid()
      ensures nowConnected || !connected
    {
      if !nowConnected {
        if connected {
          Reset();
        }
        return;
      }
      if !connected {
        Attach(attached);
      }
      if !connected {
        return;
      }
      if binaryActive {
        if !open {
          EndBinary();
        }
        return;
      }
      for i := 0 to |input|
        invariant Valid() && connected && !binaryActive
      {
        Take(input[i], answers[i]);
        if !connected || binaryActive {
          return;
        }
      }
      if commandActive {
        TakeReport(status, report);
      }
    }

    method Attach(ghost attached: Terminal)
      requires Valid() && !connected && attached.parser == Ground
      modifies this, line
      ensures Valid()
      ensures connected ==> !binaryActive
    {
      hide Shown, Ring, Connected, ValidSession, ScreenAgrees;
      ghost var s := View();
      AttachedIsEditing(attached, s);
      OnConnected(attached);
      if !connected {
        LostIsKept(s, Connected(s).session, View(), screen);
      }
    }

    method Take(value: byte, a: Answers)
      requires Valid() && connected && !binaryActive && Settles(a.output)
      modifies this, line, history
      ensures Valid()
    {
      hide Shown, Ring, TypedByte, ValidSession, ScreenAgrees, Settles;
      ghost var s := View();
      TypedKeepsScreen(screen, s, value, a);
      ProcessByte(value, a);
      if !connected {
        LostIsKept(s, TypedByte(s, value, a).session, View(), screen);
      }
    }

    method TakeReport(status: ExecuteStatus, report: Answers)
      requires Valid() && connected && commandActive && Settles(report.output)
      modifies this, line
      ensures Valid()
    {
      hide Shown, Ring, Finish, Settles;
      ghost var s := View();
      FinishKeepsScreen(s, report, status);
      FinishExecution(status, report);
      if !connected {
        LostIsKept(s, Finish(s, report, status).session, View(), screen);
      }
    }

    method EndBinary()
      requires Valid() && connected && binaryActive
      modifies this, line
      ensures Valid()
    {
      hide Shown, Ring;
      ghost var s, t := View(), screen;
      binaryActive := false;
      previousWasCr := false;
      ClearLine();
      ghost var r := BinaryEnded(s).session;
      assert View() == r;
      NewLineIsShown(t);
      PromptIsShown(BLANK);
      var ok := Write("\r\n");
      ok := Write(PROMPT);
      if connected {
        assert PROMPT + "" == PROMPT;
      } else {
        LostIsKept(s, r, View(), screen);
      }
    }
  }
}
