/** What an application asks of the runtime: commands, and regions to draw. */
module AppContract {
  import opened Arithmetic
  import opened Bytes

  datatype Status =
    | Ok
    | InvalidArgument
    | InvalidState
    | NotFound
    | NoMemory
    | Busy
    | Conflict
    | IoError
    | Timeout
    | Unsupported
    | InternalError

  const ID_CAPACITY: nat := 31

  predicate IsIdChar(c: char) {
    'a' <= c <= 'z' || '0' <= c <= '9' || c == '-' || c == '_' || c == '.'
  }

  predicate IsId(s: string) {
    1 <= |s| <= ID_CAPACITY && forall i | 0 <= i < |s| :: IsIdChar(s[i])
  }

  const LETTERS: string := "abcdefghijklmnopqrstuvwxyz"
  const DIGITS: string := "0123456789"
  const MARKS: string := "-_."

  /** An identifier is made of small letters, digits and three marks, and is neither empty nor too long. */
  lemma IdExactly(s: string)
    ensures IsId(s) <==>
            0 < |s| < 32 && forall i | 0 <= i < |s| :: s[i] in LETTERS || s[i] in DIGITS || s[i] in MARKS
  {
    hide IsIdChar;
    forall i | 0 <= i < |s|
      ensures IsIdChar(s[i]) <==> s[i] in LETTERS || s[i] in DIGITS || s[i] in MARKS
    {
      IdCharIs(s[i]);
    }
  }

  lemma IdCharIs(c: char)
    ensures IsIdChar(c) <==> c in LETTERS || c in DIGITS || c in MARKS
  {
    assert forall i | 0 <= i < 26 :: LETTERS[i] as int == 'a' as int + i;
    assert forall i | 0 <= i < 10 :: DIGITS[i] as int == '0' as int + i;
    assert MARKS[0] == '-' && MARKS[1] == '_' && MARKS[2] == '.';
    if 'a' <= c <= 'z' {
      assert LETTERS[c as int - 'a' as int] == c;
    }
    if '0' <= c <= '9' {
      assert DIGITS[c as int - '0' as int] == c;
    }
  }

  datatype CommandKind = NoCommand | Open | Back | Home | Shutdown
  datatype AppCommand = AppCommand(kind: CommandKind, target: string)
  datatype SubmitResult = Accepted | Superseded | Refused | Rejected

  const NOTHING: AppCommand := AppCommand(NoCommand, "")

  function Priority(kind: CommandKind): nat {
    match kind
    case Shutdown => 3
    case Home => 2
    case Open => 1
    case Back => 1
    case NoCommand => 0
  }

  predicate Submittable(c: AppCommand) {
    c.kind != NoCommand && (c.kind == Open ==> c.target != "")
  }

  /** What is pending after one more submission. */
  function Arbitrate(pending: AppCommand, c: AppCommand): AppCommand {
    if Submittable(c) && Priority(c.kind) > Priority(pending.kind) then c else pending
  }

  class CommandArbiter {
    var pending: AppCommand

    constructor ()
      ensures pending == NOTHING
    {
      pending := NOTHING;
    }

    method Submit(c: AppCommand) returns (r: SubmitResult)
      modifies this
      ensures pending == Arbitrate(old(pending), c)
      ensures r == if pending == old(pending) then Refused
                   else if old(pending).kind == NoCommand then Accepted else Superseded
    {
      if c.kind == NoCommand || (c.kind == Open && c.target == "") {
        return Refused;
      }
      if pending.kind == NoCommand {
        pending := c;
        return Accepted;
      }
      if Priority(c.kind) > Priority(pending.kind) {
        pending := c;
        return Superseded;
      }
      return Refused;
    }

    method Take() returns (taken: bool, c: AppCommand)
      modifies this
      ensures taken <==> old(pending).kind != NoCommand
      ensures taken ==> c == old(pending) && pending == NOTHING
      ensures !taken ==> pending == old(pending)
    {
      if pending.kind == NoCommand {
        return false, NOTHING;
      }
      c := pending;
      pending := NOTHING;
      return true, c;
    }

    method Clear()
      modifies this
      ensures pending == NOTHING
    {
      pending := NOTHING;
    }
  }

  /** What is pending after a run of submissions. */
  function ArbitrateAll(commands: seq<AppCommand>): AppCommand {
    if commands == [] then NOTHING
    else Arbitrate(ArbitrateAll(commands[..|commands| - 1]), commands[|commands| - 1])
  }

  /** A command that asks for something; opening needs a target. */
  predicate Asks(c: AppCommand) {
    c.kind in {Back, Home, Shutdown} || (c.kind == Open && |c.target| > 0)
  }

  /** Shutting down outdoes everything else, and going home outdoes opening and going back. */
  predicate MoreUrgent(a: CommandKind, b: CommandKind) {
    (a == Shutdown && b in {Home, Open, Back}) || (a == Home && b in {Open, Back})
  }

  lemma UrgencyIsPriority(c: AppCommand, d: AppCommand)
    ensures Asks(c) <==> Submittable(c)
    ensures Asks(c) && Asks(d) ==> (MoreUrgent(c.kind, d.kind) <==> Priority(c.kind) > Priority(d.kind))
  {
  }

  /** `p` is the first of the most urgent commands. */
  ghost predicate FirstMostUrgent(commands: seq<AppCommand>, p: AppCommand) {
    exists k | 0 <= k < |commands| ::
      commands[k] == p && Asks(p)
      && (forall i | 0 <= i < |commands| && Asks(commands[i]) :: !MoreUrgent(commands[i].kind, p.kind))
      && (forall i | 0 <= i < k && Asks(commands[i]) :: MoreUrgent(p.kind, commands[i].kind))
  }

  lemma FirstStays(front: seq<AppCommand>, last: AppCommand, q: AppCommand)
    requires FirstMostUrgent(front, q) && !(Asks(last) && MoreUrgent(last.kind, q.kind))
    ensures FirstMostUrgent(front + [last], q)
  {
    var all := front + [last];
    assert forall i | 0 <= i < |front| :: all[i] == front[i];
    var k :| 0 <= k < |front| && front[k] == q && Asks(q)
      && (forall i | 0 <= i < |front| && Asks(front[i]) :: !MoreUrgent(front[i].kind, q.kind))
      && (forall i | 0 <= i < k && Asks(front[i]) :: MoreUrgent(q.kind, front[i].kind));
    hide Asks, MoreUrgent;
    assert all[k] == q;
  }

  lemma LastTakesOver(front: seq<AppCommand>, last: AppCommand, q: AppCommand)
    requires Asks(last)
    requires (FirstMostUrgent(front, q) && MoreUrgent(last.kind, q.kind)) || forall i | 0 <= i < |front| :: !Asks(front[i])
    ensures FirstMostUrgent(front + [last], last)
  {
    var all := front + [last];
    assert forall i | 0 <= i < |front| :: all[i] == front[i];
    assert all[|front|] == last;
  }

  /** One more command keeps the first of the most urgent, or is it. */
  lemma UrgentStep(front: seq<AppCommand>, last: AppCommand, q: AppCommand, p: AppCommand)
    requires if exists i | 0 <= i < |front| :: Asks(front[i]) then FirstMostUrgent(front, q) else q == NOTHING
    requires p == if Asks(last) && (q == NOTHING || MoreUrgent(last.kind, q.kind)) then last else q
    ensures var all := front + [last];
            if exists i | 0 <= i < |all| :: Asks(all[i]) then FirstMostUrgent(all, p) else p == NOTHING
  {
    var all := front + [last];
    assert !Asks(NOTHING);
    assert forall i | 0 <= i < |front| :: all[i] == front[i];
    assert all[|front|] == last;
    if Asks(last) && (q == NOTHING || MoreUrgent(last.kind, q.kind)) {
      LastTakesOver(front, last, q);
    } else if exists i | 0 <= i < |front| :: Asks(front[i]) {
      FirstStays(front, last, q);
    }
    hide Asks, MoreUrgent, FirstMostUrgent;
  }

  /** The command that survives is the earliest among the most urgent ones submitted. */
  lemma {:induction false} EarliestMostUrgentWins(commands: seq<AppCommand>)
    ensures var p := ArbitrateAll(commands);
            if exists i | 0 <= i < |commands| :: Asks(commands[i]) then FirstMostUrgent(commands, p) else p == NOTHING
  {
    if commands != [] {
      var n := |commands| - 1;
      var front, last := commands[..n], commands[n];
      EarliestMostUrgentWins(front);
      var q := ArbitrateAll(front);
      UrgencyIsPriority(last, q);
      assert commands == front + [last];
      assert q == NOTHING || Asks(q);
      hide FirstMostUrgent, Asks;
      UrgentStep(front, last, q, ArbitrateAll(commands));
    }
  }

  // --- regions ------------------------------------------------------------------

  newtype int16 = x: int | -0x8000 <= x < 0x8000

  datatype DirtyRegion = DirtyRegion(x: int16, y: int16, width: int16, height: int16)

  predicate IsEmpty(r: DirtyRegion) { r.width <= 0 || r.height <= 0 }

  /** The cast to 16 bits keeps the low bits and reads them as signed. */
  function Narrow(v: int): int16 {
    ((v + 0x8000) % 0x1_0000 - 0x8000) as int16
  }

  function Left(a: DirtyRegion, b: DirtyRegion): int { Min(a.x as int, b.x as int) }
  function Top(a: DirtyRegion, b: DirtyRegion): int { Min(a.y as int, b.y as int) }
  function Right(a: DirtyRegion, b: DirtyRegion): int { Max(a.x as int + a.width as int, b.x as int + b.width as int) }
  function Bottom(a: DirtyRegion, b: DirtyRegion): int { Max(a.y as int + a.height as int, b.y as int + b.height as int) }

  function Union(a: DirtyRegion, b: DirtyRegion): DirtyRegion {
    if IsEmpty(a) then b
    else if IsEmpty(b) then a
    else DirtyRegion(Narrow(Left(a, b)), Narrow(Top(a, b)),
                     Narrow(Right(a, b) - Left(a, b)), Narrow(Bottom(a, b) - Top(a, b)))
  }

  predicate Contains(r: DirtyRegion, px: int, py: int) {
    r.x as int <= px < r.x as int + r.width as int && r.y as int <= py < r.y as int + r.height as int
  }

  ghost predicate Covers(r: DirtyRegion, inner: DirtyRegion) {
    forall px, py :: Contains(inner, px, py) ==> Contains(r, px, py)
  }

  /** The union covers both regions exactly when the rectangle around them is not too large for 16 bits. */
  lemma UnionCoversBoth(a: DirtyRegion, b: DirtyRegion)
    requires !IsEmpty(a) && !IsEmpty(b)
    ensures Covers(Union(a, b), a) && Covers(Union(a, b), b) <==>
            Right(a, b) - Left(a, b) < 0x8000 && Bottom(a, b) - Top(a, b) < 0x8000
  {
    var u := Union(a, b);
    if Covers(u, a) && Covers(u, b) {
      var ax, ay := a.x as int + a.width as int - 1, a.y as int + a.height as int - 1;
      var bx, bz := b.x as int + b.width as int - 1, b.y as int + b.height as int - 1;
      assert Contains(a, ax, ay) && Contains(b, bx, bz);
      assert Contains(u, ax, ay) && Contains(u, bx, bz);
    }
  }

  // Two dots that an application may ask to draw in one callback.
  const FAR_LEFT: DirtyRegion := DirtyRegion(-20000, 0, 1, 1)
  const FAR_RIGHT: DirtyRegion := DirtyRegion(20000, 0, 1, 1)

  /** The condition is needed: regions far enough apart have an empty union, and whatever is added replaces both. */
  lemma FarRegionsAreLost(next: DirtyRegion)
    ensures !IsEmpty(FAR_LEFT) && !IsEmpty(FAR_RIGHT)
    ensures var u := Union(FAR_LEFT, FAR_RIGHT);
            IsEmpty(u) && !Covers(u, FAR_LEFT) && !Covers(u, FAR_RIGHT) && Union(u, next) == next
  {
    var u := Union(FAR_LEFT, FAR_RIGHT);
    assert Narrow(40001) == -25535;
    assert Contains(FAR_LEFT, -20000, 0) && !Contains(u, -20000, 0);
    assert Contains(FAR_RIGHT, 20000, 0) && !Contains(u, 20000, 0);
  }

  datatype RenderIntent = Fast | Quality
  datatype RenderRequest = RenderRequest(ownerGeneration: uint32, dirty: DirtyRegion, intent: RenderIntent)

  const NO_REGION: DirtyRegion := DirtyRegion(0, 0, 0, 0)
  const NO_RENDER: RenderRequest := RenderRequest(0, NO_REGION, Fast)

  // --- what is asked to be drawn ---------------------------------------------------------

  /** One region that an application asked to draw. */
  datatype Ask = Ask(region: DirtyRegion, intent: RenderIntent)

  /** A rectangle without a bound on its size. */
  datatype Box = Box(left: int, top: int, right: int, bottom: int)

  function BoxOf(r: DirtyRegion): Box {
    Box(r.x as int, r.y as int, r.x as int + r.width as int, r.y as int + r.height as int)
  }

  function Join(a: Box, b: Box): Box {
    Box(Min(a.left, b.left), Min(a.top, b.top), Max(a.right, b.right), Max(a.bottom, b.bottom))
  }

  /** The rectangle around all the regions asked for. */
  function Around(asks: seq<Ask>): Box
    requires asks != []
  {
    var last := BoxOf(asks[|asks| - 1].region);
    if |asks| == 1 then last else Join(Around(asks[..|asks| - 1]), last)
  }

  /** The size of the rectangle fits 16 bits. */
  predicate Small(b: Box) { b.right - b.left < 0x8000 && b.bottom - b.top < 0x8000 }

  ghost predicate NoneEmpty(asks: seq<Ask>) {
    forall i :: 0 <= i < |asks| ==> !IsEmpty(asks[i].region)
  }

  ghost predicate WantsQuality(asks: seq<Ask>) {
    exists i :: 0 <= i < |asks| && asks[i].intent == Quality
  }

  /** The request is for the rectangle around everything asked for, unless that is too large, and in quality once asked. */
  ghost predicate Summarizes(r: RenderRequest, asks: seq<Ask>) {
    asks != [] && NoneEmpty(asks) && (r.intent == Quality <==> WantsQuality(asks)) &&
    (Small(Around(asks)) ==> !IsEmpty(r.dirty) && BoxOf(r.dirty) == Around(asks))
  }

  lemma {:induction false} AroundConcat(a: seq<Ask>, b: seq<Ask>)
    requires a != [] && b != []
    ensures Around(a + b) == Join(Around(a), Around(b))
  {
    if |b| == 1 {
      assert (a + b)[..|a + b| - 1] == a;
    } else {
      AroundConcat(a, b[..|b| - 1]);
      assert (a + b)[..|a + b| - 1] == a + b[..|b| - 1];
    }
  }

  lemma UnionIsAround(a: DirtyRegion, b: DirtyRegion)
    requires !IsEmpty(a) && !IsEmpty(b) && Small(Join(BoxOf(a), BoxOf(b)))
    ensures !IsEmpty(Union(a, b)) && BoxOf(Union(a, b)) == Join(BoxOf(a), BoxOf(b))
  {
  }

  function Merge(r: RenderRequest, s: RenderRequest): RenderRequest {
    RenderRequest(s.ownerGeneration, Union(r.dirty, s.dirty), if s.intent == Quality then Quality else r.intent)
  }

  lemma MergeSummarizes(r: RenderRequest, a: seq<Ask>, s: RenderRequest, b: seq<Ask>)
    requires Summarizes(r, a) && Summarizes(s, b)
    ensures Summarizes(Merge(r, s), a + b)
  {
    hide Around, Union;
    AroundConcat(a, b);
    if Small(Around(a + b)) {
      UnionIsAround(r.dirty, s.dirty);
    }
    assert forall i :: 0 <= i < |a + b| ==> (a + b)[i] == if i < |a| then a[i] else b[i - |a|];
    if WantsQuality(a) {
      var i :| 0 <= i < |a| && a[i].intent == Quality;
      assert (a + b)[i].intent == Quality;
    }
    if WantsQuality(b) {
      var i :| 0 <= i < |b| && b[i].intent == Quality;
      assert (a + b)[|a| + i].intent == Quality;
    }
  }

  lemma OneSummarizes(r: RenderRequest)
    requires !IsEmpty(r.dirty)
    ensures Summarizes(r, [Ask(r.dirty, r.intent)])
  {
    assert [Ask(r.dirty, r.intent)][0].intent == r.intent;
  }

  predicate WithinBox(inner: Box, outer: Box) {
    outer.left <= inner.left && outer.top <= inner.top && inner.right <= outer.right && inner.bottom <= outer.bottom
  }

  lemma {:induction false} EachIsInside(asks: seq<Ask>, i: nat)
    requires i < |asks|
    ensures WithinBox(BoxOf(asks[i].region), Around(asks))
  {
    if i < |asks| - 1 {
      EachIsInside(asks[..|asks| - 1], i);
    }
  }

  /** What is drawn covers every region asked for, while the rectangle around them fits 16 bits; and it is quick only when
      nobody asked for quality. */
  lemma DrawnCoversAsked(r: RenderRequest, asks: seq<Ask>, i: nat)
    requires Summarizes(r, asks) && i < |asks|
    ensures Small(Around(asks)) ==> Covers(r.dirty, asks[i].region)
    ensures r.intent == Fast ==> asks[i].intent == Fast
  {
    EachIsInside(asks, i);
  }

  class RenderAccumulator {
    var pending: bool
    var request: RenderRequest
    ghost var asker: nat          // the application instance whose regions are collected
    ghost var asked: seq<Ask>     // what it asked for and was not drawn yet

    ghost predicate Faithful() reads this {
      if pending then Summarizes(request, asked) else asked == []
    }

    constructor ()
      ensures !pending && Faithful()
    {
      pending, request, asker, asked := false, NO_RENDER, 0, [];
    }

    method Submit(r: RenderRequest, ghost who: nat, ghost asks: seq<Ask>)
      requires Faithful() && Summarizes(r, asks)
      modifies this
      ensures Faithful() && pending && asker == who
      ensures var merged := old(pending) && r.ownerGeneration == old(request).ownerGeneration;
              request == (if merged then Merge(old(request), r) else r) &&
              asked == if merged then old(asked) + asks else asks
    {
      hide Summarizes, Union;
      asker := who;
      if !pending || r.ownerGeneration != request.ownerGeneration {
        request := r;
        pending := true;
        asked := asks;
        return;
      }
      MergeSummarizes(request, asked, r, asks);
      asked := asked + asks;
      request := request.(dirty := Union(request.dirty, r.dirty));
      if r.intent == Quality {
        request := request.(intent := Quality);
      }
    }

    method TakeFor(generation: uint32) returns (taken: bool, r: RenderRequest, ghost asks: seq<Ask>)
      requires Faithful()
      modifies this`pending, this`asked
      ensures !pending && asked == []
      ensures taken <==> old(pending) && request.ownerGeneration == generation
      ensures taken ==> r == request && asks == old(asked) && Summarizes(r, asks)
    {
      r, asks := request, asked;
      asked := [];
      if !pending {
        return false, r, asks;
      }
      pending := false;
      return request.ownerGeneration == generation, r, asks;
    }

    method Discard()
      modifies this`pending, this`asked
      ensures !pending && asked == []
    {
      pending, asked := false, [];
    }
  }
}
