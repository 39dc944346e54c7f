/** A scene stack whose transitions are requested inside event callbacks and applied after them. */
module SceneManager {

  const CAPACITY: nat := 8
  const INVALID_SCENE: SceneId := 0xff

  newtype SceneId = x: int | 0 <= x < 0x100

  datatype Status = Ok | InvalidState | InvalidArgument | Conflict | NotFound | NoMemory
  datatype EventType = Input | Back | Tick
  datatype Transition = None | Push | Replace | Pop

  /** Which callbacks a scene has. */
  datatype SceneHandler = SceneHandler(enter: bool, event: bool, exit: bool)

  /** A scene becoming current or ceasing to be; `called` says whether a callback ran. */
  datatype Mark = Entered(scene: SceneId, called: bool) | Exited(scene: SceneId, called: bool)

  datatype Current = Nobody | Scene(scene: SceneId)

  /** Enter and exit strictly alternate, and each exit is of the scene entered last. */
  predicate Alternates(trace: seq<Mark>) {
    trace == [] ||
    (Alternates(trace[..|trace| - 1]) && Allowed(trace[..|trace| - 1], trace[|trace| - 1]))
  }

  predicate Allowed(earlier: seq<Mark>, next: Mark) {
    match next
    case Entered(_, _) => Open(earlier) == Nobody
    case Exited(scene, _) => Open(earlier) == Scene(scene)
  }

  lemma Extend(trace: seq<Mark>, next: Mark)
    requires Alternates(trace) && Allowed(trace, next)
    ensures Alternates(trace + [next])
    ensures Open(trace + [next]) == if next.Entered? then Scene(next.scene) else Nobody
  {
    assert (trace + [next])[..|trace|] == trace;
  }

  /** The scene that has been entered and not yet exited. */
  function Open(trace: seq<Mark>): Current {
    if trace == [] then Nobody
    else match trace[|trace| - 1]
      case Entered(scene, _) => Scene(scene)
      case Exited(_, _) => Nobody
  }

  lemma {:induction false} AlternationSpelledOut(trace: seq<Mark>)
    requires Alternates(trace)
    ensures forall i | 0 <= i < |trace| :: trace[i].Entered? <==> i % 2 == 0
    ensures forall i | 0 <= i < |trace| && trace[i].Exited? :: i > 0 && trace[i - 1].Entered? && trace[i - 1].scene == trace[i].scene
  {
    if trace != [] {
      AlternationSpelledOut(trace[..|trace| - 1]);
    }
  }

  /** What a transition makes of the stack. */
  function Applied(stack: seq<SceneId>, transition: Transition, target: SceneId): seq<SceneId>
    requires stack != []
  {
    match transition
    case None => stack
    case Push => stack + [target]
    case Replace => stack[..|stack| - 1] + [target]
    case Pop => stack[..|stack| - 1]
  }

  function Top(stack: seq<SceneId>): Current {
    if stack == [] then Nobody else Scene(stack[|stack| - 1])
  }

  /** A push is undone by a pop and shows its target; to replace is to push in place of the top. */
  lemma PopUndoesPush(stack: seq<SceneId>, target: SceneId, other: SceneId)
    requires stack != []
    ensures var pushed, replaced := Applied(stack, Push, target), Applied(stack, Replace, target);
      && Applied(pushed, Pop, other) == stack && Top(pushed) == Scene(target)
      && Applied(replaced, Pop, other) == Applied(stack, Pop, other) && Top(replaced) == Scene(target)
      && |Applied(stack, Pop, other)| == |stack| - 1 && Applied(stack, None, target) == stack
  {
  }

  class Manager {
    const handlersSet: bool
    const handlers: seq<SceneHandler>
    const stack: array<SceneId>
    const states: array<int>
    var depth: nat
    var busy: bool
    var inEvent: bool
    var pending: Transition
    var target: SceneId
    ghost var trace: seq<Mark>

    ghost predicate Shape() reads this, stack {
      && stack.Length == CAPACITY == states.Length && depth <= CAPACITY
      && (depth > 0 ==> handlersSet && 0 < |handlers| <= CAPACITY)
      && (forall i | 0 <= i < depth :: stack[i] as nat < |handlers|)
      && Alternates(trace)
      && (inEvent ==> busy && depth > 0)
      && (!inEvent ==> pending == None)
      && (pending == Pop ==> depth >= 2)
      && (pending == Push ==> depth < CAPACITY)
      && (pending == Push || pending == Replace ==> target as nat < |handlers|)
    }

    /** Between public calls: the scene entered last and not exited is the top of the stack. */
    ghost predicate Valid() reads this, stack {
      Shape() && !busy && Open(trace) == Top(Stack())
    }

    ghost function Stack(): seq<SceneId>
      requires stack.Length == CAPACITY && depth <= CAPACITY
      reads this, stack
    {
      stack[..depth]
    }

    constructor (handlersSet: bool, handlers: seq<SceneHandler>)
      ensures Valid() && Stack() == [] && trace == [] && fresh(stack) && fresh(states)
      ensures this.handlersSet == handlersSet && this.handlers == handlers
    {
      this.handlersSet, this.handlers := handlersSet, handlers;
      stack := new SceneId[CAPACITY];
      states := new int[CAPACITY];
      depth, busy, inEvent, pending, target := 0, false, false, None, INVALID_SCENE;
      trace := [];
    }

    function Active(): SceneId
      requires stack.Length == CAPACITY && depth <= CAPACITY
      reads this, stack
    {
      if depth > 0 then stack[depth - 1] else INVALID_SCENE
    }

    method Start(root: SceneId) returns (status: Status)
      requires Shape() && (!busy ==> Valid())
      modifies this, stack, states
      ensures Shape() && busy == old(busy) && inEvent == old(inEvent) && (!busy ==> Valid())
      ensures status == if old(busy) || old(depth) > 0 then InvalidState
                        else if !handlersSet || |handlers| == 0 || |handlers| > CAPACITY || root as nat >= |handlers|
                        then InvalidArgument else Ok
      ensures status == Ok ==> Stack() == [root] && trace == old(trace) + [Entered(root, handlers[root].enter)]
      ensures status != Ok ==> Unmoved(old(Stack()), old(trace)) && (pending, target) == old((pending, target))
      decreases if busy then 0 else 3
    {
      hide Alternates, Open;
      if busy || depth > 0 {
        return InvalidState;
      }
      if !handlersSet || |handlers| == 0 || |handlers| > CAPACITY || root as nat >= |handlers| {
        return InvalidArgument;
      }
      busy := true;
      stack[depth] := root;
      depth := depth + 1;
      Enter();
      busy := false;
      return Ok;
    }

    ghost predicate Unmoved(was: seq<SceneId>, log: seq<Mark>)
      requires stack.Length == CAPACITY && depth <= CAPACITY
      reads this, stack
    {
      Stack() == was && trace == log
    }

    method Enter()
      requires Shape() && busy && !inEvent && depth > 0 && Open(trace) == Nobody
      modifies this, stack, states
      ensures Shape() && busy && !inEvent && Stack() == old(Stack())
      ensures trace == old(trace) + [Entered(old(Active()), handlers[old(Active())].enter)]
      ensures Open(trace) == Scene(old(Active()))
      decreases 2, 0
    {
      hide Alternates, Open;
      var called := handlers[Active()].enter;
      Extend(trace, Entered(Active(), called));
      trace := trace + [Entered(Active(), called)];
      if called {
        Callback();
      }
    }

    method Exit()
      requires Shape() && busy && !inEvent && depth > 0 && Open(trace) == Scene(Active())
      modifies this, stack, states
      ensures Shape() && busy && !inEvent && Stack() == old(Stack())
      ensures trace == old(trace) + [Exited(old(Active()), handlers[old(Active())].exit)]
      ensures Open(trace) == Nobody
      decreases 2, 0
    {
      hide Alternates, Open;
      var called := handlers[Active()].exit;
      Extend(trace, Exited(Active(), called));
      trace := trace + [Exited(Active(), called)];
      if called {
        Callback();
      }
    }

    /** Application code run by a callback: any number of any calls on the manager. */
    method Callback()
      requires Shape() && busy
      modifies this, stack, states
      ensures Shape() && busy && inEvent == old(inEvent) && Unmoved(old(Stack()), old(trace))
      ensures old(pending) != None ==> (pending, target) == old((pending, target))
      decreases 1
    {
      hide Alternates, Open;
      var calls: int :| calls >= 0;
      for i := 0 to calls
        invariant Shape() && busy && inEvent == old(inEvent) && Unmoved(old(Stack()), old(trace))
        invariant old(pending) != None ==> (pending, target) == old((pending, target))
      {
        var which: nat, scene: SceneId, event: EventType, value: int := *, *, *, *;
        if which == 0 {
          var _ := Start(scene);
        } else if which == 1 {
          var _, _, _, _ := Dispatch(event);
        } else if which == 2 {
          Stop();
        } else if which == 3 {
          var _ := Request(Push, scene);
        } else if which == 4 {
          var _ := Request(Replace, scene);
        } else if which == 5 {
          var _ := Request(Pop, INVALID_SCENE);
        } else {
          var _ := SetState(scene, value);
        }
      }
    }

    /**
     * One event. What the callback asked for is applied after it has returned; an event that goes back, which it
     * neither consumed nor answered with a transition, pops the top. `handled`, `asked` and `scene` are what the
     * callback left behind.
     */
    method Dispatch(event: EventType)
      returns (consumed: bool, ghost handled: bool, ghost asked: Transition, ghost scene: SceneId)
      requires Shape() && (!busy ==> Valid())
      modifies this, stack, states
      ensures Shape() && busy == old(busy) && inEvent == old(inEvent) && (!busy ==> Valid())
      ensures old(busy) || old(depth) == 0 ==>
        !consumed && Unmoved(old(Stack()), old(trace)) && (pending, target) == old((pending, target))
      ensures !old(busy) && old(depth) > 0 ==>
        var popped := event == Back && !handled && asked == None && old(depth) > 1;
        && (!handlers[old(Active())].event ==> !handled && asked == None)
        && consumed == (handled || asked != None || popped)
        && Stack() == Applied(old(Stack()), if popped then Pop else asked, scene)
        && if asked == None && !popped then trace == old(trace) else Moved(old(Stack()), old(trace))
      decreases if busy then 0 else 3
    {
      hide Alternates, Open, Top;
      handled, asked, scene := false, None, INVALID_SCENE;
      if busy || depth == 0 {
        consumed := false;
        return;
      }
      busy, inEvent := true, true;
      consumed, handled, asked, scene := Hear(event);
      hide Applied;
      Apply();
      busy := false;
    }

    // The event callback, and the step back that an event nobody answered asks for.
    method Hear(event: EventType) returns (consumed: bool, ghost handled: bool, ghost asked: Transition, ghost scene: SceneId)
      requires Shape() && busy && inEvent && pending == None
      modifies this, stack, states
      ensures Shape() && busy && inEvent && Unmoved(old(Stack()), old(trace))
      ensures !handlers[old(Active())].event ==> !handled && asked == None
      ensures
        var popped := event == Back && !handled && asked == None && old(depth) > 1;
        && consumed == (handled || asked != None || popped)
        && pending == (if popped then Pop else asked)
        && Applied(Stack(), pending, target) == Applied(Stack(), pending, scene)
      decreases 2
    {
      hide Alternates, Open;
      consumed, handled, asked, scene := false, false, None, INVALID_SCENE;
      if handlers[Active()].event {
        Callback();
        consumed := *;
        handled, asked, scene := consumed, pending, target;
      }
      if !consumed && event == Back && depth > 1 {
        var _ := Request(Pop, INVALID_SCENE);
        consumed := true;
      }
      consumed := consumed || pending != None;
    }

    /** The old top was exited and the new top entered, each with its callback if it has one. */
    ghost predicate Moved(was: seq<SceneId>, log: seq<Mark>)
      requires stack.Length == CAPACITY && depth <= CAPACITY
      reads this, stack
    {
      was != [] && Stack() != [] &&
      var last, next := was[|was| - 1], Stack()[depth - 1];
      last as nat < |handlers| && next as nat < |handlers| &&
      trace == log + [Exited(last, handlers[last].exit)] + [Entered(next, handlers[next].enter)]
    }

    method Request(transition: Transition, scene: SceneId) returns (status: Status)
      requires Shape() && transition != None
      modifies this
      ensures Shape() && busy == old(busy) && inEvent == old(inEvent) && Unmoved(old(Stack()), old(trace))
      ensures status ==
              if !inEvent then InvalidState
              else if old(pending) != None then Conflict
              else if transition == Pop then (if depth < 2 then NotFound else Ok)
              else if scene as nat >= |handlers| then InvalidArgument
              else if transition == Push && depth == CAPACITY then NoMemory
              else Ok
      ensures (pending, target) == if status == Ok then (transition, scene) else old((pending, target))
    {
      if !inEvent {
        return InvalidState;
      }
      if pending != None {
        return Conflict;
      }
      if transition == Pop {
        if depth < 2 {
          return NotFound;
        }
      } else {
        if scene as nat >= |handlers| {
          return InvalidArgument;
        }
        if transition == Push && depth == CAPACITY {
          return NoMemory;
        }
      }
      pending := transition;
      target := scene;
      return Ok;
    }

    lemma TopIsActive()
      requires stack.Length == CAPACITY && 0 < depth <= CAPACITY
      ensures Stack() != [] && Top(Stack()) == Scene(Active())
    {
    }

    // The event callback has returned; what it requested happens now.
    method Apply()
      requires Shape() && busy && inEvent && Open(trace) == Top(Stack())
      modifies this, stack, states
      ensures Shape() && busy && !inEvent && Open(trace) == Top(Stack())
      ensures old(pending) == None ==> Unmoved(old(Stack()), old(trace))
      ensures old(pending) != None ==>
        Stack() == Applied(old(Stack()), old(pending), old(target)) && Moved(old(Stack()), old(trace))
      decreases 2, 1
    {
      hide Alternates, Open, Top, Applied;
      inEvent := false;
      var transition, scene := pending, target;
      pending := None;
      if transition == None {
        return;
      }
      ghost var was, log := Stack(), trace;
      TopIsActive();
      ghost var out := Exited(Active(), handlers[Active()].exit);
      Exit();
      Rearrange(transition, scene);
      ghost var next := Entered(Active(), handlers[Active()].enter);
      Enter();
      TopIsActive();
      assert trace == log + [out] + [next];
      assert Stack() == Applied(was, transition, scene);
    }

    method Rearrange(transition: Transition, scene: SceneId)
      requires Shape() && busy && !inEvent && depth > 0 && Open(trace) == Nobody && transition != None
      requires transition == Pop ==> depth >= 2
      requires transition == Push ==> depth < CAPACITY
      requires transition == Push || transition == Replace ==> scene as nat < |handlers|
      modifies this`depth, stack
      ensures Shape() && depth > 0 && Stack() == Applied(old(Stack()), transition, scene)
    {
      hide Alternates, Open;
      if transition == Pop {
        depth := depth - 1;
      } else if transition == Push {
        stack[depth] := scene;
        depth := depth + 1;
      } else {
        stack[depth - 1] := scene;
      }
    }

    method Stop()
      requires Shape() && (!busy ==> Valid())
      modifies this, stack, states
      ensures Shape() && busy == old(busy) && inEvent == old(inEvent) && (!busy ==> Valid())
      ensures old(busy) || old(depth) == 0 ==> Unmoved(old(Stack()), old(trace)) && (pending, target) == old((pending, target))
      ensures !old(busy) && old(depth) > 0 ==>
        Stack() == [] && trace == old(trace) + [Exited(old(Active()), handlers[old(Active())].exit)]
      decreases if busy then 0 else 3
    {
      hide Alternates, Open;
      if busy || depth == 0 {
        return;
      }
      busy := true;
      Exit();
      depth := 0;
      pending := None;
      busy := false;
    }

    method SetState(scene: SceneId, value: int) returns (ok: bool)
      requires Shape()
      modifies states
      ensures ok <==> scene as nat < |handlers| && scene as nat < CAPACITY
      ensures states[..] == if ok then old(states[..])[scene as int := value] else old(states[..])
      ensures Shape()
    {
      if scene as nat >= |handlers| || scene as nat >= CAPACITY {
        return false;
      }
      states[scene] := value;
      return true;
    }
  }
}
