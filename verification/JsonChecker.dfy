/**
 The pushdown checker `json_checker` of `src/scan_json.cpp`: a class over the
 256-slot mode stack, proved against a step function on configurations.
 */
module JsonChecker {
  import opened Bytes
  import opened JsonTable

  const STACK_SIZE := 256

  datatype Mode = ArrayMode | DoneMode | KeyMode | ObjectMode

  /** What the checker knows: dead after a rejection, otherwise its state, its
      mode stack (bottom first) and the comma count. */
  datatype Config = Dead | Live(state: State, stack: seq<Mode>, commas: nat)

  const START := Live(GO, [DoneMode], 0)

  function Pushed(cfg: Config, mode: Mode, state: State): Config
    requires cfg.Live?
  {
    if |cfg.stack| < STACK_SIZE then cfg.(stack := cfg.stack + [mode], state := state) else Dead
  }

  function Popped(cfg: Config, mode: Mode, state: State): Config
    requires cfg.Live?
  {
    if cfg.stack != [] && cfg.stack[|cfg.stack| - 1] == mode
    then cfg.(stack := cfg.stack[..|cfg.stack| - 1], state := state) else Dead
  }

  /** Replaces the mode on top of the stack. */
  function Flipped(cfg: Config, from: Mode, to: Mode, state: State): Config
    requires cfg.Live?
  {
    if cfg.stack != [] && cfg.stack[|cfg.stack| - 1] == from
    then cfg.(stack := cfg.stack[..|cfg.stack| - 1] + [to], state := state) else Dead
  }

  /** What one entry of the table does to a live configuration. */
  function Perform(cfg: Config, e: Entry): Config
    requires cfg.Live? && cfg.stack != []
  {
    var top := cfg.stack[|cfg.stack| - 1];
    match e
    case Goto(s) => cfg.(state := s)
    case EndEmptyObject => Popped(cfg, KeyMode, OK)
    case EndObject => Popped(cfg, ObjectMode, OK)
    case EndArray => Popped(cfg, ArrayMode, OK)
    case BeginObject => Pushed(cfg, KeyMode, OB)
    case BeginArray => Pushed(cfg, ArrayMode, AR)
    case EndString =>
      if top == KeyMode then cfg.(state := CO) else if top == DoneMode then Dead else cfg.(state := OK)
    case Separator =>
      var counted := cfg.(commas := (cfg.commas + 1) % TWO_TO_32);
      if top == ObjectMode then Flipped(counted, ObjectMode, KeyMode, KE)
      else if top == ArrayMode then counted.(state := VA)
      else Dead
    case KeyColon => Flipped(cfg, KeyMode, ObjectMode, VA)
    case Bad => Dead
  }

  /** One character; a negative code or an illegal character kills the checker. */
  function Step(cfg: Config, c: int): Config
    requires cfg.Live? ==> cfg.stack != []
  {
    if cfg.Dead? || c < 0 || ClassOf(c).Illegal? then Dead
    else Perform(cfg, Transition(cfg.state, ClassOf(c)))
  }

  /** The stack of a live checker: DoneMode at the bottom and nowhere else. */
  ghost predicate Sound(cfg: Config) {
    cfg.Live? ==>
      && 1 <= |cfg.stack| <= STACK_SIZE
      && cfg.stack[0] == DoneMode
      && forall i :: 1 <= i < |cfg.stack| ==> cfg.stack[i] != DoneMode
  }

  lemma StepSound(cfg: Config, c: int)
    requires Sound(cfg)
    ensures Sound(Step(cfg, c))
  {}

  /** Feeding a whole byte string to a checker. */
  ghost function Run(cfg: Config, s: bytes): (r: Config)
    requires Sound(cfg)
    ensures Sound(r)
  {
    if s == [] then cfg
    else
      var before := Run(cfg, s[..|s| - 1]);
      StepSound(before, s[|s| - 1]);
      Step(before, s[|s| - 1])
  }

  predicate Finished(cfg: Config) { cfg.Live? && cfg.state == OK && |cfg.stack| == 1 }

  class JsonChecker {
    var state: State
    var maxtop: int
    var top: int
    const stack: array<Mode>
    var reject: bool
    var commaCount: nat

    ghost predicate Valid()
      reads this, stack
    {
      && stack.Length == STACK_SIZE
      && -1 <= top <= STACK_SIZE
      && commaCount < TWO_TO_32
      && (!reject ==> 0 <= top < STACK_SIZE && Sound(View()))
    }

    /** The configuration the fields stand for. */
    ghost function View(): Config
      requires stack.Length == STACK_SIZE && (!reject ==> 0 <= top < STACK_SIZE)
      reads this, stack
    {
      if reject then Dead else Live(state, Contents(), commaCount)
    }

    ghost function Contents(): seq<Mode>
      requires stack.Length == STACK_SIZE && -1 <= top < STACK_SIZE
      reads this, stack
    {
      stack[..top + 1]
    }

    constructor ()
      ensures Valid() && fresh(stack)
      ensures View() == START
    {
      state, maxtop, top, reject, commaCount := GO, 0, -1, false, 0;
      stack := new Mode[STACK_SIZE](_ => ArrayMode);
      new;
      var pushed := Push(DoneMode);
    }

    method Push(mode: Mode) returns (ok: bool)
      requires stack.Length == STACK_SIZE && -1 <= top < STACK_SIZE
      modifies this`top, this`maxtop, stack
      ensures ok == (old(top) + 1 < STACK_SIZE)
      ensures top == old(top) + 1
      ensures ok ==> Contents() == old(Contents()) + [mode]
    {
      top := top + 1;
      if top >= STACK_SIZE {
        return false;
      }
      stack[top] := mode;
      if top > maxtop {
        maxtop := top;
      }
      return true;
    }

    method Pop(mode: Mode) returns (ok: bool)
      requires stack.Length == STACK_SIZE && -1 <= top < STACK_SIZE
      modifies this`top
      ensures ok == (old(top) >= 0 && stack[old(top)] == mode)
      ensures top == if ok then old(top) - 1 else old(top)
      ensures ok ==> Contents() == old(Contents())[..old(top)]
    {
      if top < 0 || stack[top] != mode {
        return false;
      }
      top := top - 1;
      return true;
    }

    /** A pop followed by a push, where a separator or a colon changes the mode. */
    method Flip(from: Mode, to: Mode) returns (ok: bool)
      requires stack.Length == STACK_SIZE && 0 <= top < STACK_SIZE
      modifies this`top, this`maxtop, stack
      ensures ok == (old(stack[top]) == from) && top == old(top)
      ensures ok ==> Contents() == old(Contents())[..top] + [to]
    {
      ok := Pop(from);
      if ok {
        ok := Push(to);
      }
    }

    /** Whether the text read so far is complete; meaningful while nothing was rejected. */
    method CheckIfDone() returns (done: bool)
      requires Valid()
      ensures !reject ==> (done <==> Finished(View()))
    {
      done := state == OK && top == 0;
    }

    method Close(mode: Mode) returns (ok: bool)
      requires Valid() && !reject && mode != DoneMode
      modifies this`state, this`top
      ensures -1 <= top <= STACK_SIZE && (ok <==> Popped(old(View()), mode, OK).Live?)
      ensures ok ==> 0 <= top < STACK_SIZE && View() == Popped(old(View()), mode, OK)
    {
      assert stack[0] == Contents()[0] == DoneMode && Contents()[top] == stack[top];
      hide Sound;
      ok := Pop(mode);
      state := if ok then OK else state;
    }

    method Open(mode: Mode, next: State) returns (ok: bool)
      requires Valid() && !reject
      modifies this`state, this`top, this`maxtop, stack
      ensures -1 <= top <= STACK_SIZE && (ok <==> Pushed(old(View()), mode, next).Live?)
      ensures ok ==> 0 <= top < STACK_SIZE && View() == Pushed(old(View()), mode, next)
    {
      hide Sound;
      ok := Push(mode);
      state := if ok then next else state;
    }

    method Turn(from: Mode, to: Mode, next: State) returns (ok: bool)
      requires Valid() && !reject
      modifies this`state, this`top, this`maxtop, stack
      ensures -1 <= top <= STACK_SIZE && (ok <==> Flipped(old(View()), from, to, next).Live?)
      ensures ok ==> 0 <= top < STACK_SIZE && View() == Flipped(old(View()), from, to, next)
    {
      assert Contents()[top] == stack[top];
      hide Sound;
      ok := Flip(from, to);
      state := if ok then next else state;
    }

    /** The switch on a table entry: `ok` is false where the original rejects. */
    method Act(e: Entry) returns (ok: bool)
      requires Valid() && !reject
      modifies this`state, this`top, this`maxtop, this`commaCount, stack
      ensures stack.Length == STACK_SIZE && -1 <= top <= STACK_SIZE && commaCount < TWO_TO_32
      ensures ok <==> Perform(old(View()), e).Live?
      ensures ok ==> 0 <= top < STACK_SIZE && View() == Perform(old(View()), e)
    {
      assert Contents()[top] == stack[top] && |Contents()| == top + 1;
      hide Contents, Popped, Pushed, Flipped, Sound;
      ok := true;
      match e {
        case Goto(s) =>
          state := s;
        case EndEmptyObject =>
          ok := Close(KeyMode);
        case EndObject =>
          ok := Close(ObjectMode);
        case EndArray =>
          ok := Close(ArrayMode);
        case BeginObject =>
          ok := Open(KeyMode, OB);
        case BeginArray =>
          ok := Open(ArrayMode, AR);
        case EndString =>
          match stack[top] {
            case KeyMode => state := CO;
            case ArrayMode => state := OK;
            case ObjectMode => state := OK;
            case DoneMode => ok := false;
          }
        case Separator =>
          commaCount := (commaCount + 1) % TWO_TO_32;
          match stack[top] {
            case ObjectMode => ok := Turn(ObjectMode, KeyMode, KE);
            case ArrayMode => state := VA;
            case _ => ok := false;
          }
        case KeyColon =>
          ok := Turn(KeyMode, ObjectMode, VA);
        case Bad =>
          ok := false;
      }
    }

    /** Returns 0 if the character is acceptable and -1 if the text is rejected. */
    method CheckChar(nextChar: int) returns (r: int)
      requires Valid()
      modifies this, stack
      ensures Valid()
      ensures View() == Step(old(View()), nextChar)
      ensures r == if View().Dead? then -1 else 0
    {
      if reject {
        return -1;
      }
      if nextChar < 0 {
        reject := true;
        return -1;
      }
      var nextClass := ClassOf(nextChar);
      if nextClass.Illegal? {
        reject := true;
        return -1;
      }
      StepSound(View(), nextChar);
      var ok := Act(Transition(state, nextClass));
      if !ok {
        reject := true;
        return -1;
      }
      return 0;
    }
  }
}
