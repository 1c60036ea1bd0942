/**
 The automaton's states, tokens and transition table, what one transition does to its stack, and the
 continuation that a configuration stands for: what the recursive parser would still do from there.
 */
module Automaton {
  import opened Json
  import opened Encodings
  import opened ReaderSpec

  datatype PState =
    | FinishState | ErrorState | StartState
    | ObjectInitialState | MemberKeyState | MemberValueState | ObjectFinishState
    | ArrayInitialState | ElementState | ArrayFinishState
    | ValueState
    | ElementDelimiterState | MemberDelimiterState | KeyValueDelimiterState
  {
    predicate IsDelimiter() {
      ElementDelimiterState? || MemberDelimiterState? || KeyValueDelimiterState?
    }

    predicate IsComplete() {
      FinishState? || ErrorState?
    }
  }

  datatype Token =
    | LeftBracketToken | RightBracketToken | LeftCurlyBracketToken | RightCurlyBracketToken
    | CommaToken | ColonToken
    | StringToken | FalseToken | TrueToken | NullToken | NumberToken
  {
    /** Tokens that are a whole value. */
    predicate IsScalar() {
      StringToken? || FalseToken? || TrueToken? || NullToken? || NumberToken?
    }
  }

  function Tokenize(c: Byte): Token {
    if c == QUOTE then StringToken
    else if c == COMMA then CommaToken
    else if c == COLON then ColonToken
    else if c == LBRACKET then LeftBracketToken
    else if c == RBRACKET then RightBracketToken
    else if c == LOWER_F then FalseToken
    else if c == LOWER_N then NullToken
    else if c == LOWER_T then TrueToken
    else if c == LBRACE then LeftCurlyBracketToken
    else if c == RBRACE then RightCurlyBracketToken
    else NumberToken
  }

  /** The state that one token of lookahead leads to. */
  function Predict(s: PState, t: Token): PState {
    match s
    case StartState =>
      if t.LeftBracketToken? then ArrayInitialState
      else if t.LeftCurlyBracketToken? then ObjectInitialState
      else if t.IsScalar() then ValueState
      else ErrorState
    case ObjectInitialState =>
      if t.RightCurlyBracketToken? then ObjectFinishState
      else if t.StringToken? then MemberKeyState
      else ErrorState
    case MemberKeyState =>
      if t.ColonToken? then KeyValueDelimiterState else ErrorState
    case MemberValueState =>
      if t.RightCurlyBracketToken? then ObjectFinishState
      else if t.CommaToken? then MemberDelimiterState
      else ErrorState
    case ArrayInitialState =>
      if t.LeftBracketToken? then ArrayInitialState
      else if t.RightBracketToken? then ArrayFinishState
      else if t.LeftCurlyBracketToken? then ObjectInitialState
      else if t.IsScalar() then ElementState
      else ErrorState
    case ElementState =>
      if t.RightBracketToken? then ArrayFinishState
      else if t.CommaToken? then ElementDelimiterState
      else ErrorState
    case ElementDelimiterState =>
      if t.LeftBracketToken? then ArrayInitialState
      else if t.RightBracketToken? then ArrayFinishState
      else if t.LeftCurlyBracketToken? then ObjectInitialState
      else if t.IsScalar() then ElementState
      else ErrorState
    case MemberDelimiterState =>
      if t.RightCurlyBracketToken? then ObjectFinishState
      else if t.StringToken? then MemberKeyState
      else ErrorState
    case KeyValueDelimiterState =>
      if t.LeftBracketToken? then ArrayInitialState
      else if t.LeftCurlyBracketToken? then ObjectInitialState
      else if t.IsScalar() then MemberValueState
      else ErrorState
    case FinishState | ErrorState | ObjectFinishState | ArrayFinishState | ValueState => ErrorState
  }

  /** One open array or object: the state to return to when it closes, and the delimiters passed in it. */
  datatype Frame = Frame(saved: PState, count: nat)

  datatype Config = Config(state: PState, stack: seq<Frame>, pos: nat, evs: seq<Event>)

  /** What a transition comes to: another configuration, or an error that it has set itself, or an error that
      is left to be named after the state (`Fail`). */
  datatype Step = Next(c: Config) | Stop(r: Outcome) | Fail(evs: seq<Event>)

  /** The error named after the state in which no transition exists. */
  function StateError(s: PState): ErrorCode {
    match s
    case StartState => DocumentEmpty
    case FinishState => DocumentRootNotSingular
    case ObjectInitialState | MemberDelimiterState => ObjectMissName
    case MemberKeyState => ObjectMissColon
    case MemberValueState => ObjectMissCommaOrCurlyBracket
    case KeyValueDelimiterState | ArrayInitialState | ElementDelimiterState => ValueInvalid
    case _ => ArrayMissCommaOrSquareBracket
  }

  /** States in which the automaton can be between two tokens. */
  predicate IsResting(s: PState) {
    !(s.ErrorState? || s.ObjectFinishState? || s.ArrayFinishState? || s.ValueState?)
  }

  /** The stack invariant: the bottom frame returns to the start state and every other one to the inside of the
      array or object below it. */
  predicate StackOk(s: PState, stack: seq<Frame>) {
    && IsResting(s)
    && ((s.StartState? || s.FinishState?) <==> stack == [])
    && (stack != [] ==> stack[0].saved.StartState?)
    && (s.ArrayInitialState? || s.ObjectInitialState? ==> stack[|stack| - 1].count == 0)
    && (forall i :: 1 <= i < |stack| ==> stack[i].saved.ElementState? || stack[i].saved.MemberValueState?)
  }

  predicate ConfigOk(input: Input, c: Config) {
    c.pos <= |input.src| && StackOk(c.state, c.stack)
  }

  function SavedFor(s: PState): PState {
    if s.ArrayInitialState? || s.ElementDelimiterState? then ElementState
    else if s.KeyValueDelimiterState? then MemberValueState
    else s
  }

  function FromOutcome(r: Outcome, s: PState, stack: seq<Frame>): Step {
    if r.Ok? then Next(Config(s, stack, r.pos, r.evs)) else Stop(r)
  }

  /** One transition to the predicted state `dst`, the stream being at the token. */
  function Transit(input: Input, c: Config, dst: PState): Step
    requires ConfigOk(input, c) && dst == Predict(c.state, Tokenize(input.Peek(c.pos)))
  {
    match dst
    case ErrorState => Fail(c.evs)
    case ObjectInitialState | ArrayInitialState =>
      var e := if dst.ObjectInitialState? then StartObject else StartArray;
      FromOutcome(input.Emit(c.evs, e, c.pos + 1, c.pos), dst, c.stack + [Frame(SavedFor(c.state), 0)])
    case MemberKeyState => FromOutcome(input.Str(c.pos, c.evs, true), dst, c.stack)
    case KeyValueDelimiterState => Next(Config(dst, c.stack, c.pos + 1, c.evs))
    case MemberValueState | ElementState => FromOutcome(input.Val(c.pos, c.evs), dst, c.stack)
    case MemberDelimiterState | ElementDelimiterState =>
      var top := c.stack[|c.stack| - 1];
      Next(Config(dst, c.stack[|c.stack| - 1 := top.(count := top.count + 1)], c.pos + 1, c.evs))
    case ObjectFinishState =>
      if !input.trailingCommas && c.state.MemberDelimiterState? then Stop(Err(ObjectMissName, c.pos, c.evs))
      else Close(input, c, c.state.MemberValueState?, true)
    case ArrayFinishState =>
      if !input.trailingCommas && c.state.ElementDelimiterState? then Stop(Err(ValueInvalid, c.pos, c.evs))
      else Close(input, c, c.state.ElementState?, false)
    case _ => FromOutcome(input.Val(c.pos, c.evs), FinishState, c.stack)
  }

  /** Pops the frame of an array or object; its last value is not counted yet if it was not followed by a
      delimiter. */
  function Close(input: Input, c: Config, countLast: bool, isObject: bool): Step
    requires ConfigOk(input, c) && c.stack != []
  {
    var top := c.stack[|c.stack| - 1];
    var n := if countLast then top.count + 1 else top.count;
    var s := if top.saved.StartState? then FinishState else top.saved;
    var e := if isObject then EndObject(n) else EndArray(n);
    FromOutcome(input.Emit(c.evs, e, c.pos + 1, c.pos), s, c.stack[..|c.stack| - 1])
  }

  // ------------------------------------------------------------ continuations

  /** What the recursive parser still does from a configuration: it finishes the innermost array or object, then
      goes on behind it in the one around it. */
  function Resume(input: Input, c: Config): Outcome
    requires ConfigOk(input, c)
    decreases |c.stack|
  {
    if c.state.StartState? then input.Document(c.pos, c.evs)
    else if c.state.FinishState? then input.AfterRoot(c.pos, c.evs)
    else
      var r := Inner(input, c);
      if r.Err? then r else Resume(input, Popped(c, r))
  }

  /** What is left of the innermost array or object. */
  function Inner(input: Input, c: Config): Outcome
    requires ConfigOk(input, c) && c.stack != []
  {
    var n := c.stack[|c.stack| - 1].count;
    if c.state.ObjectInitialState? then input.ObjectBody(c.pos, c.evs)
    else if c.state.MemberKeyState? then input.AfterKey(c.pos, n, c.evs)
    else if c.state.KeyValueDelimiterState? then input.AfterColon(c.pos, n, c.evs)
    else if c.state.MemberValueState? then input.AfterMember(c.pos, n + 1, c.evs)
    else if c.state.MemberDelimiterState? then input.AfterMemberComma(c.pos, n, c.evs)
    else if c.state.ArrayInitialState? then input.ArrayBody(c.pos, c.evs)
    else if c.state.ElementState? then input.AfterElement(c.pos, n + 1, c.evs)
    else input.AfterElementComma(c.pos, n, c.evs)
  }

  /** Behind the innermost array or object, which ended as `r`. */
  function Popped(c: Config, r: Outcome): (d: Config)
    requires StackOk(c.state, c.stack) && c.stack != [] && r.Ok?
    ensures StackOk(d.state, d.stack) && |d.stack| == |c.stack| - 1 && d.pos == r.pos
  {
    var top := c.stack[|c.stack| - 1];
    Config(if top.saved.StartState? then FinishState else top.saved, c.stack[..|c.stack| - 1], r.pos, r.evs)
  }

  predicate IsEnd(e: Event) {
    e.EndObject? || e.EndArray?
  }

  /** Where a handler refuses an event, how far behind the automaton the recursive parser reports it: it is behind
      the bracket of the event already, unless that is a closing one which follows a comma. */
  function Later(a: Outcome, comma: bool): nat
    requires a.Err?
  {
    if a.code != Termination || a.evs == [] then 0
    else
      var refused := a.evs[|a.evs| - 1];
      if refused.StartObject? || refused.StartArray? || (IsEnd(refused) && !comma) then 1 else 0
  }

  /** The recursive parser has the same error as the automaton, but for that offset. */
  predicate SameError(a: Outcome, b: Outcome, comma: bool) {
    a.Err? && b == a.(offset := a.offset + Later(a, comma))
  }

  predicate AfterComma(s: PState) {
    s.MemberDelimiterState? || s.ElementDelimiterState?
  }

  /** Tokens that no value starts with: at the very start of a text the automaton calls them an empty document,
      the recursive parser an invalid value. */
  predicate StartsBadly(t: Token) {
    t.RightBracketToken? || t.RightCurlyBracketToken? || t.CommaToken? || t.ColonToken?
  }

  lemma {:induction false} SkipWsTwice(input: Input, p: nat)
    requires p <= |input.src|
    ensures input.SkipWs(input.SkipWs(p)) == input.SkipWs(p)
  {
  }

  /** Whitespace between tokens does not change what follows. */
  lemma {:induction false} SkipWsKeepsResume(input: Input, c: Config)
    requires ConfigOk(input, c) && !(c.state.FinishState? && input.stopWhenDone)
    ensures Resume(input, c) == Resume(input, c.(pos := input.SkipWs(c.pos)))
  {
    SkipWsTwice(input, c.pos);
    if c.stack != [] {
      var d := c.(pos := input.SkipWs(c.pos));
      assert Inner(input, c) == Inner(input, d);
    }
  }

  /** A step leaves the rest of the parse as it was, or stops with the error that the rest of the parse comes to. */
  predicate StepRefines(input: Input, c: Config, step: Step)
    requires ConfigOk(input, c)
  {
    match step
    case Next(d) => ConfigOk(input, d) && Resume(input, d) == Resume(input, c)
    case Stop(r) => SameError(r, Resume(input, c), AfterComma(c.state))
    case Fail(evs) =>
      var bad := c.state.StartState? && StartsBadly(Tokenize(input.Peek(c.pos)));
      Resume(input, c) == Err(if bad then ValueInvalid else StateError(c.state), c.pos, evs)
  }

  /** States in which a value must come next. */
  predicate ExpectsValue(s: PState) {
    s.StartState? || s.ArrayInitialState? || s.ElementDelimiterState? || s.KeyValueDelimiterState?
  }

  /** The state behind that value. */
  function AfterValue(s: PState): PState {
    if s.StartState? then FinishState else SavedFor(s)
  }

  /** The rest of the parse, seen from where a value has been read or not. */
  function ThenResume(input: Input, s: PState, stack: seq<Frame>, r: Outcome): Outcome
    requires StackOk(s, stack) && (r.Ok? ==> r.pos <= |input.src|)
  {
    if r.Err? then r else Resume(input, Config(s, stack, r.pos, r.evs))
  }

  lemma {:induction false} InnerReadsValue(input: Input, c: Config)
    requires ConfigOk(input, c) && ExpectsValue(c.state) && c.stack != []
    requires !IsSpace(input.Peek(c.pos))
    requires (c.state.ArrayInitialState? || c.state.ElementDelimiterState?) ==> input.Peek(c.pos) != RBRACKET
    ensures var r := input.Val(c.pos, c.evs);
            Inner(input, c) == if r.Err? then r else Inner(input, Config(AfterValue(c.state), c.stack, r.pos, r.evs))
  {
    hide Input.Val, Input.AfterElement, Input.AfterMember;
    var n := c.stack[|c.stack| - 1].count;
    assert input.SkipWs(c.pos) == c.pos;
    if c.state.KeyValueDelimiterState? {
      assert Inner(input, c) == input.AfterColon(c.pos, n, c.evs);
    } else {
      assert Inner(input, c) == input.Elements(c.pos, n, c.evs);
    }
  }

  lemma {:induction false} ResumeReadsValue(input: Input, c: Config)
    requires ConfigOk(input, c) && ExpectsValue(c.state)
    requires !IsSpace(input.Peek(c.pos)) && (c.state.StartState? ==> input.Peek(c.pos) != NUL)
    requires (c.state.ArrayInitialState? || c.state.ElementDelimiterState?) ==> input.Peek(c.pos) != RBRACKET
    ensures Resume(input, c) == ThenResume(input, AfterValue(c.state), c.stack, input.Val(c.pos, c.evs))
  {
    var r := input.Val(c.pos, c.evs);
    if c.stack == [] {
      assert input.SkipWs(c.pos) == c.pos;
    } else {
      InnerReadsValue(input, c);
      if r.Ok? && Inner(input, c).Ok? {
        var d := Config(AfterValue(c.state), c.stack, r.pos, r.evs);
        assert Popped(c, Inner(input, c)) == Popped(d, Inner(input, d));
      }
    }
  }

  lemma {:induction false} OpenKeepsResume(input: Input, c: Config, dst: PState)
    requires ConfigOk(input, c) && ExpectsValue(c.state) && (dst.ObjectInitialState? || dst.ArrayInitialState?)
    requires input.Peek(c.pos) == (if dst.ObjectInitialState? then LBRACE else LBRACKET)
    ensures StepRefines(input, c, FromOutcome(
                input.Emit(c.evs, if dst.ObjectInitialState? then StartObject else StartArray, c.pos + 1, c.pos),
                dst, c.stack + [Frame(SavedFor(c.state), 0)]))
  {
    ResumeReadsValue(input, c);
    var v := input.Val(c.pos, c.evs);
    var e := if dst.ObjectInitialState? then StartObject else StartArray;
    var r := input.Emit(c.evs, e, c.pos + 1, c.pos);
    if r.Ok? {
      OpenedInner(input, c, dst, r);
    } else {
      assert v == input.Emit(c.evs, e, c.pos + 1, c.pos + 1);
    }
  }

  lemma {:induction false} OpenedInner(input: Input, c: Config, dst: PState, r: Outcome)
    requires ConfigOk(input, c) && ExpectsValue(c.state) && (dst.ObjectInitialState? || dst.ArrayInitialState?)
    requires input.Peek(c.pos) == (if dst.ObjectInitialState? then LBRACE else LBRACKET)
    requires r == input.Emit(c.evs, if dst.ObjectInitialState? then StartObject else StartArray, c.pos + 1, c.pos) && r.Ok?
    ensures var d := Config(dst, c.stack + [Frame(SavedFor(c.state), 0)], r.pos, r.evs);
            ConfigOk(input, d)
            && Resume(input, d) == ThenResume(input, AfterValue(c.state), c.stack, input.Val(c.pos, c.evs))
  {
    hide Input.Literal, Input.Str, Input.Number, Input.ArrayBody, Input.ObjectBody, Predict, Tokenize;
    var d := Config(dst, c.stack + [Frame(SavedFor(c.state), 0)], r.pos, r.evs);
    var v := input.Val(c.pos, c.evs);
    assert d.stack[..|d.stack| - 1] == c.stack;
    assert Inner(input, d) == v;
    if v.Ok? {
      assert Popped(d, v) == Config(AfterValue(c.state), c.stack, v.pos, v.evs);
    }
  }

  lemma {:induction false} CloseKeepsResume(input: Input, c: Config, countLast: bool, isObject: bool)
    requires ConfigOk(input, c) && c.stack != []
    requires input.Peek(c.pos) == (if isObject then RBRACE else RBRACKET)
    requires if isObject
             then c.state.ObjectInitialState? || c.state.MemberValueState? || (c.state.MemberDelimiterState? && input.trailingCommas)
             else c.state.ArrayInitialState? || c.state.ElementState? || (c.state.ElementDelimiterState? && input.trailingCommas)
    requires countLast == (c.state.MemberValueState? || c.state.ElementState?)
    ensures StepRefines(input, c, Close(input, c, countLast, isObject))
  {
    hide Inner;
    InnerCloses(input, c, countLast, isObject);
  }

  lemma {:induction false} InnerCloses(input: Input, c: Config, countLast: bool, isObject: bool)
    requires ConfigOk(input, c) && c.stack != []
    requires input.Peek(c.pos) == (if isObject then RBRACE else RBRACKET)
    requires if isObject
             then c.state.ObjectInitialState? || c.state.MemberValueState? || (c.state.MemberDelimiterState? && input.trailingCommas)
             else c.state.ArrayInitialState? || c.state.ElementState? || (c.state.ElementDelimiterState? && input.trailingCommas)
    requires countLast == (c.state.MemberValueState? || c.state.ElementState?)
    ensures var n := if countLast then c.stack[|c.stack| - 1].count + 1 else c.stack[|c.stack| - 1].count;
            Inner(input, c)
            == input.Emit(c.evs, if isObject then EndObject(n) else EndArray(n), c.pos + 1, if AfterComma(c.state) then c.pos else c.pos + 1)
  {
    hide Input.Val, Input.Members, Input.Elements;
    assert input.SkipWs(c.pos) == c.pos;
  }

  lemma {:induction false} SameInnerSameResume(input: Input, c: Config, d: Config)
    requires ConfigOk(input, c) && ConfigOk(input, d) && c.stack != [] && |d.stack| == |c.stack|
    requires d.stack[..|d.stack| - 1] == c.stack[..|c.stack| - 1]
    requires d.stack[|d.stack| - 1].saved == c.stack[|c.stack| - 1].saved
    requires Inner(input, c) == Inner(input, d)
    ensures Resume(input, c) == Resume(input, d)
  {
    var r := Inner(input, c);
    if r.Ok? {
      assert Popped(c, r) == Popped(d, r);
    }
  }

  lemma {:induction false} KeyRefines(input: Input, c: Config)
    requires ConfigOk(input, c) && (c.state.ObjectInitialState? || c.state.MemberDelimiterState?)
    requires input.Peek(c.pos) == QUOTE
    ensures StepRefines(input, c, FromOutcome(input.Str(c.pos, c.evs, true), MemberKeyState, c.stack))
  {
    var n := c.stack[|c.stack| - 1].count;
    assert input.SkipWs(c.pos) == c.pos;
    assert Inner(input, c) == input.Members(c.pos, n, c.evs);
    var r := input.Str(c.pos, c.evs, true);
    StringRefused(input, c.pos, c.evs, true);
    if r.Ok? {
      SameInnerSameResume(input, c, Config(MemberKeyState, c.stack, r.pos, r.evs));
    }
  }

  lemma {:induction false} DelimiterRefines(input: Input, c: Config, dst: PState)
    requires ConfigOk(input, c) && dst.IsDelimiter() && dst == Predict(c.state, Tokenize(input.Peek(c.pos)))
    ensures StepRefines(input, c, Transit(input, c, dst))
  {
    var top := c.stack[|c.stack| - 1];
    var d := Transit(input, c, dst).c;
    assert input.SkipWs(c.pos) == c.pos;
    if dst.KeyValueDelimiterState? {
      assert Inner(input, c) == input.AfterKey(c.pos, top.count, c.evs);
    } else if dst.MemberDelimiterState? {
      assert Inner(input, c) == input.AfterMember(c.pos, top.count + 1, c.evs);
    } else {
      assert Inner(input, c) == input.AfterElement(c.pos, top.count + 1, c.evs);
    }
    SameInnerSameResume(input, c, d);
  }

  lemma {:induction false} InnerStops(input: Input, c: Config)
    requires ConfigOk(input, c) && c.stack != [] && !ExpectsValue(c.state)
    requires Predict(c.state, Tokenize(input.Peek(c.pos))).ErrorState? && !IsSpace(input.Peek(c.pos))
    ensures Inner(input, c) == Err(StateError(c.state), c.pos, c.evs)
  {
    var n := c.stack[|c.stack| - 1].count;
    assert input.SkipWs(c.pos) == c.pos;
    if c.state.ObjectInitialState? || c.state.MemberDelimiterState? {
      assert Inner(input, c) == input.Members(c.pos, n, c.evs);
    } else if c.state.MemberValueState? {
      assert Inner(input, c) == input.AfterMember(c.pos, n + 1, c.evs);
    } else if c.state.ElementState? {
      assert Inner(input, c) == input.AfterElement(c.pos, n + 1, c.evs);
    }
  }

  /** No transition: the rest of the parse stops right here too, with the error named after the state. */
  lemma {:induction false} FailRefines(input: Input, c: Config)
    requires ConfigOk(input, c) && Predict(c.state, Tokenize(input.Peek(c.pos))).ErrorState?
    requires !IsSpace(input.Peek(c.pos)) && !(c.state.FinishState? && (input.stopWhenDone || input.Peek(c.pos) == NUL))
    ensures StepRefines(input, c, Fail(c.evs))
  {
    assert input.SkipWs(c.pos) == c.pos;
    if c.state.StartState? || c.state.ArrayInitialState? || c.state.ElementDelimiterState? || c.state.KeyValueDelimiterState? {
      assert StartsBadly(Tokenize(input.Peek(c.pos)));
      assert input.Val(c.pos, c.evs) == Err(ValueInvalid, c.pos, c.evs);
      ResumeReadsValue(input, c);
    } else if c.stack != [] {
      InnerStops(input, c);
    }
  }

  /** Behind the last token, the rest of the parse is the end of the text or the error named after the state. */
  lemma {:induction false} EndRefines(input: Input, c: Config)
    requires ConfigOk(input, c) && input.Peek(c.pos) == NUL
    ensures Resume(input, c) == if c.state.FinishState? then Ok(c.pos, c.evs) else Err(StateError(c.state), c.pos, c.evs)
  {
    assert input.SkipWs(c.pos) == c.pos;
    if c.state.ArrayInitialState? || c.state.ElementDelimiterState? || c.state.KeyValueDelimiterState? {
      assert input.Val(c.pos, c.evs) == Err(ValueInvalid, c.pos, c.evs);
      ResumeReadsValue(input, c);
    } else if c.stack != [] {
      InnerStops(input, c);
    }
  }

  /** Trailing commas that the flags do not allow. */
  lemma {:induction false} TrailingCommaRefines(input: Input, c: Config)
    requires ConfigOk(input, c) && !input.trailingCommas
    requires || (c.state.MemberDelimiterState? && input.Peek(c.pos) == RBRACE)
             || (c.state.ElementDelimiterState? && input.Peek(c.pos) == RBRACKET)
    ensures StepRefines(input, c, Stop(Err(if c.state.MemberDelimiterState? then ObjectMissName else ValueInvalid, c.pos, c.evs)))
  {
    var n := c.stack[|c.stack| - 1].count;
    assert input.SkipWs(c.pos) == c.pos;
    if c.state.MemberDelimiterState? {
      assert Inner(input, c) == input.Members(c.pos, n, c.evs);
    } else {
      assert Inner(input, c) == input.Elements(c.pos, n, c.evs);
      assert input.Val(c.pos, c.evs) == Err(ValueInvalid, c.pos, c.evs);
    }
  }

  /** The simulation: every transition of the automaton refines the recursive parse. */
  lemma {:induction false} TransitRefines(input: Input, c: Config)
    requires ConfigOk(input, c) && !IsSpace(input.Peek(c.pos))
    requires input.Peek(c.pos) == NUL ==> !c.state.StartState?
    requires !(c.state.FinishState? && (input.stopWhenDone || input.Peek(c.pos) == NUL))
    ensures StepRefines(input, c, Transit(input, c, Predict(c.state, Tokenize(input.Peek(c.pos)))))
  {
    hide StepRefines, Input.Val, Input.Str;
    var dst := Predict(c.state, Tokenize(input.Peek(c.pos)));
    match dst {
      case ErrorState => FailRefines(input, c);
      case ObjectInitialState | ArrayInitialState => OpenKeepsResume(input, c, dst);
      case MemberKeyState => KeyRefines(input, c);
      case KeyValueDelimiterState | MemberDelimiterState | ElementDelimiterState => DelimiterRefines(input, c, dst);
      case ObjectFinishState =>
        if !input.trailingCommas && c.state.MemberDelimiterState? {
          TrailingCommaRefines(input, c);
        } else {
          CloseKeepsResume(input, c, c.state.MemberValueState?, true);
        }
      case ArrayFinishState =>
        if !input.trailingCommas && c.state.ElementDelimiterState? {
          TrailingCommaRefines(input, c);
        } else {
          CloseKeepsResume(input, c, c.state.ElementState?, false);
        }
      case _ => ScalarRefines(input, c);
    }
  }

  lemma {:induction false} ScalarRefines(input: Input, c: Config)
    requires ConfigOk(input, c) && ExpectsValue(c.state) && Tokenize(input.Peek(c.pos)).IsScalar()
    requires !IsSpace(input.Peek(c.pos)) && (input.Peek(c.pos) == NUL ==> !c.state.StartState?)
    ensures StepRefines(input, c, FromOutcome(input.Val(c.pos, c.evs), AfterValue(c.state), c.stack))
  {
    hide Input.Val;
    ResumeReadsValue(input, c);
    ScalarRefused(input, c.pos, c.evs);
  }

  /** A string that cannot be read is not one that was refused. */
  lemma {:induction false} MisreadIsNotRefused(input: Input, p: nat, text: Bytes)
    requires p <= |input.src|
    ensures input.ScanString(p, text).StrErr? ==> input.ScanString(p, text).code != Termination
    decreases |input.src| - p
  {
    var c := input.Peek(p);
    if c == BACKSLASH {
      var e := input.Peek(p + 1);
      if Unescape(e) != 0 {
        MisreadIsNotRefused(input, p + 2, text + [Unescape(e)]);
      } else if e == LOWER_U && input.UnicodeEscape(p).Escaped? {
        var u := input.UnicodeEscape(p);
        MisreadIsNotRefused(input, u.end, text + EncodeUtf8(u.codepoint));
      }
    } else if c != QUOTE && c >= 0x20 {
      MisreadIsNotRefused(input, p + 1, text + [c]);
    }
  }

  /** A string or name that is refused was the last event. */
  lemma {:induction false} StringRefused(input: Input, p: nat, evs: seq<Event>, isKey: bool)
    requires p < |input.src|
    ensures var r := input.Str(p, evs, isKey);
            r.Err? && r.code == Termination ==> r.evs != [] && (r.evs[|r.evs| - 1].Key? || r.evs[|r.evs| - 1].String?)
  {
    hide Input.ScanString;
    MisreadIsNotRefused(input, p + 1, []);
  }

  /** So it is with every value without brackets. */
  lemma {:induction false} ScalarRefused(input: Input, p: nat, evs: seq<Event>)
    requires p <= |input.src| && Tokenize(input.Peek(p)).IsScalar()
    ensures var r := input.Val(p, evs);
            r.Err? && r.code == Termination ==> r.evs != [] && IsScalar(r.evs[|r.evs| - 1])
  {
    hide Input.Str, Input.Match, Input.Number;
    if input.Peek(p) == QUOTE {
      StringRefused(input, p, evs, false);
      assert input.Val(p, evs) == input.Str(p, evs, false);
      StringIsScalar(input, p, evs);
    } else {
      NumberRefused(input, p, evs);
    }
  }

  lemma {:induction false} NumberRefused(input: Input, p: nat, evs: seq<Event>)
    requires p <= |input.src|
    ensures var r := input.Number(p, evs);
            r.Err? && r.code == Termination ==> r.evs != [] && IsScalar(r.evs[|r.evs| - 1])
  {
    hide Input.NumberAt;
    NumberCode(input, p);
  }

  lemma {:induction false} NumberCode(input: Input, p: nat)
    requires p <= |input.src|
    ensures input.NumberAt(p).NumErr? ==> input.NumberAt(p).code != Termination
  {
    hide Decimal, Input.DigitsEnd, Input.FractionAt, Input.DigitsValue, IntegerEvent, FitsInt;
  }

  lemma {:induction false} StringIsScalar(input: Input, p: nat, evs: seq<Event>)
    requires p < |input.src|
    ensures var r := input.Str(p, evs, false);
            r.Err? && r.code == Termination ==> r.evs != [] && r.evs[|r.evs| - 1].String?
  {
    hide Input.ScanString;
    MisreadIsNotRefused(input, p + 1, []);
  }

  // ------------------------------------------------------------ where a refused closing bracket stands

  /** The last byte before `p` that is not whitespace is a comma. */
  ghost predicate BehindComma(input: Input, p: nat) {
    exists q :: 0 <= q < p <= |input.src| && input.src[q] == COMMA && forall k :: q < k < p ==> IsSpace(input.src[k])
  }

  /** Inside an array or object, where a closing bracket may be read, the state tells. */
  ghost predicate CommaOk(input: Input, c: Config) {
    && (AfterComma(c.state) ==> BehindComma(input, c.pos))
    && (MayClose(c.state) ==> !BehindComma(input, c.pos))
  }

  predicate MayClose(s: PState) {
    s.ObjectInitialState? || s.ArrayInitialState? || s.MemberValueState? || s.ElementState?
  }

  lemma {:induction false} SpaceKeepsComma(input: Input, p: nat)
    requires p <= |input.src|
    ensures BehindComma(input, p) <==> BehindComma(input, input.SkipWs(p))
    decreases |input.src| - p
  {
    if p < |input.src| && IsSpace(input.src[p]) {
      SpaceKeepsComma(input, p + 1);
      if q :| 0 <= q < p <= |input.src| && input.src[q] == COMMA && forall k :: q < k < p ==> IsSpace(input.src[k]) {
        assert forall k :: q < k < p + 1 ==> IsSpace(input.src[k]);
      }
      if q :| 0 <= q < p + 1 <= |input.src| && input.src[q] == COMMA && forall k :: q < k < p + 1 ==> IsSpace(input.src[k]) {
        assert q != p;
      }
    }
  }

  lemma {:induction false} SpaceKeepsCommaOk(input: Input, c: Config)
    requires c.pos <= |input.src| && CommaOk(input, c)
    ensures CommaOk(input, c.(pos := input.SkipWs(c.pos)))
  {
    hide BehindComma;
    SpaceKeepsComma(input, c.pos);
  }

  lemma {:induction false} NotBehindComma(input: Input, p: nat)
    requires 0 < p <= |input.src| && input.src[p - 1] != COMMA && !IsSpace(input.src[p - 1])
    ensures !BehindComma(input, p)
  {
  }

  lemma {:induction false} RightBehindComma(input: Input, p: nat)
    requires 0 < p <= |input.src| && input.src[p - 1] == COMMA
    ensures BehindComma(input, p)
  {
    var q := p - 1;
    assert input.src[q] == COMMA;
  }

  lemma {:induction false} StringEndsWithQuote(input: Input, p: nat, text: Bytes)
    requires p <= |input.src| && input.ScanString(p, text).StrOk?
    ensures input.src[input.ScanString(p, text).end - 1] == QUOTE
    decreases |input.src| - p
  {
    var c := input.Peek(p);
    if c == BACKSLASH {
      var e := input.Peek(p + 1);
      if Unescape(e) != 0 {
        StringEndsWithQuote(input, p + 2, text + [Unescape(e)]);
      } else {
        var u := input.UnicodeEscape(p);
        StringEndsWithQuote(input, u.end, text + EncodeUtf8(u.codepoint));
      }
    } else if c != QUOTE {
      StringEndsWithQuote(input, p + 1, text + [c]);
    }
  }

  lemma {:induction false} DigitsEndWithDigit(input: Input, p: nat)
    requires p < |input.src| && IsDigit(input.src[p])
    ensures p < input.DigitsEnd(p) && IsDigit(input.src[input.DigitsEnd(p) - 1])
  {
    var q := input.DigitsEnd(p);
    assert input.DigitsEnd(p) == input.DigitsEnd(p + 1);
    assert input.src[p..q][q - 1 - p] == input.src[q - 1];
  }

  lemma {:induction false} NumberEndsWithDigit(input: Input, p: nat)
    requires p <= |input.src| && input.NumberAt(p).NumOk?
    ensures IsDigit(input.src[input.NumberAt(p).end - 1])
  {
    hide Input.DigitsEnd, Input.AfterInteger;
    var minus := input.Peek(p) == MINUS;
    var q := if minus then p + 1 else p;
    DigitsEndWithDigit(input, q);
    IntegerEndsWithDigit(input, p, minus, q, if input.Peek(q) == DIGIT_0 then q + 1 else input.DigitsEnd(q));
  }

  lemma {:induction false} IntegerEndsWithDigit(input: Input, p: nat, minus: bool, q: nat, r: nat)
    requires p <= q < r <= |input.src| && AllDigits(input.src[q..r]) && input.AfterInteger(p, minus, q, r).NumOk?
    ensures IsDigit(input.src[input.AfterInteger(p, minus, q, r).end - 1])
  {
    hide Decimal, FitsInt, Input.FractionAt, Input.DigitsEnd, Input.AfterFraction;
    assert input.src[q..r][r - 1 - q] == input.src[r - 1];
    if input.Peek(r) == DOT {
      DigitsEndWithDigit(input, r + 1);
      var n := Decimal(input.src[q..r]);
      FractionEndsWithDigit(input, p, input.DigitsEnd(r + 1),
                            if FitsInt(minus, n) then input.FractionAt(r + 1, n, r - q - 1).expFrac else 0, Double([]));
    } else {
      FractionEndsWithDigit(input, p, r, 0, IntegerEvent(minus, Decimal(input.src[q..r])));
    }
  }

  lemma {:induction false} FractionEndsWithDigit(input: Input, p: nat, r: nat, expFrac: int, e: Event)
    requires p < r <= |input.src| && IsScalar(e) && IsDigit(input.src[r - 1]) && input.AfterFraction(p, r, expFrac, e).NumOk?
    ensures IsDigit(input.src[input.AfterFraction(p, r, expFrac, e).end - 1])
  {
    hide Input.DigitsEnd, Input.DigitsValue;
    ExponentEndsWithDigit(input, r);
  }

  /** If there is an exponent at `r`. */
  lemma {:induction false} ExponentEndsWithDigit(input: Input, r: nat)
    ensures var x := if input.Peek(r + 1) == PLUS || input.Peek(r + 1) == MINUS then r + 2 else r + 1;
            IsDigit(input.Peek(x)) ==> IsDigit(input.src[input.DigitsEnd(x) - 1])
  {
    var x := if input.Peek(r + 1) == PLUS || input.Peek(r + 1) == MINUS then r + 2 else r + 1;
    if IsDigit(input.Peek(x)) {
      DigitsEndWithDigit(input, x);
    }
  }

  lemma {:induction false} WordEnds(input: Input, p: nat, word: Bytes)
    requires word != [] && (forall i :: 0 <= i < |word| ==> word[i] != NUL) && input.Match(p, word) == p + |word|
    ensures p + |word| <= |input.src| && input.src[p + |word| - 1] == word[|word| - 1]
    decreases |word|
  {
    if |word| > 1 {
      WordEnds(input, p + 1, word[1..]);
    } else {
      assert input.Match(p + 1, word[1..]) == p + 1;
    }
  }

  /** A value without brackets ends with a byte that is neither a comma nor whitespace. */
  lemma {:induction false} ScalarEnds(input: Input, p: nat, evs: seq<Event>)
    requires p <= |input.src| && Tokenize(input.Peek(p)).IsScalar() && input.Val(p, evs).Ok?
    ensures !BehindComma(input, input.Val(p, evs).pos)
  {
    hide Input.NumberAt, Input.ScanString, Input.Match, BehindComma;
    var c, r := input.Peek(p), input.Val(p, evs);
    if c == LOWER_N {
      WordEnds(input, p + 1, NULL_TAIL);
    } else if c == LOWER_T {
      WordEnds(input, p + 1, TRUE_TAIL);
    } else if c == LOWER_F {
      WordEnds(input, p + 1, FALSE_TAIL);
    } else if c == QUOTE {
      StringEndsWithQuote(input, p + 1, []);
    } else {
      NumberEndsWithDigit(input, p);
    }
    NotBehindComma(input, r.pos);
  }

  /** Transitions keep what the state tells of commas. */
  lemma {:induction false} TransitKeepsComma(input: Input, c: Config)
    requires ConfigOk(input, c)
    ensures match Transit(input, c, Predict(c.state, Tokenize(input.Peek(c.pos)))) case Next(d) => CommaOk(input, d) case _ => true
  {
    hide BehindComma, Input.Val, Input.Str;
    var dst := Predict(c.state, Tokenize(input.Peek(c.pos)));
    match dst {
      case MemberValueState | ElementState =>
        if input.Val(c.pos, c.evs).Ok? {
          ScalarEnds(input, c.pos, c.evs);
        }
      case MemberDelimiterState | ElementDelimiterState =>
        RightBehindComma(input, c.pos + 1);
      case ObjectInitialState | ArrayInitialState | ObjectFinishState | ArrayFinishState =>
        NotBehindComma(input, c.pos + 1);
      case _ =>
    }
  }

  /** A closing bracket that is refused stands where the transition began. */
  lemma {:induction false} RefusedEnd(input: Input, c: Config)
    requires ConfigOk(input, c) && CommaOk(input, c)
    ensures match Transit(input, c, Predict(c.state, Tokenize(input.Peek(c.pos))))
            case Stop(r) => Later(r, BehindComma(input, r.offset)) == Later(r, AfterComma(c.state))
            case _ => true
  {
    hide BehindComma, Input.Val, Input.Str;
    var dst := Predict(c.state, Tokenize(input.Peek(c.pos)));
    match dst {
      case MemberValueState | ElementState | ValueState => ScalarRefused(input, c.pos, c.evs);
      case MemberKeyState => StringRefused(input, c.pos, c.evs, true);
      case _ =>
    }
  }

  /** A transition that is not a delimiter sends exactly one event. */
  lemma {:induction false} TransitSendsOneEvent(input: Input, c: Config)
    requires ConfigOk(input, c)
    requires Transit(input, c, Predict(c.state, Tokenize(input.Peek(c.pos)))).Next?
    ensures var dst := Predict(c.state, Tokenize(input.Peek(c.pos)));
            var d := Transit(input, c, dst).c;
            && d.pos > c.pos
            && (if dst.IsDelimiter() then d.evs == c.evs
                else |d.evs| == |c.evs| + 1 && d.evs[..|c.evs|] == c.evs)
  {
    hide Input.Val, Input.ScanString, Tokenize;
    var dst := Predict(c.state, Tokenize(input.Peek(c.pos)));
    if dst.MemberValueState? || dst.ElementState? || dst.ValueState? {
      ScalarSendsOneEvent(input, c.pos, c.evs);
    }
  }

  lemma {:induction false} ScalarSendsOneEvent(input: Input, p: nat, evs: seq<Event>)
    requires p <= |input.src| && Tokenize(input.Peek(p)).IsScalar() && input.Val(p, evs).Ok?
    ensures |input.Val(p, evs).evs| == |evs| + 1 && input.Val(p, evs).evs[..|evs|] == evs
  {
  }

  /** A transition takes at least a byte and never leads back to the start. */
  lemma {:induction false} TransitMovesOn(input: Input, c: Config)
    requires ConfigOk(input, c)
    ensures var n := Predict(c.state, Tokenize(input.Peek(c.pos)));
            match Transit(input, c, n)
            case Next(d) =>
              c.pos < d.pos && !d.state.StartState? && d.state != ErrorState
              && (c.state.StartState? ==> !StartsBadly(Tokenize(input.Peek(c.pos))))
              && (n.IsDelimiter() ==> !d.state.IsComplete())
            case Fail(evs) => evs == c.evs
            case Stop(_) => c.state.StartState? ==> !StartsBadly(Tokenize(input.Peek(c.pos)))
  {
  }
}
