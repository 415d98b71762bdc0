/**
 The reader of src/json_reader.c as a pushdown automaton on values: the last token kind, the
 stack of open containers and the bytes not yet consumed determine the next step.
 */
module JsonAutomaton {
  import opened Common
  import opened JsonLexical
  import opened JsonGrammar

  /** JSON_MAX_NESTING_DEPTH */
  const MAX_DEPTH := 64

  datatype Container = InArray | InObject

  /** The open containers, outermost first. */
  type Stack = seq<Container>

  /** `isComplex` is set once the first token opens a container. */
  datatype State = State(kind: Kind, stack: Stack, isComplex: bool, rest: bytes)

  datatype StepResult = Next(token: Token, state: State) | Stop(result: Result)

  function Init(json: bytes): State {
    State(NoToken, [], false, json)
  }

  function Emit(s: State, token: Token, stack: Stack, rest: bytes): StepResult {
    Next(token, State(token.kind, stack, s.isComplex, rest))
  }

  function Open(s: State, token: Token, item: Container, rest: bytes): (r: StepResult)
    requires rest != []
    ensures r.Next? ==> |r.state.rest| < |rest| && r.token.kind == r.state.kind
    ensures r.Stop? ==> r.result != Ok
  {
    if |s.stack| >= MAX_DEPTH then Stop(NestingOverflow) else Emit(s, token, s.stack + [item], rest[1..])
  }

  function Close(s: State, token: Token, item: Container, rest: bytes): (r: StepResult)
    requires rest != []
    ensures r.Next? ==> |r.state.rest| < |rest| && r.token.kind == r.state.kind
    ensures r.Stop? ==> r.result != Ok
  {
    if s.stack == [] || s.stack[|s.stack| - 1] != item then Stop(UnexpectedChar)
    else Emit(s, token, s.stack[..|s.stack| - 1], rest[1..])
  }

  function ReadString(s: State, rest: bytes): (r: StepResult)
    requires rest != []
    ensures r.Next? ==> |r.state.rest| < |rest| && r.token.kind == r.state.kind
    ensures r.Stop? ==> r.result != Ok
  {
    match ScanBody(rest[1..])
    case Bad(error) => Stop(error)
    case Found(n, escaped) => Emit(s, Token(StringToken, rest[1..][..n], escaped), s.stack, rest[1..][n + 1..])
  }

  function ReadName(s: State, rest: bytes): (r: StepResult)
    requires rest != []
    ensures r.Next? ==> |r.state.rest| < |rest| && r.token.kind == r.state.kind
    ensures r.Stop? ==> r.result != Ok
  {
    match ScanBody(rest[1..])
    case Bad(error) => Stop(error)
    case Found(n, escaped) =>
      var after := SkipBlank(rest[1..][n + 1..]);
      if after == [] then Stop(UnexpectedEnd)
      else if after[0] != COLON then Stop(UnexpectedChar)
      else Emit(s, Token(PropertyName, rest[1..][..n], escaped), s.stack, after[1..])
  }

  predicate IsNumberDelimiter(c: byte) {
    c == COMMA || c == RIGHT_BRACE || c == RIGHT_BRACKET || IsBlankByte(c)
  }

  function ReadNumber(s: State, rest: bytes): (r: StepResult)
    requires rest != []
    ensures r.Next? ==> |r.state.rest| < |rest| && r.token.kind == r.state.kind
    ensures r.Stop? ==> r.result != Ok
  {
    match ScanNumber(rest)
    case None => Stop(UnexpectedChar)
    case Some(n) =>
      if n < |rest| && !IsNumberDelimiter(rest[n]) then Stop(UnexpectedChar)
      else if n == |rest| && s.isComplex then Stop(UnexpectedEnd)
      else Emit(s, Token(NumberToken, rest[..n], false), s.stack, rest[n..])
  }

  function ReadLiteral(s: State, kind: Kind, literal: bytes, rest: bytes): (r: StepResult)
    requires literal != []
    ensures r.Next? ==> |r.state.rest| < |rest| && r.token.kind == r.state.kind
    ensures r.Stop? ==> r.result != Ok
  {
    if |rest| < |literal| then Stop(UnexpectedEnd)
    else if rest[..|literal|] != literal then Stop(UnexpectedChar)
    else Emit(s, Token(kind, literal, false), s.stack, rest[|literal|..])
  }

  function ReadValue(s: State, rest: bytes): (r: StepResult)
    requires rest != []
    ensures r.Next? ==> |r.state.rest| < |rest| && r.token.kind == r.state.kind
    ensures r.Stop? ==> r.result != Ok
  {
    var first := rest[0];
    if first == QUOTE then ReadString(s, rest)
    else if first == LEFT_BRACE then Open(s, BEGIN_OBJECT, InObject, rest)
    else if first == LEFT_BRACKET then Open(s, BEGIN_ARRAY, InArray, rest)
    else if IsDigit(first) || first == MINUS then ReadNumber(s, rest)
    else if first == 0x74 then ReadLiteral(s, TrueToken, TRUE_TEXT, rest)
    else if first == 0x66 then ReadLiteral(s, FalseToken, FALSE_TEXT, rest)
    else if first == 0x6E then ReadLiteral(s, NullToken, NULL_TEXT, rest)
    else Stop(UnexpectedChar)
  }

  function ReadAfterValue(s: State, rest: bytes): (r: StepResult)
    requires rest != []
    ensures r.Next? ==> |r.state.rest| < |rest| && r.token.kind == r.state.kind
    ensures r.Stop? ==> r.result != Ok
  {
    if s.stack == [] then Stop(UnexpectedChar)
    else if rest[0] == COMMA then
      var after := SkipBlank(rest[1..]);
      if after == [] then Stop(UnexpectedEnd)
      else if s.stack[|s.stack| - 1] == InArray then ReadValue(s, after)
      else if after[0] != QUOTE then Stop(UnexpectedChar)
      else ReadName(s, after)
    else if rest[0] == RIGHT_BRACE then Close(s, END_OBJECT, InObject, rest)
    else if rest[0] == RIGHT_BRACKET then Close(s, END_ARRAY, InArray, rest)
    else Stop(UnexpectedChar)
  }

  function ReadFirst(s: State, rest: bytes): (r: StepResult)
    requires rest != []
    ensures r.Next? ==> |r.state.rest| < |rest| && r.token.kind == r.state.kind
    ensures r.Stop? ==> r.result != Ok
  {
    ReadValue(s.(isComplex := s.isComplex || rest[0] == LEFT_BRACE || rest[0] == LEFT_BRACKET), rest)
  }

  /** One call of json_reader_next_token. Every successful step consumes at least one byte. */
  function Step(s: State): (r: StepResult)
    ensures r.Next? ==> |r.state.rest| < |s.rest| && r.token.kind == r.state.kind
    ensures r.Stop? ==> r.result != Ok
  {
    var rest := SkipBlank(s.rest);
    if rest == [] then
      Stop(if s.kind == NoToken || s.stack != [] then UnexpectedEnd else ReaderDone)
    else
      match s.kind
      case NoToken => ReadFirst(s, rest)
      case BeginObject =>
        if rest[0] == RIGHT_BRACE then Close(s, END_OBJECT, InObject, rest)
        else if rest[0] != QUOTE then Stop(UnexpectedChar)
        else ReadName(s, rest)
      case BeginArray =>
        if rest[0] == RIGHT_BRACKET then Close(s, END_ARRAY, InArray, rest)
        else ReadValue(s, rest)
      case PropertyName => ReadValue(s, rest)
      case _ => ReadAfterValue(s, rest)
  }

  /** Reading is done only at the end of the buffer, outside all containers and behind a token. */
  lemma {:induction false} StepDone(s: State)
    requires Step(s) == Stop(ReaderDone)
    ensures SkipBlank(s.rest) == [] && s.stack == [] && s.kind != NoToken
  {
    hide ScanNumber, SkipBlank;
  }

  lemma {:induction false} ValueFromContainers(s: State, s': State, t: bytes)
    requires t != [] && s.stack == s'.stack && s.isComplex == s'.isComplex
    ensures ReadValue(s, t) == ReadValue(s', t)
  {
    hide ScanNumber, SkipBlank, ScanBody;
  }

  lemma {:induction false} NameFromContainers(s: State, s': State, t: bytes)
    requires t != [] && s.stack == s'.stack && s.isComplex == s'.isComplex
    ensures ReadName(s, t) == ReadName(s', t)
  {
    hide ScanNumber, SkipBlank, ScanBody;
  }

  /** The readers of single tokens look at the containers, not at where the token starts. */
  lemma {:induction false} ReadsFromContainers(s: State, s': State, t: bytes)
    requires t != [] && s.stack == s'.stack && s.isComplex == s'.isComplex
    ensures ReadValue(s, t) == ReadValue(s', t) && ReadName(s, t) == ReadName(s', t)
    ensures s.kind == s'.kind ==> ReadFirst(s, t) == ReadFirst(s', t) && ReadAfterValue(s, t) == ReadAfterValue(s', t)
  {
    hide ReadValue, ReadName, SkipBlank;
    var complex := s.isComplex || t[0] == LEFT_BRACE || t[0] == LEFT_BRACKET;
    ValueFromContainers(s, s', t);
    ValueFromContainers(s.(isComplex := complex), s'.(isComplex := complex), t);
    NameFromContainers(s, s', t);
    if t[0] == COMMA && SkipBlank(t[1..]) != [] {
      ValueFromContainers(s, s', SkipBlank(t[1..]));
      NameFromContainers(s, s', SkipBlank(t[1..]));
    }
  }

  lemma {:induction false} CloseFromContainers(s: State, s': State, token: Token, item: Container, t: bytes)
    requires t != [] && s.stack == s'.stack && s.isComplex == s'.isComplex
    ensures Close(s, token, item, t) == Close(s', token, item, t)
  {
  }

  lemma {:induction false} StepAtEnd(s: State)
    requires SkipBlank(s.rest) == []
    ensures Step(s) == Stop(if s.kind == NoToken || s.stack != [] then UnexpectedEnd else ReaderDone)
  {
  }

  /** The step from `s`, told by the state `s'` behind the blanks. */
  lemma {:induction false} StepBehindBlanks(s: State, s': State)
    requires s'.rest == SkipBlank(s.rest) && s'.rest != []
    requires s.kind == s'.kind && s.stack == s'.stack && s.isComplex == s'.isComplex
    ensures Step(s) != Stop(ReaderDone)
    ensures var rest := s'.rest;
            Step(s) == match s.kind
                       case NoToken => ReadFirst(s', rest)
                       case BeginObject =>
                         if rest[0] == RIGHT_BRACE then Close(s', END_OBJECT, InObject, rest)
                         else if rest[0] != QUOTE then Stop(UnexpectedChar)
                         else ReadName(s', rest)
                       case BeginArray =>
                         if rest[0] == RIGHT_BRACKET then Close(s', END_ARRAY, InArray, rest)
                         else ReadValue(s', rest)
                       case PropertyName => ReadValue(s', rest)
                       case _ => ReadAfterValue(s', rest)
  {
    hide ReadValue, ReadName, ReadFirst, ReadAfterValue, Close, SkipBlank;
    if Step(s) == Stop(ReaderDone) {
      StepDone(s);
    }
    ReadsFromContainers(s, s', s'.rest);
    CloseFromContainers(s, s', END_OBJECT, InObject, s'.rest);
    CloseFromContainers(s, s', END_ARRAY, InArray, s'.rest);
  }

  datatype RunResult = RunResult(tokens: seq<Token>, result: Result)

  /** Repeated calls up to the first one that is not ok. */
  function Run(s: State): (r: RunResult)
    decreases |s.rest|
    ensures r.result != Ok
  {
    match Step(s)
    case Stop(result) => RunResult([], result)
    case Next(token, next) =>
      var later := Run(next);
      RunResult([token] + later.tokens, later.result)
  }
}
