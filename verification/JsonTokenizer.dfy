/**
 Soundness and completeness of the tokenizer. `Todo` is a derivation cut at a token boundary: what
 is still to be read in a state. One step of the automaton is one `Advance` of the cut, in
 both directions, so the bytes a run accepts are exactly the yields of derivation trees.
 */
module JsonTokenizer {
  import opened Common
  import opened JsonLexical
  import opened JsonGrammar
  import opened JsonAutomaton

  // ---------------------------------------------------------------- cut derivations

  /** What is to be read after a complete value: the rest of each open container, innermost first. */
  datatype Tail =
    | Finish(ws: Blank)
    | ArrayTail(items: MoreItems, up: Tail)
    | ObjectTail(members: MoreMembers, up: Tail)

  datatype Todo =
    | AtStart(before: Blank, value: Value, end: Blank)
    | AtItems(items: Items, up: Tail)
    | AtMembers(members: Members, up: Tail)
    | AtValue(gap: Blank, value: Value, more: MoreMembers, up: Tail)
    | AfterValue(tail: Tail)

  function StackOf(tail: Tail): Stack {
    match tail
    case Finish(_) => []
    case ArrayTail(_, up) => StackOf(up) + [InArray]
    case ObjectTail(_, up) => StackOf(up) + [InObject]
  }

  function TodoStack(todo: Todo): Stack {
    match todo
    case AtStart(_, _, _) => []
    case AtItems(_, up) => StackOf(up) + [InArray]
    case AtMembers(_, up) => StackOf(up) + [InObject]
    case AtValue(_, _, _, up) => StackOf(up) + [InObject]
    case AfterValue(tail) => StackOf(tail)
  }

  function TailText(tail: Tail): bytes {
    match tail
    case Finish(ws) => ws
    case ArrayTail(items, up) => MoreItemsText(items) + TailText(up)
    case ObjectTail(members, up) => MoreMembersText(members) + TailText(up)
  }

  function TodoText(todo: Todo): bytes {
    match todo
    case AtStart(before, value, end) => before + (Text(value) + end)
    case AtItems(items, up) => ItemsText(items) + TailText(up)
    case AtMembers(members, up) => MembersText(members) + TailText(up)
    case AtValue(gap, value, more, up) => gap + (Text(value) + (MoreMembersText(more) + TailText(up)))
    case AfterValue(tail) => TailText(tail)
  }

  function TailTokens(tail: Tail): seq<Token> {
    match tail
    case Finish(_) => []
    case ArrayTail(items, up) => MoreItemsTokens(items) + TailTokens(up)
    case ObjectTail(members, up) => MoreMembersTokens(members) + TailTokens(up)
  }

  function TodoTokens(todo: Todo): seq<Token> {
    match todo
    case AtStart(_, value, _) => Tokens(value)
    case AtItems(items, up) => ItemsTokens(items) + TailTokens(up)
    case AtMembers(members, up) => MembersTokens(members) + TailTokens(up)
    case AtValue(_, value, more, up) => Tokens(value) + (MoreMembersTokens(more) + TailTokens(up))
    case AfterValue(tail) => TailTokens(tail)
  }

  /** The greatest number of containers open at once while the tail is read. */
  function TailDepth(tail: Tail): nat {
    match tail
    case Finish(_) => 0
    case ArrayTail(items, up) => Max(|StackOf(up)| + 1 + MoreItemsDepth(items), TailDepth(up))
    case ObjectTail(members, up) => Max(|StackOf(up)| + 1 + MoreMembersDepth(members), TailDepth(up))
  }

  function TodoDepth(todo: Todo): nat {
    match todo
    case AtStart(_, value, _) => Depth(value)
    case AtItems(items, up) => Max(|StackOf(up)| + 1 + ItemsDepth(items), TailDepth(up))
    case AtMembers(members, up) => Max(|StackOf(up)| + 1 + MembersDepth(members), TailDepth(up))
    case AtValue(_, value, more, up) =>
      Max(|StackOf(up)| + 1 + Max(Depth(value), MoreMembersDepth(more)), TailDepth(up))
    case AfterValue(tail) => TailDepth(tail)
  }

  predicate IsContainer(v: Value) {
    !v.Primitive?
  }

  function HeadOf(v: Value): Token {
    match v
    case Primitive(s) => ScalarToken(s)
    case Array(_) => BEGIN_ARRAY
    case Object(_) => BEGIN_OBJECT
  }

  /** The cut just behind the first token of `v`. */
  function Enter(v: Value, tail: Tail): Todo {
    match v
    case Primitive(_) => AfterValue(tail)
    case Array(items) => AtItems(items, tail)
    case Object(members) => AtMembers(members, tail)
  }

  predicate IsFinal(todo: Todo) {
    todo.AfterValue? && todo.tail.Finish?
  }

  function Head(todo: Todo): Token
    requires !IsFinal(todo)
  {
    match todo
    case AtStart(_, value, _) => HeadOf(value)
    case AtItems(NoItems(_), _) => END_ARRAY
    case AtItems(FirstItem(_, item, _), _) => HeadOf(item)
    case AtMembers(NoMembers(_), _) => END_OBJECT
    case AtMembers(FirstMember(_, name, _, _, _, _), _) => BodyToken(PropertyName, name)
    case AtValue(_, value, _, _) => HeadOf(value)
    case AfterValue(ArrayTail(CloseItems(_), _)) => END_ARRAY
    case AfterValue(ArrayTail(NextItem(_, _, item, _), _)) => HeadOf(item)
    case AfterValue(ObjectTail(CloseMembers(_), _)) => END_OBJECT
    case AfterValue(ObjectTail(NextMember(_, _, name, _, _, _, _), _)) => BodyToken(PropertyName, name)
  }

  function Advance(todo: Todo): Todo
    requires !IsFinal(todo)
  {
    match todo
    case AtStart(_, value, end) => Enter(value, Finish(end))
    case AtItems(NoItems(_), up) => AfterValue(up)
    case AtItems(FirstItem(_, item, more), up) => Enter(item, ArrayTail(more, up))
    case AtMembers(NoMembers(_), up) => AfterValue(up)
    case AtMembers(FirstMember(_, _, _, gap, value, more), up) => AtValue(gap, value, more, up)
    case AtValue(_, value, more, up) => Enter(value, ObjectTail(more, up))
    case AfterValue(ArrayTail(CloseItems(_), up)) => AfterValue(up)
    case AfterValue(ArrayTail(NextItem(_, _, item, more), up)) => Enter(item, ArrayTail(more, up))
    case AfterValue(ObjectTail(CloseMembers(_), up)) => AfterValue(up)
    case AfterValue(ObjectTail(NextMember(_, _, _, _, gap, value, more), up)) => AtValue(gap, value, more, up)
  }

  lemma {:induction false} EnterTokens(v: Value, tail: Tail)
    ensures Tokens(v) + TailTokens(tail) == [HeadOf(v)] + TodoTokens(Enter(v, tail))
  {
  }

  /** The first token of an item in front of what follows it. */
  lemma {:induction false} MoreTokens(v: Value, tail: Tail)
    requires tail.ArrayTail?
    ensures Tokens(v) + MoreItemsTokens(tail.items) + TailTokens(tail.up) == [HeadOf(v)] + TodoTokens(Enter(v, tail))
  {
    hide Tokens;
    EnterTokens(v, tail);
    Assoc(Tokens(v), MoreItemsTokens(tail.items), TailTokens(tail.up));
  }

  lemma {:induction false} NamedTokens(name: Token, v: Value, more: MoreMembers, up: Tail)
    ensures [name] + (Tokens(v) + MoreMembersTokens(more)) + TailTokens(up)
         == [name] + (Tokens(v) + (MoreMembersTokens(more) + TailTokens(up)))
  {
    hide Tokens, MoreMembersTokens, TailTokens;
    Assoc(Tokens(v), MoreMembersTokens(more), TailTokens(up));
    Assoc([name], Tokens(v) + MoreMembersTokens(more), TailTokens(up));
  }

  /** Reading a token takes it off the tokens still to come. */
  lemma {:induction false} AdvanceTokens(todo: Todo)
    requires !IsFinal(todo)
    ensures TodoTokens(todo) == [Head(todo)] + TodoTokens(Advance(todo))
  {
    hide Tokens;
    match todo
    case AtStart(_, value, end) =>
      EnterTokens(value, Finish(end));
      assert Tokens(value) + [] == Tokens(value);
    case AtItems(NoItems(_), up) =>
    case AtItems(FirstItem(_, item, more), up) => MoreTokens(item, ArrayTail(more, up));
    case AtMembers(NoMembers(_), up) =>
    case AtMembers(FirstMember(_, name, _, _, value, more), up) => NamedTokens(Head(todo), value, more, up);
    case AtValue(_, value, more, up) => EnterTokens(value, ObjectTail(more, up));
    case AfterValue(ArrayTail(CloseItems(_), up)) =>
    case AfterValue(ArrayTail(NextItem(_, _, item, more), up)) => MoreTokens(item, ArrayTail(more, up));
    case AfterValue(ObjectTail(CloseMembers(_), up)) =>
    case AfterValue(ObjectTail(NextMember(_, _, name, _, _, value, more), up)) =>
      NamedTokens(Head(todo), value, more, up);
  }

  lemma {:induction false} DepthCoversStack(tail: Tail)
    ensures |StackOf(tail)| <= TailDepth(tail)
  {
    if !tail.Finish? {
      DepthCoversStack(tail.up);
    }
  }

  lemma {:induction false} EnterDepth(v: Value, tail: Tail)
    ensures TodoDepth(Enter(v, tail)) == Max(|StackOf(tail)| + Depth(v), TailDepth(tail))
  {
    DepthCoversStack(tail);
  }

  lemma {:induction false} AdvanceDepthNextItem(item: Value, more: MoreItems, up: Tail)
    ensures Max(|StackOf(up)| + 1 + Max(Depth(item), MoreItemsDepth(more)), TailDepth(up))
         == Max(|StackOf(up)| + 1, TodoDepth(Enter(item, ArrayTail(more, up))))
  {
    hide Depth, MoreItemsDepth;
    DepthCoversStack(up);
    EnterDepth(item, ArrayTail(more, up));
  }

  lemma {:induction false} AdvanceDepthAfter(tail: Tail)
    requires !tail.Finish?
    ensures TodoDepth(AfterValue(tail)) == Max(|StackOf(tail)|, TodoDepth(Advance(AfterValue(tail))))
  {
    hide Depth;
    if tail.ArrayTail? && tail.items.NextItem? {
      AdvanceDepthNextItem(tail.items.item, tail.items.more, tail.up);
    } else {
      DepthCoversStack(tail.up);
    }
  }

  /** The deepest point still ahead is reached now or after the next token. */
  lemma {:induction false} AdvanceDepth(todo: Todo)
    requires !IsFinal(todo)
    ensures TodoDepth(todo) == Max(|TodoStack(todo)|, TodoDepth(Advance(todo)))
  {
    hide Depth;
    match todo
    case AfterValue(tail) => AdvanceDepthAfter(tail);
    case AtStart(_, value, end) => EnterDepth(value, Finish(end));
    case AtItems(items, up) => AdvanceDepthItems(items, up);
    case AtMembers(_, up) => DepthCoversStack(up);
    case AtValue(_, value, more, up) =>
      DepthCoversStack(up);
      EnterDepth(value, ObjectTail(more, up));
  }

  lemma {:induction false} AdvanceDepthItems(items: Items, up: Tail)
    ensures TodoDepth(AtItems(items, up)) == Max(|StackOf(up)| + 1, TodoDepth(Advance(AtItems(items, up))))
  {
    hide Depth, MoreItemsDepth;
    DepthCoversStack(up);
    if items.FirstItem? {
      AdvanceDepthNextItem(items.item, items.more, up);
    }
  }

  // ---------------------------------------------------------------- one step, forwards

  /** The state a cut stands for. */
  predicate Fits(todo: Todo, s: State) {
    s.rest == TodoText(todo)
    && s.stack == TodoStack(todo)
    && FitsKind(todo, s.kind)
    && (s.stack != [] ==> s.isComplex)
    && (s.kind == NoToken ==> !s.isComplex)
  }

  predicate FitsKind(todo: Todo, kind: Kind) {
    match kind
    case NoToken => todo.AtStart?
    case BeginArray => todo.AtItems?
    case BeginObject => todo.AtMembers?
    case PropertyName => todo.AtValue?
    case _ => todo.AfterValue?
  }

  /** Behind a value comes the end of the text or a byte that ends a number. */
  lemma {:induction false} TailStart(tail: Tail)
    ensures TailText(tail) == [] ==> tail.Finish?
    ensures TailText(tail) != [] ==> IsNumberDelimiter(TailText(tail)[0])
  {
  }

  lemma {:induction false} ValueStart(v: Value, rest: bytes)
    ensures var t := Text(v) + rest;
            t != [] && t[0] == Text(v)[0] && !IsBlankByte(t[0])
            && t[0] != RIGHT_BRACE && t[0] != RIGHT_BRACKET
            && (t[0] == QUOTE <==> v.Primitive? && v.scalar.Str?)
            && (t[0] == LEFT_BRACE <==> v.Object?) && (t[0] == LEFT_BRACKET <==> v.Array?)
            && ((IsDigit(t[0]) || t[0] == MINUS) <==> v.Primitive? && v.scalar.Num?)
  {
    if v.Primitive? && v.scalar.Num? {
      var n := v.scalar.number;
      assert Text(v)[0] == if n.negative then MINUS else n.whole[0];
    }
  }

  predicate Opens(todo: Todo) {
    !IsFinal(todo) && (Head(todo).kind == BeginArray || Head(todo).kind == BeginObject)
  }

  lemma {:induction false} ReadStringExact(s: State, body: Body, rest: bytes)
    ensures ReadString(s, Quoted(body) + rest) == Emit(s, BodyToken(StringToken, body), s.stack, rest)
  {
    var t := (Quoted(body) + rest)[1..];
    assert t == body + [QUOTE] + rest;
    ScanBodyComplete(body, rest);
    assert t[..|body|] == body && t[|body| + 1..] == rest;
  }

  lemma {:induction false} ReadNameExact(s: State, name: Body, colon: Blank, rest: bytes)
    ensures ReadName(s, NameText(name, colon) + rest) == Emit(s, BodyToken(PropertyName, name), s.stack, rest)
  {
    var after := colon + ([COLON] + rest);
    var t := (NameText(name, colon) + rest)[1..];
    assert t == name + [QUOTE] + after;
    ScanBodyComplete(name, after);
    assert t[..|name|] == name && t[|name| + 1..] == after;
    SkipBlankExact(colon, [COLON] + rest);
    assert ([COLON] + rest)[1..] == rest;
  }

  lemma {:induction false} ReadNumberExact(s: State, n: Number, rest: bytes)
    requires rest == [] ==> !s.isComplex
    requires rest != [] ==> IsNumberDelimiter(rest[0])
    ensures n.Text() + rest != []
    ensures ReadNumber(s, n.Text() + rest) == Emit(s, Token(NumberToken, n.Text(), false), s.stack, rest)
  {
    var t := n.Text() + rest;
    ScanNumberComplete(n, rest);
    assert t[..|n.Text()|] == n.Text() && t[|n.Text()|..] == rest;
  }

  lemma {:induction false} ReadLiteralExact(s: State, kind: Kind, literal: bytes, rest: bytes)
    requires literal != []
    ensures ReadLiteral(s, kind, literal, literal + rest) == Emit(s, Token(kind, literal, false), s.stack, rest)
  {
    assert (literal + rest)[..|literal|] == literal && (literal + rest)[|literal|..] == rest;
  }

  lemma {:induction false} ReadScalarExact(s: State, scalar: Scalar, tail: Tail)
    requires s.stack == StackOf(tail) && (s.isComplex <==> s.stack != [])
    ensures Text(Primitive(scalar)) + TailText(tail) != []
    ensures ReadValue(s, Text(Primitive(scalar)) + TailText(tail))
         == Emit(s, ScalarToken(scalar), s.stack, TailText(tail))
  {
    var rest := TailText(tail);
    ValueStart(Primitive(scalar), rest);
    match scalar
    case Str(body) => ReadStringExact(s, body, rest);
    case Num(number) =>
      TailStart(tail);
      ReadNumberExact(s, number, rest);
    case True => ReadLiteralExact(s, TrueToken, TRUE_TEXT, rest);
    case False => ReadLiteralExact(s, FalseToken, FALSE_TEXT, rest);
    case Null => ReadLiteralExact(s, NullToken, NULL_TEXT, rest);
  }

  function Bracket(v: Value): byte
    requires IsContainer(v)
  {
    if v.Array? then LEFT_BRACKET else LEFT_BRACE
  }

  lemma {:induction false} ContainerText(v: Value, tail: Tail)
    requires IsContainer(v)
    ensures var t := Text(v) + TailText(tail); t != [] && t[0] == Bracket(v) && t[1..] == TodoText(Enter(v, tail))
    ensures HeadOf(v) == if v.Array? then BEGIN_ARRAY else BEGIN_OBJECT
    ensures TodoStack(Enter(v, tail)) == StackOf(tail) + [if v.Array? then InArray else InObject]
    ensures FitsKind(Enter(v, tail), if v.Array? then BeginArray else BeginObject)
  {
    hide ItemsText, MembersText, TailText;
    var inside := if v.Array? then ItemsText(v.items) else MembersText(v.members);
    Assoc([Bracket(v)], inside, TailText(tail));
    assert ([Bracket(v)] + (inside + TailText(tail)))[1..] == inside + TailText(tail);
  }

  lemma {:induction false} ReadValueExact(s: State, v: Value, tail: Tail)
    requires s.stack == StackOf(tail) && (s.isComplex <==> s.stack != [] || IsContainer(v))
    ensures Text(v) + TailText(tail) != []
    ensures var r := ReadValue(s, Text(v) + TailText(tail));
            if IsContainer(v) && |s.stack| >= MAX_DEPTH then r == Stop(NestingOverflow)
            else r.Next? && r.token == HeadOf(v) && Fits(Enter(v, tail), r.state)
  {
    hide Text, TailText, ReadString, ReadNumber, ReadLiteral;
    if v.Primitive? {
      ReadScalarExact(s, v.scalar, tail);
    } else {
      hide TodoText, TodoStack, Enter, FitsKind, HeadOf, StackOf;
      ContainerText(v, tail);
    }
  }

  /** What one step does in a state that `todo` stands for. */
  predicate Reads(s: State, todo: Todo)
    requires !IsFinal(todo)
  {
    if Opens(todo) && |s.stack| >= MAX_DEPTH then Step(s) == Stop(NestingOverflow)
    else Step(s).Next? && Step(s).token == Head(todo) && Fits(Advance(todo), Step(s).state)
  }

  /** The text still to be read, with the next token in front. */
  lemma {:induction false} FirstItemText(before: Blank, item: Value, more: MoreItems, up: Tail)
    ensures TodoText(AtItems(FirstItem(before, item, more), up))
         == before + (Text(item) + TailText(ArrayTail(more, up)))
  {
    hide Text, MoreItemsText;
    Regroup3(before, Text(item), MoreItemsText(more), TailText(up));
  }

  lemma {:induction false} NextItemText(before: Blank, after: Blank, item: Value, more: MoreItems, up: Tail)
    ensures TodoText(AfterValue(ArrayTail(NextItem(before, after, item, more), up)))
         == before + ([COMMA] + (after + (Text(item) + TailText(ArrayTail(more, up)))))
  {
    hide Text;
    Regroup4(before, [COMMA], after, Text(item), MoreItemsText(more), TailText(up));
  }

  lemma {:induction false} FirstMemberText(before: Blank, name: Body, colon: Blank, gap: Blank, value: Value,
                                           more: MoreMembers, up: Tail)
    ensures TodoText(AtMembers(FirstMember(before, name, colon, gap, value, more), up))
         == before + (NameText(name, colon) + TodoText(AtValue(gap, value, more, up)))
  {
    hide Text, MoreMembersText, NameText;
    Regroup4(before, NameText(name, colon), gap, Text(value), MoreMembersText(more), TailText(up));
  }

  lemma {:induction false} NextMemberText(before: Blank, after: Blank, name: Body, colon: Blank, gap: Blank,
                                          value: Value, more: MoreMembers, up: Tail)
    ensures TodoText(AfterValue(ObjectTail(NextMember(before, after, name, colon, gap, value, more), up)))
         == before + ([COMMA] + (after + (NameText(name, colon) + TodoText(AtValue(gap, value, more, up)))))
  {
    hide Text, NameText;
    var inner := NameText(name, colon) + (gap + (Text(value) + MoreMembersText(more)));
    Regroup4(after, NameText(name, colon), gap, Text(value), MoreMembersText(more), TailText(up));
    Regroup3(before, [COMMA], after + inner, TailText(up));
  }

  predicate IsAfterValue(kind: Kind) {
    FitsKind(AfterValue(Finish([])), kind)
  }

  /** The dispatch of json_reader_next_token, by what comes next. */
  lemma {:induction false} StepIsValue(s: State, before: Blank, t: bytes)
    requires s.rest == before + t && t != [] && !IsBlankByte(t[0]) && t[0] != RIGHT_BRACKET
    requires s.kind == BeginArray || s.kind == PropertyName
    ensures Step(s) == ReadValue(s, t)
  {
    hide ReadValue;
    SkipBlankExact(before, t);
  }

  lemma {:induction false} StepIsName(s: State, before: Blank, t: bytes)
    requires s.rest == before + t && t != [] && t[0] == QUOTE && s.kind == BeginObject
    ensures Step(s) == ReadName(s, t)
  {
    hide ReadName;
    SkipBlankExact(before, t);
  }

  lemma {:induction false} StepIsAfterComma(s: State, before: Blank, after: Blank, t: bytes)
    requires s.rest == before + ([COMMA] + (after + t)) && t != [] && !IsBlankByte(t[0])
    requires IsAfterValue(s.kind) && s.stack != []
    ensures s.stack[|s.stack| - 1] == InArray ==> Step(s) == ReadValue(s, t)
    ensures s.stack[|s.stack| - 1] == InObject && t[0] == QUOTE ==> Step(s) == ReadName(s, t)
  {
    hide ReadValue, ReadName, Close;
    SkipBlankExact(before, [COMMA] + (after + t));
    SkipBlankExact(after, t);
    assert ([COMMA] + (after + t))[1..] == after + t;
  }

  lemma {:induction false} StepIsClose(s: State, ws: Blank, item: Container, after: bytes)
    requires s.rest == ws + [if item == InArray then RIGHT_BRACKET else RIGHT_BRACE] + after
    requires s.stack != [] && s.stack[|s.stack| - 1] == item
    requires IsAfterValue(s.kind) || s.kind == if item == InArray then BeginArray else BeginObject
    ensures Step(s) == Emit(s, if item == InArray then END_ARRAY else END_OBJECT, s.stack[..|s.stack| - 1], after)
  {
    hide ReadValue, ReadName;
    var t := [if item == InArray then RIGHT_BRACKET else RIGHT_BRACE] + after;
    assert s.rest == ws + t && t[1..] == after;
    SkipBlankExact(ws, t);
  }

  lemma {:induction false} ClosesNothing(todo: Todo, up: Tail)
    ensures !IsFinal(todo) && Advance(todo) == AfterValue(up) && (Head(todo) == END_ARRAY || Head(todo) == END_OBJECT)
            ==> !Opens(todo)
    ensures TodoText(AfterValue(up)) == TailText(up) && TodoStack(AfterValue(up)) == StackOf(up)
  {
  }

  lemma {:induction false} StepClose(s: State, ws: Blank, item: Container, up: Tail, todo: Todo)
    requires Fits(todo, s) && !IsFinal(todo) && Advance(todo) == AfterValue(up)
    requires Head(todo) == if item == InArray then END_ARRAY else END_OBJECT
    requires TodoText(todo) == ws + Head(todo).text + TailText(up)
    requires TodoStack(todo) == StackOf(up) + [item]
    requires IsAfterValue(s.kind) || s.kind == if item == InArray then BeginArray else BeginObject
    ensures Reads(s, todo)
  {
    hide Step, TailText, TodoText, Head, Advance, StackOf, Opens;
    ClosesNothing(todo, up);
    assert (StackOf(up) + [item])[..|StackOf(up)|] == StackOf(up);
    Assoc(ws, Head(todo).text, TailText(up));
    StepIsClose(s, ws, item, TailText(up));
  }

  lemma {:induction false} StepFirstItem(s: State, before: Blank, item: Value, more: MoreItems, up: Tail)
    requires Fits(AtItems(FirstItem(before, item, more), up), s)
    ensures Reads(s, AtItems(FirstItem(before, item, more), up))
  {
    hide TodoText, TailText, ReadValue, Step, Text;
    var tail := ArrayTail(more, up);
    FirstItemText(before, item, more, up);
    ValueStart(item, TailText(tail));
    StepIsValue(s, before, Text(item) + TailText(tail));
    ReadValueExact(s, item, tail);
  }

  lemma {:induction false} StepNextItem(s: State, before: Blank, after: Blank, item: Value, more: MoreItems, up: Tail)
    requires Fits(AfterValue(ArrayTail(NextItem(before, after, item, more), up)), s)
    ensures Reads(s, AfterValue(ArrayTail(NextItem(before, after, item, more), up)))
  {
    hide TodoText, TailText, ReadValue, Step, Text;
    var tail := ArrayTail(more, up);
    NextItemText(before, after, item, more, up);
    ValueStart(item, TailText(tail));
    StepIsAfterComma(s, before, after, Text(item) + TailText(tail));
    ReadValueExact(s, item, tail);
  }

  lemma {:induction false} NameStart(name: Body, colon: Blank, rest: bytes)
    ensures NameText(name, colon) + rest != [] && (NameText(name, colon) + rest)[0] == QUOTE
  {
  }

  lemma {:induction false} StepFirstMember(s: State, todo: Todo)
    requires Fits(todo, s) && todo.AtMembers? && todo.members.FirstMember?
    ensures Reads(s, todo)
  {
    hide TodoText, ReadName, NameText, Step;
    var FirstMember(before, name, colon, gap, value, more) := todo.members;
    var t := TodoText(AtValue(gap, value, more, todo.up));
    FirstMemberText(before, name, colon, gap, value, more, todo.up);
    NameStart(name, colon, t);
    StepIsName(s, before, NameText(name, colon) + t);
    ReadNameExact(s, name, colon, t);
  }

  lemma {:induction false} StepNextMember(s: State, todo: Todo)
    requires Fits(todo, s) && todo.AfterValue? && todo.tail.ObjectTail? && todo.tail.members.NextMember?
    ensures Reads(s, todo)
  {
    hide TodoText, TailText, ReadName, NameText, Step;
    var NextMember(before, after, name, colon, gap, value, more) := todo.tail.members;
    var up := todo.tail.up;
    var t := TodoText(AtValue(gap, value, more, up));
    NextMemberText(before, after, name, colon, gap, value, more, up);
    NameStart(name, colon, t);
    StepIsAfterComma(s, before, after, NameText(name, colon) + t);
    ReadNameExact(s, name, colon, t);
  }

  lemma {:induction false} StepStart(s: State, todo: Todo)
    requires Fits(todo, s) && todo.AtStart?
    ensures Reads(s, todo)
  {
    var t := Text(todo.value) + todo.end;
    ValueStart(todo.value, todo.end);
    SkipBlankExact(todo.before, t);
    var s' := s.(isComplex := s.isComplex || t[0] == LEFT_BRACE || t[0] == LEFT_BRACKET);
    ReadValueExact(s', todo.value, Finish(todo.end));
  }

  lemma {:induction false} StepAtValue(s: State, todo: Todo)
    requires Fits(todo, s) && todo.AtValue?
    ensures Reads(s, todo)
  {
    hide TailText, ReadValue, Step, Text;
    var tail := ObjectTail(todo.more, todo.up);
    assert TailText(tail) == MoreMembersText(todo.more) + TailText(todo.up) by { ObjectTailText(todo.more, todo.up); }
    ValueStart(todo.value, TailText(tail));
    StepIsValue(s, todo.gap, Text(todo.value) + TailText(tail));
    ReadValueExact(s, todo.value, tail);
  }

  lemma {:induction false} ObjectTailText(more: MoreMembers, up: Tail)
    ensures TailText(ObjectTail(more, up)) == MoreMembersText(more) + TailText(up)
  {
  }

  lemma {:induction false} StepFinal(s: State, ws: Blank)
    requires Fits(AfterValue(Finish(ws)), s)
    ensures Step(s) == Stop(ReaderDone)
  {
    SkipBlankExact(ws, []);
    assert ws + [] == ws;
  }

  /** Forwards: in a state that a cut stands for, one step reads the head of the cut. */
  lemma {:induction false} StepComplete(s: State, todo: Todo)
    requires Fits(todo, s)
    ensures if IsFinal(todo) then Step(s) == Stop(ReaderDone) else Reads(s, todo)
  {
    hide Step, Reads;
    match todo
    case AtStart(_, _, _) => StepStart(s, todo);
    case AtItems(NoItems(ws), up) => StepClose(s, ws, InArray, up, todo);
    case AtItems(FirstItem(before, item, more), up) => StepFirstItem(s, before, item, more, up);
    case AtMembers(NoMembers(ws), up) => StepClose(s, ws, InObject, up, todo);
    case AtMembers(_, _) => StepFirstMember(s, todo);
    case AtValue(_, _, _, _) => StepAtValue(s, todo);
    case AfterValue(Finish(ws)) => StepFinal(s, ws);
    case AfterValue(ArrayTail(CloseItems(ws), up)) => StepClose(s, ws, InArray, up, todo);
    case AfterValue(ArrayTail(NextItem(before, after, item, more), up)) =>
      StepNextItem(s, before, after, item, more, up);
    case AfterValue(ObjectTail(CloseMembers(ws), up)) => StepClose(s, ws, InObject, up, todo);
    case AfterValue(ObjectTail(_, _)) => StepNextMember(s, todo);
  }

  // ---------------------------------------------------------------- one step, backwards

  /** What every reachable state satisfies. */
  predicate Coherent(s: State) {
    |s.stack| <= MAX_DEPTH
    && (s.kind == NoToken ==> s.stack == [] && !s.isComplex)
    && (s.kind == BeginArray ==> s.stack != [] && s.stack[|s.stack| - 1] == InArray)
    && (s.kind == BeginObject || s.kind == PropertyName ==> s.stack != [] && s.stack[|s.stack| - 1] == InObject)
    && (s.stack != [] ==> s.isComplex)
  }

  lemma {:induction false} StepCoherent(s: State)
    requires Coherent(s) && Step(s).Next?
    ensures Coherent(Step(s).state)
  {
    hide SkipBlank, ReadValue, ReadName, Close;
    var rest := SkipBlank(s.rest);
    ReadersStack(s, rest);
    if s.kind == NoToken {
      ReadersStack(s.(isComplex := rest[0] == LEFT_BRACE || rest[0] == LEFT_BRACKET), rest);
    } else if rest[0] == COMMA && SkipBlank(rest[1..]) != [] {
      ReadersStack(s, SkipBlank(rest[1..]));
    }
  }

  function Opened(kind: Kind): Stack {
    if kind == BeginArray then [InArray] else if kind == BeginObject then [InObject] else []
  }

  /** What the readers of single tokens do to the stack of containers. */
  lemma {:induction false} ReadersStack(s: State, rest: bytes)
    requires rest != [] && |s.stack| <= MAX_DEPTH
    ensures ReadValue(s, rest).Next? ==>
              var now := ReadValue(s, rest).state;
              && now.isComplex == s.isComplex && |now.stack| <= MAX_DEPTH
              && now.kind != NoToken && now.kind != PropertyName
              && now.stack == s.stack + Opened(now.kind)
              && (now.kind == BeginArray ==> rest[0] == LEFT_BRACKET)
              && (now.kind == BeginObject ==> rest[0] == LEFT_BRACE)
    ensures ReadName(s, rest).Next? ==>
              var now := ReadName(s, rest).state;
              now.isComplex == s.isComplex && now.stack == s.stack && now.kind == PropertyName
    ensures forall token, item :: Close(s, token, item, rest).Next? ==>
              var now := Close(s, token, item, rest).state;
              s.stack != [] && now.stack == s.stack[..|s.stack| - 1]
              && now.isComplex == s.isComplex && now.kind == token.kind
  {
    hide ScanBody, ScanNumber, SkipBlank;
  }

  lemma {:induction false} ReadStringSound(s: State, rest: bytes) returns (body: Body)
    requires rest != [] && rest[0] == QUOTE && ReadString(s, rest).Next?
    ensures ReadString(s, rest) == Emit(s, BodyToken(StringToken, body), s.stack, ReadString(s, rest).state.rest)
    ensures rest == Quoted(body) + ReadString(s, rest).state.rest
  {
    var t := rest[1..];
    var n := ScanBody(t).length;
    ScanBodySound(t, n, ScanBody(t).escaped);
    body := t[..n];
    JoinQuoted(rest, n);
  }

  lemma {:induction false} JoinQuoted(rest: bytes, n: nat)
    requires n + 1 < |rest| && rest[0] == QUOTE && rest[1..][n] == QUOTE
    ensures rest == Quoted(rest[1..][..n]) + rest[1..][n + 1..]
  {
    assert rest == [QUOTE] + (rest[1..][..n] + ([QUOTE] + rest[1..][n + 1..]));
  }

  lemma {:induction false} ReadNumberSound(s: State, rest: bytes) returns (n: Number)
    requires rest != [] && ReadNumber(s, rest).Next?
    ensures ReadNumber(s, rest) == Emit(s, Token(NumberToken, n.Text(), false), s.stack, ReadNumber(s, rest).state.rest)
    ensures rest == n.Text() + ReadNumber(s, rest).state.rest
  {
    hide ScanNumber, IsInt, IsFrac, IsExp;
    n := ScanNumberSound(rest);
    var k := ScanNumber(rest).value;
    assert rest == rest[..k] + rest[k..];
  }

  lemma {:induction false} ReadNameSound(s: State, rest: bytes) returns (name: Body, colon: Blank)
    requires rest != [] && rest[0] == QUOTE && ReadName(s, rest).Next?
    ensures ReadName(s, rest) == Emit(s, BodyToken(PropertyName, name), s.stack, ReadName(s, rest).state.rest)
    ensures rest == NameText(name, colon) + ReadName(s, rest).state.rest
  {
    var t := rest[1..];
    var n := ScanBody(t).length;
    ScanBodySound(t, n, ScanBody(t).escaped);
    name := t[..n];
    colon := SkipBlankSplit(t[n + 1..]);
    JoinName(rest, n, colon, SkipBlank(t[n + 1..]));
  }

  lemma {:induction false} JoinName(rest: bytes, n: nat, colon: bytes, after: bytes)
    requires n + 1 < |rest| && rest[0] == QUOTE && rest[1..][n] == QUOTE
    requires rest[1..][n + 1..] == colon + after && after != [] && after[0] == COLON
    ensures rest == NameText(rest[1..][..n], colon) + after[1..]
  {
    var name := rest[1..][..n];
    assert after == [COLON] + after[1..];
    assert rest == [QUOTE] + (name + ([QUOTE] + (colon + after)));
    Regroup4([QUOTE], name, [QUOTE], colon, [COLON], after[1..]);
    Regroup3([QUOTE], name, [QUOTE], colon + [COLON]);
  }

  /** The first token of a value that is not a container is the whole value. */
  lemma {:induction false} ReadScalarSound(s: State, rest: bytes) returns (scalar: Scalar)
    requires rest != [] && rest[0] != LEFT_BRACKET && rest[0] != LEFT_BRACE && ReadValue(s, rest).Next?
    ensures ReadValue(s, rest) == Emit(s, ScalarToken(scalar), s.stack, ReadValue(s, rest).state.rest)
    ensures rest == ScalarText(scalar) + ReadValue(s, rest).state.rest
  {
    hide ReadString, ReadNumber;
    var first := rest[0];
    if first == QUOTE {
      var body := ReadStringSound(s, rest);
      scalar := Str(body);
    } else if IsDigit(first) || first == MINUS {
      var n := ReadNumberSound(s, rest);
      scalar := Num(n);
    } else {
      scalar := if first == 0x74 then True else if first == 0x66 then False else Null;
    }
  }

  lemma {:induction false} ReadContainerSound(s: State, rest: bytes, todo: Todo) returns (v: Value, tail: Tail)
    requires rest != [] && (rest[0] == LEFT_BRACKET || rest[0] == LEFT_BRACE)
    requires ReadValue(s, rest).Next? && Fits(todo, ReadValue(s, rest).state)
    ensures rest == Text(v) + TailText(tail) && StackOf(tail) == s.stack
    ensures todo == Enter(v, tail) && ReadValue(s, rest).token == HeadOf(v)
  {
    hide ItemsText, MembersText, TailText, ReadString, ReadNumber, ReadLiteral;
    v := if rest[0] == LEFT_BRACKET then Array(todo.items) else Object(todo.members);
    tail := todo.up;
    SameBelow(s.stack, StackOf(tail), if rest[0] == LEFT_BRACKET then InArray else InObject);
    BracketInFront(rest, if v.Array? then ItemsText(v.items) else MembersText(v.members), TailText(tail));
  }

  lemma {:induction false} SameBelow(s: Stack, t: Stack, item: Container)
    requires s + [item] == t + [item]
    ensures s == t
  {
    assert (s + [item])[..|s|] == s && (t + [item])[..|t|] == t;
  }

  lemma {:induction false} BracketInFront(rest: bytes, inside: bytes, after: bytes)
    requires rest != [] && rest[1..] == inside + after
    ensures rest == [rest[0]] + inside + after
  {
  }

  lemma {:induction false} ReadValueSound(s: State, rest: bytes, todo: Todo) returns (v: Value, tail: Tail)
    requires rest != [] && ReadValue(s, rest).Next? && Fits(todo, ReadValue(s, rest).state)
    ensures rest == Text(v) + TailText(tail) && StackOf(tail) == s.stack
    ensures todo == Enter(v, tail) && ReadValue(s, rest).token == HeadOf(v)
  {
    hide ReadValue, TailText, StackOf;
    if rest[0] == LEFT_BRACKET || rest[0] == LEFT_BRACE {
      v, tail := ReadContainerSound(s, rest, todo);
    } else {
      var scalar := ReadScalarSound(s, rest);
      v := Primitive(scalar);
      tail := todo.tail;
    }
  }

  lemma {:induction false} LastContainer(s: Stack)
    requires s != []
    ensures s == s[..|s| - 1] + [s[|s| - 1]]
  {
  }

  /** The state is behind a value and the next token follows a comma. */
  lemma {:induction false} SplitComma(s: State) returns (before: Blank, after: Blank)
    requires SkipBlank(s.rest) != [] && SkipBlank(s.rest)[0] == COMMA
    ensures s.rest == before + ([COMMA] + (after + SkipBlank(SkipBlank(s.rest)[1..])))
  {
    before := SkipBlankSplit(s.rest);
    after := SkipBlankSplit(SkipBlank(s.rest)[1..]);
  }

  lemma {:induction false} CommaStep(s: State)
    requires IsAfterValue(s.kind) && Step(s).Next? && SkipBlank(s.rest)[0] == COMMA
    ensures SkipBlank(s.rest) != []
    ensures var t := SkipBlank(SkipBlank(s.rest)[1..]);
            s.stack != [] && t != []
            && Step(s) == (if s.stack[|s.stack| - 1] == InArray then ReadValue(s, t) else ReadName(s, t))
            && (s.stack[|s.stack| - 1] == InObject ==> t[0] == QUOTE)
  {
    hide ReadValue, ReadName, SkipBlank;
  }

  lemma {:induction false} StepSoundNextItem(s: State, todo: Todo) returns (tail: Tail)
    requires Coherent(s) && Step(s).Next? && Fits(todo, Step(s).state)
    requires IsAfterValue(s.kind) && s.stack[|s.stack| - 1] == InArray && SkipBlank(s.rest)[0] == COMMA
    ensures Fits(AfterValue(tail), s) && !tail.Finish?
    ensures Head(AfterValue(tail)) == Step(s).token && Advance(AfterValue(tail)) == todo
  {
    hide Step, ReadValue, TodoText, Text;
    CommaStep(s);
    var before, after := SplitComma(s);
    var t := SkipBlank(SkipBlank(s.rest)[1..]);
    var v, inner := ReadValueSound(s, t, todo);
    tail := ArrayTail(NextItem(before, after, v, inner.items), inner.up);
    NextItemText(before, after, v, inner.items, inner.up);
  }

  lemma {:induction false} StepSoundNextMember(s: State, todo: Todo) returns (tail: Tail)
    requires Coherent(s) && Step(s).Next? && Fits(todo, Step(s).state)
    requires IsAfterValue(s.kind) && s.stack[|s.stack| - 1] == InObject && SkipBlank(s.rest)[0] == COMMA
    ensures Fits(AfterValue(tail), s) && !tail.Finish?
    ensures Head(AfterValue(tail)) == Step(s).token && Advance(AfterValue(tail)) == todo
  {
    hide Step, ReadName, TodoText, NameText;
    CommaStep(s);
    var before, after := SplitComma(s);
    var t := SkipBlank(SkipBlank(s.rest)[1..]);
    var name, colon := ReadNameSound(s, t);
    tail := ObjectTail(NextMember(before, after, name, colon, todo.gap, todo.value, todo.more), todo.up);
    NextMemberText(before, after, name, colon, todo.gap, todo.value, todo.more, todo.up);
  }

  lemma {:induction false} CloseSound(s: State, item: Container, up: Tail) returns (ws: Blank)
    requires SkipBlank(s.rest) != [] && TailText(up) == SkipBlank(s.rest)[1..]
    requires s.stack != [] && s.stack[|s.stack| - 1] == item && StackOf(up) == s.stack[..|s.stack| - 1]
    ensures s.rest == ws + [SkipBlank(s.rest)[0]] + TailText(up) && s.stack == StackOf(up) + [item]
  {
    ws := SkipBlankSplit(s.rest);
    SplitHead(ws, SkipBlank(s.rest));
    LastContainer(s.stack);
  }

  lemma {:induction false} SplitHead(ws: bytes, rest: bytes)
    requires rest != []
    ensures ws + rest == ws + [rest[0]] + rest[1..]
  {
  }

  lemma {:induction false} StepSoundAfterValue(s: State, todo: Todo) returns (tail: Tail)
    requires Coherent(s) && Step(s).Next? && Fits(todo, Step(s).state)
    requires IsAfterValue(s.kind)
    ensures Fits(AfterValue(tail), s) && !tail.Finish?
    ensures Head(AfterValue(tail)) == Step(s).token && Advance(AfterValue(tail)) == todo
  {
    if SkipBlank(s.rest)[0] != COMMA {
      var ws := CloseSound(s, s.stack[|s.stack| - 1], todo.tail);
      tail := if SkipBlank(s.rest)[0] == RIGHT_BRACE then ObjectTail(CloseMembers(ws), todo.tail)
              else ArrayTail(CloseItems(ws), todo.tail);
    } else if s.stack[|s.stack| - 1] == InArray {
      tail := StepSoundNextItem(s, todo);
    } else {
      tail := StepSoundNextMember(s, todo);
    }
  }

  lemma {:induction false} StepSoundItems(s: State, todo: Todo) returns (now: Todo)
    requires Coherent(s) && Step(s).Next? && Fits(todo, Step(s).state) && s.kind == BeginArray
    ensures Fits(now, s) && !IsFinal(now) && Head(now) == Step(s).token && Advance(now) == todo
  {
    if SkipBlank(s.rest)[0] == RIGHT_BRACKET {
      var ws := CloseSound(s, InArray, todo.tail);
      now := AtItems(NoItems(ws), todo.tail);
    } else {
      var ws := SkipBlankSplit(s.rest);
      var v, inner := ReadValueSound(s, SkipBlank(s.rest), todo);
      now := AtItems(FirstItem(ws, v, inner.items), inner.up);
      FirstItemText(ws, v, inner.items, inner.up);
    }
  }

  lemma {:induction false} StepSoundMembers(s: State, todo: Todo) returns (now: Todo)
    requires Coherent(s) && Step(s).Next? && Fits(todo, Step(s).state) && s.kind == BeginObject
    ensures Fits(now, s) && !IsFinal(now) && Head(now) == Step(s).token && Advance(now) == todo
  {
    if SkipBlank(s.rest)[0] == RIGHT_BRACE {
      var ws := CloseSound(s, InObject, todo.tail);
      now := AtMembers(NoMembers(ws), todo.tail);
    } else {
      var ws := SkipBlankSplit(s.rest);
      var name, colon := ReadNameSound(s, SkipBlank(s.rest));
      now := AtMembers(FirstMember(ws, name, colon, todo.gap, todo.value, todo.more), todo.up);
      FirstMemberText(ws, name, colon, todo.gap, todo.value, todo.more, todo.up);
    }
  }

  lemma {:induction false} StepSoundFirst(s: State, todo: Todo) returns (now: Todo)
    requires Coherent(s) && s.kind == NoToken && Step(s).Next? && Fits(todo, Step(s).state)
    ensures Fits(now, s) && !IsFinal(now) && Head(now) == Step(s).token && Advance(now) == todo
  {
    var ws := SkipBlankSplit(s.rest);
    var rest := SkipBlank(s.rest);
    var s' := s.(isComplex := rest[0] == LEFT_BRACE || rest[0] == LEFT_BRACKET);
    hide ReadValue, Text, HeadOf, Enter;
    var v, tail := ReadValueSound(s', rest, todo);
    now := AtStart(ws, v, tail.ws);
  }

  lemma {:induction false} StepSoundNamed(s: State, todo: Todo) returns (now: Todo)
    requires Coherent(s) && s.kind == PropertyName && Step(s).Next? && Fits(todo, Step(s).state)
    ensures Fits(now, s) && !IsFinal(now) && Head(now) == Step(s).token && Advance(now) == todo
  {
    hide ReadValue, Text, HeadOf, Enter;
    var ws := SkipBlankSplit(s.rest);
    var v, tail := ReadValueSound(s, SkipBlank(s.rest), todo);
    now := AtValue(ws, v, tail.members, tail.up);
    Assoc(Text(v), MoreMembersText(tail.members), TailText(tail.up));
  }

  /** Backwards: the cut before a successful step is the cut behind it with the token put back. */
  lemma {:induction false} StepSound(s: State, todo: Todo) returns (now: Todo)
    requires Coherent(s) && Step(s).Next? && Fits(todo, Step(s).state)
    ensures Fits(now, s) && !IsFinal(now) && Head(now) == Step(s).token && Advance(now) == todo
  {
    hide Step;
    match s.kind
    case NoToken => now := StepSoundFirst(s, todo);
    case BeginArray => now := StepSoundItems(s, todo);
    case BeginObject => now := StepSoundMembers(s, todo);
    case PropertyName => now := StepSoundNamed(s, todo);
    case _ =>
      var tail := StepSoundAfterValue(s, todo);
      now := AfterValue(tail);
  }

  // ---------------------------------------------------------------- runs

  /** A cut within the nesting limit is read to the end; a deeper one stops at the container too many. */
  lemma {:induction false} RunComplete(s: State, todo: Todo)
    requires Fits(todo, s) && |s.stack| <= MAX_DEPTH
    ensures TodoDepth(todo) <= MAX_DEPTH ==> Run(s) == RunResult(TodoTokens(todo), ReaderDone)
    ensures TodoDepth(todo) > MAX_DEPTH ==> Run(s).result == NestingOverflow && Run(s).tokens <= TodoTokens(todo)
    decreases |s.rest|
  {
    hide Step, Head, Opens;
    StepComplete(s, todo);
    if !IsFinal(todo) {
      hide Advance, TodoTokens, TodoDepth, TodoText, TodoStack, FitsKind;
      AdvanceTokens(todo);
      AdvanceDepth(todo);
      AdvanceStack(todo);
      if Opens(todo) && |s.stack| >= MAX_DEPTH {
        OpensDeeper(todo);
      } else {
        RunComplete(Step(s).state, Advance(todo));
      }
    }
  }

  /** Only opening a container raises the stack, by one. */
  lemma {:induction false} AdvanceStack(todo: Todo)
    requires !IsFinal(todo)
    ensures |TodoStack(Advance(todo))| <= |TodoStack(todo)| + 1
    ensures Opens(todo) ==> |TodoStack(Advance(todo))| == |TodoStack(todo)| + 1
    ensures !Opens(todo) ==> |TodoStack(Advance(todo))| <= |TodoStack(todo)|
  {
  }

  lemma {:induction false} OpensDeeper(todo: Todo)
    requires Opens(todo)
    ensures TodoDepth(todo) > |TodoStack(todo)|
  {
    AdvanceDepth(todo);
    AdvanceStack(todo);
    DepthCoversStack(Advance(todo).up);
  }

  /** An accepting run leaves the derivation of what it read. */
  lemma {:induction false} RunSound(s: State) returns (todo: Todo)
    requires Coherent(s) && Run(s).result == ReaderDone
    ensures Fits(todo, s) && TodoTokens(todo) == Run(s).tokens && TodoDepth(todo) <= MAX_DEPTH
    decreases |s.rest|
  {
    hide Step;
    if Step(s).Stop? {
      StepDone(s);
      var ws := SkipBlankSplit(s.rest);
      todo := AfterValue(Finish(ws));
      assert ws + [] == ws;
    } else {
      StepCoherent(s);
      var later := RunSound(Step(s).state);
      todo := StepSound(s, later);
      AdvanceTokens(todo);
      AdvanceDepth(todo);
    }
  }

  /** `d` is a derivation of `json` within the nesting limit, with these tokens. */
  ghost predicate Derives(d: Document, json: bytes, tokens: seq<Token>) {
    DocumentText(d) == json && Depth(d.value) <= MAX_DEPTH && Tokens(d.value) == tokens
  }

  /**
   Soundness and completeness: reading reaches json_reader_done with `tokens` exactly when the
   buffer is a JSON text with at most 64 open containers whose tokens are `tokens`.
   */
  lemma {:induction false} TokenizerExact(json: bytes, tokens: seq<Token>)
    ensures Run(Init(json)) == RunResult(tokens, ReaderDone) <==> exists d: Document :: Derives(d, json, tokens)
  {
    if Run(Init(json)) == RunResult(tokens, ReaderDone) {
      var todo := RunSound(Init(json));
      assert Derives(Document(todo.before, todo.value, todo.end), json, tokens);
    }
    forall d: Document | Derives(d, json, tokens)
      ensures Run(Init(json)) == RunResult(tokens, ReaderDone)
    {
      RunComplete(Init(json), AtStart(d.before, d.value, d.after));
    }
  }

  /** A JSON text nested deeper than 64 is refused as such, after a prefix of its tokens. */
  lemma {:induction false} DeepTextOverflows(d: Document)
    requires Depth(d.value) > MAX_DEPTH
    ensures Run(Init(DocumentText(d))).result == NestingOverflow
    ensures Run(Init(DocumentText(d))).tokens <= Tokens(d.value)
  {
    RunComplete(Init(DocumentText(d)), AtStart(d.before, d.value, d.after));
  }

  // ---------------------------------------------------------------- the grammar is unambiguous

  /** Where the next value begins: behind the blanks, or behind a comma and the blanks around it. */
  function Lead(s: State): bytes {
    var rest := SkipBlank(s.rest);
    if IsAfterValue(s.kind) && rest != [] then SkipBlank(rest[1..]) else rest
  }

  /** The token and the state behind an opening bracket, however many containers are open. */
  function Opening(s: State): (Token, State)
    requires Lead(s) != []
  {
    var isArray := Lead(s)[0] == LEFT_BRACKET;
    var token := if isArray then BEGIN_ARRAY else BEGIN_OBJECT;
    (token, State(token.kind, s.stack + [if isArray then InArray else InObject], true, Lead(s)[1..]))
  }

  /** The token and the cut behind it are those of `Opening`. */
  predicate OpensInto(s: State, token: Token, next: Todo) {
    Lead(s) != [] && token == Opening(s).0 && Fits(next, Opening(s).1)
  }

  lemma {:induction false} OpeningValue(s: State, v: Value, tail: Tail)
    requires IsContainer(v) && Lead(s) == Text(v) + TailText(tail) && s.stack == StackOf(tail)
    ensures OpensInto(s, HeadOf(v), Enter(v, tail))
  {
    hide Text, TailText, Lead, TodoText, TodoStack, FitsKind, Enter, HeadOf, StackOf;
    ContainerText(v, tail);
  }

  lemma {:induction false} LeadFirst(s: State, before: Blank, t: bytes)
    requires s.rest == before + t && t != [] && !IsBlankByte(t[0]) && !IsAfterValue(s.kind)
    ensures Lead(s) == t
  {
    SkipBlankExact(before, t);
  }

  lemma {:induction false} LeadNext(s: State, before: Blank, after: Blank, t: bytes)
    requires s.rest == before + ([COMMA] + (after + t)) && t != [] && !IsBlankByte(t[0]) && IsAfterValue(s.kind)
    ensures Lead(s) == t
  {
    SkipBlankExact(before, [COMMA] + (after + t));
    SkipBlankExact(after, t);
    assert ([COMMA] + (after + t))[1..] == after + t;
  }

  lemma {:induction false} OpeningFirst(s: State, before: Blank, v: Value, tail: Tail)
    requires IsContainer(v) && s.rest == before + (Text(v) + TailText(tail)) && s.stack == StackOf(tail)
    requires !IsAfterValue(s.kind)
    ensures OpensInto(s, HeadOf(v), Enter(v, tail))
  {
    hide Text, TailText, Lead, OpensInto, Enter, HeadOf, StackOf;
    ValueStart(v, TailText(tail));
    LeadFirst(s, before, Text(v) + TailText(tail));
    OpeningValue(s, v, tail);
  }

  lemma {:induction false} OpeningNext(s: State, before: Blank, after: Blank, v: Value, tail: Tail)
    requires IsContainer(v) && s.rest == before + ([COMMA] + (after + (Text(v) + TailText(tail))))
    requires s.stack == StackOf(tail) && IsAfterValue(s.kind)
    ensures OpensInto(s, HeadOf(v), Enter(v, tail))
  {
    hide Text, TailText, Lead, OpensInto, Enter, HeadOf, StackOf;
    ValueStart(v, TailText(tail));
    LeadNext(s, before, after, Text(v) + TailText(tail));
    OpeningValue(s, v, tail);
  }

  /** The text alone decides what a cut opens and where it stands then. */
  lemma {:induction false} OpensExact(s: State, todo: Todo)
    requires Fits(todo, s) && Opens(todo)
    ensures OpensInto(s, Head(todo), Advance(todo))
  {
    hide Text, TailText, TodoText, OpensInto;
    match todo
    case AtStart(before, value, end) =>
      StartText(before, value, end);
      OpeningFirst(s, before, value, Finish(end));
    case AtItems(FirstItem(before, item, more), up) =>
      FirstItemText(before, item, more, up);
      OpeningFirst(s, before, item, ArrayTail(more, up));
    case AtValue(gap, value, more, up) =>
      ValueText(gap, value, more, up);
      OpeningFirst(s, gap, value, ObjectTail(more, up));
    case AfterValue(ArrayTail(NextItem(before, after, item, more), up)) =>
      NextItemText(before, after, item, more, up);
      OpeningNext(s, before, after, item, ArrayTail(more, up));
    case _ =>
  }

  lemma {:induction false} StartText(before: Blank, value: Value, end: Blank)
    ensures TodoText(AtStart(before, value, end)) == before + (Text(value) + TailText(Finish(end)))
  {
  }

  lemma {:induction false} ValueText(gap: Blank, value: Value, more: MoreMembers, up: Tail)
    ensures TodoText(AtValue(gap, value, more, up)) == gap + (Text(value) + TailText(ObjectTail(more, up)))
  {
  }

  lemma {:induction false} LeadShrinks(s: State)
    ensures |Lead(s)| <= |s.rest|
  {
  }

  /** Two cuts for one state have the same tokens and the same depth, the nesting limit notwithstanding. */
  lemma {:induction false} CutsAlike(s: State, t: Todo, u: Todo)
    requires Fits(t, s) && Fits(u, s)
    ensures TodoTokens(t) == TodoTokens(u) && TodoDepth(t) == TodoDepth(u)
    decreases |s.rest|
  {
    hide Step, Head, Advance, Lead, TodoText, FitsKind, IsFinal, TodoTokens, TodoDepth, TodoStack;
    StepComplete(s, t);
    StepComplete(s, u);
    if IsFinal(t) {
      FinalCut(t);
      FinalCut(u);
    } else {
      AdvanceTokens(t);
      AdvanceTokens(u);
      AdvanceDepth(t);
      AdvanceDepth(u);
      if Opens(t) && |s.stack| >= MAX_DEPTH {
        OpensExact(s, t);
        OpensExact(s, u);
        LeadShrinks(s);
        CutsAlike(Opening(s).1, Advance(t), Advance(u));
      } else {
        CutsAlike(Step(s).state, Advance(t), Advance(u));
      }
    }
  }

  lemma {:induction false} FinalCut(todo: Todo)
    requires IsFinal(todo)
    ensures TodoTokens(todo) == [] && TodoDepth(todo) == 0
  {
  }

  /** Any two derivations of one text have the same tokens and the same depth. */
  lemma {:induction false} TextDeterminesTokens(d: Document, e: Document)
    ensures DocumentText(d) == DocumentText(e) ==>
              Tokens(d.value) == Tokens(e.value) && Depth(d.value) == Depth(e.value)
  {
    if DocumentText(d) == DocumentText(e) {
      CutsAlike(Init(DocumentText(d)), AtStart(d.before, d.value, d.after), AtStart(e.before, e.value, e.after));
    }
  }
}
