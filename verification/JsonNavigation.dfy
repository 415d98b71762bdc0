/**
 Moving over a document: skipping a value, finding a property, visiting the elements of an
 array. The walks are defined on any input; on a JSON text each is shown to do on the bytes
 what its description says of the tree.
 */
module JsonNavigation {
  import opened Common
  import opened JsonLexical
  import opened JsonGrammar
  import opened JsonAutomaton
  import opened JsonTokenizer
  import opened JsonTokens

  /** A reader between two calls: the token it stands on and its automaton state. */
  datatype Cursor = Cursor(token: Token, state: State)

  /** The outcome of a walk that stops at the first call that is not ok. */
  datatype Walk = At(cursor: Cursor) | Failed(result: Result)

  function Advanced(c: Cursor): (w: Walk)
    ensures w.At? ==> |w.cursor.state.rest| < |c.state.rest|
  {
    match Step(c.state)
    case Stop(result) => Failed(result)
    case Next(token, state) => At(Cursor(token, state))
  }

  predicate OpensContainer(kind: Kind) {
    kind == BeginObject || kind == BeginArray
  }

  /** Reads on until fewer than `target` containers are open. */
  function Drain(c: Cursor, target: nat): (w: Walk)
    decreases |c.state.rest|
    ensures w.At? ==> |w.cursor.state.rest| < |c.state.rest|
  {
    var w := Advanced(c);
    if w.Failed? || |w.cursor.state.stack| < target then w else Drain(w.cursor, target)
  }

  /** json_reader_skip_children */
  function Skip(c: Cursor): (w: Walk)
    ensures w.At? ==> |w.cursor.state.rest| <= |c.state.rest|
  {
    var w := if c.token.kind == PropertyName then Advanced(c) else At(c);
    if w.Failed? || !OpensContainer(w.cursor.token.kind) then w
    else Drain(w.cursor, |w.cursor.state.stack|)
  }

  datatype Search = FoundAt(cursor: Cursor) | EndedAt(cursor: Cursor) | Broken(result: Result)

  /** The loop of json_reader_find_property, from the token of a name or of the object's end. */
  function Scan(c: Cursor, name: Span): Search
    decreases |c.state.rest|
  {
    if c.token.kind == EndObject then EndedAt(c)
    else if c.token.kind != PropertyName then Broken(UnexpectedChar)
    else
      var w := Advanced(c);
      if w.Failed? then Broken(w.result)
      else if TextEqual(c.token, name) then FoundAt(w.cursor)
      else
        var skipped := Skip(w.cursor);
        if skipped.Failed? then Broken(skipped.result)
        else
          var next := Advanced(skipped.cursor);
          if next.Failed? then Broken(next.result) else Scan(next.cursor, name)
  }

  /** json_reader_find_property, from the start of an object or from a name inside it. */
  function Find(c: Cursor, name: Span): Search {
    if c.token.kind == BeginObject then
      var w := Advanced(c);
      if w.Failed? then Broken(w.result) else Scan(w.cursor, name)
    else Scan(c, name)
  }

  // ---------------------------------------------------------------- positions in a document

  /** `c` stands on a token of a JSON text within the nesting limit, with `todo` behind it. */
  predicate Stands(c: Cursor, todo: Todo) {
    Fits(todo, c.state) && c.token.kind == c.state.kind && TodoDepth(todo) <= MAX_DEPTH
  }

  lemma {:induction false} AdvancedExact(c: Cursor, todo: Todo)
    requires Stands(c, todo) && !IsFinal(todo)
    ensures Advanced(c).At? && Advanced(c).cursor.token == Head(todo) && Stands(Advanced(c).cursor, Advance(todo))
  {
    hide Step, TodoDepth;
    StepComplete(c.state, todo);
    AdvanceDepth(todo);
    if Opens(todo) {
      OpensDeeper(todo);
    }
  }

  /** Before the first call. */
  function Beginning(json: bytes): Cursor {
    Cursor(Token(NoToken, [], false), Init(json))
  }

  lemma {:induction false} StandsLater(c: Cursor, todo: Todo, k: nat) returns (now: Todo)
    requires Stands(c, todo) && k <= |TodoTokens(todo)|
    ensures var w := Consume(c, k);
            w.At? && Stands(w.cursor, now) && TodoTokens(now) == TodoTokens(todo)[k..]
            && (k > 0 ==> w.cursor.token == TodoTokens(todo)[k - 1])
    decreases k
  {
    hide Stands, TodoTokens, Advanced, Head, Advance;
    now := todo;
    if k > 0 {
      NotFinal(todo);
      AdvancedExact(c, todo);
      AdvanceTokens(todo);
      now := StandsLater(Advanced(c).cursor, Advance(todo), k - 1);
    }
  }

  lemma {:induction false} NotFinal(todo: Todo)
    requires TodoTokens(todo) != []
    ensures !IsFinal(todo)
  {
  }

  /**
   A reader started on a document within the nesting limit stands somewhere in it after any number
   of its tokens, and before exactly the others.
   */
  lemma {:induction false} ReaderStands(d: Document, k: nat) returns (todo: Todo)
    requires Depth(d.value) <= MAX_DEPTH && k <= |Tokens(d.value)|
    ensures var w := Consume(Beginning(DocumentText(d)), k);
            w.At? && Stands(w.cursor, todo) && TodoTokens(todo) == Tokens(d.value)[k..]
            && (k > 0 ==> w.cursor.token == Tokens(d.value)[k - 1])
            && (w.cursor.token.kind == BeginArray ==> todo.AtItems?)
            && (w.cursor.token.kind == BeginObject ==> todo.AtMembers?)
            && (w.cursor.token.kind == PropertyName ==> todo.AtValue?)
  {
    todo := StandsLater(Beginning(DocumentText(d)), AtStart(d.before, d.value, d.after), k);
  }

  /** What is left when the containers above level `h` have been read to their ends. */
  function Outer(tail: Tail, h: nat): Tail {
    if tail.Finish? || |StackOf(tail)| <= h then tail else Outer(tail.up, h)
  }

  function OuterTodo(todo: Todo, h: nat): Tail
    requires h < |TodoStack(todo)|
  {
    match todo
    case AtStart(_, _, end) => Finish(end)
    case AtItems(_, up) => Outer(up, h)
    case AtMembers(_, up) => Outer(up, h)
    case AtValue(_, _, _, up) => Outer(up, h)
    case AfterValue(tail) => Outer(tail, h)
  }

  lemma {:induction false} AdvanceKeepsOuter(todo: Todo, h: nat)
    requires h < |TodoStack(todo)|
    ensures !IsFinal(todo)
    ensures h < |TodoStack(Advance(todo))| ==> OuterTodo(Advance(todo), h) == OuterTodo(todo, h)
    ensures h >= |TodoStack(Advance(todo))| ==>
              Advance(todo) == AfterValue(OuterTodo(todo, h)) && (Head(todo) == END_ARRAY || Head(todo) == END_OBJECT)
              && TodoStack(todo) == TodoStack(Advance(todo)) + [if Head(todo) == END_ARRAY then InArray else InObject]
  {
    if todo.AfterValue? {
      OuterStep(todo.tail, h);
      OuterStep(todo.tail.up, h);
    } else if !todo.AtStart? {
      OuterStep(todo.up, h);
    }
  }

  lemma {:induction false} OuterStep(tail: Tail, h: nat)
    ensures |StackOf(tail)| <= h ==> Outer(tail, h) == tail
    ensures |StackOf(tail)| > h ==> !tail.Finish? && Outer(tail, h) == Outer(tail.up, h)
  {
  }

  /** Draining reads to the end of the innermost container above level `h` and stops on its close. */
  lemma {:induction false} DrainExact(c: Cursor, todo: Todo, h: nat)
    requires Stands(c, todo) && h < |TodoStack(todo)|
    ensures var w := Drain(c, h + 1);
            w.At? && Stands(w.cursor, AfterValue(OuterTodo(todo, h)))
            && w.cursor.token == if TodoStack(todo)[h] == InArray then END_ARRAY else END_OBJECT
    decreases |c.state.rest|
  {
    AdvanceKeepsOuter(todo, h);
    AdvancedExact(c, todo);
    if h < |TodoStack(Advance(todo))| {
      AdvanceKeepsLevel(todo, h);
      DrainExact(Advanced(c).cursor, Advance(todo), h);
    }
  }

  /** Containers that stay open keep their kind. */
  lemma {:induction false} AdvanceKeepsLevel(todo: Todo, h: nat)
    requires !IsFinal(todo) && h < |TodoStack(todo)| && h < |TodoStack(Advance(todo))|
    ensures TodoStack(todo)[h] == TodoStack(Advance(todo))[h]
  {
  }

  // ---------------------------------------------------------------- skipping

  function LastOf(v: Value): Token {
    match v
    case Primitive(s) => ScalarToken(s)
    case Array(_) => END_ARRAY
    case Object(_) => END_OBJECT
  }

  /** From the first token of a value, skipping stops on the value's last token and nowhere else. */
  lemma {:induction false} SkipExact(c: Cursor, v: Value, tail: Tail)
    requires Stands(c, Enter(v, tail)) && c.token == HeadOf(v)
    ensures Skip(c).At? && Skip(c).cursor.token == LastOf(v) && Stands(Skip(c).cursor, AfterValue(tail))
  {
    hide Stands, Drain, Step;
    if IsContainer(v) {
      var h := |StackOf(tail)|;
      assert TodoStack(Enter(v, tail)) == StackOf(tail) + [if v.Array? then InArray else InObject];
      StandsOnStack(c, Enter(v, tail));
      DrainExact(c, Enter(v, tail), h);
      OuterStep(tail, h);
    }
  }

  lemma {:induction false} StandsOnStack(c: Cursor, todo: Todo)
    requires Stands(c, todo)
    ensures c.state.stack == TodoStack(todo)
  {
  }

  /** From a property name, skipping moves over the whole value of the property. */
  lemma {:induction false} SkipNameExact(c: Cursor, todo: Todo)
    requires Stands(c, todo) && todo.AtValue?
    ensures var tail := ObjectTail(todo.more, todo.up);
            Skip(c).At? && Skip(c).cursor.token == LastOf(todo.value) && Stands(Skip(c).cursor, AfterValue(tail))
  {
    AdvancedExact(c, todo);
    SkipExact(Advanced(c).cursor, todo.value, ObjectTail(todo.more, todo.up));
  }

  // ---------------------------------------------------------------- properties

  datatype Entry = Entry(name: Body, value: Value)

  /** The properties of an object's own level. */
  function Entries(members: Members): seq<Entry> {
    match members
    case NoMembers(_) => []
    case FirstMember(_, name, _, _, value, more) => [Entry(name, value)] + MoreEntries(more)
  }

  function MoreEntries(more: MoreMembers): seq<Entry> {
    match more
    case CloseMembers(_) => []
    case NextMember(_, _, name, _, _, value, rest) => [Entry(name, value)] + MoreEntries(rest)
  }

  /** What follows the value of entry `i` up to the object's end. */
  function Behind(more: MoreMembers, i: nat): MoreMembers {
    if i == 0 || more.CloseMembers? then more else Behind(more.more, i - 1)
  }

  predicate Matches(e: Entry, name: Span) {
    TextEqual(BodyToken(PropertyName, e.name), name)
  }

  /** The index of the first entry with the name, or the number of entries. */
  function FirstMatch(es: seq<Entry>, name: Span): (i: nat)
    ensures i <= |es|
    ensures forall k :: 0 <= k < i ==> !Matches(es[k], name)
    ensures i < |es| ==> Matches(es[i], name)
  {
    if es == [] || Matches(es[0], name) then 0 else 1 + FirstMatch(es[1..], name)
  }

  /** The outcome of a search over entries that end with the object whose surroundings are `up`. */
  predicate Finds(r: Search, es: seq<Entry>, more: MoreMembers, up: Tail, name: Span) {
    var i := FirstMatch(es, name);
    if i < |es| then
      r.FoundAt? && r.cursor.token == HeadOf(es[i].value)
      && Stands(r.cursor, Enter(es[i].value, ObjectTail(Behind(more, i), up)))
    else r.EndedAt? && r.cursor.token == END_OBJECT && Stands(r.cursor, AfterValue(up))
  }

  lemma {:induction false} FindsFirst(c: Cursor, e: Entry, more: MoreMembers, up: Tail, name: Span)
    requires Matches(e, name) && c.token == HeadOf(e.value) && Stands(c, Enter(e.value, ObjectTail(more, up)))
    ensures Finds(FoundAt(c), [e] + MoreEntries(more), more, up, name)
  {
    hide Matches, Stands, HeadOf, Enter, MoreEntries;
  }

  lemma {:induction false} FindsEnd(c: Cursor, e: Entry, more: MoreMembers, up: Tail, name: Span)
    requires !Matches(e, name) && more.CloseMembers? && c.token == END_OBJECT && Stands(c, AfterValue(up))
    ensures Finds(EndedAt(c), [e] + MoreEntries(more), more, up, name)
  {
    hide Matches, Stands;
    assert ([e] + MoreEntries(more))[1..] == [];
  }

  lemma {:induction false} FindsLater(r: Search, e: Entry, more: MoreMembers, up: Tail, name: Span)
    requires !Matches(e, name) && more.NextMember?
    requires Finds(r, [Entry(more.name, more.value)] + MoreEntries(more.more), more.more, up, name)
    ensures Finds(r, [e] + MoreEntries(more), more, up, name)
  {
    hide Matches, Stands, HeadOf, Enter, FirstMatch;
    MatchLater(e, MoreEntries(more), name);
  }

  lemma {:induction false} MatchLater(e: Entry, rest: seq<Entry>, name: Span)
    requires !Matches(e, name)
    ensures FirstMatch([e] + rest, name) == 1 + FirstMatch(rest, name)
    ensures FirstMatch(rest, name) < |rest| ==> ([e] + rest)[1 + FirstMatch(rest, name)] == rest[FirstMatch(rest, name)]
  {
    hide Matches;
    assert ([e] + rest)[1..] == rest;
  }

  lemma {:induction false} ScanExact(c: Cursor, n: Body, todo: Todo, name: Span)
    requires todo.AtValue? && Stands(c, todo) && c.token == BodyToken(PropertyName, n)
    ensures Finds(Scan(c, name), [Entry(n, todo.value)] + MoreEntries(todo.more), todo.more, todo.up, name)
    decreases |c.state.rest|
  {
    hide Stands, TextEqual, Step, Skip, Advanced, Finds, FirstMatch, MoreEntries, Behind;
    var e := Entry(n, todo.value);
    var tail := ObjectTail(todo.more, todo.up);
    AdvancedExact(c, todo);
    var first := Advanced(c).cursor;
    if Matches(e, name) {
      FindsFirst(first, e, todo.more, todo.up, name);
    } else {
      SkipExact(first, todo.value, tail);
      var skipped := Skip(first).cursor;
      AdvancedExact(skipped, AfterValue(tail));
      var next := Advanced(skipped).cursor;
      if todo.more.NextMember? {
        ScanExact(next, todo.more.name, Advance(AfterValue(tail)), name);
        FindsLater(Scan(next, name), e, todo.more, todo.up, name);
      } else {
        FindsEnd(next, e, todo.more, todo.up, name);
      }
    }
  }

  /**
   json_reader_find_property on an object stops on the value of the first property of that
   object's own level whose name matches, or on that object's end when there is none.
   */
  lemma {:induction false} FindExact(c: Cursor, members: Members, up: Tail, name: Span)
    requires Stands(c, AtMembers(members, up)) && c.token == BEGIN_OBJECT
    ensures members.NoMembers? ==>
              Find(c, name).EndedAt? && Find(c, name).cursor.token == END_OBJECT
              && Stands(Find(c, name).cursor, AfterValue(up))
    ensures members.FirstMember? ==> Finds(Find(c, name), Entries(members), members.more, up, name)
  {
    var todo := AtMembers(members, up);
    AdvancedExact(c, todo);
    if members.FirstMember? {
      ScanExact(Advanced(c).cursor, members.name, Advance(todo), name);
    }
  }

  /**
   From a name the search goes on with that property and those behind it, from the object's own end it
   ends at once, and from any other token it is refused.
   */
  lemma {:induction false} FindFromInside(c: Cursor, n: Body, todo: Todo, name: Span)
    ensures todo.AtValue? && Stands(c, todo) && c.token == BodyToken(PropertyName, n) ==>
              Finds(Find(c, name), [Entry(n, todo.value)] + MoreEntries(todo.more), todo.more, todo.up, name)
    ensures c.token.kind == EndObject ==> Find(c, name) == EndedAt(c)
    ensures c.token.kind !in {BeginObject, PropertyName, EndObject} ==> Find(c, name) == Broken(UnexpectedChar)
  {
    hide Finds, Stands;
    if todo.AtValue? && Stands(c, todo) && c.token == BodyToken(PropertyName, n) {
      ScanExact(c, n, todo, name);
    }
  }

  // ---------------------------------------------------------------- array elements

  /** What a visitor does with an element: so many calls of next_token, then its answer. */
  datatype Visit = Visit(steps: nat, answer: Result)

  /** On a given document what a visitor does with an element is determined by the element's index. */
  type Visitor = nat -> Visit

  function Consume(c: Cursor, steps: nat): (w: Walk)
    decreases steps
    ensures w.At? ==> |w.cursor.state.rest| <= |c.state.rest|
  {
    if steps == 0 then At(c)
    else
      var w := Advanced(c);
      if w.Failed? then w else Consume(w.cursor, steps - 1)
  }

  function DrainAbove(c: Cursor, level: nat): (w: Walk)
    ensures w.At? ==> |w.cursor.state.rest| <= |c.state.rest|
  {
    if |c.state.stack| > level then Drain(c, level + 1) else At(c)
  }

  /** One element: what the visitor reads, its answer, and the drain of what it left unread. */
  function Element(c: Cursor, level: nat, v: Visit): (w: Walk)
    ensures w.At? ==> |w.cursor.state.rest| <= |c.state.rest|
  {
    var used := Consume(c, v.steps);
    if used.Failed? then used
    else if v.answer != Ok then Failed(v.answer)
    else DrainAbove(used.cursor, level)
  }

  /** The elements a tour visited, by their first tokens, and where it ended. */
  datatype Tour = Tour(visited: seq<Token>, walk: Walk)

  /** The loop of json_reader_for_each_array_element; a visitor passes on the failure of a call it makes. */
  function Each(c: Cursor, level: nat, visit: Visitor, index: nat): Tour
    decreases |c.state.rest|
  {
    var w := Advanced(c);
    if w.Failed? || w.cursor.token.kind == EndArray then Tour([], w)
    else
      var after := Element(w.cursor, level, visit(index));
      if after.Failed? then Tour([w.cursor.token], after)
      else
        var later := Each(after.cursor, level, visit, index + 1);
        Tour([w.cursor.token] + later.visited, later.walk)
  }

  function Elements(items: Items): seq<Value> {
    match items
    case NoItems(_) => []
    case FirstItem(_, item, more) => [item] + MoreElements(more)
  }

  function MoreElements(more: MoreItems): seq<Value> {
    match more
    case CloseItems(_) => []
    case NextItem(_, _, item, rest) => [item] + MoreElements(rest)
  }

  function Heads(vs: seq<Value>): (ts: seq<Token>)
    ensures |ts| == |vs|
  {
    seq(|vs|, i requires 0 <= i < |vs| => HeadOf(vs[i]))
  }

  /** Inside a value whose surroundings are `tail`, or exactly at its end. */
  predicate Inside(todo: Todo, tail: Tail) {
    var h := |StackOf(tail)|;
    todo == AfterValue(tail) || (h < |TodoStack(todo)| && OuterTodo(todo, h) == tail)
  }

  /** A visitor that takes fewer calls than the element has tokens left does not leave the element. */
  lemma {:induction false} ConsumeInside(c: Cursor, todo: Todo, tail: Tail, steps: nat)
    requires Stands(c, todo) && Inside(todo, tail) && steps + |TailTokens(tail)| <= |TodoTokens(todo)|
    ensures var w := Consume(c, steps);
            w.At? && exists later :: Stands(w.cursor, later) && Inside(later, tail)
    decreases steps
  {
    hide Stands, Step;
    if steps == 0 {
      assert Stands(c, todo) && Inside(todo, tail);
    } else {
      var h := |StackOf(tail)|;
      assert !IsFinal(todo) by { AdvanceKeepsOuter(todo, h); }
      AdvanceKeepsOuter(todo, h);
      AdvancedExact(c, todo);
      AdvanceTokens(todo);
      ConsumeInside(Advanced(c).cursor, Advance(todo), tail, steps - 1);
    }
  }

  /** Draining from anywhere inside a value reads to the value's end. */
  lemma {:induction false} DrainAboveExact(c: Cursor, todo: Todo, tail: Tail)
    requires Stands(c, todo) && Inside(todo, tail)
    ensures var w := DrainAbove(c, |StackOf(tail)|);
            w.At? && Stands(w.cursor, AfterValue(tail))
  {
    hide Stands, Step, Drain;
    var h := |StackOf(tail)|;
    StandsOnStack(c, todo);
    if h < |TodoStack(todo)| {
      DrainExact(c, todo, h);
    }
  }

  /** What a tour of the elements `vs` shows when the visitor first refuses element `stop`. */
  predicate Toured(t: Tour, vs: seq<Value>, up: Tail, stop: nat, refusal: Result) {
    if stop < |vs| then t == Tour(Heads(vs[..stop + 1]), Failed(refusal))
    else
      t.visited == Heads(vs) && t.walk.At? && t.walk.cursor.token == END_ARRAY && Stands(t.walk.cursor, AfterValue(up))
  }

  /** The visitor stays inside each element it is given, accepts those before `stop` and refuses the next. */
  predicate Behaves(visit: Visitor, vs: seq<Value>, index: nat, stop: nat, refusal: Result) {
    refusal != Ok
    && (vs != [] ==>
          visit(index).steps < |Tokens(vs[0])|
          && visit(index).answer == (if stop == 0 then refusal else Ok)
          && (stop > 0 ==> Behaves(visit, vs[1..], index + 1, stop - 1, refusal)))
  }

  lemma {:induction false} BehavesAt(visit: Visitor, vs: seq<Value>, index: nat, stop: nat, refusal: Result)
    requires Behaves(visit, vs, index, stop, refusal)
    ensures refusal != Ok
    ensures vs != [] ==>
              visit(index).steps < |Tokens(vs[0])| && visit(index).answer == (if stop == 0 then refusal else Ok)
    ensures vs != [] && stop > 0 ==> Behaves(visit, vs[1..], index + 1, stop - 1, refusal)
  {
    hide Tokens;
  }

  lemma {:induction false} TouredNone(w: Walk, up: Tail, stop: nat, refusal: Result)
    requires w.At? && w.cursor.token == END_ARRAY && Stands(w.cursor, AfterValue(up))
    ensures Toured(Tour([], w), [], up, stop, refusal)
  {
    hide Stands;
  }

  lemma {:induction false} TouredRefused(vs: seq<Value>, up: Tail, refusal: Result)
    requires vs != []
    ensures Toured(Tour([HeadOf(vs[0])], Failed(refusal)), vs, up, 0, refusal)
  {
    hide HeadOf, Stands;
    assert vs[..1] == [vs[0]];
  }

  lemma {:induction false} TouredLater(t: Tour, vs: seq<Value>, up: Tail, stop: nat, refusal: Result)
    requires vs != [] && stop > 0 && Toured(t, vs[1..], up, stop - 1, refusal)
    ensures Toured(Tour([HeadOf(vs[0])] + t.visited, t.walk), vs, up, stop, refusal)
  {
    hide HeadOf, Stands;
    if stop < |vs| {
      assert vs[..stop + 1][1..] == vs[1..][..stop];
      assert Heads(vs[..stop + 1]) == [HeadOf(vs[0])] + Heads(vs[1..][..stop]);
    } else {
      assert Heads(vs) == [HeadOf(vs[0])] + Heads(vs[1..]);
    }
  }

  /** A visit that stays inside an element, and the drain behind it, leave the reader at the element's end. */
  lemma {:induction false} ElementExact(c: Cursor, v: Value, tail: Tail, visit: Visit)
    requires Stands(c, Enter(v, tail)) && visit.steps < |Tokens(v)|
    ensures var w := Element(c, |StackOf(tail)|, visit);
            if visit.answer != Ok then w == Failed(visit.answer) else w.At? && Stands(w.cursor, AfterValue(tail))
  {
    hide Stands, Step, Drain;
    EnterTokens(v, tail);
    EnterInside(v, tail);
    ConsumeInside(c, Enter(v, tail), tail, visit.steps);
    var used := Consume(c, visit.steps).cursor;
    var later :| Stands(used, later) && Inside(later, tail);
    DrainAboveExact(used, later, tail);
  }

  lemma {:induction false} EnterInside(v: Value, tail: Tail)
    ensures Inside(Enter(v, tail), tail)
  {
    OuterStep(tail, |StackOf(tail)|);
  }

  /** The tour from a position in front of an element or of the array's end. */
  lemma {:induction false} EachExact(c: Cursor, todo: Todo, vs: seq<Value>, up: Tail, visit: Visitor, index: nat,
                                     stop: nat, refusal: Result)
    requires Stands(c, todo) && !IsFinal(todo) && Behaves(visit, vs, index, stop, refusal)
    requires if vs == [] then Head(todo) == END_ARRAY && Advance(todo) == AfterValue(up)
             else Head(todo) == HeadOf(vs[0])
                  && exists more :: Advance(todo) == Enter(vs[0], ArrayTail(more, up)) && MoreElements(more) == vs[1..]
    ensures Toured(Each(c, |StackOf(up)| + 1, visit, index), vs, up, stop, refusal)
    decreases |c.state.rest|
  {
    hide Stands, Advanced, Element, Tokens, TodoText, Toured, Behaves;
    AdvancedExact(c, todo);
    BehavesAt(visit, vs, index, stop, refusal);
    if vs == [] {
      TouredNone(Advanced(c), up, stop, refusal);
    } else {
      var more :| Advance(todo) == Enter(vs[0], ArrayTail(more, up)) && MoreElements(more) == vs[1..];
      var tail := ArrayTail(more, up);
      var first := Advanced(c).cursor;
      ElementExact(first, vs[0], tail, visit(index));
      if stop > 0 {
        var drained := Element(first, |StackOf(tail)|, visit(index)).cursor;
        EachExact(drained, AfterValue(tail), vs[1..], up, visit, index + 1, stop - 1, refusal);
        TouredLater(Each(drained, |StackOf(up)| + 1, visit, index + 1), vs, up, stop, refusal);
      } else {
        TouredRefused(vs, up, refusal);
      }
    }
  }

  /**
   json_reader_for_each_array_element visits every element of the array once, in order and with
   indices from 0, whatever part of each element the visitor reads, and ends on the array's
   own close; a refusal ends it behind the element refused.
   */
  lemma {:induction false} ForEachExact(c: Cursor, items: Items, up: Tail, visit: Visitor, stop: nat, refusal: Result)
    requires Stands(c, AtItems(items, up)) && Behaves(visit, Elements(items), 0, stop, refusal)
    ensures Toured(Each(c, |StackOf(up)| + 1, visit, 0), Elements(items), up, stop, refusal)
  {
    hide Stands;
    if items.FirstItem? {
      assert Elements(items)[1..] == MoreElements(items.more);
    }
    EachExact(c, AtItems(items, up), Elements(items), up, visit, 0, stop, refusal);
  }

  // ---------------------------------------------------------------- walks are readings

  lemma {:induction false} ReadsOn(c: Cursor, j: nat, d: Cursor, k: nat, w: Walk)
    requires Consume(c, j) == At(d) && Consume(d, k) == w
    ensures Consume(c, j + k) == w
    decreases j
  {
    hide Advanced;
    if j > 0 {
      ReadsOn(Advanced(c).cursor, j - 1, d, k, w);
    }
  }

  lemma {:induction false} ReadsOne(c: Cursor)
    ensures Consume(c, 0) == At(c) && Consume(c, 1) == Advanced(c)
  {
    hide Step;
  }

  lemma {:induction false} DrainReads(c: Cursor, target: nat) returns (k: nat)
    ensures Consume(c, k) == Drain(c, target)
    decreases |c.state.rest|
  {
    hide Step;
    ReadsOne(c);
    k := 1;
    if Advanced(c).At? && |Advanced(c).cursor.state.stack| >= target {
      var j := DrainReads(Advanced(c).cursor, target);
      ReadsOn(c, 1, Advanced(c).cursor, j, Drain(c, target));
      k := 1 + j;
    }
  }

  /** Skipping is reading: on a name or an opening bracket so many tokens, on any other token none. */
  lemma {:induction false} SkipReads(c: Cursor) returns (k: nat)
    ensures Consume(c, k) == Skip(c)
    ensures c.token.kind !in {PropertyName, BeginArray, BeginObject} ==> Skip(c) == At(c)
  {
    hide Advanced, Drain;
    ReadsOne(c);
    var w := if c.token.kind == PropertyName then Advanced(c) else At(c);
    k := if c.token.kind == PropertyName then 1 else 0;
    if w.At? && OpensContainer(w.cursor.token.kind) {
      var j := DrainReads(w.cursor, |w.cursor.state.stack|);
      ReadsOn(c, k, w.cursor, j, Skip(c));
      k := k + j;
    }
  }

  /** Where a search ends: at the end of a reading, or at a token that is neither a name nor the object's end. */
  predicate EndsReading(c: Cursor, k: nat, r: Search) {
    match r
    case FoundAt(d) => Consume(c, k) == At(d)
    case EndedAt(d) => Consume(c, k) == At(d) && d.token.kind == EndObject
    case Broken(error) =>
      Consume(c, k) == Failed(error)
      || (error == UnexpectedChar && Consume(c, k).At?
          && Consume(c, k).cursor.token.kind !in {PropertyName, EndObject})
  }

  lemma {:induction false} ScanReads(c: Cursor, name: Span) returns (k: nat)
    ensures EndsReading(c, k, Scan(c, name))
    decreases |c.state.rest|
  {
    hide Step, Skip, TextEqual, Consume;
    ReadsOne(c);
    k := 0;
    if c.token.kind == PropertyName {
      k := 1;
      var w := Advanced(c);
      if w.At? && !TextEqual(c.token, name) {
        var j := SkipReads(w.cursor);
        ReadsOn(c, 1, w.cursor, j, Skip(w.cursor));
        k := 1 + j;
        if Skip(w.cursor).At? {
          k := ScanReadsBehind(c, k, Skip(w.cursor).cursor, name);
        }
      }
    }
  }

  /** The search goes on behind a skipped value. */
  lemma {:induction false} ScanReadsBehind(c: Cursor, j: nat, d: Cursor, name: Span) returns (k: nat)
    requires Consume(c, j) == At(d)
    ensures Advanced(d).Failed? ==> EndsReading(c, k, Broken(Advanced(d).result))
    ensures Advanced(d).At? ==> EndsReading(c, k, Scan(Advanced(d).cursor, name))
    decreases |d.state.rest|, 0
  {
    hide Step, Skip, TextEqual, Consume, Scan;
    ReadsOne(d);
    ReadsOn(c, j, d, 1, Advanced(d));
    k := j + 1;
    if Advanced(d).At? {
      var e := Advanced(d).cursor;
      var i := ScanReads(e, name);
      ReadsOn(c, k, e, i, Consume(e, i));
      k := k + i;
    }
  }

  /** Finding is reading, on any input: its errors are those of next_token, or a token out of place. */
  lemma {:induction false} FindReads(c: Cursor, name: Span) returns (k: nat)
    ensures EndsReading(c, k, Find(c, name))
  {
    hide Step, Scan, Consume;
    ReadsOne(c);
    if c.token.kind == BeginObject {
      k := 1;
      if Advanced(c).At? {
        var j := ScanReads(Advanced(c).cursor, name);
        ReadsOn(c, 1, Advanced(c).cursor, j, Consume(Advanced(c).cursor, j));
        k := 1 + j;
      }
    } else {
      k := ScanReads(c, name);
    }
  }

  /** One element read on; a visitor's refusal is passed on as it is. */
  lemma {:induction false} ElementReads(c: Cursor, level: nat, v: Visit) returns (k: nat)
    ensures Consume(c, k) == Element(c, level, v) || (v.answer != Ok && Element(c, level, v) == Failed(v.answer))
  {
    hide Step, Drain;
    k := v.steps;
    var used := Consume(c, v.steps);
    if used.At? && v.answer == Ok && |used.cursor.state.stack| > level {
      var j := DrainReads(used.cursor, level + 1);
      ReadsOn(c, k, used.cursor, j, DrainAbove(used.cursor, level));
      k := k + j;
    }
  }

  /** Where a tour ends: at an array's end, at an error of next_token, or with the answer of a visitor. */
  ghost predicate EndsTour(c: Cursor, k: nat, visit: Visitor, w: Walk) {
    match w
    case At(d) => Consume(c, k) == At(d) && d.token.kind == EndArray
    case Failed(error) => Consume(c, k) == Failed(error) || (error != Ok && exists i :: visit(i).answer == error)
  }

  lemma {:induction false} TourReads(c: Cursor, level: nat, visit: Visitor, index: nat) returns (k: nat)
    ensures EndsTour(c, k, visit, Each(c, level, visit, index).walk)
    decreases |c.state.rest|
  {
    hide Step, Element, Consume;
    ReadsOne(c);
    k := 1;
    var w := Advanced(c);
    if w.At? && w.cursor.token.kind != EndArray {
      var after := Element(w.cursor, level, visit(index));
      var j := ElementReads(w.cursor, level, visit(index));
      ReadsOn(c, 1, w.cursor, j, Consume(w.cursor, j));
      k := 1 + j;
      if after.At? {
        var i := TourReads(after.cursor, level, visit, index + 1);
        ReadsOn(c, k, after.cursor, i, Consume(after.cursor, i));
        k := k + i;
      }
    }
  }
}
