/**
 json_reader_t of src/json_reader.c as an object whose calls update the position, the token and
 the bit stack in place. Every routine is tied to the automaton; `Run` of the automaton is
 what a caller sees who keeps calling `NextToken`.
 */
module JsonReaders {
  import opened Common
  import opened JsonLexical
  import opened JsonGrammar
  import opened JsonAutomaton
  import opened BitStacks
  import opened JsonTokens
  import opened JsonNavigation

  /** Lengths for which no 32-bit index sum of the reader wraps. */
  predicate IsBufferLength(n: nat) {
    n + 16 <= TWO_TO_THE_32
  }

  /** Whether `p[i..i + 4]` are hex digits. */
  predicate HexQuad(p: bytes, i: nat)
    requires i + 4 <= |p|
  {
    IsHexDigit(p[i]) && IsHexDigit(p[i + 1]) && IsHexDigit(p[i + 2]) && IsHexDigit(p[i + 3])
  }

  /** The scan of a string body, by the bytes at index `i`. */
  lemma {:induction false} ScanBodyAt(p: bytes, i: nat)
    requires i < |p|
    ensures p[i] == QUOTE ==> ScanBody(p[i..]) == Found(0, false)
    ensures p[i] == BACKSLASH && i + 1 == |p| ==> ScanBody(p[i..]) == Bad(UnexpectedEnd)
    ensures p[i] == BACKSLASH && i + 1 < |p| && p[i + 1] == 0x75 ==>
              ScanBody(p[i..]) == if i + 6 > |p| then Bad(UnexpectedEnd)
                                  else if !HexQuad(p, i + 2) then Bad(UnexpectedChar)
                                  else Shift(6, true, ScanBody(p[i + 6..]))
    ensures p[i] == BACKSLASH && i + 1 < |p| && p[i + 1] != 0x75 ==>
              ScanBody(p[i..]) == if !IsSimpleEscape(p[i + 1]) then Bad(UnexpectedChar)
                                  else Shift(2, true, ScanBody(p[i + 2..]))
    ensures p[i] != QUOTE && p[i] != BACKSLASH ==>
              ScanBody(p[i..]) == if p[i] < SPACE then Bad(UnexpectedChar) else Shift(1, false, ScanBody(p[i + 1..]))
  {
    DropDrop(p, i, 1);
    if i + 2 <= |p| {
      DropDrop(p, i, 2);
    }
    if i + 6 <= |p| {
      DropDrop(p, i, 6);
    }
  }

  lemma {:induction false} ScanBodyEnd(p: bytes, i: nat)
    requires i == |p|
    ensures ScanBody(p[i..]) == Bad(UnexpectedEnd)
  {
  }

  lemma {:induction false} StringStep(s: State, rest: bytes, p: bytes, scan: BodyScan)
    requires rest != [] && p == rest[1..] && scan == ScanBody(p)
    ensures scan.Bad? ==> ReadString(s, rest) == Stop(scan.error) && scan.error != Ok
    ensures scan.Found? ==>
              ReadString(s, rest) == Next(Token(StringToken, p[..scan.length], scan.escaped),
                                          State(StringToken, s.stack, s.isComplex, p[scan.length + 1..]))
  {
    hide ScanBody;
  }

  class JsonReader {
    const json: bytes
    var token: Token
    var currentDepth: nat
    var bytesConsumed: nat
    var isComplex: bool
    const bits: BitStack

    ghost predicate Valid()
      reads this, bits
    {
      bits.Valid() && bytesConsumed <= |json| && IsBufferLength(|json|)
    }

    ghost function Abstract(): State
      requires bytesConsumed <= |json|
      reads this, bits
    {
      State(token.kind, bits.Contents(), isComplex, json[bytesConsumed..])
    }

    /** The outcome of one call, given the step the automaton takes. */
    ghost predicate Took(step: StepResult, r: Result)
      requires bytesConsumed <= |json|
      reads this, bits
    {
      match step
      case Next(t, s) =>
        r == Ok && token == t && Abstract() == s
        && currentDepth == if t.kind == BeginArray || t.kind == BeginObject then |s.stack| - 1 else |s.stack|
      case Stop(error) => r == error && r != Ok
    }

    constructor (buffer: bytes)
      requires IsBufferLength(|buffer|)
      ensures Valid() && fresh(bits) && json == buffer && Abstract() == Init(buffer)
    {
      json := buffer;
      token := Token(NoToken, [], false);
      currentDepth, bytesConsumed, isComplex := 0, 0, false;
      bits := new BitStack();
    }

    /** json_reader_rewind */
    method Rewind()
      requires Valid()
      modifies this, bits
      ensures Valid() && Abstract() == Init(json)
    {
      token := Token(NoToken, [], false);
      currentDepth, bytesConsumed, isComplex := 0, 0, false;
      bits.Reset();
    }

    method SkipWhitespace() returns (remaining: bytes)
      requires Valid()
      modifies this`bytesConsumed
      ensures Valid() && remaining == json[bytesConsumed..] == SkipBlank(old(json[bytesConsumed..]))
    {
      var p := json[bytesConsumed..];
      var i := 0;
      while i < |p| && IsBlankByte(p[i])
        invariant i <= |p| && SkipBlank(p) == SkipBlank(p[i..])
      {
        i := i + 1;
      }
      DropDrop(json, bytesConsumed, i);
      bytesConsumed := bytesConsumed + i;
      remaining := p[i..];
    }

    method SetToken(kind: Kind, slice: bytes, consumed: nat)
      requires Valid() && bytesConsumed + consumed <= |json|
      requires (kind == BeginArray || kind == BeginObject) ==> bits.currentDepth > 0
      modifies this
      ensures Valid() && token == Token(kind, slice, false)
      ensures Abstract() == State(kind, bits.Contents(), old(isComplex), json[old(bytesConsumed)..][consumed..])
      ensures currentDepth == bits.currentDepth - if kind == BeginArray || kind == BeginObject then 1 else 0
    {
      token := Token(kind, slice, false);
      currentDepth := bits.currentDepth;
      if kind == BeginObject || kind == BeginArray {
        if currentDepth > 0 {
          currentDepth := currentDepth - 1;
        }
      }
      DropDrop(json, bytesConsumed, consumed);
      bytesConsumed := bytesConsumed + consumed;
    }

    method ProcessContainerStart(kind: Kind, item: Container) returns (r: Result)
      requires Valid() && bytesConsumed < |json|
      requires (kind == BeginArray && item == InArray) || (kind == BeginObject && item == InObject)
      requires json[bytesConsumed] == if item == InArray then LEFT_BRACKET else LEFT_BRACE
      modifies this, bits
      ensures Valid()
      ensures Took(Open(old(Abstract()), Token(kind, [json[old(bytesConsumed)]], false), item,
                        json[old(bytesConsumed)..]), r)
      ensures r != Ok ==> r == NestingOverflow && unchanged(this) && unchanged(bits)
    {
      if bits.currentDepth >= MAX_DEPTH {
        return NestingOverflow;
      }
      bits.Push(item);
      SetToken(kind, [json[bytesConsumed]], 1);
      return Ok;
    }

    method ProcessContainerEnd(kind: Kind, ghost item: Container) returns (r: Result)
      requires Valid() && bytesConsumed < |json|
      requires (kind == EndArray && item == InArray) || (kind == EndObject && item == InObject)
      modifies this, bits
      ensures Valid()
      ensures Took(Close(old(Abstract()), Token(kind, [json[old(bytesConsumed)]], false), item,
                         json[old(bytesConsumed)..]), r)
    {
      hide Unpack, Pow2;
      var expected := if kind == EndObject then InObject else InArray;
      if bits.currentDepth == 0 || bits.Peek() != expected {
        return UnexpectedChar;
      }
      var _ := bits.Pop();
      SetToken(kind, [json[bytesConsumed]], 1);
      return Ok;
    }

    /** The loop of ProcessString, on the bytes behind the opening quote. */
    static method FindClosingQuote(p: bytes) returns (scan: BodyScan)
      ensures scan == ScanBody(p)
    {
      hide ScanBody;
      var i := 0;
      var hasEscapes := false;
      assert p[0..] == p;
      while i < |p|
        invariant i <= |p| && ScanBody(p) == Shift(i, hasEscapes, ScanBody(p[i..]))
      {
        var c := p[i];
        ScanBodyAt(p, i);
        if c == QUOTE {
          return Found(i, hasEscapes);
        }
        if c == BACKSLASH {
          hasEscapes := true;
          i := i + 1;
          if i >= |p| {
            return Bad(UnexpectedEnd);
          }
          var esc := p[i];
          if esc == 0x75 {
            if i + 4 >= |p| {
              return Bad(UnexpectedEnd);
            }
            for h := 0 to 4
              invariant h > 0 ==> IsHexDigit(p[i + 1])
              invariant h > 1 ==> IsHexDigit(p[i + 2])
              invariant h > 2 ==> IsHexDigit(p[i + 3])
              invariant h > 3 ==> IsHexDigit(p[i + 4])
            {
              if !IsHexDigit(p[i + 1 + h]) {
                return Bad(UnexpectedChar);
              }
            }
            i := i + 5;
          } else {
            if !IsSimpleEscape(esc) {
              return Bad(UnexpectedChar);
            }
            i := i + 1;
          }
        } else {
          if c < SPACE {
            return Bad(UnexpectedChar);
          }
          i := i + 1;
        }
      }
      ScanBodyEnd(p, i);
      return Bad(UnexpectedEnd);
    }

    method ProcessString() returns (r: Result)
      requires Valid() && bytesConsumed < |json|
      modifies this
      ensures Valid() && Took(ReadString(old(Abstract()), json[old(bytesConsumed)..]), r)
    {
      hide Unpack, Pow2, ScanBody, ReadString;
      ghost var s, rest := Abstract(), json[bytesConsumed..];
      DropDrop(json, bytesConsumed, 1);
      bytesConsumed := bytesConsumed + 1;
      var p := json[bytesConsumed..];
      var scan := FindClosingQuote(p);
      StringStep(s, rest, p, scan);
      match scan
      case Bad(error) => return error;
      case Found(i, hasEscapes) =>
        token := Token(StringToken, p[..i], hasEscapes);
        currentDepth := bits.currentDepth;
        DropDrop(json, bytesConsumed, i + 1);
        bytesConsumed := bytesConsumed + i + 1;
        return Ok;
    }

    method ProcessPropertyName() returns (r: Result)
      requires Valid() && bytesConsumed < |json|
      modifies this
      ensures Valid() && Took(ReadName(old(Abstract()), json[old(bytesConsumed)..]), r)
    {
      hide ScanBody, Unpack, Pow2, SkipBlank;
      r := ProcessString();
      if r != Ok {
        return;
      }
      token := token.(kind := PropertyName);
      var after := SkipWhitespace();
      if |after| < 1 {
        return UnexpectedEnd;
      }
      if after[0] != COLON {
        return UnexpectedChar;
      }
      DropDrop(json, bytesConsumed, 1);
      bytesConsumed := bytesConsumed + 1;
      return Ok;
    }

    static method ConsumeDigits(p: bytes, idx: nat) returns (i: nat)
      requires idx <= |p|
      ensures i == idx + DigitCount(p[idx..])
    {
      i := idx;
      while i < |p| && IsDigit(p[i])
        invariant idx <= i <= |p| && DigitCount(p[idx..]) == i - idx + DigitCount(p[i..])
      {
        DropDrop(p, i, 1);
        i := i + 1;
      }
    }

    /** The integer part of ProcessNumber, from index `i`. */
    static method FindIntEnd(p: bytes, start: nat) returns (end: Option<nat>)
      requires start < |p|
      ensures end == Then(start, ScanInt(p[start..]))
    {
      if p[start] == DIGIT_0 {
        return Some(start + 1);
      }
      if !IsDigit(p[start]) {
        return None;
      }
      var i := ConsumeDigits(p, start);
      return Some(i);
    }

    static method FindFracEnd(p: bytes, start: nat) returns (end: Option<nat>)
      requires start <= |p|
      ensures end == Then(start, ScanFrac(p[start..]))
    {
      var i := start;
      if i < |p| && p[i] == DOT {
        i := i + 1;
        if i >= |p| || !IsDigit(p[i]) {
          return None;
        }
        DropDrop(p, start, 1);
        i := ConsumeDigits(p, i);
      }
      return Some(i);
    }

    static method FindExpEnd(p: bytes, start: nat) returns (end: Option<nat>)
      requires start <= |p|
      ensures end == Then(start, ScanExp(p[start..]))
    {
      var i := start;
      if i < |p| && (p[i] == 0x65 || p[i] == 0x45) {
        i := i + 1;
        if i >= |p| {
          return None;
        }
        if p[i] == PLUS || p[i] == MINUS {
          i := i + 1;
          if i >= |p| {
            return None;
          }
        }
        if !IsDigit(p[i]) {
          return None;
        }
        DropDrop(p, start, i - start);
        i := ConsumeDigits(p, i);
      }
      return Some(i);
    }

    /** The scan of ProcessNumber: the end of the number, or None for an unexpected character. */
    static method FindNumberEnd(p: bytes) returns (end: Option<nat>)
      requires p != []
      ensures end == ScanNumber(p)
    {
      hide ScanInt, ScanFrac, ScanExp;
      var i := 0;
      if p[i] == MINUS {
        i := i + 1;
        if i >= |p| || !IsDigit(p[i]) {
          NoInt(p[i..]);
          return None;
        }
      }
      var f := FindIntEnd(p, i);
      if f == None {
        assert p[0..] == p;
        return None;
      }
      var e := FindFracEnd(p, f.value);
      UnsignedEnd(p, i, f.value, if e == None then f.value else e.value);
      if e == None {
        return None;
      }
      end := FindExpEnd(p, e.value);
    }

    static lemma {:induction false} NoInt(s: bytes)
      requires !StartsWithDigit(s)
      ensures ScanInt(s) == None
    {
    }

    /** How the parts of a number add up, by index. */
    static lemma {:induction false} UnsignedEnd(p: bytes, m: nat, f: nat, e: nat)
      requires p != [] && m == (if p[0] == MINUS then 1 else 0) && m <= f <= e <= |p|
      requires ScanInt(p[m..]) == Some(f - m)
      ensures ScanFrac(p[f..]) == None ==> ScanNumber(p) == None
      ensures ScanFrac(p[f..]) == Some(e - f) ==> ScanNumber(p) == Then(e, ScanExp(p[e..]))
    {
      hide ScanInt, ScanFrac, ScanExp;
      assert p[0..] == p;
      DropDrop(p, m, f - m);
      DropDrop(p, f, e - f);
    }

    method ProcessNumber() returns (r: Result)
      requires Valid() && bytesConsumed < |json|
      modifies this
      ensures Valid() && Took(ReadNumber(old(Abstract()), json[old(bytesConsumed)..]), r)
    {
      hide ScanNumber;
      var p := json[bytesConsumed..];
      var end := FindNumberEnd(p);
      if end == None {
        return UnexpectedChar;
      }
      var i := end.value;
      if i < |p| {
        if !IsNumberDelimiter(p[i]) {
          return UnexpectedChar;
        }
      } else if isComplex {
        return UnexpectedEnd;
      }
      SetToken(NumberToken, p[..i], i);
      return Ok;
    }

    method ProcessLiteral(literal: bytes, kind: Kind) returns (r: Result)
      requires Valid() && literal != [] && kind != BeginArray && kind != BeginObject
      modifies this
      ensures Valid() && Took(ReadLiteral(old(Abstract()), kind, literal, json[old(bytesConsumed)..]), r)
    {
      var p := json[bytesConsumed..];
      if |p| < |literal| {
        return UnexpectedEnd;
      }
      if p[..|literal|] != literal {
        return UnexpectedChar;
      }
      SetToken(kind, p[..|literal|], |literal|);
      return Ok;
    }

    method ProcessValue(first: byte) returns (r: Result)
      requires Valid() && bytesConsumed < |json| && first == json[bytesConsumed]
      modifies this, bits
      ensures Valid() && Took(ReadValue(old(Abstract()), json[old(bytesConsumed)..]), r)
    {
      hide ReadString, ReadNumber;
      if first == QUOTE {
        r := ProcessString();
      } else if first == LEFT_BRACE {
        r := ProcessContainerStart(BeginObject, InObject);
      } else if first == LEFT_BRACKET {
        r := ProcessContainerStart(BeginArray, InArray);
      } else if IsDigit(first) || first == MINUS {
        r := ProcessNumber();
      } else if first == 0x74 {
        r := ProcessLiteral(TRUE_TEXT, TrueToken);
      } else if first == 0x66 {
        r := ProcessLiteral(FALSE_TEXT, FalseToken);
      } else if first == 0x6E {
        r := ProcessLiteral(NULL_TEXT, NullToken);
      } else {
        r := UnexpectedChar;
      }
    }

    method ReadFirstToken(first: byte) returns (r: Result)
      requires Valid() && bytesConsumed < |json| && first == json[bytesConsumed]
      modifies this, bits
      ensures Valid() && Took(ReadFirst(old(Abstract()), json[old(bytesConsumed)..]), r)
    {
      hide ReadValue;
      if first == LEFT_BRACE || first == LEFT_BRACKET {
        isComplex := true;
      }
      r := ProcessValue(first);
    }

    method ProcessAfterValue(next: byte) returns (r: Result)
      requires Valid() && bytesConsumed < |json| && next == json[bytesConsumed]
      modifies this, bits
      ensures Valid() && Took(ReadAfterValue(old(Abstract()), json[old(bytesConsumed)..]), r)
    {
      hide ReadValue, ReadName;
      if bits.currentDepth == 0 {
        return UnexpectedChar;
      }
      var withinObject := bits.Peek() == InObject;
      if next == COMMA {
        DropDrop(json, bytesConsumed, 1);
        bytesConsumed := bytesConsumed + 1;
        var after := SkipWhitespace();
        if |after| < 1 {
          return UnexpectedEnd;
        }
        ReadsFromContainers(old(Abstract()), Abstract(), after);
        var nb := after[0];
        if withinObject {
          if nb != QUOTE {
            return UnexpectedChar;
          }
          r := ProcessPropertyName();
          return;
        }
        r := ProcessValue(nb);
        return;
      }
      if next == RIGHT_BRACE {
        r := ProcessContainerEnd(EndObject, InObject);
        return;
      }
      if next == RIGHT_BRACKET {
        r := ProcessContainerEnd(EndArray, InArray);
        return;
      }
      return UnexpectedChar;
    }

    /** json_reader_next_token: one step of the automaton, in place. */
    method NextToken() returns (r: Result)
      requires Valid()
      modifies this, bits
      ensures Valid() && Took(Step(old(Abstract())), r)
      ensures r == ReaderDone ==> token == old(token)
    {
      hide Step, Close, ReadValue, ReadName, ReadFirst, ReadAfterValue, Unpack, Pow2, SkipBlank;
      var json' := SkipWhitespace();
      if |json'| < 1 {
        StepAtEnd(old(Abstract()));
        if token.kind == NoToken || bits.currentDepth != 0 {
          return UnexpectedEnd;
        }
        return ReaderDone;
      }
      StepBehindBlanks(old(Abstract()), Abstract());
      var first := json'[0];
      match token.kind
      case NoToken => r := ReadFirstToken(first);
      case BeginObject =>
        if first == RIGHT_BRACE {
          r := ProcessContainerEnd(EndObject, InObject);
        } else if first != QUOTE {
          r := UnexpectedChar;
        } else {
          r := ProcessPropertyName();
        }
      case BeginArray =>
        if first == RIGHT_BRACKET {
          r := ProcessContainerEnd(EndArray, InArray);
        } else {
          r := ProcessValue(first);
        }
      case PropertyName => r := ProcessValue(first);
      case _ => r := ProcessAfterValue(first);
    }

    // -------------------------------------------------------------- navigation

    ghost function Here(): Cursor
      requires bytesConsumed <= |json|
      reads this, bits
    {
      Cursor(token, Abstract())
    }

    ghost predicate Reached(w: Walk, r: Result)
      requires bytesConsumed <= |json|
      reads this, bits
    {
      match w
      case At(c) => r == Ok && Here() == c
      case Failed(error) => r == error && r != Ok
    }

    /** NextToken as a walk of one step. */
    method Next() returns (r: Result)
      requires Valid()
      modifies this, bits
      ensures Valid() && Reached(Advanced(old(Here())), r)
    {
      hide Step;
      r := NextToken();
    }

    /** json_reader_skip_children */
    method SkipChildren() returns (r: Result)
      requires Valid()
      modifies this, bits
      ensures Valid() && Reached(Skip(old(Here())), r)
    {
      hide Advanced, Drain;
      r := Ok;
      if token.kind == PropertyName {
        r := Next();
        if r != Ok {
          return;
        }
      }
      if token.kind == BeginObject || token.kind == BeginArray {
        var target := bits.currentDepth;
        r := DrainTo(target);
      }
    }

    /** The do-while loops of the navigation functions: read on until fewer than `target` containers are open. */
    method DrainTo(target: nat) returns (r: Result)
      requires Valid()
      modifies this, bits
      ensures Valid() && Reached(Drain(old(Here()), target), r)
    {
      hide Advanced;
      ghost var start := Here();
      DrainStep(start, target);
      r := Next();
      if r != Ok {
        return;
      }
      while bits.currentDepth >= target
        invariant Valid() && r == Ok
        invariant Drain(start, target) == if bits.currentDepth >= target then Drain(Here(), target) else At(Here())
        decreases |json| - bytesConsumed
      {
        DrainStep(Here(), target);
        r := Next();
        if r != Ok {
          return;
        }
      }
    }

    static lemma {:induction false} DrainStep(c: Cursor, target: nat)
      ensures Drain(c, target) ==
              if Advanced(c).Failed? || |Advanced(c).cursor.state.stack| < target then Advanced(c)
              else Drain(Advanced(c).cursor, target)
      ensures Advanced(c).At? ==> |Advanced(c).cursor.state.rest| < |c.state.rest|
    {
      hide Step;
    }

    ghost predicate Searched(s: Search, r: Result, value: Token)
      requires bytesConsumed <= |json|
      reads this, bits
    {
      match s
      case FoundAt(c) => r == Ok && Here() == c && value == c.token
      case EndedAt(c) => r == NotFound && Here() == c
      case Broken(error) => r == error
    }

    /** json_reader_find_property */
    method FindProperty(name: Span) returns (r: Result, value: Token)
      requires Valid()
      modifies this, bits
      ensures Valid() && Searched(Find(old(Here()), name), r, value)
    {
      hide Advanced, Skip, TextEqual;
      value := token;
      if token.kind == BeginObject {
        r := Next();
        if r != Ok {
          return;
        }
      }
      ghost var start := Here();
      while true
        invariant Valid() && Scan(start, name) == Scan(Here(), name)
        decreases |json| - bytesConsumed
      {
        if token.kind == EndObject {
          return NotFound, value;
        }
        if token.kind != PropertyName {
          return UnexpectedChar, value;
        }
        var matches := IsTextEqual(token, name);
        ghost var before := Here();
        r := Next();
        WalksShorten(before);
        if r != Ok {
          return;
        }
        if matches {
          return Ok, token;
        }
        WalksShorten(Here());
        r := SkipChildren();
        if r != Ok {
          return;
        }
        WalksShorten(Here());
        r := Next();
        if r != Ok {
          return;
        }
      }
    }

    static lemma {:induction false} WalksShorten(c: Cursor)
      ensures Advanced(c).At? ==> |Advanced(c).cursor.state.rest| < |c.state.rest|
      ensures Skip(c).At? ==> |Skip(c).cursor.state.rest| <= |c.state.rest|
    {
      hide Step, Drain;
    }

    /** The visitor's part of one element: `steps` calls of next_token. */
    method Consumed(steps: nat) returns (r: Result)
      requires Valid()
      modifies this, bits
      ensures Valid() && Reached(Consume(old(Here()), steps), r)
    {
      hide Advanced;
      ghost var start := Here();
      r := Ok;
      for k := 0 to steps
        invariant Valid() && r == Ok && Consume(start, steps) == Consume(Here(), steps - k)
      {
        r := Next();
        if r != Ok {
          return;
        }
      }
    }

    /** The body of the loop over the elements, behind an element's first token. */
    method VisitElement(level: nat, v: Visit) returns (r: Result)
      requires Valid()
      modifies this, bits
      ensures Valid() && Reached(Element(old(Here()), level, v), r)
    {
      hide Advanced, Drain, Consume;
      r := Consumed(v.steps);
      if r != Ok {
        return;
      }
      if v.answer != Ok {
        return v.answer;
      }
      if bits.currentDepth > level {
        r := DrainTo(level + 1);
      }
    }

    /** json_reader_for_each_array_element on a reader that stands on the array's opening. */
    method ForEachArrayElement(visit: Visitor) returns (r: Result, visited: seq<Token>)
      requires Valid()
      modifies this, bits
      ensures Valid()
      ensures old(token.kind) != BeginArray ==> r == InvalidState && Here() == old(Here())
      ensures old(token.kind) == BeginArray ==>
                var tour := Each(old(Here()), old(bits.currentDepth), visit, 0);
                visited == tour.visited && Reached(tour.walk, r)
    {
      hide Advanced, Element, Each, Prefixed;
      visited := [];
      if token.kind != BeginArray {
        return InvalidState, visited;
      }
      var level := bits.currentDepth;
      ghost var start := Here();
      var index := 0;
      PrefixedEmpty(Each(start, level, visit, 0));
      while true
        invariant Valid()
        invariant Each(start, level, visit, 0) == Prefixed(visited, Each(Here(), level, visit, index))
        decreases |json| - bytesConsumed
      {
        EachStep(visited, Here(), level, visit, index);
        r := Next();
        if r != Ok {
          return;
        }
        if token.kind == EndArray {
          return;
        }
        visited := visited + [token];
        r := VisitElement(level, visit(index));
        index := index + 1;
        if r != Ok {
          return;
        }
      }
    }

    /** A tour with the elements already seen in front. */
    static ghost function Prefixed(seen: seq<Token>, t: Tour): Tour {
      Tour(seen + t.visited, t.walk)
    }

    static lemma {:induction false} PrefixedEmpty(t: Tour)
      ensures Prefixed([], t) == t
    {
      assert [] + t.visited == t.visited;
    }

    static lemma {:induction false} EachStep(seen: seq<Token>, c: Cursor, level: nat, visit: Visitor, index: nat)
      ensures var w := Advanced(c);
              var t := Prefixed(seen, Each(c, level, visit, index));
              if w.Failed? || w.cursor.token.kind == EndArray then t == Tour(seen, w)
              else
                var after := Element(w.cursor, level, visit(index));
                |w.cursor.state.rest| < |c.state.rest|
                && if after.Failed? then t == Tour(seen + [w.cursor.token], after)
                   else |after.cursor.state.rest| <= |w.cursor.state.rest|
                        && t == Prefixed(seen + [w.cursor.token], Each(after.cursor, level, visit, index + 1))
    {
      hide Step, Element;
      var w := Advanced(c);
      assert seen + [] == seen;
      if w.At? && w.cursor.token.kind != EndArray {
        ElementShortens(w.cursor, level, visit(index));
        var after := Element(w.cursor, level, visit(index));
        if after.At? {
          var later := Each(after.cursor, level, visit, index + 1).visited;
          assert seen + ([w.cursor.token] + later) == seen + [w.cursor.token] + later;
        }
      }
    }

    static lemma {:induction false} ElementShortens(c: Cursor, level: nat, v: Visit)
      ensures Element(c, level, v).At? ==> |Element(c, level, v).cursor.state.rest| <= |c.state.rest|
    {
      hide Step;
    }
  }
}
