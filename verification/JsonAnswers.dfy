/**
 What the answers of the reader other than ok mean: which are final whatever bytes follow, which
 only say that bytes are missing, and when the nesting limit is the reason.
 */
module JsonAnswers {
  import opened Common
  import opened JsonLexical
  import opened JsonGrammar
  import opened JsonAutomaton
  import opened JsonTokenizer
  import opened JsonWriting

  /** The same reader on a buffer that goes on with `more`. */
  function Longer(s: State, more: bytes): State {
    s.(rest := s.rest + more)
  }

  // ---------------------------------------------------------------- white space

  lemma {:induction false} SkipBlankLonger(s: bytes, more: bytes)
    ensures SkipBlank(s) != [] ==>
              SkipBlank(s + more) == SkipBlank(s) + more && SkipBlank(s)[0] == SkipBlank(s + more)[0]
    ensures SkipBlank(s) == [] ==> SkipBlank(s + more) == SkipBlank(more)
    decreases |s|
  {
    if s == [] {
      EmptyLeft(more);
    } else if IsBlankByte(s[0]) {
      SkipBlankLonger(s[1..], more);
      assert (s + more)[1..] == s[1..] + more;
    }
  }

  // ---------------------------------------------------------------- numbers

  /** The beginning of a number that is none itself. */
  ghost predicate CutNumber(s: bytes) {
    s != [] && (exists n: Number :: s < n.Text()) && forall n: Number :: s != n.Text()
  }

  lemma {:induction false} DigitCountLocal(s: bytes, more: bytes)
    ensures DigitCount(s) < |s| || DigitCount(s + more) < |s| ==> DigitCount(s + more) == DigitCount(s)
    ensures DigitCount(s + more) >= DigitCount(s)
    decreases |s|
  {
    if StartsWithDigit(s) {
      DigitCountLocal(s[1..], more);
      assert (s + more)[1..] == s[1..] + more;
    }
  }

  /** The scan of a part ended inside `s`. */
  predicate Inside(r: Option<nat>, s: bytes) {
    r.Some? && r.value < |s|
  }

  /** A scan that ends inside `s` ends there whatever follows. */
  predicate Local(before: Option<nat>, after: Option<nat>, s: bytes) {
    Inside(before, s) || Inside(after, s) ==> before == after
  }

  lemma {:induction false} ScanIntLocal(s: bytes, more: bytes)
    ensures Local(ScanInt(s), ScanInt(s + more), s)
  {
    DigitCountLocal(s, more);
  }

  lemma {:induction false} ScanFracLocal(s: bytes, more: bytes)
    ensures Local(ScanFrac(s), ScanFrac(s + more), s)
  {
    if |s| > 1 {
      DigitCountLocal(s[1..], more);
      assert (s + more)[1..] == s[1..] + more;
    }
  }

  lemma {:induction false} ScanExpLocal(s: bytes, more: bytes)
    ensures Local(ScanExp(s), ScanExp(s + more), s)
  {
    if |s| > 1 {
      var k := if s[1] == PLUS || s[1] == MINUS then 2 else 1;
      DigitCountLocal(s[k..], more);
      assert (s + more)[k..] == s[k..] + more;
    }
  }

  lemma {:induction false} ScanFracExpLocal(s: bytes, more: bytes)
    ensures Local(ScanFracExp(s), ScanFracExp(s + more), s)
  {
    hide ScanFrac, ScanExp;
    ScanFracLocal(s, more);
    if Inside(ScanFrac(s), s) {
      var f := ScanFrac(s).value;
      ScanExpLocal(s[f..], more);
      assert (s + more)[f..] == s[f..] + more;
    }
  }

  lemma {:induction false} ScanUnsignedLocal(s: bytes, more: bytes)
    ensures Local(ScanUnsigned(s), ScanUnsigned(s + more), s)
  {
    hide ScanInt, ScanFracExp;
    ScanIntLocal(s, more);
    if Inside(ScanInt(s), s) {
      var i := ScanInt(s).value;
      ScanFracExpLocal(s[i..], more);
      assert (s + more)[i..] == s[i..] + more;
    }
  }

  lemma {:induction false} ScanNumberLocal(s: bytes, more: bytes)
    requires s != []
    ensures Local(ScanNumber(s), ScanNumber(s + more), s)
  {
    hide ScanUnsigned;
    ScanUnsignedLocal(s, more);
    ScanUnsignedLocal(s[1..], more);
    assert (s + more)[1..] == s[1..] + more;
  }

  lemma {:induction false} NumberScans(n: Number)
    ensures ScanNumber(n.Text()) == Some(|n.Text()|)
  {
    hide ScanNumber;
    ScanNumberComplete(n, []);
    EmptyRight(n.Text());
  }

  lemma {:induction false} WholeNumber(s: bytes)
    requires ScanNumber(s) == Some(|s|)
    ensures exists n: Number :: s == n.Text()
  {
    hide ScanNumber;
    var n := ScanNumberSound(s);
    assert s[..|s|] == s;
  }

  /** A buffer that ends inside a number holds none: not even a shorter one is taken. */
  lemma {:induction false} CutNumberFails(s: bytes)
    requires CutNumber(s)
    ensures ScanNumber(s) == None
  {
    hide ScanNumber;
    var n: Number :| s < n.Text();
    NumberScans(n);
    var more := n.Text()[|s|..];
    assert n.Text() == s + more;
    ScanNumberLocal(s, more);
    if ScanNumber(s) == Some(|s|) {
      WholeNumber(s);
    }
  }

  lemma {:induction false} CutBy(s: bytes, more: bytes)
    requires s != [] && ScanNumber(s) == None && ScanNumber(s + more).Some? && ScanNumber(s + more).value >= |s|
    ensures CutNumber(s)
  {
    hide ScanNumber;
    var n := ScanNumberSound(s + more);
    var k := ScanNumber(s + more).value;
    assert (s + more)[..k][..|s|] == s;
    forall m: Number ensures s != m.Text() {
      NumberScans(m);
    }
    assert s < n.Text();
  }

  /** Otherwise a failed scan stays failed. */
  lemma {:induction false} FailedNumberStays(s: bytes, more: bytes)
    requires s != [] && ScanNumber(s) == None && !CutNumber(s)
    ensures ScanNumber(s + more) == None
  {
    hide ScanNumber, CutNumber;
    ScanNumberLocal(s, more);
    if ScanNumber(s + more).Some? {
      CutBy(s, more);
    }
  }

  // ---------------------------------------------------------------- strings

  /** Bytes behind which no scan still waits for more. */
  const SIX_QUOTES: bytes := [QUOTE, QUOTE, QUOTE, QUOTE, QUOTE, QUOTE]
  const ENDING: bytes := SIX_QUOTES + [COLON]

  lemma {:induction false} ScanBodyLonger(s: bytes, more: bytes)
    ensures ScanBody(s) != Bad(UnexpectedEnd) ==> ScanBody(s + more) == ScanBody(s)
    decreases |s|
  {
    if s != [] && s[0] != QUOTE {
      var k := if s[0] != BACKSLASH then 1 else if |s| > 1 && s[1] == 0x75 then 6 else 2;
      if k <= |s| {
        ScanBodyLonger(s[k..], more);
        assert (s + more)[k..] == s[k..] + more;
      }
    }
  }

  /** A scan that ran out of bytes is decided by the next ones: with the ending it finds a quote or an error. */
  lemma {:induction false} ScanBodyEnds(s: bytes)
    ensures ScanBody(s + ENDING) != Bad(UnexpectedEnd)
    ensures ScanBody(s + ENDING).Found? ==> ScanBody(s + ENDING).length + 1 < |s + ENDING|
    decreases |s|
  {
    var t := s + ENDING;
    if s == [] {
      EmptyLeft(ENDING);
    } else if s[0] != QUOTE {
      var k := if s[0] != BACKSLASH then 1 else if |s| > 1 && s[1] == 0x75 then 6 else 2;
      if k <= |s| {
        ScanBodyEnds(s[k..]);
        assert t[k..] == s[k..] + ENDING;
      } else if k == 2 {
        assert t[2..] == [QUOTE, QUOTE, QUOTE, QUOTE, QUOTE, COLON];
      } else {
        assert t[5] == QUOTE;
      }
    }
  }

  // ---------------------------------------------------------------- single tokens

  /** A step that took place before the end of the buffer, on the longer one. */
  function LongerStep(r: StepResult, more: bytes): StepResult {
    if r.Next? then Next(r.token, Longer(r.state, more)) else r
  }

  /** A step that neither lacks bytes nor ended with the buffer. */
  predicate Settled(r: StepResult) {
    if r.Next? then r.state.rest != [] else r.result != UnexpectedEnd && r.result != ReaderDone
  }

  lemma {:induction false} DropLonger(s: bytes, more: bytes, n: nat)
    requires n <= |s|
    ensures (s + more)[n..] == s[n..] + more && (s + more)[..n] == s[..n]
  {
  }

  lemma {:induction false} StringLonger(s: State, rest: bytes, more: bytes)
    requires rest != [] && ReadString(s, rest) != Stop(UnexpectedEnd)
    ensures ReadString(Longer(s, more), rest + more) == LongerStep(ReadString(s, rest), more)
  {
    hide ScanBody;
    var p := rest[1..];
    DropLonger(rest, more, 1);
    ScanBodyLonger(p, more);
    if ScanBody(p).Found? {
      var n := ScanBody(p).length;
      DropLonger(p, more, n);
      DropLonger(p, more, n + 1);
    }
  }

  lemma {:induction false} NameLonger(s: State, rest: bytes, more: bytes)
    requires rest != [] && ReadName(s, rest) != Stop(UnexpectedEnd)
    ensures ReadName(Longer(s, more), rest + more) == LongerStep(ReadName(s, rest), more)
  {
    hide ScanBody, SkipBlank;
    var p := rest[1..];
    DropLonger(rest, more, 1);
    ScanBodyLonger(p, more);
    if ScanBody(p).Found? {
      var n := ScanBody(p).length;
      DropLonger(p, more, n);
      DropLonger(p, more, n + 1);
      SkipBlankLonger(p[n + 1..], more);
      DropLonger(SkipBlank(p[n + 1..]), more, 1);
    }
  }

  lemma {:induction false} NumberLonger(s: State, rest: bytes, more: bytes)
    requires rest != [] && Settled(ReadNumber(s, rest)) && !CutNumber(rest)
    ensures ReadNumber(Longer(s, more), rest + more) == LongerStep(ReadNumber(s, rest), more)
  {
    hide ScanNumber, CutNumber;
    if ScanNumber(rest) == None {
      FailedNumberStays(rest, more);
    } else {
      var n := ScanNumber(rest).value;
      ScanNumberLocal(rest, more);
      DropLonger(rest, more, n);
    }
  }

  lemma {:induction false} LiteralLonger(s: State, kind: Kind, literal: bytes, rest: bytes, more: bytes)
    requires literal != [] && ReadLiteral(s, kind, literal, rest) != Stop(UnexpectedEnd)
    ensures ReadLiteral(Longer(s, more), kind, literal, rest + more)
            == LongerStep(ReadLiteral(s, kind, literal, rest), more)
  {
    DropLonger(rest, more, |literal|);
  }

  lemma {:induction false} ValueLonger(s: State, rest: bytes, more: bytes)
    requires rest != [] && Settled(ReadValue(s, rest)) && !CutNumber(rest)
    ensures ReadValue(Longer(s, more), rest + more) == LongerStep(ReadValue(s, rest), more)
  {
    hide ReadString, ReadNumber, ReadLiteral, CutNumber;
    DropLonger(rest, more, 1);
    var first := rest[0];
    if first == QUOTE {
      StringLonger(s, rest, more);
    } else if IsDigit(first) || first == MINUS {
      NumberLonger(s, rest, more);
    } else if first == 0x74 {
      LiteralLonger(s, TrueToken, TRUE_TEXT, rest, more);
    } else if first == 0x66 {
      LiteralLonger(s, FalseToken, FALSE_TEXT, rest, more);
    } else if first == 0x6E {
      LiteralLonger(s, NullToken, NULL_TEXT, rest, more);
    }
  }

  lemma {:induction false} CloseLonger(s: State, token: Token, item: Container, rest: bytes, more: bytes)
    requires rest != []
    ensures Close(Longer(s, more), token, item, rest + more) == LongerStep(Close(s, token, item, rest), more)
  {
    DropLonger(rest, more, 1);
  }

  /** Where the next token is expected: behind the blanks, and behind a comma and its blanks. */
  function Pending(s: State): bytes {
    var rest := SkipBlank(s.rest);
    if IsAfterValue(s.kind) && rest != [] && rest[0] == COMMA then SkipBlank(rest[1..]) else rest
  }

  lemma {:induction false} AfterValueLonger(s: State, rest: bytes, more: bytes)
    requires IsAfterValue(s.kind) && rest == SkipBlank(s.rest) && rest != []
    requires Settled(ReadAfterValue(s, rest)) && !CutNumber(Pending(s))
    ensures ReadAfterValue(Longer(s, more), rest + more) == LongerStep(ReadAfterValue(s, rest), more)
  {
    hide ReadValue, ReadName, Close, SkipBlank, CutNumber;
    if s.stack != [] {
      if rest[0] == COMMA {
        DropLonger(rest, more, 1);
        SkipBlankLonger(rest[1..], more);
        var after := SkipBlank(rest[1..]);
        if s.stack[|s.stack| - 1] == InArray {
          ValueLonger(s, after, more);
        } else if after[0] == QUOTE {
          NameLonger(s, after, more);
        }
      } else {
        CloseLonger(s, END_OBJECT, InObject, rest, more);
        CloseLonger(s, END_ARRAY, InArray, rest, more);
      }
    }
  }

  lemma {:induction false} FirstLonger(s: State, rest: bytes, more: bytes)
    requires rest != [] && Settled(ReadFirst(s, rest)) && !CutNumber(rest)
    ensures ReadFirst(Longer(s, more), rest + more) == LongerStep(ReadFirst(s, rest), more)
  {
    hide ReadValue, CutNumber;
    ValueLonger(s.(isComplex := s.isComplex || rest[0] == LEFT_BRACE || rest[0] == LEFT_BRACKET), rest, more);
  }

  /** A step that is settled stays as it is, whatever bytes follow the buffer. */
  lemma {:induction false} StepLonger(s: State, more: bytes)
    requires Settled(Step(s)) && !CutNumber(Pending(s))
    ensures Step(Longer(s, more)) == LongerStep(Step(s), more)
  {
    hide ReadValue, ReadFirst, ReadName, ReadAfterValue, Close, SkipBlank, CutNumber;
    var rest := SkipBlank(s.rest);
    SkipBlankLonger(s.rest, more);
    match s.kind
    case NoToken => FirstLonger(s, rest, more);
    case BeginObject =>
      CloseLonger(s, END_OBJECT, InObject, rest, more);
      if rest[0] == QUOTE {
        NameLonger(s, rest, more);
      }
    case BeginArray =>
      CloseLonger(s, END_ARRAY, InArray, rest, more);
      if rest[0] != RIGHT_BRACKET {
        ValueLonger(s, rest, more);
      }
    case PropertyName => ValueLonger(s, rest, more);
    case _ => AfterValueLonger(s, rest, more);
  }

  // ---------------------------------------------------------------- lacking bytes

  lemma {:induction false} NotAllBlank(s: bytes)
    requires s != [] && !IsBlankByte(s[|s| - 1])
    ensures SkipBlank(s) != []
  {
    var w := SkipBlankSplit(s);
    assert SkipBlank(s) == [] ==> w == s by { EmptyRight(w); }
  }

  lemma {:induction false} StringEnds(s: State, rest: bytes)
    requires rest != []
    ensures ReadString(s, rest + ENDING) != Stop(UnexpectedEnd)
    ensures ReadName(s, rest + ENDING) != Stop(UnexpectedEnd)
  {
    hide ScanBody, SkipBlank;
    var p := rest[1..] + ENDING;
    DropLonger(rest, ENDING, 1);
    ScanBodyEnds(rest[1..]);
    if ScanBody(p).Found? {
      var after := p[ScanBody(p).length + 1..];
      assert after[|after| - 1] == p[|p| - 1] == COLON;
      NotAllBlank(after);
    }
  }

  lemma {:induction false} NumberEnds(s: State, rest: bytes)
    requires rest != [] && ReadNumber(s, rest) == Stop(UnexpectedEnd)
    ensures ReadNumber(Longer(s, ENDING), rest + ENDING) == Stop(UnexpectedChar)
  {
    hide ScanNumber;
    var n := ScanNumberSound(rest);
    assert rest[..|rest|] == rest;
    ScanNumberComplete(n, ENDING);
  }

  lemma {:induction false} ValueEnds(s: State, rest: bytes)
    requires rest != [] && ReadValue(s, rest) == Stop(UnexpectedEnd)
    ensures ReadValue(Longer(s, ENDING), rest + ENDING) != Stop(UnexpectedEnd)
  {
    hide ReadString, ReadNumber;
    StringEnds(Longer(s, ENDING), rest);
    if IsDigit(rest[0]) || rest[0] == MINUS {
      NumberEnds(s, rest);
    }
  }

  /** With nothing but the ending to read. */
  lemma {:induction false} AtEnding(s: State)
    ensures ReadValue(s, ENDING) != Stop(UnexpectedEnd) && ReadName(s, ENDING) != Stop(UnexpectedEnd)
    ensures ReadFirst(s, ENDING) != Stop(UnexpectedEnd) && ReadAfterValue(s, ENDING) != Stop(UnexpectedEnd)
    ensures SkipBlank(ENDING) == ENDING && ENDING[0] == QUOTE
  {
    assert ENDING[1..][0] == QUOTE && ENDING[1..][1..][0] == QUOTE;
  }

  lemma {:induction false} AfterValueEnds(s: State, rest: bytes)
    requires rest != [] && ReadAfterValue(s, rest) == Stop(UnexpectedEnd)
    ensures ReadAfterValue(Longer(s, ENDING), rest + ENDING) != Stop(UnexpectedEnd)
  {
    hide ReadValue, ReadName, SkipBlank;
    DropLonger(rest, ENDING, 1);
    SkipBlankLonger(rest[1..], ENDING);
    AtEnding(Longer(s, ENDING));
    var after := SkipBlank(rest[1..]);
    if after != [] {
      StringEnds(Longer(s, ENDING), after);
      if s.stack[|s.stack| - 1] == InArray {
        ValueEnds(s, after);
      }
    }
  }

  /** An unexpected end says that bytes are missing: with others behind it the buffer gets another answer. */
  lemma {:induction false} EndLacksBytes(s: State)
    requires Step(s) == Stop(UnexpectedEnd)
    ensures exists more :: Step(Longer(s, more)) != Stop(UnexpectedEnd)
  {
    hide ReadValue, ReadName, ReadAfterValue, SkipBlank;
    var rest := SkipBlank(s.rest);
    SkipBlankLonger(s.rest, ENDING);
    AtEnding(Longer(s, ENDING));
    if rest != [] {
      StringEnds(Longer(s, ENDING), rest);
      match s.kind
      case NoToken => ValueEnds(s.(isComplex := s.isComplex || rest[0] == LEFT_BRACE || rest[0] == LEFT_BRACKET), rest);
      case BeginObject =>
      case BeginArray => ValueEnds(s, rest);
      case PropertyName => ValueEnds(s, rest);
      case _ => AfterValueEnds(s, rest);
    }
    assert Step(Longer(s, ENDING)) != Stop(UnexpectedEnd);
  }

  // ---------------------------------------------------------------- final answers

  lemma {:induction false} CutNumberStart(s: bytes)
    requires CutNumber(s)
    ensures s != [] && (IsDigit(s[0]) || s[0] == MINUS) && ScanNumber(s) == None
  {
    hide ScanNumber;
    CutNumberFails(s);
    var n: Number :| s < n.Text();
    assert n.Text()[0] == if n.negative then MINUS else n.whole[0];
  }

  lemma {:induction false} CutNumberIsChar(s: State)
    requires Coherent(s) && CutNumber(Pending(s))
    ensures Step(s) == Stop(UnexpectedChar)
  {
    hide CutNumber, ScanNumber, SkipBlank;
    CutNumberStart(Pending(s));
  }

  /**
   An unexpected character is final: no bytes behind the buffer change the answer. The one exception
   is a buffer that ends inside a number, which is always reported so.
   */
  lemma {:induction false} CharIsFinal(s: State)
    requires Coherent(s)
    ensures Step(s) == Stop(UnexpectedChar) <==>
              CutNumber(Pending(s)) || forall more :: Step(Longer(s, more)) == Stop(UnexpectedChar)
  {
    hide Step, CutNumber, Pending;
    if CutNumber(Pending(s)) {
      CutNumberIsChar(s);
    } else if Step(s) == Stop(UnexpectedChar) {
      forall more ensures Step(Longer(s, more)) == Stop(UnexpectedChar) {
        StepLonger(s, more);
      }
    } else {
      EmptyRight(s.rest);
      assert Longer(s, []) == s;
    }
  }

  /** The same reader with the outermost container forgotten. */
  function Shallower(s: State): State
    requires s.stack != []
  {
    s.(stack := s.stack[1..])
  }

  lemma {:induction false} ValueOverflows(s: State, rest: bytes)
    requires rest != [] && |s.stack| <= MAX_DEPTH
    ensures ReadValue(s, rest) == Stop(NestingOverflow) <==>
              |s.stack| == 64 && ReadValue(Shallower(s), rest).Next?
              && OpensToken(ReadValue(Shallower(s), rest).token)
    ensures ReadName(s, rest) != Stop(NestingOverflow)
    ensures s.stack != [] && ReadName(Shallower(s), rest).Next? ==> !OpensToken(ReadName(Shallower(s), rest).token)
  {
    hide ScanBody, ScanNumber, SkipBlank;
  }

  predicate OpensToken(token: Token) {
    token == BEGIN_ARRAY || token == BEGIN_OBJECT
  }

  /** A nesting overflow means that 64 containers are open and one less would have let this one open. */
  lemma {:induction false} OverflowIsDepth(s: State)
    requires Coherent(s)
    ensures Step(s) == Stop(NestingOverflow) <==>
              |s.stack| == 64 && Step(Shallower(s)).Next? && OpensToken(Step(Shallower(s)).token)
  {
    hide ReadValue, ReadName, SkipBlank;
    var rest := SkipBlank(s.rest);
    if rest != [] {
      ValueOverflows(s, rest);
      if s.kind == NoToken {
        ValueOverflows(s.(isComplex := rest[0] == LEFT_BRACE || rest[0] == LEFT_BRACKET), rest);
      }
      if rest[0] == COMMA && SkipBlank(rest[1..]) != [] {
        ValueOverflows(s, SkipBlank(rest[1..]));
      }
    }
  }

  /** The reasons to stop before the end. */
  predicate IsRefusal(r: StepResult) {
    r.Stop? ==> r.result == UnexpectedEnd || r.result == UnexpectedChar || r.result == NestingOverflow
  }

  lemma {:induction false} TokenRefusals(s: State, rest: bytes)
    requires rest != []
    ensures IsRefusal(ReadString(s, rest)) && IsRefusal(ReadName(s, rest)) && IsRefusal(ReadNumber(s, rest))
  {
    hide ScanBody, ScanNumber, SkipBlank;
  }

  lemma {:induction false} ValueRefusals(s: State, rest: bytes)
    requires rest != []
    ensures IsRefusal(ReadValue(s, rest)) && IsRefusal(ReadName(s, rest))
  {
    hide ReadString, ReadNumber, ReadName;
    TokenRefusals(s, rest);
  }

  /** There are no other answers. */
  lemma {:induction false} FourAnswers(s: State)
    ensures IsRefusal(Step(s)) || Step(s) == Stop(ReaderDone)
  {
    hide ReadValue, ReadName, SkipBlank;
    var rest := SkipBlank(s.rest);
    if rest != [] {
      ValueRefusals(s, rest);
      if s.kind == NoToken {
        ValueRefusals(s.(isComplex := s.isComplex || rest[0] == LEFT_BRACE || rest[0] == LEFT_BRACKET), rest);
      } else if rest[0] == COMMA && SkipBlank(rest[1..]) != [] {
        ValueRefusals(s, SkipBlank(rest[1..]));
      }
    }
  }

  // ---------------------------------------------------------------- whole runs

  /** A token of this step moves the stack by itself. */
  predicate Moves(s: State, r: StepResult) {
    r.Next? ==> |r.state.stack| == OpenAfter(r.token, |s.stack|)
  }

  lemma {:induction false} ValueHeight(s: State, rest: bytes)
    requires rest != []
    ensures Moves(s, ReadValue(s, rest)) && Moves(s, ReadName(s, rest))
  {
    hide ScanBody, ScanNumber, SkipBlank;
  }

  lemma {:induction false} CloseHeight(s: State, rest: bytes)
    requires rest != []
    ensures Moves(s, Close(s, END_OBJECT, InObject, rest)) && Moves(s, Close(s, END_ARRAY, InArray, rest))
  {
  }

  /** A successful step moves the stack by its token alone. */
  lemma {:induction false} StepHeight(s: State)
    ensures Moves(s, Step(s))
  {
    hide ReadValue, ReadName, Close, SkipBlank;
    var rest := SkipBlank(s.rest);
    if rest != [] {
      ValueHeight(s, rest);
      CloseHeight(s, rest);
      if s.kind == NoToken {
        ValueHeight(s.(isComplex := s.isComplex || rest[0] == LEFT_BRACE || rest[0] == LEFT_BRACKET), rest);
      } else if rest[0] == COMMA && SkipBlank(rest[1..]) != [] {
        ValueHeight(s, SkipBlank(rest[1..]));
      }
    }
  }

  /** A run that overflows has opened 64 containers and closed none of them again. */
  lemma {:induction false} OverflowingRun(s: State)
    requires Coherent(s) && Run(s).result == NestingOverflow
    ensures MaxOpen(Run(s).tokens, |s.stack|) == 64 == OpenAtEnd(Run(s).tokens, |s.stack|)
    decreases |s.rest|
  {
    hide Step;
    OverflowIsDepth(s);
    if Step(s).Next? {
      StepCoherent(s);
      StepHeight(s);
      OverflowingRun(Step(s).state);
    }
  }

  lemma {:induction false} OverflowMeansDepth(json: bytes)
    requires Run(Init(json)).result == NestingOverflow
    ensures MaxOpen(Run(Init(json)).tokens, 0) == 64 == OpenAtEnd(Run(Init(json)).tokens, 0)
  {
    OverflowingRun(Init(json));
  }

  /** The buffer ends inside a number, and there the run stops. */
  ghost predicate StopsInNumber(s: State)
    decreases |s.rest|
  {
    match Step(s)
    case Stop(_) => CutNumber(Pending(s))
    case Next(_, next) => StopsInNumber(next)
  }

  lemma {:induction false} NothingLeft(s: State)
    requires s.rest == []
    ensures Step(s) == Stop(UnexpectedEnd) || Step(s) == Stop(ReaderDone)
  {
  }

  /** A refused text stays refused with the same tokens, whatever follows it. */
  lemma {:induction false} RefusedRun(s: State, more: bytes)
    requires Coherent(s) && (Run(s).result == NestingOverflow || (Run(s).result == UnexpectedChar && !StopsInNumber(s)))
    ensures Run(Longer(s, more)) == Run(s)
    decreases |s.rest|
  {
    hide Step, CutNumber, Pending;
    if CutNumber(Pending(s)) {
      CutNumberIsChar(s);
    } else {
      if Step(s).Next? {
        StepCoherent(s);
        if Step(s).state.rest == [] {
          NothingLeft(Step(s).state);
        }
        RefusedRun(Step(s).state, more);
      }
      StepLonger(s, more);
    }
  }

  /** No JSON text of any depth begins with a refused one, unless that ends inside a number. */
  lemma {:induction false} RefusedTextHasNoContinuation(json: bytes, d: Document)
    requires Run(Init(json)).result == UnexpectedChar && !StopsInNumber(Init(json))
    ensures !(json <= DocumentText(d))
  {
    if json <= DocumentText(d) {
      var more := DocumentText(d)[|json|..];
      assert DocumentText(d) == json + more;
      RefusedRun(Init(json), more);
      RunComplete(Init(DocumentText(d)), AtStart(d.before, d.value, d.after));
    }
  }
}
