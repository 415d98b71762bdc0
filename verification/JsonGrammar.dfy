/**
 JSON texts as derivation trees of RFC 8259, sections 2 to 5. A tree keeps every byte of
 the text it derives, white space included, so `Text` is the yield of the derivation and
 `Tokens` is the token sequence the text stands for.
 */
module JsonGrammar {
  import opened Common
  import opened JsonLexical

  datatype Kind =
    | NoToken
    | BeginObject | EndObject
    | BeginArray | EndArray
    | PropertyName
    | StringToken | NumberToken | TrueToken | FalseToken | NullToken

  /** A token: for strings and names `text` is the body between the quotes. */
  datatype Token = Token(kind: Kind, text: bytes, escaped: bool)

  const TRUE_TEXT: bytes := [0x74, 0x72, 0x75, 0x65]
  const FALSE_TEXT: bytes := [0x66, 0x61, 0x6C, 0x73, 0x65]
  const NULL_TEXT: bytes := [0x6E, 0x75, 0x6C, 0x6C]

  // ---------------------------------------------------------------- trees

  datatype Scalar = Str(body: Body) | Num(number: Number) | True | False | Null

  datatype Value =
    | Primitive(scalar: Scalar)
    | Array(items: Items)
    | Object(members: Members)

  /** What follows `[`, up to and including the matching `]`. */
  datatype Items =
    | NoItems(ws: Blank)
    | FirstItem(before: Blank, item: Value, more: MoreItems)

  /** What follows an element, up to and including the matching `]`. */
  datatype MoreItems =
    | CloseItems(ws: Blank)
    | NextItem(before: Blank, after: Blank, item: Value, more: MoreItems)

  /** What follows `{`, up to and including the matching `}`. */
  datatype Members =
    | NoMembers(ws: Blank)
    | FirstMember(before: Blank, name: Body, colon: Blank, gap: Blank, value: Value, more: MoreMembers)

  /** What follows a member, up to and including the matching `}`. */
  datatype MoreMembers =
    | CloseMembers(ws: Blank)
    | NextMember(before: Blank, after: Blank, name: Body, colon: Blank, gap: Blank, value: Value, more: MoreMembers)

  /** JSON-text = ws value ws */
  datatype Document = Document(before: Blank, value: Value, after: Blank)

  // ---------------------------------------------------------------- yield

  function Quoted(body: bytes): bytes {
    [QUOTE] + (body + [QUOTE])
  }

  function ScalarText(s: Scalar): bytes {
    match s
    case Str(body) => Quoted(body)
    case Num(number) => number.Text()
    case True => TRUE_TEXT
    case False => FALSE_TEXT
    case Null => NULL_TEXT
  }

  function Text(v: Value): bytes {
    match v
    case Primitive(s) => ScalarText(s)
    case Array(items) => [LEFT_BRACKET] + ItemsText(items)
    case Object(members) => [LEFT_BRACE] + MembersText(members)
  }

  function ItemsText(items: Items): bytes {
    match items
    case NoItems(ws) => ws + [RIGHT_BRACKET]
    case FirstItem(before, item, more) => before + (Text(item) + MoreItemsText(more))
  }

  function MoreItemsText(more: MoreItems): bytes {
    match more
    case CloseItems(ws) => ws + [RIGHT_BRACKET]
    case NextItem(before, after, item, rest) => before + ([COMMA] + (after + (Text(item) + MoreItemsText(rest))))
  }

  /** A name, its colon and the white space around the colon. */
  function NameText(name: bytes, colon: bytes): bytes {
    Quoted(name) + (colon + [COLON])
  }

  function MembersText(members: Members): bytes {
    match members
    case NoMembers(ws) => ws + [RIGHT_BRACE]
    case FirstMember(before, name, colon, gap, value, more) =>
      before + (NameText(name, colon) + (gap + (Text(value) + MoreMembersText(more))))
  }

  function MoreMembersText(more: MoreMembers): bytes {
    match more
    case CloseMembers(ws) => ws + [RIGHT_BRACE]
    case NextMember(before, after, name, colon, gap, value, rest) =>
      before + ([COMMA] + (after + (NameText(name, colon) + (gap + (Text(value) + MoreMembersText(rest))))))
  }

  function DocumentText(d: Document): bytes {
    d.before + (Text(d.value) + d.after)
  }

  // ---------------------------------------------------------------- tokens

  function BodyToken(kind: Kind, body: bytes): Token {
    Token(kind, body, BACKSLASH in body)
  }

  function ScalarToken(s: Scalar): Token {
    match s
    case Str(body) => BodyToken(StringToken, body)
    case Num(number) => Token(NumberToken, number.Text(), false)
    case True => Token(TrueToken, TRUE_TEXT, false)
    case False => Token(FalseToken, FALSE_TEXT, false)
    case Null => Token(NullToken, NULL_TEXT, false)
  }

  const BEGIN_ARRAY := Token(BeginArray, [LEFT_BRACKET], false)
  const END_ARRAY := Token(EndArray, [RIGHT_BRACKET], false)
  const BEGIN_OBJECT := Token(BeginObject, [LEFT_BRACE], false)
  const END_OBJECT := Token(EndObject, [RIGHT_BRACE], false)

  function Tokens(v: Value): seq<Token> {
    match v
    case Primitive(s) => [ScalarToken(s)]
    case Array(items) => [BEGIN_ARRAY] + ItemsTokens(items)
    case Object(members) => [BEGIN_OBJECT] + MembersTokens(members)
  }

  function ItemsTokens(items: Items): seq<Token> {
    match items
    case NoItems(_) => [END_ARRAY]
    case FirstItem(_, item, more) => Tokens(item) + MoreItemsTokens(more)
  }

  function MoreItemsTokens(more: MoreItems): seq<Token> {
    match more
    case CloseItems(_) => [END_ARRAY]
    case NextItem(_, _, item, rest) => Tokens(item) + MoreItemsTokens(rest)
  }

  function MembersTokens(members: Members): seq<Token> {
    match members
    case NoMembers(_) => [END_OBJECT]
    case FirstMember(_, name, _, _, value, more) =>
      [BodyToken(PropertyName, name)] + (Tokens(value) + MoreMembersTokens(more))
  }

  function MoreMembersTokens(more: MoreMembers): seq<Token> {
    match more
    case CloseMembers(_) => [END_OBJECT]
    case NextMember(_, _, name, _, _, value, rest) =>
      [BodyToken(PropertyName, name)] + (Tokens(value) + MoreMembersTokens(rest))
  }

  /** The literal names of section 3 of RFC 8259. */
  lemma {:induction false} LiteralNames()
    ensures ScalarText(True) == Ascii("true") && ScalarText(False) == Ascii("false")
    ensures ScalarText(Null) == Ascii("null")
  {
    assert Ascii("true") == TRUE_TEXT;
    assert Ascii("false") == FALSE_TEXT;
    assert Ascii("null") == NULL_TEXT;
  }

  /** The structural characters of section 2 of RFC 8259 and the quotes of section 7. */
  lemma {:induction false} StructuralTexts(body: bytes, v: Value)
    ensures Quoted(body) == Ascii("\"") + body + Ascii("\"")
    ensures NameText(body, []) == Ascii("\"") + body + Ascii("\"") + Ascii(":")
    ensures ItemsText(NoItems([])) == MoreItemsText(CloseItems([])) == Ascii("]")
    ensures MembersText(NoMembers([])) == MoreMembersText(CloseMembers([])) == Ascii("}")
    ensures MoreItemsText(NextItem([], [], v, CloseItems([]))) == Ascii(",") + Text(v) + Ascii("]")
    ensures BEGIN_ARRAY.text == Ascii("[") && BEGIN_OBJECT.text == Ascii("{")
    ensures END_ARRAY.text == Ascii("]") && END_OBJECT.text == Ascii("}")
  {
    hide Ascii, Text;
    Signs();
    EmptyLeft([RIGHT_BRACKET]);
    EmptyLeft([RIGHT_BRACE]);
    EmptyLeft([COLON]);
  }

  // ---------------------------------------------------------------- nesting

  /** The greatest number of containers open at once inside a value. */
  function Depth(v: Value): nat {
    match v
    case Primitive(_) => 0
    case Array(items) => 1 + ItemsDepth(items)
    case Object(members) => 1 + MembersDepth(members)
  }

  function ItemsDepth(items: Items): nat {
    match items
    case NoItems(_) => 0
    case FirstItem(_, item, more) => Max(Depth(item), MoreItemsDepth(more))
  }

  function MoreItemsDepth(more: MoreItems): nat {
    match more
    case CloseItems(_) => 0
    case NextItem(_, _, item, rest) => Max(Depth(item), MoreItemsDepth(rest))
  }

  function MembersDepth(members: Members): nat {
    match members
    case NoMembers(_) => 0
    case FirstMember(_, _, _, _, value, more) => Max(Depth(value), MoreMembersDepth(more))
  }

  function MoreMembersDepth(more: MoreMembers): nat {
    match more
    case CloseMembers(_) => 0
    case NextMember(_, _, _, _, _, value, rest) => Max(Depth(value), MoreMembersDepth(rest))
  }
}
