/**
 The language the duplicate-key scanner accepts: JSON concrete syntax (objects in section 4
 and strings in section 7 of RFC 8259) with loosely checked scalars, in which no object
 repeats a raw member name and nesting is bounded.
 */
module Json {
  import opened Bytes
  import opened Text

  const MAX_JSON_DEPTH := 64

  const QUOTE: byte := 0x22
  const BACKSLASH: byte := 0x5c
  const LBRACE: byte := 0x7b
  const RBRACE: byte := 0x7d
  const LBRACKET: byte := 0x5b
  const RBRACKET: byte := 0x5d
  const COLON: byte := 0x3a
  const COMMA: byte := 0x2c

  predicate IsBlank(b: byte) { b == 0x20 || b == 0x09 || b == 0x0a || b == 0x0d }

  predicate IsDelimiter(b: byte) { IsBlank(b) || b == COMMA || b == RBRACE || b == RBRACKET || b == COLON }

  ghost predicate Blank(s: seq<byte>) { forall i :: 0 <= i < |s| ==> IsBlank(s[i]) }

  /** The bytes between the quotes of a string: plain bytes, or a backslash and whatever byte follows it. */
  ghost predicate RawString(s: seq<byte>) {
    s == [] ||
    (if s[0] == BACKSLASH then |s| >= 2 && RawString(s[2..])
     else s[0] != QUOTE && s[0] >= 0x20 && RawString(s[1..]))
  }

  const TRUE: seq<byte> := [0x74, 0x72, 0x75, 0x65]
  const FALSE: seq<byte> := [0x66, 0x61, 0x6c, 0x73, 0x65]
  const NULL: seq<byte> := [0x6e, 0x75, 0x6c, 0x6c]

  predicate IsNumberByte(b: byte) { 0x30 <= b <= 0x39 || b in {0x2d, 0x2b, 0x2e, 0x65, 0x45} }

  predicate NumberShaped(s: seq<byte>) { forall i :: 0 <= i < |s| ==> IsNumberByte(s[i]) }

  /** A keyword or a number-shaped word; it contains no delimiter and opens no other value. */
  predicate ScalarToken(s: seq<byte>) {
    s != [] && (s == TRUE || s == FALSE || s == NULL || NumberShaped(s))
  }

  /** Concrete syntax trees, blanks included. */
  datatype Value =
    | Str(raw: seq<byte>)
    | Scalar(token: seq<byte>)
    | EmptyObject(pad: seq<byte>)
    | Object(members: Members)
    | EmptyArray(pad: seq<byte>)
    | Array(items: Items)

  datatype Member = Member(pre: seq<byte>, key: seq<byte>, mid: seq<byte>, lead: seq<byte>, value: Value, post: seq<byte>)

  datatype Members = OneMember(m: Member) | MoreMembers(m: Member, rest: Members)

  datatype Item = Item(lead: seq<byte>, value: Value, post: seq<byte>)

  datatype Items = OneItem(item: Item) | MoreItems(item: Item, rest: Items)

  // ----- printing -----

  function Print(v: Value): seq<byte> {
    match v
    case Str(raw) => [QUOTE] + raw + [QUOTE]
    case Scalar(token) => token
    case EmptyObject(pad) => [LBRACE] + pad + [RBRACE]
    case Object(members) => [LBRACE] + PrintMembers(members)
    case EmptyArray(pad) => [LBRACKET] + pad + [RBRACKET]
    case Array(items) => [LBRACKET] + PrintItems(items)
  }

  function PrintMember(m: Member): seq<byte> {
    m.pre + [QUOTE] + m.key + [QUOTE] + m.mid + [COLON] + m.lead + Print(m.value) + m.post
  }

  /** The members and the closing brace. */
  function PrintMembers(ms: Members): seq<byte> {
    match ms
    case OneMember(m) => PrintMember(m) + [RBRACE]
    case MoreMembers(m, rest) => PrintMember(m) + [COMMA] + PrintMembers(rest)
  }

  function PrintItem(item: Item): seq<byte> { item.lead + Print(item.value) + item.post }

  /** The items and the closing bracket. */
  function PrintItems(items: Items): seq<byte> {
    match items
    case OneItem(item) => PrintItem(item) + [RBRACKET]
    case MoreItems(item, rest) => PrintItem(item) + [COMMA] + PrintItems(rest)
  }

  // ----- validity -----

  function Keys(ms: Members): seq<seq<byte>> {
    match ms
    case OneMember(m) => [m.key]
    case MoreMembers(m, rest) => [m.key] + Keys(rest)
  }

  /** Syntax only: blanks are blank, strings and scalars are well formed. */
  ghost predicate WellFormed(v: Value) {
    match v
    case Str(raw) => RawString(raw)
    case Scalar(token) => ScalarToken(token)
    case EmptyObject(pad) => Blank(pad)
    case Object(members) => WellFormedMembers(members)
    case EmptyArray(pad) => Blank(pad)
    case Array(items) => WellFormedItems(items)
  }

  ghost predicate WellFormedMember(m: Member) {
    && Blank(m.pre) && Blank(m.mid) && Blank(m.lead) && Blank(m.post)
    && RawString(m.key)
    && WellFormed(m.value)
  }

  ghost predicate WellFormedMembers(ms: Members) {
    match ms
    case OneMember(m) => WellFormedMember(m)
    case MoreMembers(m, rest) => WellFormedMember(m) && WellFormedMembers(rest)
  }

  ghost predicate WellFormedItem(item: Item) {
    Blank(item.lead) && Blank(item.post) && WellFormed(item.value)
  }

  ghost predicate WellFormedItems(items: Items) {
    match items
    case OneItem(item) => WellFormedItem(item)
    case MoreItems(item, rest) => WellFormedItem(item) && WellFormedItems(rest)
  }

  /** `v`, at nesting `depth`, stays within the depth limit and no object in it repeats a raw member name. */
  ghost predicate Clean(v: Value, depth: nat) {
    depth < MAX_JSON_DEPTH &&
    match v
    case Object(members) => Distinct(Keys(members)) && CleanMembers(members, depth + 1)
    case Array(items) => CleanItems(items, depth + 1)
    case _ => true
  }

  ghost predicate CleanMembers(ms: Members, depth: nat) {
    match ms
    case OneMember(m) => Clean(m.value, depth)
    case MoreMembers(m, rest) => Clean(m.value, depth) && CleanMembers(rest, depth)
  }

  ghost predicate CleanItems(items: Items, depth: nat) {
    match items
    case OneItem(item) => Clean(item.value, depth)
    case MoreItems(item, rest) => Clean(item.value, depth) && CleanItems(rest, depth)
  }

  /** A whole document: leading blanks, one value, nothing after it. */
  ghost predicate Document(bytes: seq<byte>) {
    exists lead, v :: Blank(lead) && WellFormed(v) && Clean(v, 0) && bytes == lead + Print(v)
  }
}
