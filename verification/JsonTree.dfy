/**
 JSON texts as trees, with their whitespace, and how they are written.  Strings are kept as they are written, escapes
 and all.
 */
module JsonTree {

  datatype Json = Scalar(text: string) | Str(raw: string) | Arr(items: Items) | Obj(members: Members)

  datatype Items = NoItems(ws: string) | OneItem(item: Item) | MoreItems(item: Item, rest: Items)

  datatype Item = Item(before: string, value: Json, after: string)

  datatype Members = NoMembers(ws: string) | OneMember(member: Member) | MoreMembers(member: Member, rest: Members)

  datatype Member = Member(
    before: string, key: string, beforeColon: string, afterColon: string, value: Json, after: string)

  predicate IsWs(c: char) { c == ' ' || c == '\t' || c == '\r' || c == '\n' }

  predicate AllWs(s: string) { forall i :: 0 <= i < |s| ==> IsWs(s[i]) }

  /** Not a quote, brace or bracket. */
  predicate IsPlain(c: char) { c != '"' && c != '{' && c != '}' && c != '[' && c != ']' }

  predicate AllPlain(s: string) { forall i :: 0 <= i < |s| ==> IsPlain(s[i]) }

  /** The inside of a string literal: a backslash takes the next character with it, and no quote stands alone. */
  predicate IsRaw(s: string) {
    if s == "" then true
    else if s[0] == '\\' then |s| >= 2 && IsRaw(s[2..])
    else s[0] != '"' && IsRaw(s[1..])
  }

  predicate ValidJson(v: Json) {
    match v
    case Scalar(text) => text != "" && AllPlain(text) && !IsWs(text[0]) && text[0] != ':'
    case Str(raw) => IsRaw(raw)
    case Arr(items) => ValidItems(items)
    case Obj(members) => ValidMembers(members)
  }

  predicate ValidItems(items: Items) {
    match items
    case NoItems(ws) => AllWs(ws)
    case OneItem(item) => ValidItem(item)
    case MoreItems(item, rest) => ValidItem(item) && !rest.NoItems? && ValidItems(rest)
  }

  predicate ValidItem(item: Item) { AllWs(item.before) && ValidJson(item.value) && AllWs(item.after) }

  predicate ValidMembers(members: Members) {
    match members
    case NoMembers(ws) => AllWs(ws)
    case OneMember(m) => ValidMember(m)
    case MoreMembers(m, rest) => ValidMember(m) && !rest.NoMembers? && ValidMembers(rest)
  }

  predicate ValidMember(m: Member) {
    && AllWs(m.before) && IsRaw(m.key) && AllWs(m.beforeColon)
    && AllWs(m.afterColon) && ValidJson(m.value) && AllWs(m.after)
  }

  function Quoted(raw: string): string { "\"" + (raw + "\"") }

  function Print(v: Json): (s: string)
    ensures ValidJson(v) ==> s != ""
  {
    match v
    case Scalar(text) => text
    case Str(raw) => Quoted(raw)
    case Arr(items) => "[" + (PrintItems(items) + "]")
    case Obj(members) => "{" + (PrintMembers(members) + "}")
  }

  function PrintItems(items: Items): string {
    match items
    case NoItems(ws) => ws
    case OneItem(item) => PrintItem(item)
    case MoreItems(item, rest) => PrintItem(item) + ("," + PrintItems(rest))
  }

  function PrintItem(item: Item): string { item.before + (Print(item.value) + item.after) }

  function PrintMembers(members: Members): string {
    match members
    case NoMembers(ws) => ws
    case OneMember(m) => PrintMember(m)
    case MoreMembers(m, rest) => PrintMember(m) + ("," + PrintMembers(rest))
  }

  function PrintMember(m: Member): string { KeyPart(m) + (Print(m.value) + m.after) }

  /** A member up to its value. */
  function KeyPart(m: Member): string { m.before + (Quoted(m.key) + (m.beforeColon + (":" + m.afterColon))) }
}
