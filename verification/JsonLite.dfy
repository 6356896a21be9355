/**
 The in-place readers of source/api/json_lite.h, against a tree and its printed text.  A pointer is a position in the
 text, and the text ends where the caller's `end` is.
 */
module JsonLite {
  import opened Basics
  import opened JsonTree

  // ---- text at a position ---------------------------------------------------------------------------------

  predicate IsSpace(c: char) { c == ' ' || c == '\t' || c == '\r' || c == '\n' }

  function SkipWs(s: string, p: nat): (q: nat)
    requires p <= |s|
    ensures p <= q <= |s|
    decreases |s| - p
  {
    if p < |s| && IsSpace(s[p]) then SkipWs(s, p + 1) else p
  }

  lemma {:induction false} SkipsWs(s: string, p: nat, ws: string)
    requires HasAt(s, p, ws) && AllWs(ws) && (p + |ws| < |s| ==> !IsWs(s[p + |ws|]))
    ensures SkipWs(s, p) == p + |ws|
    decreases |ws|
  {
    if ws != "" {
      HasFirst(s, p, ws);
      assert ws == [ws[0]] + ws[1..];
      HasParts(s, p, [ws[0]], ws[1..]);
      SkipsWs(s, p + 1, ws[1..]);
    }
  }

  /** The closing quote of the string literal whose inside starts at q; the end of the text if there is none. */
  function StringEnd(s: string, q: nat): (r: nat)
    requires q <= |s|
    ensures q <= r <= |s|
    decreases |s| - q
  {
    if q == |s| || s[q] == '"' then q
    else if s[q] == '\\' then (if q + 1 == |s| then |s| else StringEnd(s, q + 2))
    else StringEnd(s, q + 1)
  }

  lemma {:induction false} FindsStringEnd(s: string, q: nat, raw: string)
    requires IsRaw(raw) && HasAt(s, q, raw + "\"")
    ensures StringEnd(s, q) == q + |raw| < |s| && s[q + |raw|] == '"'
    decreases |raw|
  {
    HasFirst(s, q, raw + "\"");
    HasParts(s, q, raw, "\"");
    HasFirst(s, q + |raw|, "\"");
    if raw != "" {
      var n := if raw[0] == '\\' then 2 else 1;
      assert raw + "\"" == raw[..n] + (raw[n..] + "\"");
      HasParts(s, q, raw[..n], raw[n..] + "\"");
      FindsStringEnd(s, q + n, raw[n..]);
    }
  }

  // ---- looking up a member ------------------------------------------------------------------------------------

  /** The search from p on, `depth` braces and brackets deep: a string at depth one with a colon behind it is a key. */
  function FindFrom(s: string, p: nat, depth: int, key: string): (r: Option<nat>)
    requires p <= |s|
    ensures r.Some? ==> p < r.value <= |s|
    decreases |s| - p
  {
    if p == |s| then None
    else if s[p] == '"' then
      var q := StringEnd(s, p + 1);
      if depth == 1 && q < |s| && s[p + 1..q] == key && HasColon(s, q + 1) then Some(SkipWs(s, SkipWs(s, q + 1) + 1))
      else FindFrom(s, if q < |s| then q + 1 else |s|, depth, key)
    else
      FindFrom(s, p + 1,
               if s[p] == '{' || s[p] == '[' then depth + 1
               else if s[p] == '}' || s[p] == ']' then depth - 1
               else depth,
               key)
  }

  predicate HasColon(s: string, p: nat)
    requires p <= |s|
  {
    SkipWs(s, p) < |s| && s[SkipWs(s, p)] == ':'
  }

  /** The scan of find_top_value. */
  method FindTopValue(s: string, key: string) returns (r: Option<nat>)
    ensures r == if s == "" || s[0] != '{' then None else FindFrom(s, 0, 0, key)
  {
    if |s| == 0 || s[0] != '{' {
      return None;
    }
    var depth, p := 0, 0;
    while p < |s|
      invariant p <= |s| && FindFrom(s, 0, 0, key) == FindFrom(s, p, depth, key)
      decreases |s| - p
    {
      if s[p] == '"' {
        var q := ScanString(s, p + 1);
        if depth == 1 && q < |s| && q - (p + 1) == |key| && s[p + 1..q] == key {
          var v := ScanWs(s, q + 1);
          if v < |s| && s[v] == ':' {
            v := ScanWs(s, v + 1);
            return Some(v);
          }
        }
        p := if q < |s| then q + 1 else |s|;
      } else {
        if s[p] == '{' || s[p] == '[' {
          depth := depth + 1;
        } else if s[p] == '}' || s[p] == ']' {
          depth := depth - 1;
        }
        p := p + 1;
      }
    }
    return None;
  }

  method ScanWs(s: string, p0: nat) returns (p: nat)
    requires p0 <= |s|
    ensures p == SkipWs(s, p0)
  {
    p := p0;
    while p < |s| && IsSpace(s[p])
      invariant p <= |s| && SkipWs(s, p0) == SkipWs(s, p)
    {
      p := p + 1;
    }
  }

  method ScanString(s: string, q0: nat) returns (q: nat)
    requires q0 <= |s|
    ensures q == StringEnd(s, q0)
  {
    q := q0;
    var esc := false;
    while q < |s|
      invariant q <= |s|
      invariant if esc then StringEnd(s, q0) == (if q == |s| then |s| else StringEnd(s, q + 1))
                else StringEnd(s, q0) == StringEnd(s, q)
    {
      if esc {
        esc := false;
      } else if s[q] == '\\' {
        esc := true;
      } else if s[q] == '"' {
        break;
      }
      q := q + 1;
    }
  }

  // ---- the scan passes over whatever is not a member of the object --------------------------------------------------

  lemma {:induction false} PassesPlain(s: string, p: nat, x: string, depth: int, key: string)
    requires AllPlain(x) && HasAt(s, p, x)
    ensures FindFrom(s, p, depth, key) == FindFrom(s, p + |x|, depth, key)
    decreases |x|
  {
    if x != "" {
      HasFirst(s, p, x);
      assert x == [x[0]] + x[1..];
      HasParts(s, p, [x[0]], x[1..]);
      PassesPlain(s, p + 1, x[1..], depth, key);
    }
  }

  lemma WsIsPlain(ws: string)
    requires AllWs(ws)
    ensures AllPlain(ws)
  {
    forall i | 0 <= i < |ws|
      ensures IsPlain(ws[i])
    {
      assert IsWs(ws[i]);
    }
  }

  lemma PassesString(s: string, p: nat, raw: string, depth: int, key: string)
    requires IsRaw(raw) && HasAt(s, p, Quoted(raw))
    requires depth == 1 && raw == key ==> !HasColon(s, p + |Quoted(raw)|)
    ensures FindFrom(s, p, depth, key) == FindFrom(s, p + |Quoted(raw)|, depth, key)
  {
    hide StringEnd, SkipWs;
    HasFirst(s, p, Quoted(raw));
    HasParts(s, p, "\"", raw + "\"");
    FindsStringEnd(s, p + 1, raw);
    HasParts(s, p + 1, raw, "\"");
  }

  lemma PassesOpen(s: string, p: nat, c: char, depth: int, key: string)
    requires HasAt(s, p, [c])
    ensures c == '{' || c == '[' ==> FindFrom(s, p, depth, key) == FindFrom(s, p + 1, depth + 1, key)
    ensures c == '}' || c == ']' ==> FindFrom(s, p, depth, key) == FindFrom(s, p + 1, depth - 1, key)
  {
    HasFirst(s, p, [c]);
  }

  /** Two levels down and more, a whole value is passed over. */
  lemma {:induction false} PassesValue(s: string, p: nat, v: Json, depth: int, key: string)
    requires ValidJson(v) && depth >= 2 && HasAt(s, p, Print(v))
    ensures FindFrom(s, p, depth, key) == FindFrom(s, p + |Print(v)|, depth, key)
    decreases v
  {
    hide *;
    ValueIs(v);
    match v
    case Scalar(text) => PassesPlain(s, p, text, depth, key);
    case Str(raw) => PassesString(s, p, raw, depth, key);
    case Arr(items) =>
      InBrackets(s, p, "[", PrintItems(items), "]");
      PassesOpen(s, p, '[', depth, key);
      PassesItems(s, p + 1, items, depth + 1, key);
      PassesOpen(s, p + 1 + |PrintItems(items)|, ']', depth + 1, key);
    case Obj(members) =>
      InBrackets(s, p, "{", PrintMembers(members), "}");
      PassesOpen(s, p, '{', depth, key);
      PassesMembers(s, p + 1, members, depth + 1, key);
      PassesOpen(s, p + 1 + |PrintMembers(members)|, '}', depth + 1, key);
  }

  /** What a value is written as. */
  lemma ValueIs(v: Json)
    requires ValidJson(v)
    ensures v.Scalar? ==> AllPlain(v.text) && Print(v) == v.text
    ensures v.Str? ==> IsRaw(v.raw) && Print(v) == Quoted(v.raw)
    ensures v.Arr? ==>
              && ValidItems(v.items) && Print(v) == "[" + (PrintItems(v.items) + "]")
              && |Print(v)| == 2 + |PrintItems(v.items)|
    ensures v.Obj? ==>
              && ValidMembers(v.members) && Print(v) == "{" + (PrintMembers(v.members) + "}")
              && |Print(v)| == 2 + |PrintMembers(v.members)|
  {
    hide AllPlain, IsRaw, ValidItems, ValidMembers, PrintItems, PrintMembers;
  }

  lemma InBrackets(s: string, p: nat, open: string, x: string, close: string)
    requires |open| == 1 && HasAt(s, p, open + (x + close))
    ensures HasAt(s, p, open) && HasAt(s, p + 1, x) && HasAt(s, p + 1 + |x|, close)
  {
    hide HasAt;
    HasParts(s, p, open, x + close);
    HasParts(s, p + 1, x, close);
  }

  lemma PassesWs(s: string, p: nat, ws: string, depth: int, key: string)
    requires AllWs(ws) && HasAt(s, p, ws)
    ensures FindFrom(s, p, depth, key) == FindFrom(s, p + |ws|, depth, key)
  {
    hide *;
    WsIsPlain(ws);
    PassesPlain(s, p, ws, depth, key);
  }

  lemma PassesChar(s: string, p: nat, c: char, depth: int, key: string)
    requires HasAt(s, p, [c]) && IsPlain(c)
    ensures FindFrom(s, p, depth, key) == FindFrom(s, p + 1, depth, key)
  {
    PassesPlain(s, p, [c], depth, key);
  }

  lemma {:induction false} PassesItem(s: string, p: nat, item: Item, depth: int, key: string)
    requires ValidItem(item) && depth >= 2 && HasAt(s, p, PrintItem(item))
    ensures FindFrom(s, p, depth, key) == FindFrom(s, p + |PrintItem(item)|, depth, key)
    decreases item
  {
    hide *;
    ItemParts(s, p, item);
    PassesWs(s, p, item.before, depth, key);
    PassesValue(s, p + |item.before|, item.value, depth, key);
    PassesWs(s, p + |item.before| + |Print(item.value)|, item.after, depth, key);
  }

  /** The pieces of an item in its text. */
  lemma ItemParts(s: string, p: nat, item: Item)
    requires ValidItem(item) && HasAt(s, p, PrintItem(item))
    ensures AllWs(item.before) && ValidJson(item.value) && AllWs(item.after)
    ensures var v := p + |item.before|;
            && HasAt(s, p, item.before) && HasAt(s, v, Print(item.value))
            && HasAt(s, v + |Print(item.value)|, item.after)
            && |PrintItem(item)| == |item.before| + |Print(item.value)| + |item.after|
  {
    hide HasAt, AllWs, Print, ValidJson;
    HasParts(s, p, item.before, Print(item.value) + item.after);
    HasParts(s, p + |item.before|, Print(item.value), item.after);
  }

  lemma MoreItemsParts(s: string, p: nat, item: Item, rest: Items)
    requires HasAt(s, p, PrintItems(MoreItems(item, rest)))
    ensures HasAt(s, p, PrintItem(item)) && HasAt(s, p + |PrintItem(item)|, ",")
    ensures HasAt(s, p + |PrintItem(item)| + 1, PrintItems(rest))
    ensures |PrintItems(MoreItems(item, rest))| == |PrintItem(item)| + 1 + |PrintItems(rest)|
  {
    hide HasAt, PrintItem;
    HasParts(s, p, PrintItem(item), "," + PrintItems(rest));
    HasParts(s, p + |PrintItem(item)|, ",", PrintItems(rest));
  }

  lemma ValidItemsIs(items: Items)
    requires ValidItems(items)
    ensures items.NoItems? ==> AllWs(items.ws) && PrintItems(items) == items.ws
    ensures !items.NoItems? ==> ValidItem(items.item)
    ensures items.OneItem? ==> PrintItems(items) == PrintItem(items.item)
    ensures items.MoreItems? ==> ValidItems(items.rest)
  {
    hide ValidItem, PrintItem, AllWs;
  }

  lemma {:induction false} PassesItems(s: string, p: nat, items: Items, depth: int, key: string)
    requires ValidItems(items) && depth >= 2 && HasAt(s, p, PrintItems(items))
    ensures FindFrom(s, p, depth, key) == FindFrom(s, p + |PrintItems(items)|, depth, key)
    decreases items
  {
    hide *;
    ValidItemsIs(items);
    match items
    case NoItems(ws) => PassesWs(s, p, ws, depth, key);
    case OneItem(item) => PassesItem(s, p, item, depth, key);
    case MoreItems(item, rest) =>
      MoreItemsParts(s, p, item, rest);
      PassesItem(s, p, item, depth, key);
      CommaIsPlain();
      PassesChar(s, p + |PrintItem(item)|, ',', depth, key);
      PassesItems(s, p + |PrintItem(item)| + 1, rest, depth, key);
  }

  /** The pieces of a member in its text. */
  lemma MemberParts(s: string, p: nat, m: Member)
    requires HasAt(s, p, PrintMember(m))
    ensures var a := p + |m.before|;
            var b := a + |Quoted(m.key)|;
            var c := b + |m.beforeColon|;
            var d := p + |KeyPart(m)|;
            && d == c + 1 + |m.afterColon|
            && HasAt(s, p, m.before) && HasAt(s, a, Quoted(m.key)) && HasAt(s, b, m.beforeColon) && HasAt(s, c, ":")
            && HasAt(s, c + 1, m.afterColon) && HasAt(s, d, Print(m.value)) && HasAt(s, d + |Print(m.value)|, m.after)
            && |PrintMember(m)| == |KeyPart(m)| + |Print(m.value)| + |m.after|
  {
    hide *;
    MemberIs(m);
    var a := p + |m.before|;
    var b := a + |Quoted(m.key)|;
    var c := b + |m.beforeColon|;
    HasParts(s, p, KeyPart(m), Print(m.value) + m.after);
    HasParts(s, p + |KeyPart(m)|, Print(m.value), m.after);
    HasParts(s, p, m.before, Quoted(m.key) + (m.beforeColon + (":" + m.afterColon)));
    HasParts(s, a, Quoted(m.key), m.beforeColon + (":" + m.afterColon));
    HasParts(s, b, m.beforeColon, ":" + m.afterColon);
    HasParts(s, c, ":", m.afterColon);
  }

  lemma MemberIs(m: Member)
    ensures PrintMember(m) == KeyPart(m) + (Print(m.value) + m.after)
    ensures KeyPart(m) == m.before + (Quoted(m.key) + (m.beforeColon + (":" + m.afterColon)))
    ensures |PrintMember(m)| == |KeyPart(m)| + |Print(m.value)| + |m.after|
    ensures |KeyPart(m)| == |m.before| + |Quoted(m.key)| + |m.beforeColon| + 1 + |m.afterColon|
  {
    hide Print, Quoted;
  }

  lemma {:induction false} PassesMember(s: string, p: nat, m: Member, depth: int, key: string)
    requires ValidMember(m) && depth >= 2 && HasAt(s, p, PrintMember(m))
    ensures FindFrom(s, p, depth, key) == FindFrom(s, p + |PrintMember(m)|, depth, key)
    decreases m
  {
    hide *;
    MemberParts(s, p, m);
    ValidMemberIs(m);
    CommaIsPlain();
    var a := p + |m.before|;
    var b := a + |Quoted(m.key)|;
    var c := b + |m.beforeColon|;
    var d := p + |KeyPart(m)|;
    PassesWs(s, p, m.before, depth, key);
    PassesString(s, a, m.key, depth, key);
    PassesWs(s, b, m.beforeColon, depth, key);
    PassesChar(s, c, ':', depth, key);
    PassesWs(s, c + 1, m.afterColon, depth, key);
    PassesValue(s, d, m.value, depth, key);
    PassesWs(s, d + |Print(m.value)|, m.after, depth, key);
  }

  lemma ValidMemberIs(m: Member)
    requires ValidMember(m)
    ensures AllWs(m.before) && IsRaw(m.key) && AllWs(m.beforeColon) && AllWs(m.afterColon) && ValidJson(m.value)
    ensures AllWs(m.after)
  {
    hide AllWs, IsRaw, ValidJson;
  }

  lemma MoreMembersParts(s: string, p: nat, m: Member, rest: Members)
    requires HasAt(s, p, PrintMembers(MoreMembers(m, rest)))
    ensures HasAt(s, p, PrintMember(m)) && HasAt(s, p + |PrintMember(m)|, ",")
    ensures HasAt(s, p + |PrintMember(m)| + 1, PrintMembers(rest))
    ensures |PrintMembers(MoreMembers(m, rest))| == |PrintMember(m)| + 1 + |PrintMembers(rest)|
  {
    hide HasAt, PrintMember;
    HasParts(s, p, PrintMember(m), "," + PrintMembers(rest));
    HasParts(s, p + |PrintMember(m)|, ",", PrintMembers(rest));
  }

  lemma {:induction false} PassesMembers(s: string, p: nat, members: Members, depth: int, key: string)
    requires ValidMembers(members) && depth >= 2 && HasAt(s, p, PrintMembers(members))
    ensures FindFrom(s, p, depth, key) == FindFrom(s, p + |PrintMembers(members)|, depth, key)
    decreases members
  {
    hide *;
    match members
    case NoMembers(ws) =>
      ValidMembersIs(members);
      PassesWs(s, p, ws, depth, key);
    case OneMember(m) =>
      ValidMembersIs(members);
      PassesMember(s, p, m, depth, key);
    case MoreMembers(m, rest) =>
      ValidMembersIs(members);
      MoreMembersParts(s, p, m, rest);
      PassesMember(s, p, m, depth, key);
      CommaIsPlain();
      PassesChar(s, p + |PrintMember(m)|, ',', depth, key);
      PassesMembers(s, p + |PrintMember(m)| + 1, rest, depth, key);
  }

  lemma ValidMembersIs(members: Members)
    requires ValidMembers(members)
    ensures members.NoMembers? ==> AllWs(members.ws) && PrintMembers(members) == members.ws
    ensures !members.NoMembers? ==> ValidMember(members.member)
    ensures members.OneMember? ==> PrintMembers(members) == PrintMember(members.member)
    ensures members.MoreMembers? ==> ValidMembers(members.rest)
  {
    hide ValidMember, PrintMember, AllWs;
  }

  lemma CommaIsPlain()
    ensures IsPlain(',') && IsPlain(':')
  {
  }

  // ---- the members of the object itself ---------------------------------------------------------------------------

  /** What is behind a value of the object: whitespace, then a comma or the closing brace. */
  predicate Ends(s: string, p: nat, ws: string) {
    && AllWs(ws) && HasAt(s, p, ws) && p + |ws| < |s| && (s[p + |ws|] == ',' || s[p + |ws|] == '}')
  }

  lemma EndsIs(s: string, p: nat, ws: string)
    requires AllWs(ws) && HasAt(s, p, ws) && p + |ws| < |s| && (s[p + |ws|] == ',' || s[p + |ws|] == '}')
    ensures Ends(s, p, ws)
  {
  }

  lemma EndsWithoutColon(s: string, p: nat, ws: string)
    requires Ends(s, p, ws)
    ensures !HasColon(s, p)
  {
    SkipsWs(s, p, ws);
  }

  /** A member's value is passed over too, and is not taken for a key when it is a string. */
  lemma PassesTopValue(s: string, p: nat, v: Json, key: string, after: string)
    requires ValidJson(v) && HasAt(s, p, Print(v)) && Ends(s, p + |Print(v)|, after)
    ensures FindFrom(s, p, 1, key) == FindFrom(s, p + |Print(v)|, 1, key)
  {
    hide *;
    ValueIs(v);
    match v
    case Scalar(text) => PassesPlain(s, p, text, 1, key);
    case Str(raw) =>
      EndsWithoutColon(s, p + |Print(v)|, after);
      PassesString(s, p, raw, 1, key);
    case Arr(items) =>
      InBrackets(s, p, "[", PrintItems(items), "]");
      PassesOpen(s, p, '[', 1, key);
      PassesItems(s, p + 1, items, 2, key);
      PassesOpen(s, p + 1 + |PrintItems(items)|, ']', 2, key);
    case Obj(members) =>
      InBrackets(s, p, "{", PrintMembers(members), "}");
      PassesOpen(s, p, '{', 1, key);
      PassesMembers(s, p + 1, members, 2, key);
      PassesOpen(s, p + 1 + |PrintMembers(members)|, '}', 2, key);
  }

  /** A member of this key is found, and its value is where it is printed. */
  lemma FindsMember(s: string, p: nat, m: Member)
    requires ValidMember(m) && HasAt(s, p, PrintMember(m))
    ensures FindFrom(s, p, 1, m.key) == Some(p + |KeyPart(m)|)
  {
    hide *;
    MemberParts(s, p, m);
    ValidMemberIs(m);
    PassesWs(s, p, m.before, 1, m.key);
    var a := p + |m.before|;
    ValueStarts(s, p + |KeyPart(m)|, m.value);
    FindsKey(s, a, m.key, m.beforeColon, m.afterColon);
  }

  lemma ValueStarts(s: string, p: nat, v: Json)
    requires ValidJson(v) && HasAt(s, p, Print(v))
    ensures p < |s| && !IsWs(s[p])
  {
    hide PrintItems, PrintMembers, HasAt;
    HasFirst(s, p, Print(v));
  }

  lemma FindsKey(s: string, a: nat, key: string, ws1: string, ws2: string)
    requires IsRaw(key) && AllWs(ws1) && AllWs(ws2)
    requires var b := a + |Quoted(key)|;
             var c := b + |ws1|;
             && HasAt(s, a, Quoted(key)) && HasAt(s, b, ws1) && HasAt(s, c, ":") && HasAt(s, c + 1, ws2)
             && c + 1 + |ws2| < |s| && !IsWs(s[c + 1 + |ws2|])
    ensures FindFrom(s, a, 1, key) == Some(a + |Quoted(key)| + |ws1| + 1 + |ws2|)
  {
    hide StringEnd, SkipWs, HasAt, FindFrom;
    var b := a + |Quoted(key)|;
    var c := b + |ws1|;
    HasFirst(s, a, Quoted(key));
    HasParts(s, a, "\"", key + "\"");
    FindsStringEnd(s, a + 1, key);
    HasParts(s, a + 1, key, "\"");
    HasFirst(s, c, ":");
    SkipsWs(s, b, ws1);
    SkipsWs(s, c + 1, ws2);
    HasSlice(s, a + 1, key);
    FoundHere(s, a, a + 1 + |key|, c, key);
  }

  lemma FoundHere(s: string, a: nat, q: nat, c: nat, key: string)
    requires a < q < |s| && s[a] == '"' && StringEnd(s, a + 1) == q && s[a + 1..q] == key
    requires SkipWs(s, q + 1) == c < |s| && s[c] == ':'
    ensures FindFrom(s, a, 1, key) == Some(SkipWs(s, c + 1))
  {
    hide StringEnd, SkipWs;
  }

  /** A member of another key is passed over, whatever its value holds. */
  lemma PassesTopMember(s: string, p: nat, m: Member, key: string)
    requires ValidMember(m) && HasAt(s, p, PrintMember(m)) && m.key != key
    requires p + |PrintMember(m)| < |s| && (s[p + |PrintMember(m)|] == ',' || s[p + |PrintMember(m)|] == '}')
    ensures FindFrom(s, p, 1, key) == FindFrom(s, p + |PrintMember(m)|, 1, key)
  {
    hide *;
    MemberParts(s, p, m);
    ValidMemberIs(m);
    CommaIsPlain();
    var a := p + |m.before|;
    var b := a + |Quoted(m.key)|;
    var c := b + |m.beforeColon|;
    var d := p + |KeyPart(m)|;
    EndsIs(s, d + |Print(m.value)|, m.after);
    PassesWs(s, p, m.before, 1, key);
    PassesString(s, a, m.key, 1, key);
    PassesWs(s, b, m.beforeColon, 1, key);
    PassesChar(s, c, ':', 1, key);
    PassesWs(s, c + 1, m.afterColon, 1, key);
    PassesTopValue(s, d, m.value, key, m.after);
    PassesWs(s, d + |Print(m.value)|, m.after, 1, key);
  }

  /** The first member with this very key: where its value starts in the members' text, and the value. */
  function Lookup(members: Members, key: string): Option<(nat, Json)> {
    match members
    case NoMembers(_) => None
    case OneMember(m) => if m.key == key then Some((|KeyPart(m)|, m.value)) else None
    case MoreMembers(m, rest) =>
      if m.key == key then Some((|KeyPart(m)|, m.value))
      else
        match Lookup(rest, key)
        case None => None
        case Some(found) => Some((|PrintMember(m)| + 1 + found.0, found.1))
  }

  lemma {:induction false} FindsInMembers(s: string, p: nat, members: Members, key: string)
    requires ValidMembers(members) && HasAt(s, p, PrintMembers(members) + "}")
    ensures FindFrom(s, p, 1, key)
         == match Lookup(members, key)
            case Some(found) => Some(p + found.0)
            case None => FindFrom(s, p + |PrintMembers(members)|, 1, key)
    decreases members
  {
    hide *;
    ValidMembersIs(members);
    LookupIs(members, key);
    HasParts(s, p, PrintMembers(members), "}");
    HasFirst(s, p + |PrintMembers(members)|, "}");
    match members
    case NoMembers(ws) => PassesWs(s, p, ws, 1, key);
    case OneMember(m) =>
      if m.key == key {
        FindsMember(s, p, m);
      } else {
        PassesTopMember(s, p, m, key);
      }
    case MoreMembers(m, rest) =>
      if m.key == key {
        MoreMembersParts(s, p, m, rest);
        FindsMember(s, p, m);
      } else {
        FindsFurtherOn(s, p, m, rest, key);
        FindsInMembers(s, p + |PrintMember(m)| + 1, rest, key);
      }
  }

  lemma HasAll(s: string)
    ensures HasAt(s, 0, s)
  {
  }

  lemma LookupIs(members: Members, key: string)
    ensures members.NoMembers? ==> Lookup(members, key) == None
    ensures !members.NoMembers? && members.member.key == key ==>
              Lookup(members, key) == Some((|KeyPart(members.member)|, members.member.value))
    ensures members.OneMember? && members.member.key != key ==> Lookup(members, key) == None
    ensures members.MoreMembers? && members.member.key != key ==>
              var further := Lookup(members.rest, key);
              Lookup(members, key) == if further.None? then None
                                      else Some((|PrintMember(members.member)| + 1 + further.value.0, further.value.1))
  {
    hide PrintMember, KeyPart;
  }

  lemma FindsFurtherOn(s: string, p: nat, m: Member, rest: Members, key: string)
    requires ValidMember(m) && HasAt(s, p, PrintMembers(MoreMembers(m, rest)) + "}") && m.key != key
    ensures HasAt(s, p + |PrintMember(m)| + 1, PrintMembers(rest) + "}")
    ensures |PrintMembers(MoreMembers(m, rest))| == |PrintMember(m)| + 1 + |PrintMembers(rest)|
    ensures FindFrom(s, p, 1, key) == FindFrom(s, p + |PrintMember(m)| + 1, 1, key)
  {
    hide *;
    HasParts(s, p, PrintMembers(MoreMembers(m, rest)), "}");
    MoreMembersParts(s, p, m, rest);
    CommaIsPlain();
    MoreMembersIs(m, rest);
    HasFirst(s, p + |PrintMember(m)|, ",");
    PassesTopMember(s, p, m, key);
    PassesChar(s, p + |PrintMember(m)|, ',', 1, key);
    HasTail(s, p, PrintMember(m), ",", PrintMembers(rest), "}");
  }

  lemma MoreMembersIs(m: Member, rest: Members)
    ensures PrintMembers(MoreMembers(m, rest)) == PrintMember(m) + ("," + PrintMembers(rest))
  {
    hide PrintMember;
  }

  lemma HasTail(s: string, p: nat, x: string, c: string, y: string, z: string)
    requires HasAt(s, p, (x + (c + y)) + z)
    ensures HasAt(s, p + |x| + |c|, y + z)
  {
    assert (x + (c + y)) + z == x + (c + (y + z));
    HasParts(s, p, x, c + (y + z));
    HasParts(s, p + |x|, c, y + z);
  }

  /**
   Looking a key up in an object's text finds the value of its first direct member of that key, however the text is laid
   out, and nothing when it has none: never a key of a nested object, nor text inside a string.
   */
  lemma LookupAgreesWithTheTree(members: Members, key: string)
    requires ValidJson(Obj(members))
    ensures FindFrom(Print(Obj(members)), 0, 0, key)
         == match Lookup(members, key)
            case Some(found) => Some(1 + found.0)
            case None => None
  {
    var s := Print(Obj(members));
    var x := PrintMembers(members);
    hide *;
    ValueIs(Obj(members));
    HasAll(s);
    HasParts(s, 0, "{", x + "}");
    HasParts(s, 1, x, "}");
    PassesOpen(s, 0, '{', 0, key);
    FindsInMembers(s, 1, members, key);
    PassesOpen(s, 1 + |x|, '}', 1, key);
    NothingAtTheEnd(s, 0, key);
  }

  /** What a lookup finds is printed where it says, and is valid. */
  lemma {:induction false} LookupIsPrinted(s: string, p: nat, members: Members, key: string)
    requires ValidMembers(members) && HasAt(s, p, PrintMembers(members) + "}")
    ensures Lookup(members, key).Some? ==>
              var found := Lookup(members, key).value;
              HasAt(s, p + found.0, Print(found.1)) && ValidJson(found.1)
    decreases members
  {
    hide HasAt, Print, PrintMember, KeyPart;
    HasParts(s, p, PrintMembers(members), "}");
    match members
    case NoMembers(_) =>
    case OneMember(m) => MemberParts(s, p, m);
    case MoreMembers(m, rest) =>
      if m.key == key {
        MoreMembersParts(s, p, m, rest);
        MemberParts(s, p, m);
      } else {
        HasTail(s, p, PrintMember(m), ",", PrintMembers(rest), "}");
        LookupIsPrinted(s, p + |PrintMember(m)| + 1, rest, key);
      }
  }

  lemma NothingAtTheEnd(s: string, depth: int, key: string)
    ensures FindFrom(s, |s|, depth, key) == None
  {
  }

  // ---- the end of an object ---------------------------------------------------------------------------------------

  /**
   The scan from p on, `depth` braces deep: past the brace that closes the outermost; none if the text ends before.
   */
  function EndFrom(s: string, p: nat, depth: nat): (r: Option<nat>)
    requires p <= |s|
    ensures r.Some? ==> p < r.value <= |s|
    decreases |s| - p
  {
    if p == |s| then None
    else if s[p] == '"' then
      var q := StringEnd(s, p + 1);
      if q < |s| then EndFrom(s, q + 1, depth) else None
    else if s[p] == '{' then EndFrom(s, p + 1, depth + 1)
    else if s[p] == '}' then
      (if depth == 1 then Some(p + 1) else EndFrom(s, p + 1, if depth == 0 then 0 else depth - 1))
    else EndFrom(s, p + 1, depth)
  }

  function EndOf(s: string, start: nat): (r: Option<nat>)
    requires start <= |s|
    ensures r.Some? ==> start < r.value <= |s|
  {
    if start == |s| || s[start] != '{' then None else EndFrom(s, start, 0)
  }

  /** What the flags of the scan say is still to be found. */
  function EndWithin(s: string, p: nat, depth: nat, inString: bool, escaped: bool): Option<nat>
    requires p <= |s|
  {
    if !inString then EndFrom(s, p, depth)
    else
      var q := if escaped then (if p == |s| then p else StringEnd(s, p + 1)) else StringEnd(s, p);
      if q < |s| then EndFrom(s, q + 1, depth) else None
  }

  /** The scan of object_end. */
  method ObjectEnd(s: string, start: nat) returns (r: Option<nat>)
    requires start <= |s|
    ensures r == EndOf(s, start)
  {
    if start >= |s| || s[start] != '{' {
      return None;
    }
    var depth: nat := 0;
    var inString, escaped := false, false;
    var p := start;
    while p < |s|
      invariant start <= p <= |s| && (escaped ==> inString)
      invariant if p == start then depth == 0 && !inString else depth > 0
      invariant EndFrom(s, start, 0) == EndWithin(s, p, depth, inString, escaped)
    {
      var c := s[p];
      if escaped {
        escaped := false;
      } else if inString {
        if c == '\\' {
          escaped := true;
        } else if c == '"' {
          inString := false;
        }
      } else if c == '"' {
        inString := true;
      } else if c == '{' {
        depth := depth + 1;
      } else if c == '}' {
        depth := depth - 1;
        if depth == 0 {
          return Some(p + 1);
        }
      }
      p := p + 1;
    }
    return None;
  }

  lemma {:induction false} EndPassesText(s: string, p: nat, x: string, depth: nat)
    requires HasAt(s, p, x) && forall i :: 0 <= i < |x| ==> x[i] != '"' && x[i] != '{' && x[i] != '}'
    ensures EndFrom(s, p, depth) == EndFrom(s, p + |x|, depth)
    decreases |x|
  {
    if x != "" {
      HasFirst(s, p, x);
      assert x == [x[0]] + x[1..];
      HasParts(s, p, [x[0]], x[1..]);
      EndPassesText(s, p + 1, x[1..], depth);
    }
  }

  lemma EndPassesPlain(s: string, p: nat, x: string, depth: nat)
    requires AllPlain(x) && HasAt(s, p, x)
    ensures EndFrom(s, p, depth) == EndFrom(s, p + |x|, depth)
  {
    hide HasAt, EndFrom;
    forall i | 0 <= i < |x|
      ensures x[i] != '"' && x[i] != '{' && x[i] != '}'
    {
      assert IsPlain(x[i]);
    }
    EndPassesText(s, p, x, depth);
  }

  lemma EndPassesWs(s: string, p: nat, ws: string, depth: nat)
    requires AllWs(ws) && HasAt(s, p, ws)
    ensures EndFrom(s, p, depth) == EndFrom(s, p + |ws|, depth)
  {
    hide *;
    WsIsPlain(ws);
    EndPassesPlain(s, p, ws, depth);
  }

  lemma EndPassesChar(s: string, p: nat, c: char, depth: nat)
    requires HasAt(s, p, [c]) && c != '"' && c != '{' && c != '}'
    ensures EndFrom(s, p, depth) == EndFrom(s, p + 1, depth)
  {
    hide HasAt, EndFrom;
    EndPassesText(s, p, [c], depth);
  }

  lemma EndPassesString(s: string, p: nat, raw: string, depth: nat)
    requires IsRaw(raw) && HasAt(s, p, Quoted(raw))
    ensures EndFrom(s, p, depth) == EndFrom(s, p + |Quoted(raw)|, depth)
  {
    hide StringEnd;
    HasFirst(s, p, Quoted(raw));
    HasParts(s, p, "\"", raw + "\"");
    FindsStringEnd(s, p + 1, raw);
  }

  lemma EndPassesBrace(s: string, p: nat, depth: nat)
    requires p < |s|
    ensures s[p] == '{' ==> EndFrom(s, p, depth) == EndFrom(s, p + 1, depth + 1)
    ensures s[p] == '}' && depth == 1 ==> EndFrom(s, p, depth) == Some(p + 1)
    ensures s[p] == '}' && depth > 1 ==> EndFrom(s, p, depth) == EndFrom(s, p + 1, depth - 1)
  {
  }

  lemma {:induction false} EndPassesValue(s: string, p: nat, v: Json, depth: nat)
    requires ValidJson(v) && depth >= 1 && HasAt(s, p, Print(v))
    ensures EndFrom(s, p, depth) == EndFrom(s, p + |Print(v)|, depth)
    decreases v
  {
    hide HasAt, EndFrom, IsRaw, AllPlain;
    match v
    case Scalar(text) => EndPassesPlain(s, p, text, depth);
    case Str(raw) => EndPassesString(s, p, raw, depth);
    case Arr(items) =>
      InBrackets(s, p, "[", PrintItems(items), "]");
      EndPassesChar(s, p, '[', depth);
      EndPassesItems(s, p + 1, items, depth);
      EndPassesChar(s, p + 1 + |PrintItems(items)|, ']', depth);
    case Obj(members) =>
      EndOfObject(s, p, members, depth);
  }

  /** From an object's opening brace to past its closing one. */
  lemma {:induction false} EndOfObject(s: string, p: nat, members: Members, depth: nat)
    requires ValidMembers(members) && HasAt(s, p, Print(Obj(members)))
    ensures EndFrom(s, p, depth)
         == if depth == 0 then Some(p + |Print(Obj(members))|) else EndFrom(s, p + |Print(Obj(members))|, depth)
    decreases members, 1
  {
    hide HasAt, EndFrom, PrintMembers, ValidMembers;
    var x := PrintMembers(members);
    InBrackets(s, p, "{", x, "}");
    HasFirst(s, p, "{");
    HasFirst(s, p + 1 + |x|, "}");
    EndPassesBrace(s, p, depth);
    EndPassesMembers(s, p + 1, members, depth + 1);
    EndPassesBrace(s, p + 1 + |x|, depth + 1);
  }

  lemma {:induction false} EndPassesItem(s: string, p: nat, item: Item, depth: nat)
    requires ValidItem(item) && depth >= 1 && HasAt(s, p, PrintItem(item))
    ensures EndFrom(s, p, depth) == EndFrom(s, p + |PrintItem(item)|, depth)
    decreases item
  {
    hide HasAt, EndFrom, AllWs, Print;
    HasParts(s, p, item.before, Print(item.value) + item.after);
    HasParts(s, p + |item.before|, Print(item.value), item.after);
    EndPassesWs(s, p, item.before, depth);
    EndPassesValue(s, p + |item.before|, item.value, depth);
    EndPassesWs(s, p + |item.before| + |Print(item.value)|, item.after, depth);
  }

  lemma {:induction false} EndPassesItems(s: string, p: nat, items: Items, depth: nat)
    requires ValidItems(items) && depth >= 1 && HasAt(s, p, PrintItems(items))
    ensures EndFrom(s, p, depth) == EndFrom(s, p + |PrintItems(items)|, depth)
    decreases items
  {
    hide HasAt, EndFrom, AllWs, PrintItem;
    match items
    case NoItems(ws) => EndPassesWs(s, p, ws, depth);
    case OneItem(item) => EndPassesItem(s, p, item, depth);
    case MoreItems(item, rest) =>
      HasParts(s, p, PrintItem(item), "," + PrintItems(rest));
      HasParts(s, p + |PrintItem(item)|, ",", PrintItems(rest));
      EndPassesItem(s, p, item, depth);
      EndPassesChar(s, p + |PrintItem(item)|, ',', depth);
      EndPassesItems(s, p + |PrintItem(item)| + 1, rest, depth);
  }

  lemma {:induction false} EndPassesMember(s: string, p: nat, m: Member, depth: nat)
    requires ValidMember(m) && depth >= 1 && HasAt(s, p, PrintMember(m))
    ensures EndFrom(s, p, depth) == EndFrom(s, p + |PrintMember(m)|, depth)
    decreases m
  {
    hide HasAt, EndFrom, AllWs, Print, Quoted, KeyPart, PrintMember, IsRaw;
    MemberParts(s, p, m);
    var a := p + |m.before|;
    var b := a + |Quoted(m.key)|;
    var c := b + |m.beforeColon|;
    var d := p + |KeyPart(m)|;
    EndPassesWs(s, p, m.before, depth);
    EndPassesString(s, a, m.key, depth);
    EndPassesWs(s, b, m.beforeColon, depth);
    EndPassesChar(s, c, ':', depth);
    EndPassesWs(s, c + 1, m.afterColon, depth);
    EndPassesValue(s, d, m.value, depth);
    EndPassesWs(s, d + |Print(m.value)|, m.after, depth);
  }

  lemma {:induction false} EndPassesMembers(s: string, p: nat, members: Members, depth: nat)
    requires ValidMembers(members) && depth >= 1 && HasAt(s, p, PrintMembers(members))
    ensures EndFrom(s, p, depth) == EndFrom(s, p + |PrintMembers(members)|, depth)
    decreases members, 0
  {
    hide *;
    ValidMembersIs(members);
    match members
    case NoMembers(ws) => EndPassesWs(s, p, ws, depth);
    case OneMember(m) => EndPassesMember(s, p, m, depth);
    case MoreMembers(m, rest) =>
      MoreMembersParts(s, p, m, rest);
      EndPassesMember(s, p, m, depth);
      EndPassesChar(s, p + |PrintMember(m)|, ',', depth);
      EndPassesMembers(s, p + |PrintMember(m)| + 1, rest, depth);
  }

  /** An object's end is found exactly, wherever it stands in a text and whatever its strings hold. */
  lemma ObjectEndsWhereItIsPrinted(s: string, start: nat, members: Members)
    requires ValidJson(Obj(members)) && HasAt(s, start, Print(Obj(members)))
    ensures EndOf(s, start) == Some(start + |Print(Obj(members))|)
  {
    hide EndFrom, HasAt, ValidMembers;
    HasFirst(s, start, Print(Obj(members)));
    EndOfObject(s, start, members, 0);
  }

  // ---- texts that were cut off ------------------------------------------------------------------------------------

  lemma {:induction false} CutStringEnd(s: string, n: nat, q: nat)
    requires q <= n <= |s|
    ensures StringEnd(s[..n], q) == if StringEnd(s, q) < n then StringEnd(s, q) else n
    decreases n - q
  {
    if q < n && s[q] != '"' {
      if s[q] == '\\' {
        if q + 1 < n {
          CutStringEnd(s, n, q + 2);
        }
      } else {
        CutStringEnd(s, n, q + 1);
      }
    }
  }

  /** In a text that was cut off an object's end is found, and is the same, exactly if it is still there. */
  lemma {:induction false} CutEndFrom(s: string, n: nat, p: nat, depth: nat)
    requires p <= n <= |s|
    ensures EndFrom(s[..n], p, depth)
         == if EndFrom(s, p, depth).Some? && EndFrom(s, p, depth).value <= n then EndFrom(s, p, depth) else None
    decreases n - p
  {
    hide StringEnd;
    if p < n {
      if s[p] == '"' {
        CutStringEnd(s, n, p + 1);
        var q := StringEnd(s, p + 1);
        if q < n {
          CutEndFrom(s, n, q + 1, depth);
        }
      } else if s[p] == '{' {
        CutEndFrom(s, n, p + 1, depth + 1);
      } else if s[p] == '}' && depth > 1 {
        CutEndFrom(s, n, p + 1, depth - 1);
      } else if !(s[p] == '}' && depth == 1) {
        CutEndFrom(s, n, p + 1, depth);
      }
    }
  }

  lemma {:induction false} CutSkipWs(s: string, n: nat, p: nat)
    requires p <= n <= |s|
    ensures SkipWs(s[..n], p) == if SkipWs(s, p) < n then SkipWs(s, p) else n
    decreases n - p
  {
    if p < n && IsWs(s[p]) {
      CutSkipWs(s, n, p + 1);
    }
  }

  lemma {:induction false} NothingInWs(s: string, p: nat, depth: int, key: string)
    requires p <= |s| && SkipWs(s, p) == |s|
    ensures FindFrom(s, p, depth, key) == None
    decreases |s| - p
  {
    if p < |s| {
      NothingInWs(s, p + 1, depth, key);
    }
  }

  /** What a search in the text up to n makes of `full`, its result in the whole text. */
  function UpTo(s: string, n: nat, full: Option<nat>): Option<nat>
    requires n <= |s| && (full.Some? ==> full.value <= |s|)
  {
    match full
    case None => None
    case Some(v) => if v <= n then full else if AllWs(s[n..v]) then Some(n) else None
  }

  /**
   In a text that was cut off a member's value is found exactly if it is still there, or if only its start is missing:
   the cut is behind the colon.  It is then found at the end of the text.
   */
  lemma {:induction false} CutFindFrom(s: string, n: nat, p: nat, depth: int, key: string)
    requires p <= n <= |s|
    ensures FindFrom(s[..n], p, depth, key) == UpTo(s, n, FindFrom(s, p, depth, key))
    decreases n - p
  {
    hide StringEnd, SkipWs, AllWs, UpTo;
    if p == n {
      NothingBehind(s, n, depth, key);
    } else if s[p] == '"' {
      CutString(s, n, p, depth, key);
    } else if s[p] == '{' || s[p] == '[' {
      CutFindFrom(s, n, p + 1, depth + 1, key);
    } else if s[p] == '}' || s[p] == ']' {
      CutFindFrom(s, n, p + 1, depth - 1, key);
    } else {
      CutFindFrom(s, n, p + 1, depth, key);
    }
  }

  /** What is found from n on starts behind a colon that is behind n. */
  lemma NothingBehind(s: string, n: nat, depth: int, key: string)
    requires n <= |s|
    ensures UpTo(s, n, FindFrom(s, n, depth, key)) == None
  {
    hide StringEnd, SkipWs;
    FindsBehindQuote(s, n, depth, key);
    var full := FindFrom(s, n, depth, key);
    if full.Some? {
      var i :| n <= i < full.value && s[i] == '"';
      assert s[n..full.value][i - n] == '"';
    }
  }

  lemma {:induction false} FindsBehindQuote(s: string, p: nat, depth: int, key: string)
    requires p <= |s|
    ensures FindFrom(s, p, depth, key).Some? ==> exists i :: p <= i < FindFrom(s, p, depth, key).value && s[i] == '"'
    decreases |s| - p
  {
    hide StringEnd, SkipWs;
    if p < |s| && s[p] != '"' {
      if s[p] == '{' || s[p] == '[' {
        FindsBehindQuote(s, p + 1, depth + 1, key);
      } else if s[p] == '}' || s[p] == ']' {
        FindsBehindQuote(s, p + 1, depth - 1, key);
      } else {
        FindsBehindQuote(s, p + 1, depth, key);
      }
    }
  }

  lemma CutString(s: string, n: nat, p: nat, depth: int, key: string)
    requires p < n <= |s| && s[p] == '"'
    ensures FindFrom(s[..n], p, depth, key) == UpTo(s, n, FindFrom(s, p, depth, key))
    decreases n - p, 0
  {
    hide StringEnd, SkipWs, AllWs, UpTo;
    CutStringEnd(s, n, p + 1);
    var q := StringEnd(s, p + 1);
    if q >= n {
      InsideString(s, n, p, depth, key);
    } else {
      assert s[..n][p + 1..q] == s[p + 1..q];
      if depth == 1 && s[p + 1..q] == key && HasColon(s, q + 1) {
        CutBehindKey(s, n, q + 1, depth, key);
      } else {
        CutColon(s, n, q + 1);
        CutFindFrom(s, n, q + 1, depth, key);
      }
    }
  }

  lemma CutColon(s: string, n: nat, q: nat)
    requires q <= n <= |s|
    ensures HasColon(s[..n], q) <==> HasColon(s, q) && SkipWs(s, q) < n
    ensures HasColon(s[..n], q) ==>
              && SkipWs(s[..n], q) == SkipWs(s, q)
              && SkipWs(s[..n], SkipWs(s, q) + 1)
                 == if SkipWs(s, SkipWs(s, q) + 1) < n then SkipWs(s, SkipWs(s, q) + 1) else n
  {
    hide SkipWs;
    CutSkipWs(s, n, q);
    var v := SkipWs(s, q);
    if v < n {
      CutSkipWs(s, n, v + 1);
    }
  }

  /** Behind the string that is looked for, with its colon in the whole text. */
  lemma CutBehindKey(s: string, n: nat, q: nat, depth: int, key: string)
    requires q <= n <= |s| && HasColon(s, q)
    ensures var full := Some(SkipWs(s, SkipWs(s, q) + 1));
            if HasColon(s[..n], q) then Some(SkipWs(s[..n], SkipWs(s[..n], q) + 1)) == UpTo(s, n, full)
            else UpTo(s, n, full) == None && FindFrom(s[..n], q, depth, key) == None
  {
    hide UpTo, SkipWs, FindFrom;
    CutColon(s, n, q);
    var v := SkipWs(s, q);
    if v < n {
      CutInWs(s, n, v + 1);
    } else {
      CutSkipWs(s, n, q);
      NothingInWs(s[..n], q, depth, key);
      CutBefore(s, n, v);
    }
  }

  /** The cut falls inside a string. */
  lemma InsideString(s: string, n: nat, p: nat, depth: int, key: string)
    requires p < n <= |s| && s[p] == '"' && StringEnd(s, p + 1) >= n
    ensures UpTo(s, n, FindFrom(s, p, depth, key)) == None
  {
    hide SkipWs, StringEnd;
    var q, full := StringEnd(s, p + 1), FindFrom(s, p, depth, key);
    EndsAtQuote(s, p + 1);
    if full.Some? {
      assert s[n..full.value][q - n] == '"';
    }
  }

  lemma {:induction false} EndsAtQuote(s: string, q: nat)
    requires q <= |s|
    ensures StringEnd(s, q) < |s| ==> s[StringEnd(s, q)] == '"'
    decreases |s| - q
  {
    if q < |s| && s[q] == '\\' {
      if q + 1 < |s| {
        EndsAtQuote(s, q + 2);
      }
    } else if q < |s| && s[q] != '"' {
      EndsAtQuote(s, q + 1);
    }
  }

  /** The cut falls into the whitespace behind a colon, or behind it. */
  lemma CutInWs(s: string, n: nat, c: nat)
    requires c <= n <= |s|
    ensures UpTo(s, n, Some(SkipWs(s, c))) == Some(if SkipWs(s, c) < n then SkipWs(s, c) else n)
  {
    SkippedIsWs(s, c);
    if SkipWs(s, c) > n {
      assert forall i :: 0 <= i < SkipWs(s, c) - n ==> s[n..SkipWs(s, c)][i] == s[n + i];
    }
  }

  lemma {:induction false} SkippedIsWs(s: string, c: nat)
    requires c <= |s|
    ensures forall i :: c <= i < SkipWs(s, c) ==> IsWs(s[i])
    decreases |s| - c
  {
    if c < |s| && IsWs(s[c]) {
      SkippedIsWs(s, c + 1);
    }
  }

  /** The cut falls before a colon. */
  lemma CutBefore(s: string, n: nat, v: nat)
    requires n <= v < |s| && s[v] == ':'
    ensures UpTo(s, n, Some(SkipWs(s, v + 1))) == None
  {
    assert s[n..SkipWs(s, v + 1)][v - n] == ':';
  }
}
