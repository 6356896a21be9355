/**
 The replies of source/api/livetv.cpp: the objects of a reply's Items array, each handed to a reader of its own text.  A
 reply may have been cut off anywhere.
 */
module LiveTvReplies {
  import opened Basics
  import opened JsonTree
  import opened JsonLite

  const ITEMS := "Items"

  /** Where an object's text starts, and where it ends. */
  datatype Span = Span(from: nat, to: nat)

  /** The first place behind the bracket of the Items array. */
  function ItemsStart(s: string): (r: Option<nat>)
    ensures r.Some? ==> r.value <= |s|
  {
    var top := SkipWs(s, 0);
    if top == |s| || s[top] != '{' then None
    else
      match FindFrom(s, top, 0, ITEMS)
      case Some(v) => if v < |s| && s[v] == '[' then Some(v + 1) else None
      case None => None
  }

  /** The objects from p on, up to `max` of them or the array's end, and where one starts that the text ended in. */
  function Objects(s: string, p: nat, max: nat): (r: (seq<Span>, Option<nat>))
    requires p <= |s|
    ensures forall i :: 0 <= i < |r.0| ==> r.0[i].from < r.0[i].to <= |s|
    decreases |s| - p
  {
    if p == |s| || max == 0 then ([], None)
    else
      var q := SkipWs(s, p);
      if q == |s| || s[q] == ']' then ([], None)
      else if s[q] != '{' then Objects(s, q + 1, max)
      else
        match EndOf(s, q)
        case None => ([], Some(q))
        case Some(e) =>
          var rest := Objects(s, e, max - 1);
          ([Span(q, e)] + rest.0, rest.1)
  }

  /** The loop of each_object; `fn` is given each object's text. */
  method EachObject<T>(s: string, p0: nat, max: nat, fn: string -> T) returns (out: seq<T>, truncated: bool)
    requires p0 <= |s|
    ensures var r := Objects(s, p0, max); out == Read(s, r.0, fn) && truncated == r.1.Some?
  {
    out, truncated := [], false;
    var p := p0;
    ghost var done: seq<Span> := [];
    ghost var all := Objects(s, p0, max);
    assert [] + all.0 == all.0;
    while p < |s| && |out| < max
      invariant p <= |s| && |out| <= max && !truncated
      invariant forall i :: 0 <= i < |done| ==> done[i].from < done[i].to <= |s|
      invariant out == Read(s, done, fn)
      invariant all == (done + Objects(s, p, max - |out|).0, Objects(s, p, max - |out|).1)
      decreases |s| - p
    {
      p := ScanWs(s, p);
      if p >= |s| || s[p] == ']' {
        break;
      }
      if s[p] == ',' {
        p := p + 1;
        continue;
      }
      if s[p] != '{' {
        p := p + 1;
        continue;
      }
      var oe := ObjectEnd(s, p);
      if oe.None? {
        truncated := true;
        break;
      }
      ghost var rest := Objects(s, oe.value, max - |out| - 1).0;
      assert done + ([Span(p, oe.value)] + rest) == done + [Span(p, oe.value)] + rest;
      ReadOneMore(s, done, Span(p, oe.value), fn);
      out := out + [fn(s[p..oe.value])];
      done := done + [Span(p, oe.value)];
      p := oe.value;
    }
    assert done + [] == done;
  }

  function Read<T>(s: string, spans: seq<Span>, fn: string -> T): (r: seq<T>)
    requires forall i :: 0 <= i < |spans| ==> spans[i].from < spans[i].to <= |s|
    ensures |r| == |spans|
  {
    seq(|spans|, i requires 0 <= i < |spans| => fn(s[spans[i].from..spans[i].to]))
  }

  lemma ReadOneMore<T>(s: string, spans: seq<Span>, x: Span, fn: string -> T)
    requires forall i :: 0 <= i < |spans| ==> spans[i].from < spans[i].to <= |s|
    requires x.from < x.to <= |s|
    ensures Read(s, spans + [x], fn) == Read(s, spans, fn) + [fn(s[x.from..x.to])]
  {
  }

  /** The spans of a reply's items. */
  function Items(s: string, max: nat): (r: (seq<Span>, Option<nat>))
    ensures forall i :: 0 <= i < |r.0| ==> r.0[i].from < r.0[i].to <= |s|
  {
    match ItemsStart(s)
    case None => ([], None)
    case Some(p) => Objects(s, p, max)
  }

  // ---- replies that were cut off ------------------------------------------------------------------------------------

  /** The spans that end at n or before. */
  function Within(spans: seq<Span>, n: nat): (r: seq<Span>)
    ensures r <= spans
  {
    if spans == [] || spans[0].to > n then [] else [spans[0]] + Within(spans[1..], n)
  }

  /** The text up to n ends inside an object that was taken, or inside the one that the whole text ends in. */
  predicate EndsInside(r: (seq<Span>, Option<nat>), n: nat) {
    (exists i :: 0 <= i < |r.0| && r.0[i].from < n < r.0[i].to) || (r.1.Some? && r.1.value < n)
  }

  lemma CutEndOf(s: string, n: nat, q: nat)
    requires q < n <= |s|
    ensures EndOf(s[..n], q) == if EndOf(s, q).Some? && EndOf(s, q).value <= n then EndOf(s, q) else None
  {
    hide EndFrom;
    CutEndFrom(s, n, q, 0);
  }

  lemma {:induction false} CutObjects(s: string, n: nat, p: nat, max: nat)
    requires p <= n <= |s|
    ensures Objects(s[..n], p, max).0 == Within(Objects(s, p, max).0, n)
    ensures Objects(s[..n], p, max).1.Some? <==> EndsInside(Objects(s, p, max), n)
    decreases n - p
  {
    hide EndOf, SkipWs, Within, EndsInside;
    if p == n || max == 0 {
      NoneWithin(s, n, p, max);
    } else {
      CutSkipWs(s, n, p);
      var q := SkipWs(s, p);
      if q >= n {
        NoneWithin(s, n, p, max);
      } else if s[q] == '{' {
        CutObject(s, n, p, max);
        if EndOf(s, q).Some? && EndOf(s, q).value <= n {
          CutObjects(s, n, EndOf(s, q).value, max - 1);
        }
      } else if s[q] != ']' {
        CutObjects(s, n, q + 1, max);
      } else {
        NoSpans(n);
      }
    }
  }

  lemma NoSpans(n: nat)
    ensures Within([], n) == [] && !EndsInside(([], None), n)
  {
  }

  /** An object that starts before the cut. */
  lemma CutObject(s: string, n: nat, p: nat, max: nat)
    requires p < n <= |s| && max > 0 && SkipWs(s, p) < n && s[SkipWs(s, p)] == '{'
    ensures var q := SkipWs(s, p);
            var e := EndOf(s, q);
            if e.Some? && e.value <= n then
              && Objects(s[..n], p, max).0 == [Span(q, e.value)] + Objects(s[..n], e.value, max - 1).0
              && Within(Objects(s, p, max).0, n) == [Span(q, e.value)] + Within(Objects(s, e.value, max - 1).0, n)
              && Objects(s[..n], p, max).1 == Objects(s[..n], e.value, max - 1).1
              && (EndsInside(Objects(s, p, max), n) <==> EndsInside(Objects(s, e.value, max - 1), n))
            else
              && Objects(s[..n], p, max) == ([], Some(q))
              && Within(Objects(s, p, max).0, n) == [] && EndsInside(Objects(s, p, max), n)
  {
    hide EndOf, SkipWs, EndsInside;
    var q := SkipWs(s, p);
    CutSkipWs(s, n, p);
    CutEndOf(s, n, q);
    match EndOf(s, q)
    case Some(e) =>
      var rest := Objects(s, e, max - 1);
      EndsInsideFirst(Span(q, e), rest.0, rest.1, n);
      if e <= n {
        WithinFirst(Span(q, e), rest.0, n);
      }
    case None =>
      EndsInOpen(q, n);
  }

  lemma EndsInsideFirst(x: Span, rest: seq<Span>, open: Option<nat>, n: nat)
    ensures EndsInside(([x] + rest, open), n) <==> x.from < n < x.to || EndsInside((rest, open), n)
  {
    var all := [x] + rest;
    assert all[0] == x;
    assert forall i :: 0 <= i < |rest| ==> rest[i] == all[i + 1];
    assert forall i :: 0 < i < |all| ==> all[i] == rest[i - 1];
  }

  lemma EndsInOpen(q: nat, n: nat)
    requires q < n
    ensures EndsInside(([], Some(q)), n)
  {
  }

  lemma WithinFirst(x: Span, rest: seq<Span>, n: nat)
    requires x.to <= n
    ensures Within([x] + rest, n) == [x] + Within(rest, n)
  {
    TailOf(x, rest);
  }

  /** From n on nothing begins before n. */
  lemma NoneWithin(s: string, n: nat, p: nat, max: nat)
    requires p <= n <= |s| && (SkipWs(s, p) >= n || max == 0)
    ensures Within(Objects(s, p, max).0, n) == [] && !EndsInside(Objects(s, p, max), n)
    ensures SkipWs(s[..n], p) >= n ==> Objects(s[..n], p, max) == ([], None)
  {
    hide EndOf;
    AllStartLate(s, p, max);
  }

  lemma {:induction false} AllStartLate(s: string, p: nat, max: nat)
    requires p <= |s|
    ensures var r := Objects(s, p, max);
            && (forall i :: 0 <= i < |r.0| ==> r.0[i].from >= SkipWs(s, p))
            && (r.1.Some? ==> r.1.value >= SkipWs(s, p))
    decreases |s| - p
  {
    hide EndOf;
    if p < |s| && max > 0 {
      var q := SkipWs(s, p);
      if q < |s| && s[q] == '{' {
        if EndOf(s, q).Some? {
          AllStartLate(s, EndOf(s, q).value, max - 1);
        }
      } else if q < |s| && s[q] != ']' {
        AllStartLate(s, q + 1, max);
      }
    }
  }

  lemma CutItemsStart(s: string, n: nat)
    requires n <= |s|
    ensures ItemsStart(s[..n]) == if ItemsStart(s).Some? && ItemsStart(s).value <= n then ItemsStart(s) else None
  {
    hide FindFrom, SkipWs;
    CutSkipWs(s, n, 0);
    var top := SkipWs(s, 0);
    if top < n {
      CutFindFrom(s, n, top, 0, ITEMS);
    }
  }

  /**
   A reply that was cut off is parsed as far as it goes: exactly the objects that ended before the cut are found,
   where they were, so that what is read of them is what is read of the whole reply, up to there; and it is reported
   as cut off exactly if the cut falls inside an object that was still to be taken.
   */
  lemma CutRepliesAreParsedAsFarAsTheyGo<T>(s: string, n: nat, max: nat, fn: string -> T)
    requires n <= |s|
    ensures Items(s[..n], max).0 == Within(Items(s, max).0, n)
    ensures Items(s[..n], max).1.Some? <==> EndsInside(Items(s, max), n)
    ensures Read(s[..n], Items(s[..n], max).0, fn) <= Read(s, Items(s, max).0, fn)
  {
    hide Objects, ItemsStart;
    CutItemsStart(s, n);
    if ItemsStart(s).Some? {
      var p := ItemsStart(s).value;
      if p <= n {
        CutObjects(s, n, p, max);
      } else {
        AllBehind(s, p, max, n);
      }
    } else {
      NoSpans(n);
    }
    var cut, full := Items(s[..n], max).0, Items(s, max).0;
    forall i | 0 <= i < |cut|
      ensures Read(s[..n], cut, fn)[i] == Read(s, full, fn)[i]
    {
      assert cut[i] == full[i];
      assert s[..n][cut[i].from..cut[i].to] == s[cut[i].from..cut[i].to];
    }
  }

  lemma AllBehind(s: string, p: nat, max: nat, n: nat)
    requires n < p <= |s|
    ensures Within(Objects(s, p, max).0, n) == [] && !EndsInside(Objects(s, p, max), n)
  {
    AllStartLate(s, p, max);
  }

  // ---- whole replies ----------------------------------------------------------------------------------------------

  predicate NoBrackets(t: string) { forall i :: 0 <= i < |t| ==> t[i] != '{' && t[i] != ']' }

  predicate IsBracket(c: char) { c == '{' || c == ']' }

  /** The first of the characters that the loop looks for. */
  function BracketAt(t: string): (m: nat)
    ensures m <= |t| && NoBrackets(t[..m]) && (m < |t| ==> IsBracket(t[m]))
    ensures NoBrackets(t) <==> m == |t|
  {
    if t == "" || IsBracket(t[0]) then 0
    else
      var m := 1 + BracketAt(t[1..]);
      assert t[..m] == [t[0]] + t[1..][..m - 1];
      m
  }

  /** The loop reads objects; of any other value it sees the first brace or closing bracket, be it in a string. */
  datatype Sight = Reads | Passes | Ends | Misreads

  function Seen(v: Json): Sight {
    if v.Obj? then Reads
    else
      var t := Print(v);
      var m := BracketAt(t);
      if m == |t| then Passes else if t[m] == ']' then Ends else Misreads
  }

  predicate NoObjects(items: JsonTree.Items) {
    match items
    case NoItems(_) => true
    case OneItem(item) => !item.value.Obj?
    case MoreItems(item, rest) => !item.value.Obj? && NoObjects(rest)
  }

  /**
   Until `max` objects are read: an item with a closing bracket as its first bracket is behind the last object, and none
   has a brace as its first bracket.
   */
  predicate CanBeRead(items: JsonTree.Items, max: nat) {
    max == 0 ||
    match items
    case NoItems(_) => true
    case OneItem(item) => !Seen(item.value).Misreads?
    case MoreItems(item, rest) =>
      match Seen(item.value)
      case Reads => CanBeRead(rest, max - 1)
      case Passes => CanBeRead(rest, max)
      case Ends => NoObjects(rest)
      case Misreads => false
  }

  /** Where the objects among an array's items are printed, from p on. */
  function SpansOf(items: JsonTree.Items, p: nat): seq<Span> {
    match items
    case NoItems(_) => []
    case OneItem(item) => SpansOfOne(item, p)
    case MoreItems(item, rest) => SpansOfOne(item, p) + SpansOf(rest, p + |PrintItem(item)| + 1)
  }

  function SpansOfOne(item: Item, p: nat): seq<Span> { if item.value.Obj? then [SpanOf(item, p)] else [] }

  function SpanOf(item: Item, p: nat): Span {
    Span(p + |item.before|, p + |item.before| + |Print(item.value)|)
  }

  function Take<T>(xs: seq<T>, n: nat): seq<T> { if |xs| <= n then xs else xs[..n] }

  lemma FindsObject(s: string, p: nat, item: Item, max: nat)
    requires ValidItem(item) && item.value.Obj? && HasAt(s, p, PrintItem(item)) && max > 0
    ensures var x := SpanOf(item, p);
            && p <= |s| && x.to <= |s|
            && Objects(s, p, max) == ([x] + Objects(s, x.to, max - 1).0, Objects(s, x.to, max - 1).1)
    ensures HasAt(s, SpanOf(item, p).to, item.after)
  {
    hide EndOf, HasAt, PrintMembers;
    HasParts(s, p, item.before, Print(item.value) + item.after);
    HasParts(s, p + |item.before|, Print(item.value), item.after);
    HasFirst(s, p + |item.before|, Print(item.value));
    SkipsWs(s, p, item.before);
    ObjectEndsWhereItIsPrinted(s, p + |item.before|, item.value.members);
    HasSlice(s, p, item.before);
    HasSlice(s, p + |item.before|, Print(item.value));
  }

  /** Whitespace, then the closing bracket: there are no more objects. */
  lemma NoMore(s: string, p: nat, ws: string, max: nat)
    requires AllWs(ws) && HasAt(s, p, ws + "]")
    ensures p <= |s| && Objects(s, p, max) == ([], None)
  {
    HasParts(s, p, ws, "]");
    HasFirst(s, p + |ws|, "]");
    SkipsWs(s, p, ws);
  }

  /** Whitespace, then a comma: on to what is behind it. */
  lemma NextOne(s: string, p: nat, ws: string, max: nat)
    requires AllWs(ws) && HasAt(s, p, ws) && HasAt(s, p + |ws|, ",")
    ensures p + |ws| + 1 <= |s| && Objects(s, p, max) == Objects(s, p + |ws| + 1, max)
  {
    HasFirst(s, p + |ws|, ",");
    SkipsWs(s, p, ws);
  }

  lemma {:induction false} PassesPlain(s: string, p: nat, t: string, max: nat)
    requires NoBrackets(t) && HasAt(s, p, t)
    ensures p + |t| <= |s| && Objects(s, p, max) == Objects(s, p + |t|, max)
    decreases |t|
  {
    HasSlice(s, p, t);
    if t != "" {
      HasFirst(s, p, t);
      assert HasAt(s, p + 1, t[1..]) by {
        assert t == [t[0]] + t[1..];
        HasParts(s, p, [t[0]], t[1..]);
      }
      hide EndOf, HasAt;
      PassesPlain(s, p + 1, t[1..], max);
    }
  }

  lemma WsHasNoBrackets(t: string)
    requires AllWs(t)
    ensures NoBrackets(t)
  {
  }

  lemma PlainItem(item: Item)
    requires ValidItem(item) && NoBrackets(Print(item.value))
    ensures NoBrackets(PrintItem(item))
  {
    WsHasNoBrackets(item.before);
    WsHasNoBrackets(item.after);
    var t := Print(item.value);
    hide Print, ValidItem, AllWs;
    assert PrintItem(item) == item.before + (t + item.after);
  }

  lemma OnePlain(s: string, p: nat, item: Item, max: nat)
    requires ValidItem(item) && NoBrackets(Print(item.value)) && HasAt(s, p, PrintItem(item) + "]")
    ensures p <= |s| && Objects(s, p, max) == ([], None)
  {
    hide HasAt, Print, AllWs, Objects, PrintItem, NoBrackets;
    PlainItem(item);
    HasParts(s, p, PrintItem(item), "]");
    PassesPlain(s, p, PrintItem(item), max);
    EmptyIsWs();
    NoMore(s, p + |PrintItem(item)|, "", max);
  }

  lemma EmptyIsWs()
    ensures AllWs("") && "" + "]" == "]"
  {
  }

  lemma OnePlainMore(s: string, p: nat, item: Item, rest: JsonTree.Items, max: nat)
    requires ValidItem(item) && NoBrackets(Print(item.value)) && HasAt(s, p, PrintItems(MoreItems(item, rest)) + "]")
    ensures p <= p + |PrintItem(item)| + 1 <= |s| && HasAt(s, p + |PrintItem(item)| + 1, PrintItems(rest) + "]")
    ensures Objects(s, p, max) == Objects(s, p + |PrintItem(item)| + 1, max)
  {
    hide HasAt, Print, AllWs, Objects, PrintItem, PrintItems, NoBrackets;
    PlainItem(item);
    ItemThenRest(s, p, item, rest);
    PassesPlain(s, p, PrintItem(item), max);
    EmptyIsWs();
    HasNothing(s, p + |PrintItem(item)|);
    NextOne(s, p + |PrintItem(item)|, "", max);
  }

  lemma HasNothing(s: string, p: nat)
    requires p <= |s|
    ensures HasAt(s, p, "")
  {
  }

  /** What the loop does where the first bracket of an item that is no object stands. */
  lemma SeesBracket(s: string, p: nat, item: Item, max: nat) returns (q: nat)
    requires ValidItem(item) && HasAt(s, p, PrintItem(item)) && max > 0
    requires Seen(item.value).Ends? || Seen(item.value).Misreads?
    ensures p <= q < p + |PrintItem(item)| && p <= |s|
    ensures Seen(item.value).Ends? ==> Objects(s, p, max) == ([], None)
    ensures Seen(item.value).Misreads? ==>
              Objects(s, p, max).1.Some? || (Objects(s, p, max).0 != [] && Objects(s, p, max).0[0].from == q)
  {
    var t := Print(item.value);
    var m := BracketAt(t);
    q := p + |item.before| + m;
    WsHasNoBrackets(item.before);
    UpToBracket(s, p, item, m);
    hide Print, ValidItem, AllWs, PrintItem, EndOf, HasAt;
    PassesPlain(s, p, item.before + t[..m], max);
    assert SkipWs(s, q) == q;
  }

  lemma UpToBracket(s: string, p: nat, item: Item, m: nat)
    requires HasAt(s, p, PrintItem(item)) && m < |Print(item.value)| && NoBrackets(item.before)
    requires NoBrackets(Print(item.value)[..m])
    ensures HasAt(s, p, item.before + Print(item.value)[..m]) && NoBrackets(item.before + Print(item.value)[..m])
    ensures p + |item.before| + m < p + |PrintItem(item)| <= |s| && s[p + |item.before| + m] == Print(item.value)[m]
  {
    var t, x := Print(item.value), item.before + Print(item.value)[..m];
    hide Print;
    HasSlice(s, p, PrintItem(item));
    assert PrintItem(item) == x + (t[m..] + item.after);
    HasParts(s, p, x, t[m..] + item.after);
    HasFirst(s, p + |x|, t[m..] + item.after);
  }

  lemma {:induction false} SpansStartBehind(items: JsonTree.Items, p: nat)
    ensures forall i :: 0 <= i < |SpansOf(items, p)| ==> SpansOf(items, p)[i].from >= p
    decreases items
  {
    hide PrintItem, Print;
    if items.MoreItems? {
      SpansStartBehind(items.rest, p + |PrintItem(items.item)| + 1);
    }
  }

  lemma {:induction false} NoObjectsNoSpans(items: JsonTree.Items, p: nat)
    ensures NoObjects(items) <==> SpansOf(items, p) == []
    decreases items
  {
    hide PrintItem, Print;
    if items.MoreItems? {
      NoObjectsNoSpans(items.rest, p + |PrintItem(items.item)| + 1);
    }
  }

  lemma SameBehind<T>(x: T, a: seq<T>, b: seq<T>)
    ensures [x] + a == [x] + b <==> a == b
  {
    assert ([x] + a)[1..] == a && ([x] + b)[1..] == b;
  }

  /** From an array every object is read, in order, up to `max` of them, exactly if the array can be read so. */
  lemma {:induction false} ArraysAreReadExactly(s: string, p: nat, items: JsonTree.Items, max: nat)
    requires ValidItems(items) && HasAt(s, p, PrintItems(items) + "]")
    ensures p <= |s| && (Objects(s, p, max) == (Take(SpansOf(items, p), max), None) <==> CanBeRead(items, max))
    decreases items
  {
    hide *;
    ItemsAre(s, p, items);
    CanBeReadIs(items, max);
    if max == 0 {
      NoneWanted(s, p);
      TakeNone(SpansOf(items, p));
    } else {
      match items
      case NoItems(ws) =>
        NoMore(s, p, ws, max);
        TakeAll<Span>([], max);
      case OneItem(item) =>
        TakeOneAtMost(item, p, max);
        SeenIs(item.value);
        match Seen(item.value) {
          case Reads => OneObject(s, p, item, max);
          case Passes => OnePlain(s, p, item, max);
          case _ =>
            LastItem(s, p, item);
            var q := SeesBracket(s, p, item, max);
        }
      case MoreItems(item, rest) =>
        SeenIs(item.value);
        var q := p + |PrintItem(item)| + 1;
        TakeFirst(SpanOf(item, p), SpansOf(rest, q), max);
        match Seen(item.value) {
          case Reads =>
            OneObjectMore(s, p, item, rest, max);
            ArraysAreReadExactly(s, q, rest, max - 1);
            SameBehind(SpanOf(item, p), Objects(s, q, max - 1).0, Take(SpansOf(rest, q), max - 1));
          case Passes =>
            OnePlainMore(s, p, item, rest, max);
            ArraysAreReadExactly(s, q, rest, max);
          case _ =>
            ItemThenRest(s, p, item, rest);
            NoObjectsNoSpans(rest, q);
            SpansStartBehind(rest, q);
            TakesSome(SpansOf(rest, q), max);
            var b := SeesBracket(s, p, item, max);
        }
    }
  }

  lemma TakesSome<T>(xs: seq<T>, n: nat)
    requires n > 0
    ensures (Take(xs, n) == [] <==> xs == []) && (xs != [] ==> Take(xs, n)[0] == xs[0])
  {
  }

  lemma SeenIs(v: Json)
    ensures Seen(v).Reads? <==> v.Obj?
    ensures Seen(v).Passes? ==> NoBrackets(Print(v))
  {
    hide Print;
  }

  lemma CanBeReadIs(items: JsonTree.Items, max: nat)
    ensures max == 0 || items.NoItems? ==> CanBeRead(items, max)
    ensures max > 0 && items.OneItem? ==> (CanBeRead(items, max) <==> !Seen(items.item.value).Misreads?)
    ensures max > 0 && items.MoreItems? ==>
              (CanBeRead(items, max) <==>
               match Seen(items.item.value)
               case Reads => CanBeRead(items.rest, max - 1)
               case Passes => CanBeRead(items.rest, max)
               case Ends => NoObjects(items.rest)
               case Misreads => false)
  {
    hide Seen;
  }

  lemma ItemsAre(s: string, p: nat, items: JsonTree.Items)
    requires ValidItems(items) && HasAt(s, p, PrintItems(items) + "]")
    ensures p <= |s|
    ensures items.NoItems? ==> AllWs(items.ws) && HasAt(s, p, items.ws + "]") && SpansOf(items, p) == []
    ensures !items.NoItems? ==> ValidItem(items.item)
    ensures items.OneItem? ==>
              HasAt(s, p, PrintItem(items.item) + "]") && SpansOf(items, p) == SpansOfOne(items.item, p)
    ensures items.MoreItems? ==>
              && ValidItems(items.rest)
              && SpansOf(items, p) == (if items.item.value.Obj? then [SpanOf(items.item, p)] else [])
                                    + SpansOf(items.rest, p + |PrintItem(items.item)| + 1)
  {
    hide PrintItem, ValidItem, AllWs, Print;
  }

  lemma TakeOneAtMost(item: Item, p: nat, max: nat)
    requires max > 0
    ensures Take(SpansOfOne(item, p), max) == if item.value.Obj? then [SpanOf(item, p)] else []
  {
  }

  lemma TakeAll<T>(xs: seq<T>, n: nat)
    requires |xs| <= n
    ensures Take(xs, n) == xs
  {
  }

  lemma TakeNone<T>(xs: seq<T>)
    ensures Take(xs, 0) == []
  {
  }

  lemma OneObject(s: string, p: nat, item: Item, max: nat)
    requires ValidItem(item) && item.value.Obj? && HasAt(s, p, PrintItem(item) + "]") && max > 0
    ensures p <= |s| && Objects(s, p, max) == ([SpanOf(item, p)], None)
  {
    hide HasAt, Print, AllWs, Objects, PrintItem;
    LastItem(s, p, item);
    FindsObject(s, p, item, max);
    NoMore(s, SpanOf(item, p).to, item.after, max - 1);
    assert [SpanOf(item, p)] + [] == [SpanOf(item, p)];
  }

  lemma OneObjectMore(s: string, p: nat, item: Item, rest: JsonTree.Items, max: nat)
    requires ValidItem(item) && item.value.Obj? && HasAt(s, p, PrintItems(MoreItems(item, rest)) + "]") && max > 0
    ensures p <= p + |PrintItem(item)| + 1 <= |s| && HasAt(s, p + |PrintItem(item)| + 1, PrintItems(rest) + "]")
    ensures var r := Objects(s, p + |PrintItem(item)| + 1, max - 1);
            Objects(s, p, max) == ([SpanOf(item, p)] + r.0, r.1)
  {
    hide HasAt, Print, AllWs, Objects, PrintItem, PrintItems;
    ItemThenRest(s, p, item, rest);
    FindsObject(s, p, item, max);
    NextOne(s, SpanOf(item, p).to, item.after, max - 1);
    assert SpanOf(item, p).to + |item.after| + 1 == p + |PrintItem(item)| + 1;
  }

  lemma NoneWanted(s: string, p: nat)
    requires p <= |s|
    ensures Objects(s, p, 0) == ([], None)
  {
  }

  lemma TakeFirst<T>(x: T, rest: seq<T>, max: nat)
    requires max > 0
    ensures Take([x] + rest, max) == [x] + Take(rest, max - 1) && [] + rest == rest
  {
  }

  lemma LastItem(s: string, p: nat, item: Item)
    requires HasAt(s, p, PrintItem(item) + "]")
    ensures HasAt(s, p, PrintItem(item)) && HasAt(s, SpanOf(item, p).to, item.after + "]")
  {
    hide HasAt, Print;
    HasParts(s, p, PrintItem(item), "]");
    assert PrintItem(item) + "]" == (item.before + Print(item.value)) + (item.after + "]");
    HasParts(s, p, item.before + Print(item.value), item.after + "]");
  }

  lemma ItemThenRest(s: string, p: nat, item: Item, rest: JsonTree.Items)
    requires HasAt(s, p, PrintItems(MoreItems(item, rest)) + "]")
    ensures HasAt(s, p, PrintItem(item)) && HasAt(s, p + |PrintItem(item)|, ",")
    ensures HasAt(s, p + |PrintItem(item)| + 1, PrintItems(rest) + "]")
    ensures p + |PrintItem(item)| == SpanOf(item, p).to + |item.after|
  {
    hide HasAt, Print;
    HasParts(s, p, PrintItems(MoreItems(item, rest)), "]");
    HasParts(s, p, PrintItem(item), "," + PrintItems(rest));
    HasParts(s, p + |PrintItem(item)|, ",", PrintItems(rest));
    HasTail(s, p, PrintItem(item), ",", PrintItems(rest), "]");
  }

  /**
   A whole reply, however it is laid out, is read whole, every object of its Items array, in order, up to `max`, and is
   not reported as cut off, exactly if the loop can read the array so.
   */
  lemma WholeRepliesAreReadExactly(members: Members, items: JsonTree.Items, at: nat, max: nat)
    requires ValidJson(Obj(members)) && Lookup(members, "Items") == Some((at, Arr(items)))
    ensures Items(Print(Obj(members)), max) == (Take(SpansOf(items, 1 + at + 1), max), None) <==> CanBeRead(items, max)
  {
    var s := Print(Obj(members));
    hide FindFrom, PrintMembers, HasAt, Objects, ValidItems, Lookup;
    StartsWithBrace(members);
    LookupAgreesWithTheTree(members, ITEMS);
    LookupIsPrinted(s, 1, members, ITEMS);
    InBrackets(s, 1 + at, "[", PrintItems(items), "]");
    HasFirst(s, 1 + at, "[");
    HasParts(s, 1 + at, "[", PrintItems(items) + "]");
    ArraysAreReadExactly(s, 1 + at + 1, items, max);
  }

  /** Anything but strings and arrays can stand between the objects. */
  lemma {:induction false} PlainItemsCanBeRead(items: JsonTree.Items, max: nat)
    requires AllPlainOrObjects(items)
    ensures CanBeRead(items, max)
    decreases items
  {
    if items.MoreItems? {
      PlainItemsCanBeRead(items.rest, max);
      if max > 0 {
        PlainItemsCanBeRead(items.rest, max - 1);
      }
    }
  }

  predicate AllPlainOrObjects(items: JsonTree.Items) {
    match items
    case NoItems(_) => true
    case OneItem(item) => item.value.Obj? || NoBrackets(Print(item.value))
    case MoreItems(item, rest) => (item.value.Obj? || NoBrackets(Print(item.value))) && AllPlainOrObjects(rest)
  }

  /** A string with a closing bracket hides the object behind it. */
  lemma ABracketHidesAnObject(max: nat)
    requires max > 0
    ensures var items := MoreItems(Item("", Str("]"), ""), OneItem(Item("", Obj(NoMembers("")), "")));
            var m := Member("", ITEMS, "", "", Arr(items), "");
            var reply, p := Obj(OneMember(m)), 1 + |KeyPart(m)| + 1;
            && ValidJson(reply) && SpansOf(items, p) != []
            && Items(Print(reply), max) != (Take(SpansOf(items, p), max), None)
  {
    var items := MoreItems(Item("", Str("]"), ""), OneItem(Item("", Obj(NoMembers("")), "")));
    var members := OneMember(Member("", ITEMS, "", "", Arr(items), ""));
    IsRawText();
    assert ValidItems(items);
    assert ValidJson(Obj(members)) && Lookup(members, ITEMS) == Some((|KeyPart(members.member)|, Arr(items)));
    hide *;
    EndsAtBracket(items, max);
    WholeRepliesAreReadExactly(members, items, |KeyPart(members.member)|, max);
    NoObjectsNoSpans(items, 1 + |KeyPart(members.member)| + 1);
  }

  lemma EndsAtBracket(items: JsonTree.Items, max: nat)
    requires items == MoreItems(Item("", Str("]"), ""), OneItem(Item("", Obj(NoMembers("")), ""))) && max > 0
    ensures !CanBeRead(items, max) && !NoObjects(items)
  {
    var t := Print(Str("]"));
    assert t[1] == ']' && !NoBrackets(t) && BracketAt(t) < 3;
    assert Seen(Str("]")).Ends?;
    hide Seen;
  }

  lemma IsRawText()
    ensures IsRaw("]") && IsRaw(ITEMS)
  {
    assert "]"[1..] == "";
    assert ITEMS[1..] == "tems" && "tems"[1..] == "ems" && "ems"[1..] == "ms" && "ms"[1..] == "s" && "s"[1..] == "";
  }

  lemma StartsWithBrace(members: Members)
    ensures var s := Print(Obj(members));
            s != "" && s[0] == '{' && SkipWs(s, 0) == 0 && HasAt(s, 1, PrintMembers(members) + "}")
  {
    var s, x := Print(Obj(members)), PrintMembers(members) + "}";
    assert s == "{" + x;
    assert s[1..1 + |x|] == x;
  }
}
