/**
 The artwork cache of source/cache/thumbnail_cache.cpp, as the steps that its two threads interleave: the UI thread
 asks for images, draws them and ages them out, the fetch thread fetches one at a time and writes its pixels outside
 the lock.  What runs under the lock is one step; pixels are written, and mirrored, row by row, and a row is written at
 the size that the slot has by then.
 */
module ThumbnailCache {
  import opened Basics
  import opened ThumbnailPixels

  const SLOTS := 32
  const WORD := 0x1_0000_0000
  const TTL_FRAMES := 180
  const QUEUED_BIAS := 30

  // ---- slots ------------------------------------------------------------------------------------------------

  datatype SlotState = Empty | Queued | Ready

  /**
   `pixels` and `vram` say whether the buffers are allocated; `px` and `mirror` are what they hold.  An id is kept to
   its first 63 characters.
   */
  datatype Slot = Slot(
    state: SlotState, key: Key, touch: nat,
    pixels: bool, px: Pixels, pxValid: bool, vram: bool, mirror: Pixels, vramValid: bool)
  {
    predicate Matches(k: Key) { state != Empty && key == k }
  }

  function Truncated(id: string): (r: string)
    ensures |r| <= 63
  {
    if |id| <= 63 then id else id[..63]
  }

  /** The key as a slot keeps it. */
  function Stored(key: Key): Key { key.(id := Truncated(key.id)) }

  /** Frames since a slot was wanted; frame numbers are 32 bits wide. */
  function Age(frame: nat, touch: nat): (a: nat)
    ensures a < WORD
  {
    (frame - touch) % WORD
  }

  /** The first slot that holds this key. */
  function FindSlot(slots: seq<Slot>, key: Key): (r: Option<nat>)
    ensures r.Some? ==> r.value < |slots| && slots[r.value].Matches(key)
    ensures r.Some? ==> forall j :: 0 <= j < r.value ==> !slots[j].Matches(key)
    ensures r.None? ==> forall j :: 0 <= j < |slots| ==> !slots[j].Matches(key)
  {
    FindFrom(slots, 0, key)
  }

  function FindFrom(slots: seq<Slot>, from: nat, key: Key): (r: Option<nat>)
    requires from <= |slots|
    ensures r.Some? ==> from <= r.value < |slots| && slots[r.value].Matches(key)
    ensures forall j :: from <= j < |slots| && (r.Some? ==> j < r.value) ==> !slots[j].Matches(key)
    decreases |slots| - from
  {
    if from == |slots| then None
    else if slots[from].Matches(key) then Some(from)
    else FindFrom(slots, from + 1, key)
  }

  // ---- which slot to reuse ---------------------------------------------------------------------------------------

  /** A queued slot counts as thirty frames younger than it is. */
  function BiasedAge(s: Slot, frame: nat): nat {
    var age := Age(frame, s.touch);
    if s.state.Queued? then (if age > QUEUED_BIAS then age - QUEUED_BIAS else 0) else age
  }

  predicate Usable(s: Slot) { s.pixels }

  /** i is the slot that is reused: the first free one, or else the first of the largest biased age. */
  predicate IsClaimed(slots: seq<Slot>, frame: nat, i: nat) {
    && i < |slots| && Usable(slots[i])
    && if slots[i].state.Empty? then
         forall j :: 0 <= j < i ==> !(Usable(slots[j]) && slots[j].state.Empty?)
       else
         && (forall j :: 0 <= j < |slots| && Usable(slots[j]) ==>
               !slots[j].state.Empty? && BiasedAge(slots[j], frame) <= BiasedAge(slots[i], frame))
         && (forall j :: 0 <= j < i && Usable(slots[j]) ==> BiasedAge(slots[j], frame) < BiasedAge(slots[i], frame))
         && Age(frame, slots[i].touch) != 0
  }

  /** No slot may be reused: none is free, and the candidate was touched this very frame. */
  predicate NoneClaimed(slots: seq<Slot>, frame: nat) {
    && (forall j :: 0 <= j < |slots| && Usable(slots[j]) ==> !slots[j].state.Empty?)
    && (forall i :: 0 <= i < |slots| && Usable(slots[i]) && FirstUsable(slots, i) ==>
          Age(frame, slots[i].touch) == 0)
    && (forall j :: 0 <= j < |slots| && Usable(slots[j]) ==> BiasedAge(slots[j], frame) == 0)
  }

  predicate FirstUsable(slots: seq<Slot>, i: nat)
    requires i <= |slots|
  {
    forall j :: 0 <= j < i ==> !Usable(slots[j])
  }

  /** The loop over the slots. */
  method ClaimSlot(slots: seq<Slot>, frame: nat) returns (claimed: Option<nat>)
    ensures claimed.Some? ==> IsClaimed(slots, frame, claimed.value)
    ensures claimed.None? <==> NoneClaimed(slots, frame)
  {
    var best: Option<nat> := None;
    var bestAge := 0;
    var i := 0;
    while i < |slots|
      invariant i <= |slots|
      invariant forall j :: 0 <= j < i && Usable(slots[j]) ==> !slots[j].state.Empty? && best.Some?
      invariant best.Some? ==>
                  && best.value < i && Usable(slots[best.value]) && bestAge == BiasedAge(slots[best.value], frame)
                  && (forall j :: 0 <= j < i && Usable(slots[j]) ==> BiasedAge(slots[j], frame) <= bestAge)
                  && (forall j :: 0 <= j < best.value && Usable(slots[j]) ==> BiasedAge(slots[j], frame) < bestAge)
    {
      if slots[i].pixels {
        if slots[i].state.Empty? {
          ClaimIsDetermined(slots, frame, i, i);
          return Some(i);
        }
        var age := Age(frame, slots[i].touch);
        if slots[i].state.Queued? {
          age := if age > QUEUED_BIAS then age - QUEUED_BIAS else 0;
        }
        if best.None? || age > bestAge {
          best, bestAge := Some(i), age;
        }
      }
      i := i + 1;
    }
    if best.Some? && Age(frame, slots[best.value].touch) == 0 {
      return None;
    }
    if best.Some? {
      ClaimIsDetermined(slots, frame, best.value, best.value);
    }
    return best;
  }

  /** Exactly one of the two holds, and for at most one slot: what the loop returns is determined. */
  lemma ClaimIsDetermined(slots: seq<Slot>, frame: nat, i: nat, j: nat)
    requires IsClaimed(slots, frame, i)
    ensures !NoneClaimed(slots, frame)
    ensures IsClaimed(slots, frame, j) ==> i == j
  {
    if NoneClaimed(slots, frame) {
      ClaimedAmongNew(slots, frame, i);
    }
  }

  lemma ClaimedAmongNew(slots: seq<Slot>, frame: nat, i: nat)
    requires IsClaimed(slots, frame, i)
    ensures !slots[i].state.Empty? && BiasedAge(slots[i], frame) == 0 ==> FirstUsable(slots, i)
  {
    hide BiasedAge;
    assert BiasedAge(slots[i], frame) >= 0;
    forall j | 0 <= j < i && !slots[i].state.Empty? && BiasedAge(slots[i], frame) == 0
      ensures !Usable(slots[j])
    {
      assert BiasedAge(slots[j], frame) >= 0;
    }
  }

  /** In a full table every slot has its buffer and holds an image. */
  predicate Full(slots: seq<Slot>) {
    |slots| == 32 && forall j :: 0 <= j < 32 ==> Usable(slots[j]) && !slots[j].state.Empty?
  }

  /**
   In a full table a request finds no slot to reuse exactly if the first slot was touched this frame and every other one
   was too, or is queued and was touched in the last thirty frames.
   */
  lemma FullTableRefusesExactly(slots: seq<Slot>, frame: nat)
    requires Full(slots)
    ensures NoneClaimed(slots, frame) <==>
            Age(frame, slots[0].touch) == 0 &&
            forall j :: 0 <= j < SLOTS ==>
              Age(frame, slots[j].touch) == 0 || (slots[j].state.Queued? && Age(frame, slots[j].touch) <= 30)
  {
    hide Age;
    assert Usable(slots[0]) && FirstUsable(slots, 0);
    forall j | 0 <= j < SLOTS
      ensures BiasedAge(slots[j], frame) == 0 <==>
              Age(frame, slots[j].touch) == 0 || (slots[j].state.Queued? && Age(frame, slots[j].touch) <= QUEUED_BIAS)
    {
      assert Usable(slots[j]);
    }
    forall i | 0 < i < SLOTS
      ensures !FirstUsable(slots, i)
    {
      assert Usable(slots[0]);
    }
  }

  /**
   A slot that was not touched this frame can so be passed over: a queued one at the k-th place of a table in which
   nothing else is free to go.  Only at the first place it is reused.
   */
  lemma StaleSlotsCanBePassedOver(slots: seq<Slot>, frame: nat, k: nat)
    requires Full(slots) && k < SLOTS
    requires slots[k].state.Queued? && 0 < Age(frame, slots[k].touch) <= 30
    requires forall j :: 0 <= j < SLOTS && j != k ==> Age(frame, slots[j].touch) == 0
    ensures if k == 0 then IsClaimed(slots, frame, 0) else NoneClaimed(slots, frame)
  {
    hide Age;
    FullTableRefusesExactly(slots, frame);
  }

  // ---- the two threads --------------------------------------------------------------------------------------

  /** The UI thread is between calls, or in the middle of mirroring a slot's pixels. */
  datatype Ui = Calling | Copying(slot: nat, key: Key, row: nat)

  /**
   The image that the fetch thread is at.  A refill is of a slot that came through a playback on its mirror alone;
   `crop` is the size it cropped a local picture for, `rows` the size at which it wrote each row so far.
   */
  datatype Job = Job(number: nat, slot: nat, id: string, img: nat, refill: bool, crop: Option<Size>, rows: seq<Size>)

  /** The fetch thread waits for the picture, writes its pixels, or has written the last row. */
  datatype Fetch = Stopped | Looking | Fetching(job: Job) | Writing(job: Job) | Leaving(job: Job)

  /** `cap` is how many pixels every buffer has, `fetched` how many fetches there were. */
  datatype Cache = Cache(slots: seq<Slot>, frame: nat, ui: Ui, fetch: Fetch, running: bool, cap: nat, fetched: nat)

  datatype Action =
    | Request(key: Key, claimed: nat)
    | Get(key: Key)
    | Texture(key: Key)                                  // asks for a slot's mirror
    | CopyRow
    | CopyDone
    | Tick
    | Retarget
    | Stop                                               // the UI thread asks the fetch thread to end
    | Shutdown                                           // and, once it has, hands the pixels back
    | Init(px: seq<Option<Pixels>>, vram: seq<Option<Pixels>>)
    | Pick(slot: nat, refill: bool)
    | Fail
    | Recheck
    | Crop
    | WriteRow
    | Leave
    | Publish
    | Exit

  function WithSlot(c: Cache, i: nat, s: Slot): Cache
    requires i < |c.slots|
  {
    c.(slots := c.slots[i := s])
  }

  function Touched(c: Cache, i: nat): Cache
    requires i < |c.slots|
  {
    WithSlot(c, i, c.slots[i].(touch := c.frame))
  }

  /** What a request makes of the slot it takes over. */
  function Asked(s: Slot, key: Key, frame: nat): Slot {
    s.(state := Queued, key := Stored(key), touch := frame, pxValid := false, vramValid := false)
  }

  /** A request that is not dropped at once. */
  predicate CanBeAsked(key: Key, cap: nat) { key.id != "" && 0 < Area(key.size) <= cap }

  /** A request that is already served touches its slot; another takes over a slot. */
  function DoRequest(c: Cache, key: Key, claimed: nat): Option<Cache> {
    if !c.ui.Calling? then None
    else if !CanBeAsked(key, c.cap) then Some(c)
    else
      match FindSlot(c.slots, key)
      case Some(i) => Some(Touched(c, i))
      case None =>
        if IsClaimed(c.slots, c.frame, claimed) then
          Some(WithSlot(c, claimed, Asked(c.slots[claimed], key, c.frame)))
        else if NoneClaimed(c.slots, c.frame) then Some(c)
        else None
  }

  /** The first ready slot of a key. */
  function FindReady(slots: seq<Slot>, from: nat, key: Key): (r: Option<nat>)
    requires from <= |slots|
    ensures r.Some? ==> from <= r.value < |slots| && slots[r.value].state.Ready? && slots[r.value].Matches(key)
    decreases |slots| - from
  {
    if from == |slots| then None
    else if slots[from].state.Ready? && slots[from].Matches(key) then Some(from)
    else FindReady(slots, from + 1, key)
  }

  function DoGet(c: Cache, key: Key): Option<Cache> {
    if !c.ui.Calling? then None
    else if key.id == "" then Some(c)
    else
      match FindReady(c.slots, 0, key)
      case None => Some(c)
      case Some(i) => Some(Touched(c, i))
  }

  /** The mirror is used as it is, or first filled from the pixels, or there is nothing to fill it from. */
  function DoTexture(c: Cache, key: Key): Option<Cache> {
    if !c.ui.Calling? then None
    else
      match FindSlot(c.slots, key)
      case None => Some(c)
      case Some(i) =>
        var s := c.slots[i];
        if !s.state.Ready? || !s.vram then Some(c)
        else if s.vramValid || !s.pxValid then Some(Touched(c, i))
        else Some(Touched(c, i).(ui := Copying(i, key, 0)))
  }

  function DoCopyRow(c: Cache): Option<Cache> {
    if !c.ui.Copying? || c.ui.slot >= |c.slots| || c.ui.row >= c.ui.key.size.h then None
    else
      var i, row, w := c.ui.slot, c.ui.row, c.ui.key.size.w;
      var s := c.slots[i];
      Some(WithSlot(c, i, s.(mirror := Copied(s.mirror, s.px, row * w, w))).(ui := c.ui.(row := row + 1)))
  }

  function DoCopyDone(c: Cache): Option<Cache> {
    if !c.ui.Copying? || c.ui.slot >= |c.slots| || c.ui.row < c.ui.key.size.h then None
    else
      var i := c.ui.slot;
      var d := c.(ui := Calling);
      if FindSlot(c.slots, c.ui.key) == Some(i) then Some(WithSlot(d, i, c.slots[i].(vramValid := true)))
      else Some(d)
  }

  /** A slot nothing has wanted for three seconds is freed. */
  function Aged(s: Slot, frame: nat): Slot {
    if !s.state.Empty? && Age(frame, s.touch) > TTL_FRAMES then s.(state := Empty, key := s.key.(id := "")) else s
  }

  function Map(slots: seq<Slot>, f: Slot -> Slot): (r: seq<Slot>)
    ensures |r| == |slots| && forall i :: 0 <= i < |r| ==> r[i] == f(slots[i])
  {
    seq(|slots|, i requires 0 <= i < |slots| => f(slots[i]))
  }

  function DoTick(c: Cache): Option<Cache> {
    if !c.ui.Calling? then None
    else
      var frame := (c.frame + 1) % WORD;
      Some(c.(frame := frame, slots := Map(c.slots, s => Aged(s, frame))))
  }

  /** A tab switch makes every slot at least a second and a half old. */
  function Retargeted(s: Slot, frame: nat): Slot {
    var aged := (frame - TTL_FRAMES / 2) % WORD;
    var ahead := (s.touch - aged) % WORD;
    if !s.state.Empty? && 0 < ahead < WORD / 2 then s.(touch := aged) else s
  }

  /** A tick frees what was last touched more than 180 frames ago, and leaves the rest alone. */
  lemma TicksFreeExactly(c: Cache, i: nat)
    requires c.ui.Calling? && i < |c.slots|
    ensures var d, s := DoTick(c).value, c.slots[i];
            && |d.slots| == |c.slots| && d.frame == (c.frame + 1) % 0x1_0000_0000
            && (if !s.state.Empty? && (d.frame - s.touch) % 0x1_0000_0000 > 180 then d.slots[i].state.Empty?
                else d.slots[i] == s)
  {
  }

  /** A tab switch takes a slot to an age of 90 frames exactly if it was younger, or half the counter's range older. */
  lemma RetargetsAge(s: Slot, frame: nat)
    requires !s.state.Empty?
    ensures var age, t := (frame - s.touch) % 0x1_0000_0000, Retargeted(s, frame);
            && t == s.(touch := t.touch)
            && (frame - t.touch) % 0x1_0000_0000 == if age < 90 || age > 0x8000_0000 + 90 then 90 else age
  {
    var age, k := (frame - s.touch) % WORD, (frame - s.touch) / WORD;
    assert s.touch - (frame - 90) == -k * WORD + (90 - age);
    var aged := (frame - 90) % WORD;
    var q := (frame - 90) / WORD;
    assert s.touch - aged == (q - k) * WORD + (90 - age);
    if age <= 90 {
      DivMod(q - k, WORD, 90 - age);
    } else {
      DivMod(q - k - 1, WORD, WORD + 90 - age);
    }
    DivMod(q, WORD, 90);
  }

  function DoRetarget(c: Cache): Option<Cache> {
    if !c.ui.Calling? then None else Some(c.(slots := Map(c.slots, s => Retargeted(s, c.frame))))
  }

  /** On the way into a player: the pixels go, and a slot stays only with a valid mirror. */
  function Kept(s: Slot): Slot {
    var t := s.(pixels := false, px := [], pxValid := false);
    if s.state.Ready? && s.vram && s.vramValid then t
    else t.(state := Empty, key := s.key.(id := ""), vramValid := false)
  }

  function DoShutdown(c: Cache): Option<Cache> {
    if !c.ui.Calling? || !c.fetch.Stopped? || c.running then None else Some(c.(slots := Map(c.slots, Kept)))
  }

  const NO_KEY := Key("", Size(0, 0), 0)

  /** On the way back: pixels are allocated again where there is room, mirrors where there were none. */
  function Restored(s: Slot, px: Option<Pixels>, vram: Option<Pixels>): Slot {
    var blank := if px.Some? then px.value else [];
    if s.state.Ready? && s.vram && s.vramValid then
      s.(pixels := px.Some?, px := blank, pxValid := false, touch := 0)
    else
      Slot(Empty, NO_KEY, 0, px.Some?, blank, false, s.vram || vram.Some?,
           if s.vram then s.mirror else if vram.Some? then vram.value else [], false)
  }

  /** Memory as it is handed out: it may hold what earlier fetches left. */
  predicate IsOld(px: Pixels, fetched: nat) {
    forall k :: 0 <= k < |px| && px[k].Some? ==> px[k].value.fetch < fetched
  }

  predicate CanBeHandedOut(px: Option<Pixels>, cap: nat, fetched: nat) {
    px.Some? ==> |px.value| == cap && IsOld(px.value, fetched)
  }

  function DoInit(c: Cache, px: seq<Option<Pixels>>, vram: seq<Option<Pixels>>): Option<Cache> {
    if c.ui.Calling? && c.fetch.Stopped? && !c.running && |px| == |vram| == |c.slots|
       && (forall i :: 0 <= i < |px| ==>
             CanBeHandedOut(px[i], c.cap, c.fetched) && CanBeHandedOut(vram[i], c.cap, c.fetched)) then
      Some(c.(slots := seq(|c.slots|, i requires 0 <= i < |c.slots| => Restored(c.slots[i], px[i], vram[i])),
              frame := 0, fetch := Looking, running := true))
    else None
  }

  /** Queued slots first; when there are none, a slot on screen from its mirror alone. */
  function DoPick(c: Cache, i: nat, refill: bool): Option<Cache> {
    if !c.fetch.Looking? || !c.running || i >= |c.slots| then None
    else
      var s := c.slots[i];
      var j := Job(c.fetched, i, s.key.id, s.key.img, refill, None, []);
      var d := c.(fetch := Fetching(j), fetched := c.fetched + 1);
      if refill then
        if s.state.Ready? && !s.pxValid && s.pixels && (forall k :: 0 <= k < |c.slots| ==> !c.slots[k].state.Queued?)
        then Some(d)
        else None
      else if s.state.Queued? then Some(d)
      else None
  }

  function DoFail(c: Cache): Option<Cache> {
    if !c.fetch.Fetching? || c.fetch.job.slot >= |c.slots| then None
    else
      var j := c.fetch.job;
      var s := c.slots[j.slot];
      var d := c.(fetch := Looking);
      if !j.refill && s.key.id == j.id then Some(WithSlot(d, j.slot, s.(state := Empty))) else Some(d)
  }

  /** The slot may have been reused while the picture was on its way. */
  function DoRecheck(c: Cache): Option<Cache> {
    if !c.fetch.Fetching? || c.fetch.job.slot >= |c.slots| then None
    else
      var j := c.fetch.job;
      var s := c.slots[j.slot];
      if s.key.id == j.id && s.key.img == j.img
         && (if j.refill then s.state.Ready? && !s.pxValid else s.state.Queued?) then
        Some(c.(fetch := Writing(j)))
      else Some(c.(fetch := Looking))
  }

  /** A local picture is cropped before its first row is written. */
  function DoCrop(c: Cache): Option<Cache> {
    if !c.fetch.Writing? || c.fetch.job.slot >= |c.slots| || c.fetch.job.rows != [] then None
    else Some(c.(fetch := Writing(c.fetch.job.(crop := Some(c.slots[c.fetch.job.slot].key.size)))))
  }

  /** What a row of the job's picture leaves at a size. */
  function PartOf(j: Job, z: Size): Part { Part(j.number, j.id, j.img, j.crop, z) }

  /** The next row, at the size the slot has now. */
  function DoWriteRow(c: Cache): Option<Cache> {
    if !c.fetch.Writing? || c.fetch.job.slot >= |c.slots| then None
    else
      var j := c.fetch.job;
      var s, y := c.slots[j.slot], |j.rows|;
      var z := s.key.size;
      if y >= z.h then None
      else
        Some(WithSlot(c, j.slot, s.(px := Filled(s.px, y * z.w, z.w, PartOf(j, z))))
             .(fetch := Writing(j.(rows := j.rows + [z]))))
  }

  /** The loop over the rows ends at the height the slot has now. */
  function DoLeave(c: Cache): Option<Cache> {
    if !c.fetch.Writing? || c.fetch.job.slot >= |c.slots| || |c.fetch.job.rows| < c.slots[c.fetch.job.slot].key.size.h
    then None
    else Some(c.(fetch := Leaving(c.fetch.job)))
  }

  /** The slot is, again or still, for this image. */
  predicate IsFor(s: Slot, j: Job) { s.key.id == j.id && s.key.img == j.img }

  /** Published when the slot is for this image; the size is not looked at. */
  function DoPublish(c: Cache): Option<Cache> {
    if !c.fetch.Leaving? || c.fetch.job.slot >= |c.slots| then None
    else
      var j := c.fetch.job;
      var s := c.slots[j.slot];
      var d := c.(fetch := Looking);
      if IsFor(s, j) then
        Some(WithSlot(d, j.slot, s.(state := Ready, pxValid := true, vramValid := j.refill && s.vramValid)))
      else Some(d)
  }

  function Do(c: Cache, a: Action): Option<Cache> {
    match a
    case Request(key, claimed) => DoRequest(c, key, claimed)
    case Get(key) => DoGet(c, key)
    case Texture(key) => DoTexture(c, key)
    case CopyRow => DoCopyRow(c)
    case CopyDone => DoCopyDone(c)
    case Tick => DoTick(c)
    case Retarget => DoRetarget(c)
    case Stop => if c.ui.Calling? then Some(c.(running := false)) else None
    case Shutdown => DoShutdown(c)
    case Init(px, vram) => DoInit(c, px, vram)
    case Pick(slot, refill) => DoPick(c, slot, refill)
    case Fail => DoFail(c)
    case Recheck => DoRecheck(c)
    case Crop => DoCrop(c)
    case WriteRow => DoWriteRow(c)
    case Leave => DoLeave(c)
    case Publish => DoPublish(c)
    case Exit => if c.fetch.Looking? && !c.running then Some(c.(fetch := Stopped)) else None
  }

  /** Before the first init: nothing is allocated. */
  function Boot(cap: nat): Cache {
    var free := Slot(Empty, NO_KEY, 0, false, [], false, false, [], false);
    Cache(seq(SLOTS, _ => free), 0, Calling, Stopped, false, cap, 0)
  }

  ghost predicate Runs(c: Cache, acts: seq<Action>, d: Cache)
    decreases |acts|
  {
    if acts == [] then c == d else Do(c, acts[0]).Some? && Runs(Do(c, acts[0]).value, acts[1..], d)
  }

  // ---- what every step keeps --------------------------------------------------------------------------------

  /** What holds of a slot by itself, whatever its buffers hold. */
  predicate SlotIsSound(s: Slot, cap: nat) {
    && (s.state.Ready? ==> s.pxValid || s.vramValid)
    && (s.state.Queued? ==> s.pixels && !s.pxValid && !s.vramValid)
    && (!s.state.Empty? ==> s.key.id != "" && |s.key.id| <= 63 && Area(s.key.size) > 0)
    && (s.state.Ready? && s.pxValid ==> s.pixels) && (s.state.Ready? && s.vramValid ==> s.vram)
    && (s.pixels ==> |s.px| == cap) && (s.vram ==> |s.mirror| == cap)
    && Area(s.key.size) <= cap
  }

  predicate InFlight(f: Fetch) { f.Fetching? || f.Writing? || f.Leaving? }

  /** What the rows written so far left in the slot's pixels. */
  predicate Wrote(j: Job, px: Pixels) {
    forall k :: 0 <= k < |px| ==>
      match LastSize(j.rows, k)
      case Some(z) => px[k] == Some(PartOf(j, z))
      case None => px[k].Some? ==> px[k].value.fetch != j.number
  }

  /** What holds of the slot an image is being fetched for, whatever became of it meanwhile. */
  predicate JobIsSound(f: Fetch, s: Slot)
    requires InFlight(f)
  {
    var j := f.job;
    && j.id != "" && s.pixels && Area(s.key.size) > 0
    && (s.state.Empty? ==> s.key.id == "")
    && (s.state.Ready? ==> j.refill && !s.pxValid)
    && (forall y :: 0 <= y < |j.rows| ==> j.rows[y].w > 0)
    && (f.Fetching? ==> j.rows == []) && (f.Leaving? ==> j.rows != [])
    && Wrote(j, s.px)
  }

  /** What holds of the slot whose pixels are being mirrored. */
  predicate CopyIsSound(u: Ui, s: Slot)
    requires u.Copying?
  {
    && s.state.Ready? && s.pxValid && !s.vramValid && s.vram && s.Matches(u.key)
    && u.row <= u.key.size.h
    && forall k :: 0 <= k < u.row * u.key.size.w && k < |s.px| && k < |s.mirror| ==> s.mirror[k] == s.px[k]
  }

  ghost predicate Sound(c: Cache) {
    && |c.slots| == SLOTS
    && (forall i :: 0 <= i < SLOTS ==>
          SlotIsSound(c.slots[i], c.cap) && IsOld(c.slots[i].px, c.fetched) && IsOld(c.slots[i].mirror, c.fetched))
    && (InFlight(c.fetch) ==>
          && c.fetch.job.slot < SLOTS && c.fetch.job.number < c.fetched
          && JobIsSound(c.fetch, c.slots[c.fetch.job.slot]))
    && (c.ui.Copying? ==> c.ui.slot < SLOTS && CopyIsSound(c.ui, c.slots[c.ui.slot]))
  }

  lemma BootIsSound(cap: nat)
    ensures Sound(Boot(cap)) && AllShow(Boot(cap))
  {
  }

  /** A ready slot's valid buffers show its own image. */
  predicate ShowsOwn(s: Slot) {
    && (s.state.Ready? && s.pxValid ==> Shows(s.px, s.key))
    && (s.state.Ready? && s.vramValid ==> Shows(s.mirror, s.key))
  }

  ghost predicate AllShow(c: Cache) { forall i :: 0 <= i < |c.slots| ==> ShowsOwn(c.slots[i]) }

  predicate OfAllSlots(a: Action) { a.Tick? || a.Retarget? || a.Shutdown? || a.Init? }

  predicate OfFetch(a: Action) {
    a.Pick? || a.Fail? || a.Recheck? || a.Crop? || a.WriteRow? || a.Leave? || a.Publish? || a.Exit?
  }

  lemma RequestIsSound(c: Cache, key: Key, claimed: nat)
    requires Sound(c) && DoRequest(c, key, claimed).Some?
    ensures Sound(DoRequest(c, key, claimed).value)
    ensures AllShow(c) ==> AllShow(DoRequest(c, key, claimed).value)
  {
    hide Area, Shows, Wrote, IsOld, FindSlot, NoneClaimed, Age, BiasedAge;
  }

  lemma TouchedIsSound(c: Cache, i: nat)
    requires Sound(c) && i < SLOTS
    ensures Sound(Touched(c, i)) && (AllShow(c) ==> AllShow(Touched(c, i)))
  {
    hide Area, Shows, Wrote, IsOld;
  }

  lemma GetIsSound(c: Cache, key: Key)
    requires Sound(c) && DoGet(c, key).Some?
    ensures Sound(DoGet(c, key).value) && (AllShow(c) ==> AllShow(DoGet(c, key).value))
  {
    SoundHasSlots(c);
    hide Sound, AllShow, Touched;
    var r := FindReady(c.slots, 0, key);
    if r.Some? {
      TouchedIsSound(c, r.value);
    }
  }

  lemma SoundHasSlots(c: Cache)
    requires Sound(c)
    ensures |c.slots| == SLOTS
  {
  }

  lemma TextureIsSound(c: Cache, key: Key)
    requires Sound(c) && DoTexture(c, key).Some?
    ensures Sound(DoTexture(c, key).value) && (AllShow(c) ==> AllShow(DoTexture(c, key).value))
  {
    SoundHasSlots(c);
    hide Sound, AllShow, Touched, FindSlot;
    var r := FindSlot(c.slots, key);
    if r.Some? {
      TouchedIsSound(c, r.value);
      if DoTexture(c, key).value.ui.Copying? {
        CopyBegins(c, key, r.value);
      }
    }
  }

  lemma CopyBegins(c: Cache, key: Key, i: nat)
    requires Sound(c) && c.ui.Calling? && i < SLOTS
    requires var s := c.slots[i]; s.Matches(key) && s.state.Ready? && s.vram && !s.vramValid && s.pxValid
    ensures var d := Touched(c, i).(ui := Copying(i, key, 0));
            Sound(d) && (AllShow(c) ==> AllShow(d))
  {
    hide Area, Shows, Wrote, IsOld;
  }

  lemma StopIsSound(c: Cache)
    requires Sound(c)
    ensures Sound(c.(running := false)) && (AllShow(c) ==> AllShow(c.(running := false)))
  {
  }

  lemma CopyRowIsSound(c: Cache)
    requires Sound(c) && DoCopyRow(c).Some?
    ensures Sound(DoCopyRow(c).value) && (AllShow(c) ==> AllShow(DoCopyRow(c).value))
  {
    hide Area, Shows, Wrote, Copied, IsOld;
    var i, row, z := c.ui.slot, c.ui.row, c.ui.key.size;
    var s := c.slots[i];
    CopiedIsOld(s.mirror, s.px, row * z.w, z.w, c.fetched);
    RowsInFront(row, z.w);
  }

  lemma CopiedIsOld(to: Pixels, px: Pixels, from: nat, n: nat, fetched: nat)
    requires IsOld(to, fetched) && IsOld(px, fetched)
    ensures IsOld(Copied(to, px, from, n), fetched)
  {
  }

  lemma RowsInFront(row: nat, w: nat)
    ensures (row + 1) * w == row * w + w
  {
  }

  lemma CopyDoneIsSound(c: Cache)
    requires Sound(c) && DoCopyDone(c).Some?
    ensures Sound(DoCopyDone(c).value) && (AllShow(c) ==> AllShow(DoCopyDone(c).value))
  {
    hide Wrote, IsOld, Shows;
    var s := c.slots[c.ui.slot];
    if Shows(s.px, s.key) {
      MirrorShows(s, c.ui.row);
    }
  }

  lemma MirrorShows(s: Slot, row: nat)
    requires Shows(s.px, s.key) && |s.mirror| == |s.px| && s.key.size.h <= row
    requires forall k :: 0 <= k < row * s.key.size.w && k < |s.px| && k < |s.mirror| ==> s.mirror[k] == s.px[k]
    ensures Shows(s.mirror, s.key)
  {
    RowsBehind(row, s.key.size);
  }

  lemma TickIsSound(c: Cache, a: Action)
    requires Sound(c) && Do(c, a).Some? && (a.Tick? || a.Retarget?)
    ensures Sound(Do(c, a).value) && (AllShow(c) ==> AllShow(Do(c, a).value))
  {
    hide DoGet, DoTexture, DoCopyRow, DoCopyDone, DoPick, DoFail, DoRecheck, DoCrop, DoWriteRow, DoLeave, DoPublish,
         DoRequest, DoShutdown, DoInit, Shows, Wrote, IsOld, Area, Age;
  }

  lemma ShutdownIsSound(c: Cache)
    requires Sound(c) && DoShutdown(c).Some?
    ensures Sound(DoShutdown(c).value) && (AllShow(c) ==> AllShow(DoShutdown(c).value))
  {
    hide Shows, Wrote, IsOld, Area;
    NothingIsOld(c.fetched);
  }

  lemma NothingIsOld(fetched: nat)
    ensures IsOld([], fetched)
  {
  }

  lemma InitIsSound(c: Cache, px: seq<Option<Pixels>>, vram: seq<Option<Pixels>>)
    requires Sound(c) && DoInit(c, px, vram).Some?
    ensures Sound(DoInit(c, px, vram).value) && (AllShow(c) ==> AllShow(DoInit(c, px, vram).value))
  {
    hide Shows, Wrote, IsOld;
    NothingIsOld(c.fetched);
  }

  lemma PickIsSound(c: Cache, i: nat, refill: bool)
    requires Sound(c) && DoPick(c, i, refill).Some?
    ensures Sound(DoPick(c, i, refill).value) && (AllShow(c) ==> AllShow(DoPick(c, i, refill).value))
  {
    hide Shows, Wrote, IsOld, Area;
    var d := DoPick(c, i, refill).value;
    forall n | 0 <= n < SLOTS
      ensures IsOld(c.slots[n].px, d.fetched) && IsOld(c.slots[n].mirror, d.fetched)
    {
      StillOld(c.slots[n].px, c.fetched);
      StillOld(c.slots[n].mirror, c.fetched);
    }
    WroteNothing(d.fetch.job, c.slots[i].px);
  }

  lemma StillOld(px: Pixels, fetched: nat)
    requires IsOld(px, fetched)
    ensures IsOld(px, fetched + 1)
  {
  }

  lemma WroteNothing(j: Job, px: Pixels)
    requires j.rows == [] && IsOld(px, j.number)
    ensures Wrote(j, px)
  {
  }

  /** The other steps of the fetch thread that write no pixels and publish nothing. */
  predicate OfJob(a: Action) { a.Fail? || a.Recheck? || a.Crop? || a.Leave? || a.Exit? }

  lemma JobStepIsSound(c: Cache, a: Action)
    requires Sound(c) && Do(c, a).Some? && OfJob(a)
    ensures Sound(Do(c, a).value) && (AllShow(c) ==> AllShow(Do(c, a).value))
  {
    hide DoGet, DoTexture, DoCopyRow, DoCopyDone, DoTick, DoRetarget, DoShutdown, DoInit, DoRequest, DoWriteRow,
         DoPublish, DoPick, Area, Shows, Wrote, IsOld;
    AreaNotZero(c);
    if a.Crop? {
      CropWrote(c.fetch.job, Do(c, a).value.fetch.job, c.slots[c.fetch.job.slot].px);
    }
  }

  lemma CropWrote(j: Job, j': Job, px: Pixels)
    requires j.rows == [] == j'.rows && j'.number == j.number && Wrote(j, px)
    ensures Wrote(j', px)
  {
  }

  /** The slot of a job has rows to write. */
  lemma AreaNotZero(c: Cache)
    ensures InFlight(c.fetch) && c.fetch.job.slot < |c.slots| && Area(c.slots[c.fetch.job.slot].key.size) > 0 ==>
              c.slots[c.fetch.job.slot].key.size.w > 0 && c.slots[c.fetch.job.slot].key.size.h > 0
  {
    if InFlight(c.fetch) && c.fetch.job.slot < |c.slots| {
      AreaIsPositive(c.slots[c.fetch.job.slot].key.size);
    }
  }

  lemma WriteRowIsSound(c: Cache)
    requires Sound(c) && DoWriteRow(c).Some?
    ensures Sound(DoWriteRow(c).value) && (AllShow(c) ==> AllShow(DoWriteRow(c).value))
  {
    hide Area, Shows, Wrote, Filled, IsOld;
    AreaNotZero(c);
    var j := c.fetch.job;
    var s := c.slots[j.slot];
    WroteMore(j, s.px, s.key.size);
    FilledIsOld(s.px, |j.rows| * s.key.size.w, s.key.size.w, PartOf(j, s.key.size), c.fetched);
  }

  lemma FilledIsOld(px: Pixels, from: nat, n: nat, p: Part, fetched: nat)
    requires IsOld(px, fetched) && p.fetch < fetched
    ensures IsOld(Filled(px, from, n, p), fetched)
  {
  }

  lemma WroteMore(j: Job, px: Pixels, z: Size)
    requires Wrote(j, px)
    ensures Wrote(j.(rows := j.rows + [z]), Filled(px, |j.rows| * z.w, z.w, PartOf(j, z)))
  {
    var rows := j.rows + [z];
    assert rows[..|rows| - 1] == j.rows;
    forall k | 0 <= k < |px|
      ensures LastSize(rows, k) == if RowHolds(|j.rows|, z.w, k) then Some(z) else LastSize(j.rows, k)
    {
    }
  }

  // ---- when what is published is whole ----------------------------------------------------------------------

  /** All rows of the image were written at this size, and a local picture was cropped for it. */
  predicate IsWhole(j: Job, z: Size) { AllAtSize(j.rows, z) && (j.crop.Some? ==> j.crop.value == z) }

  /** A slot is about to be published at a size that its pixels were not written at. */
  predicate Torn(c: Cache) {
    c.fetch.Leaving? && c.fetch.job.slot < |c.slots| && IsFor(c.slots[c.fetch.job.slot], c.fetch.job)
    && !IsWhole(c.fetch.job, c.slots[c.fetch.job.slot].key.size)
  }

  /** The pixels show the slot's image exactly if the job is whole at the slot's size. */
  lemma WholeJobsShow(f: Fetch, s: Slot)
    requires f.Leaving? && JobIsSound(f, s) && IsFor(s, f.job) && Area(s.key.size) <= |s.px|
    ensures Shows(s.px, s.key) <==> IsWhole(f.job, s.key.size)
  {
    var j, z := f.job, s.key.size;
    AllAtSizeExactly(j.rows, z);
    FirstRowIsThere(j.rows);
    hide AllAtSize;
    if LastAtSize(j.rows, z) && (j.crop.Some? ==> j.crop.value == z) {
      forall k | 0 <= k < Area(z)
        ensures s.px[k] == Some(PartOf(j, z))
      {
        assert LastSize(j.rows, k) == Some(z);
      }
    }
    if Shows(s.px, s.key) {
      forall k | 0 <= k < Area(z)
        ensures LastSize(j.rows, k) == Some(z)
      {
        assert s.px[k] == s.px[0];
      }
    }
  }

  lemma {:induction false} FirstRowIsThere(rows: seq<Size>)
    requires rows != [] && forall y :: 0 <= y < |rows| ==> rows[y].w > 0
    ensures LastSize(rows, 0).Some?
    decreases |rows|
  {
    if |rows| > 1 {
      FirstRowIsThere(rows[..|rows| - 1]);
    }
  }

  /** Publishing keeps what the buffers show exactly unless the image is torn. */
  lemma PublishExactly(c: Cache)
    requires Sound(c) && DoPublish(c).Some?
    ensures Sound(DoPublish(c).value)
    ensures AllShow(c) ==> (AllShow(DoPublish(c).value) <==> !Torn(c))
  {
    hide Area, Shows, Wrote, IsOld, IsWhole, LastSize;
    var j := c.fetch.job;
    var s := c.slots[j.slot];
    if IsFor(s, j) {
      WholeJobsShow(c.fetch, s);
      assert DoPublish(c).value.slots[j.slot].px == s.px;
    }
  }

  /** Every step of either thread keeps the cache sound, and what its buffers show unless it publishes a torn image. */
  lemma StepExactly(c: Cache, a: Action)
    requires Sound(c) && Do(c, a).Some?
    ensures Sound(Do(c, a).value)
    ensures AllShow(c) ==> (AllShow(Do(c, a).value) <==> !(a.Publish? && Torn(c)))
  {
    hide Sound, AllShow, Torn, DoGet, DoTexture, DoCopyRow, DoCopyDone, DoTick, DoRetarget, DoShutdown, DoInit, DoPick,
         DoFail, DoRecheck, DoCrop, DoWriteRow, DoLeave, DoPublish, DoRequest;
    match a
    case Request(key, claimed) => RequestIsSound(c, key, claimed);
    case Get(key) => GetIsSound(c, key);
    case Texture(key) => TextureIsSound(c, key);
    case Stop => StopIsSound(c);
    case CopyRow => CopyRowIsSound(c);
    case CopyDone => CopyDoneIsSound(c);
    case Tick => TickIsSound(c, a);
    case Retarget => TickIsSound(c, a);
    case Shutdown => ShutdownIsSound(c);
    case Init(px, vram) => InitIsSound(c, px, vram);
    case Pick(slot, refill) => PickIsSound(c, slot, refill);
    case WriteRow => WriteRowIsSound(c);
    case Publish => PublishExactly(c);
    case _ => JobStepIsSound(c, a);
  }

  // ---- whole runs -------------------------------------------------------------------------------------------

  lemma {:induction false} RunsAreSound(c: Cache, acts: seq<Action>, d: Cache)
    requires Sound(c) && Runs(c, acts, d)
    ensures Sound(d)
    decreases |acts|
  {
    if acts != [] {
      hide Sound, Do;
      StepExactly(c, acts[0]);
      RunsAreSound(Do(c, acts[0]).value, acts[1..], d);
    }
  }

  /** At every state of the run the valid buffers of ready slots show their images. */
  ghost predicate AlwaysShow(c: Cache, acts: seq<Action>)
    decreases |acts|
  {
    AllShow(c) && (acts != [] && Do(c, acts[0]).Some? ==> AlwaysShow(Do(c, acts[0]).value, acts[1..]))
  }

  /** No image is published torn on the way. */
  predicate NeverTorn(c: Cache, acts: seq<Action>)
    decreases |acts|
  {
    acts != [] ==>
      && !(acts[0].Publish? && Torn(c))
      && (Do(c, acts[0]).Some? ==> NeverTorn(Do(c, acts[0]).value, acts[1..]))
  }

  lemma {:induction false} ShowExactly(c: Cache, acts: seq<Action>, d: Cache)
    requires Sound(c) && AllShow(c) && Runs(c, acts, d)
    ensures AlwaysShow(c, acts) <==> NeverTorn(c, acts)
    ensures NeverTorn(c, acts) ==> AllShow(d)
    decreases |acts|
  {
    hide Sound, AllShow, Do, Torn;
    if acts != [] {
      StepExactly(c, acts[0]);
      var e := Do(c, acts[0]).value;
      if AllShow(e) {
        ShowExactly(e, acts[1..], d);
      }
    }
  }

  /**
   In every interleaving, a ready slot's valid pixels, and its valid mirror, show its own image, every pixel of it, at
   its own size and all from one fetch, at every state of the run, exactly if no image is published torn: its size is
   looked up again for every row, and not at all when it is published.  A ready slot always has at least one of the
   two.
   */
  lemma EveryInterleavingShows(cap: nat, acts: seq<Action>, d: Cache)
    requires Runs(Boot(cap), acts, d)
    ensures AlwaysShow(Boot(cap), acts) <==> NeverTorn(Boot(cap), acts)
    ensures NeverTorn(Boot(cap), acts) ==> forall s :: s in d.slots && s.state.Ready? ==>
              && (s.pxValid ==> forall k :: 0 <= k < Area(s.key.size) ==>
                    k < |s.px| && s.px[k] == s.px[0] && Fits(s.px[k], s.key))
              && (s.vramValid ==> forall k :: 0 <= k < Area(s.key.size) ==>
                    k < |s.mirror| && s.mirror[k] == s.mirror[0] && Fits(s.mirror[k], s.key))
    ensures forall s :: s in d.slots && s.state.Ready? ==> s.pxValid || s.vramValid
  {
    hide Sound, AllShow, NeverTorn, AlwaysShow, Runs;
    BootIsSound(cap);
    RunsAreSound(Boot(cap), acts, d);
    ShowExactly(Boot(cap), acts, d);
    forall s | s in d.slots
      ensures SlotIsSound(s, d.cap) && (AllShow(d) ==> ShowsOwn(s))
    {
      OneOfThem(d, s);
    }
  }

  lemma OneOfThem(c: Cache, s: Slot)
    requires Sound(c) && s in c.slots
    ensures SlotIsSound(s, c.cap) && (AllShow(c) ==> ShowsOwn(s))
  {
    var i :| 0 <= i < |c.slots| && c.slots[i] == s;
  }

  // ---- what a caller can do about it ------------------------------------------------------------------------

  /** No request takes over the slot that pixels are being written to at a size other than it has. */
  predicate KeepsSize(c: Cache, a: Action) {
    a.Request? && (c.fetch.Writing? || c.fetch.Leaving?) && Do(c, a).Some?
    && c.fetch.job.slot < |c.slots| == |Do(c, a).value.slots| ==>
      Do(c, a).value.slots[c.fetch.job.slot].key.size == c.slots[c.fetch.job.slot].key.size
  }

  predicate KeepsSizes(c: Cache, acts: seq<Action>)
    decreases |acts|
  {
    acts != [] ==> KeepsSize(c, acts[0]) && (Do(c, acts[0]).Some? ==> KeepsSizes(Do(c, acts[0]).value, acts[1..]))
  }

  /** So far all rows were written at the size that the slot still has. */
  predicate OneSizeSoFar(c: Cache) {
    && (InFlight(c.fetch) ==> c.fetch.job.slot < |c.slots|)
    && (c.fetch.Fetching? ==> c.fetch.job.rows == [] && c.fetch.job.crop == None)
    && (c.fetch.Writing? || c.fetch.Leaving? ==>
          var j, z := c.fetch.job, c.slots[c.fetch.job.slot].key.size;
          && (forall y :: 0 <= y < |j.rows| ==> j.rows[y] == z) && (j.crop.Some? ==> j.crop.value == z)
          && (c.fetch.Leaving? ==> z.h <= |j.rows|))
  }

  lemma SizesStay(c: Cache, a: Action)
    requires Sound(c) && OneSizeSoFar(c) && KeepsSize(c, a)
    ensures Do(c, a).Some? ==> OneSizeSoFar(Do(c, a).value)
    ensures !(a.Publish? && Torn(c))
  {
    SoundHasSlots(c);
    if a.Publish? && c.fetch.Leaving? {
      UniformIsWhole(c);
    }
    hide Sound, Do, OneSizeSoFar, KeepsSize;
    if Do(c, a).Some? {
      if OfFetch(a) {
        FetchKeepsOneSize(c, a);
      } else if OfAllSlots(a) {
        AllKeepOneSize(c, a);
      } else {
        CallKeepsOneSize(c, a);
      }
    }
  }

  lemma FetchKeepsOneSize(c: Cache, a: Action)
    requires |c.slots| == SLOTS && OneSizeSoFar(c) && Do(c, a).Some? && OfFetch(a)
    ensures OneSizeSoFar(Do(c, a).value)
  {
    hide DoGet, DoTexture, DoCopyRow, DoCopyDone, DoTick, DoRetarget, DoShutdown, DoInit, DoRequest, Filled, PartOf;
  }

  lemma AllKeepOneSize(c: Cache, a: Action)
    requires |c.slots| == SLOTS && OneSizeSoFar(c) && Do(c, a).Some? && OfAllSlots(a)
    ensures OneSizeSoFar(Do(c, a).value)
  {
    hide DoGet, DoTexture, DoCopyRow, DoCopyDone, DoPick, DoFail, DoRecheck, DoCrop, DoWriteRow, DoLeave, DoPublish,
         DoRequest, Age;
  }

  lemma CallKeepsOneSize(c: Cache, a: Action)
    requires |c.slots| == SLOTS && OneSizeSoFar(c) && KeepsSize(c, a) && Do(c, a).Some? && !OfFetch(a) && !OfAllSlots(a)
    ensures OneSizeSoFar(Do(c, a).value)
  {
    hide DoPick, DoFail, DoRecheck, DoCrop, DoWriteRow, DoLeave, DoPublish, DoTick, DoRetarget, DoShutdown, DoInit,
         Area;
    if a.Request? {
      hide DoGet, DoTexture, DoCopyRow, DoCopyDone;
    } else {
      hide DoRequest;
    }
  }

  lemma UniformIsWhole(c: Cache)
    requires c.fetch.Leaving? && OneSizeSoFar(c)
    ensures !Torn(c)
  {
    var j, z := c.fetch.job, c.slots[c.fetch.job.slot].key.size;
    forall y | z.h <= y < |j.rows|
      ensures Area(z) <= y * j.rows[y].w
    {
      RowsBehind(y, z);
    }
  }

  lemma {:induction false} KeptSizesNeverTear(c: Cache, acts: seq<Action>)
    requires Sound(c) && OneSizeSoFar(c) && KeepsSizes(c, acts)
    ensures NeverTorn(c, acts)
    decreases |acts|
  {
    hide Sound, OneSizeSoFar, KeepsSize, Do, Torn;
    if acts != [] {
      SizesStay(c, acts[0]);
      if Do(c, acts[0]).Some? {
        StepExactly(c, acts[0]);
        KeptSizesNeverTear(Do(c, acts[0]).value, acts[1..]);
      }
    }
  }

  /** While the slot that is being written is not asked for at another size, all images are shown. */
  lemma KeptSizesShow(cap: nat, acts: seq<Action>, d: Cache)
    requires Runs(Boot(cap), acts, d) && KeepsSizes(Boot(cap), acts)
    ensures AlwaysShow(Boot(cap), acts)
  {
    BootIsSound(cap);
    hide Sound, AllShow, Runs, KeepsSizes, AlwaysShow, NeverTorn;
    KeptSizesNeverTear(Boot(cap), acts);
    ShowExactly(Boot(cap), acts, d);
  }

  // ---- keys -------------------------------------------------------------------------------------------------

  predicate SameKey(s: Slot, t: Slot) { !s.state.Empty? && !t.state.Empty? && s.key == t.key }

  ghost predicate Distinct(slots: seq<Slot>) {
    forall i, j :: 0 <= i < j < |slots| ==> !SameKey(slots[i], slots[j])
  }

  /** A request of a new key keeps keys distinct exactly when no other slot holds it as it is stored. */
  lemma RequestsKeepDistinctExactly(c: Cache, key: Key, claimed: nat)
    requires Sound(c) && Distinct(c.slots) && DoRequest(c, key, claimed).Some? && CanBeAsked(key, c.cap)
    requires FindSlot(c.slots, key).None? && IsClaimed(c.slots, c.frame, claimed)
    ensures Distinct(DoRequest(c, key, claimed).value.slots) <==>
            forall j :: 0 <= j < SLOTS && j != claimed ==> !c.slots[j].Matches(Stored(key))
    ensures |key.id| <= 63 ==> Distinct(DoRequest(c, key, claimed).value.slots)
  {
    assert claimed < SLOTS == |c.slots|;
    hide SlotIsSound, IsClaimed, JobIsSound, CopyIsSound, IsOld, CanBeAsked;
    var d := DoRequest(c, key, claimed).value;
    var s := d.slots[claimed];
    forall j | 0 <= j < SLOTS && j != claimed
      ensures c.slots[j].Matches(Stored(key)) <==> SameKey(d.slots[j], s)
    {
      assert d.slots[j] == c.slots[j];
    }
    if exists j :: 0 <= j < SLOTS && j != claimed && SameKey(d.slots[j], s) {
      var j :| 0 <= j < SLOTS && j != claimed && SameKey(d.slots[j], s);
      assert if j < claimed then SameKey(d.slots[j], d.slots[claimed]) else SameKey(d.slots[claimed], d.slots[j]);
    }
  }

  /** An id of 64 characters or more is never found, however often it is stored. */
  lemma LongIdsAreNeverFound(c: Cache, key: Key)
    requires Sound(c) && |key.id| > 63
    ensures FindSlot(c.slots, key).None?
  {
    forall i | 0 <= i < SLOTS
      ensures c.slots[i].state.Empty? || c.slots[i].key.id != key.id
    {
      assert SlotIsSound(c.slots[i], c.cap);
    }
  }

  predicate ShortIds(acts: seq<Action>) {
    forall i :: 0 <= i < |acts| && acts[i].Request? ==> |acts[i].key.id| <= 63
  }

  /** No action but a request gives a slot a key that it did not have. */
  lemma KeysDoNotAppear(c: Cache, a: Action, i: nat)
    requires Sound(c) && Do(c, a).Some? && !a.Request? && i < SLOTS
    ensures |Do(c, a).value.slots| == SLOTS
    ensures !Do(c, a).value.slots[i].state.Empty? ==> SameKey(c.slots[i], Do(c, a).value.slots[i])
  {
    hide Do, Sound, SameKey;
    SoundHasSlots(c);
    if OfAllSlots(a) {
      AllSlotsLeaveKeys(c, a, i);
    } else if OfFetch(a) {
      JobIdsAreNotEmpty(c);
      FetchLeavesKeys(c, a, i);
    } else {
      CallsLeaveKeys(c, a, i);
    }
  }

  lemma AllSlotsLeaveKeys(c: Cache, a: Action, i: nat)
    requires |c.slots| == SLOTS && Do(c, a).Some? && OfAllSlots(a) && i < SLOTS
    ensures |Do(c, a).value.slots| == SLOTS
    ensures !Do(c, a).value.slots[i].state.Empty? ==> SameKey(c.slots[i], Do(c, a).value.slots[i])
  {
    hide DoGet, DoTexture, DoCopyRow, DoCopyDone, DoPick, DoFail, DoRecheck, DoCrop, DoWriteRow, DoLeave, DoPublish,
         DoRequest;
  }

  /** A slot that is free has no id, and a job has one. */
  predicate JobHasId(c: Cache) {
    c.fetch.Leaving? && c.fetch.job.slot < |c.slots| ==>
      c.fetch.job.id != "" && (c.slots[c.fetch.job.slot].state.Empty? ==> c.slots[c.fetch.job.slot].key.id == "")
  }

  lemma JobIdsAreNotEmpty(c: Cache)
    requires Sound(c)
    ensures JobHasId(c)
  {
  }

  lemma FetchLeavesKeys(c: Cache, a: Action, i: nat)
    requires |c.slots| == SLOTS && JobHasId(c) && Do(c, a).Some? && OfFetch(a) && i < SLOTS
    ensures |Do(c, a).value.slots| == SLOTS
    ensures !Do(c, a).value.slots[i].state.Empty? ==> SameKey(c.slots[i], Do(c, a).value.slots[i])
  {
    hide DoGet, DoTexture, DoCopyRow, DoCopyDone, DoTick, DoRetarget, DoShutdown, DoInit, DoRequest;
  }

  lemma CallsLeaveKeys(c: Cache, a: Action, i: nat)
    requires |c.slots| == SLOTS && Do(c, a).Some? && !OfAllSlots(a) && !OfFetch(a) && !a.Request? && i < SLOTS
    ensures |Do(c, a).value.slots| == SLOTS
    ensures !Do(c, a).value.slots[i].state.Empty? ==> SameKey(c.slots[i], Do(c, a).value.slots[i])
  {
    hide DoPick, DoFail, DoRecheck, DoCrop, DoWriteRow, DoLeave, DoPublish, DoTick, DoRetarget, DoShutdown, DoInit,
         DoRequest;
  }

  lemma StepKeepsDistinct(c: Cache, a: Action)
    requires Sound(c) && Distinct(c.slots) && Do(c, a).Some? && !a.Request?
    ensures Distinct(Do(c, a).value.slots)
  {
    hide Do, Sound;
    SoundHasSlots(c);
    KeysDoNotAppear(c, a, 0);
    var d := Do(c, a).value;
    forall i, j | 0 <= i < j < SLOTS
      ensures !SameKey(d.slots[i], d.slots[j])
    {
      KeysDoNotAppear(c, a, i);
      KeysDoNotAppear(c, a, j);
      assert !SameKey(c.slots[i], c.slots[j]);
    }
  }

  lemma RequestKeepsDistinct(c: Cache, key: Key, claimed: nat)
    requires Sound(c) && Distinct(c.slots) && |key.id| <= 63 && DoRequest(c, key, claimed).Some?
    ensures Distinct(DoRequest(c, key, claimed).value.slots)
  {
    SoundHasSlots(c);
    hide Sound, IsClaimed, NoneClaimed, CanBeAsked;
    if CanBeAsked(key, c.cap) && FindSlot(c.slots, key).None? && IsClaimed(c.slots, c.frame, claimed) {
      RequestsKeepDistinctExactly(c, key, claimed);
    }
  }

  lemma {:induction false} RunsKeepDistinct(c: Cache, acts: seq<Action>, d: Cache)
    requires Sound(c) && Distinct(c.slots) && ShortIds(acts) && Runs(c, acts, d)
    ensures Distinct(d.slots)
    decreases |acts|
  {
    if acts != [] {
      hide Sound, Distinct, DoRequest;
      var a := acts[0];
      StepExactly(c, a);
      if a.Request? {
        RequestKeepsDistinct(c, a.key, a.claimed);
      } else {
        StepKeepsDistinct(c, a);
      }
      RunsKeepDistinct(Do(c, a).value, acts[1..], d);
    }
  }

  /** With ids of at most 63 characters, no image is held twice, in every interleaving. */
  lemma KeysStayDistinct(cap: nat, acts: seq<Action>, d: Cache)
    requires ShortIds(acts) && Runs(Boot(cap), acts, d)
    ensures Distinct(d.slots)
  {
    BootIsSound(cap);
    hide Runs, Sound;
    RunsKeepDistinct(Boot(cap), acts, d);
  }

  // ---- what is on screen stays ------------------------------------------------------------------------------

  predicate Wanted(s: Slot, frame: nat) { !s.state.Empty? && Age(frame, s.touch) == 0 }

  /**
   What an action takes of a slot that holds an image: a failed fetch empties the slot it was for, if that still has the
   id, and the way into and out of a player keeps what has a valid mirror.
   */
  predicate Loses(c: Cache, a: Action, s: Slot, i: nat) {
    match a
    case Fail => c.fetch.Fetching? && c.fetch.job.slot == i && !c.fetch.job.refill && s.key.id == c.fetch.job.id
    case Shutdown => !(s.state.Ready? && s.vram && s.vramValid)
    case Init(_, _) => !(s.state.Ready? && s.vram && s.vramValid)
    case _ => false
  }

  predicate Stays(s: Slot, t: Slot) { SameKey(s, t) && (s.state.Ready? ==> t.state.Ready?) }

  /** What was asked for in this frame is evicted by nothing else, be it another request or the next tick. */
  lemma TouchedSlotsStay(c: Cache, a: Action, i: nat)
    requires Sound(c) && i < SLOTS && Wanted(c.slots[i], c.frame) && Do(c, a).Some?
    ensures |Do(c, a).value.slots| == SLOTS
    ensures Stays(c.slots[i], Do(c, a).value.slots[i]) <==> !Loses(c, a, c.slots[i], i)
  {
    SoundHasSlots(c);
    hide Do, Sound, Stays, Loses;
    if a.Request? {
      RequestsSpareTouched(c, a, i);
    } else if OfAllSlots(a) {
      AllSlotsSpareTouched(c, a, i);
    } else if OfFetch(a) {
      FetchSparesTouched(c, a, i);
    } else {
      CallsSpareTouched(c, a, i);
    }
  }

  lemma AllSlotsSpareTouched(c: Cache, a: Action, i: nat)
    requires |c.slots| == SLOTS && i < SLOTS && Wanted(c.slots[i], c.frame) && Do(c, a).Some? && OfAllSlots(a)
    ensures |Do(c, a).value.slots| == SLOTS
    ensures Stays(c.slots[i], Do(c, a).value.slots[i]) <==> !Loses(c, a, c.slots[i], i)
  {
    hide DoGet, DoTexture, DoCopyRow, DoCopyDone, DoPick, DoFail, DoRecheck, DoCrop, DoWriteRow, DoLeave, DoPublish,
         DoRequest, Wanted, Stays, Aged, Retargeted, Kept, Restored;
    var s := c.slots[i];
    match a
    case Tick => WantedOutlivesTick(s, c.frame);
    case Retarget => WantedIsRetargeted(s, c.frame);
    case Shutdown => StaysWithMirror(s, None, None, c.frame);
    case Init(px, vram) => StaysWithMirror(s, px[i], vram[i], c.frame);
  }

  lemma WantedOutlivesTick(s: Slot, frame: nat)
    requires Wanted(s, frame)
    ensures Stays(s, Aged(s, (frame + 1) % WORD))
  {
    AgeNext(frame, s.touch);
    hide Age;
  }

  lemma AgeNext(frame: nat, touch: nat)
    requires Age(frame, touch) == 0
    ensures Age((frame + 1) % WORD, touch) == 1
  {
    var q, k := (frame - touch) / WORD, (frame + 1) / WORD;
    assert (frame + 1) % WORD - touch == (q - k) * WORD + 1;
    DivMod(q - k, WORD, 1);
  }

  lemma WantedIsRetargeted(s: Slot, frame: nat)
    requires Wanted(s, frame)
    ensures Stays(s, Retargeted(s, frame))
  {
    hide Age;
  }

  lemma StaysWithMirror(s: Slot, px: Option<Pixels>, vram: Option<Pixels>, frame: nat)
    requires Wanted(s, frame)
    ensures Stays(s, Kept(s)) <==> s.state.Ready? && s.vram && s.vramValid
    ensures Stays(s, Restored(s, px, vram)) <==> s.state.Ready? && s.vram && s.vramValid
  {
    hide Age;
  }

  lemma CallsSpareTouched(c: Cache, a: Action, i: nat)
    requires |c.slots| == SLOTS && i < SLOTS && Wanted(c.slots[i], c.frame) && Do(c, a).Some?
    requires !OfAllSlots(a) && !OfFetch(a) && !a.Request?
    ensures |Do(c, a).value.slots| == SLOTS
    ensures Stays(c.slots[i], Do(c, a).value.slots[i]) <==> !Loses(c, a, c.slots[i], i)
  {
    hide DoPick, DoFail, DoRecheck, DoCrop, DoWriteRow, DoLeave, DoPublish, DoTick, DoRetarget, DoShutdown, DoInit,
         DoRequest;
  }

  lemma FetchSparesTouched(c: Cache, a: Action, i: nat)
    requires Sound(c) && i < SLOTS && !c.slots[i].state.Empty? && Do(c, a).Some? && OfFetch(a)
    ensures |Do(c, a).value.slots| == SLOTS
    ensures Stays(c.slots[i], Do(c, a).value.slots[i]) <==> !Loses(c, a, c.slots[i], i)
  {
    hide DoGet, DoTexture, DoCopyRow, DoCopyDone, DoTick, DoRetarget, DoShutdown, DoInit, DoRequest, Wrote, IsOld, Area;
  }

  lemma RequestsSpareTouched(c: Cache, a: Action, i: nat)
    requires |c.slots| == SLOTS && i < SLOTS && Wanted(c.slots[i], c.frame) && a.Request? && Do(c, a).Some?
    ensures |Do(c, a).value.slots| == SLOTS
    ensures Stays(c.slots[i], Do(c, a).value.slots[i]) && !Loses(c, a, c.slots[i], i)
  {
    hide DoGet, DoTexture, DoCopyRow, DoCopyDone, DoPick, DoFail, DoRecheck, DoCrop, DoWriteRow, DoLeave, DoPublish,
         DoTick, DoRetarget, DoShutdown, DoInit, CanBeAsked;
  }

  predicate WithinFrame(acts: seq<Action>) {
    forall i :: 0 <= i < |acts| ==> !OfAllSlots(acts[i])
  }

  /** A slot whose pixels were handed out in this frame. */
  predicate HandedOut(c: Cache, i: nat) {
    i < |c.slots| && Wanted(c.slots[i], c.frame) && c.slots[i].state.Ready? && c.slots[i].pxValid
  }

  lemma HandedOutStays(c: Cache, a: Action, i: nat)
    requires Sound(c) && HandedOut(c, i) && Do(c, a).Some? && !OfAllSlots(a)
    ensures var d := Do(c, a).value;
            HandedOut(d, i) && d.slots[i].px == c.slots[i].px && SameKey(c.slots[i], d.slots[i])
  {
    SoundHasSlots(c);
    if OfFetch(a) {
      hide DoGet, DoTexture, DoCopyRow, DoCopyDone, DoTick, DoRetarget, DoShutdown, DoInit, DoRequest, Wrote, IsOld,
           Area, Filled;
    } else {
      hide Do, Sound, HandedOut;
      CallsLeavePixels(c, a, i);
    }
  }

  lemma CallsLeavePixels(c: Cache, a: Action, i: nat)
    requires |c.slots| == SLOTS && HandedOut(c, i) && Do(c, a).Some? && !OfAllSlots(a) && !OfFetch(a)
    ensures var d := Do(c, a).value;
            HandedOut(d, i) && d.slots[i].px == c.slots[i].px && SameKey(c.slots[i], d.slots[i])
  {
    hide DoPick, DoFail, DoRecheck, DoCrop, DoWriteRow, DoLeave, DoPublish, DoTick, DoRetarget, DoShutdown, DoInit,
         FindSlot, FindReady, Copied, Area, CanBeAsked;
  }

  /**
   A bitmap that was handed out keeps its size and its pixels for the rest of the frame, whatever is asked for or
   fetched meanwhile.
   */
  lemma {:induction false} BitmapsLastTheFrame(c: Cache, acts: seq<Action>, d: Cache, i: nat)
    requires Sound(c) && HandedOut(c, i) && WithinFrame(acts) && Runs(c, acts, d)
    ensures HandedOut(d, i) && d.slots[i].px == c.slots[i].px && SameKey(c.slots[i], d.slots[i])
    decreases |acts|
  {
    if acts == [] {
      assert SameKey(c.slots[i], c.slots[i]);
    } else {
      hide Do, Sound, HandedOut;
      StepExactly(c, acts[0]);
      HandedOutStays(c, acts[0], i);
      IsHandedOut(c, i);
      IsHandedOut(Do(c, acts[0]).value, i);
      assert WithinFrame(acts[1..]);
      BitmapsLastTheFrame(Do(c, acts[0]).value, acts[1..], d, i);
      IsHandedOut(d, i);
    }
  }

  lemma IsHandedOut(c: Cache, i: nat)
    requires HandedOut(c, i)
    ensures i < |c.slots|
  {
  }

  // ---- the slot table in place ------------------------------------------------------------------------------

  /** The UI thread's calls on the slot table, each under the lock. */
  class SlotTable {
    const slots: array<Slot>
    const cap: nat
    var frame: nat

    ghost function Abs(): Cache
      reads this, slots
    {
      Cache(slots[..], frame, Calling, Looking, true, cap, 0)
    }

    constructor (cap: nat)
      ensures slots.Length == SLOTS && fresh(slots) && frame == 0 && this.cap == cap
      ensures forall i :: 0 <= i < SLOTS ==> slots[i].state.Empty?
    {
      slots := new Slot[SLOTS](_ => Slot(Empty, NO_KEY, 0, false, [], false, false, [], false));
      frame := 0;
      this.cap := cap;
    }

    method Find(key: Key) returns (found: Option<nat>)
      ensures found == FindSlot(slots[..], key)
    {
      var i := 0;
      while i < slots.Length
        invariant i <= slots.Length
        invariant FindSlot(slots[..], key) == FindFrom(slots[..], i, key)
      {
        if slots[i].Matches(key) {
          return Some(i);
        }
        i := i + 1;
      }
      return None;
    }

    /**
     Dropped when there is nothing to ask for, when it is too large, or when it failed lately; held at this very key:
     touched; otherwise queued in a slot that may be reused, if there is one.
     */
    method Ask(key: Key, failedLately: bool) returns (claimed: nat)
      modifies slots
      ensures if failedLately then slots[..] == old(slots[..])
              else DoRequest(old(Abs()), key, claimed) == Some(Abs())
    {
      claimed := 0;
      if key.id == "" || key.size.w == 0 || key.size.h == 0 || key.size.w * key.size.h > cap || failedLately {
        AreaIsPositive(key.size);
        return;
      }
      AreaIsPositive(key.size);
      var have := Find(key);
      if have.Some? {
        slots[have.value] := slots[have.value].(touch := frame);
        return;
      }
      var c := ClaimSlot(slots[..], frame);
      if c.None? {
        ClaimsExclude(slots[..], frame, claimed);
        return;
      }
      claimed := c.value;
      slots[claimed] := slots[claimed].(
        state := Queued, key := Stored(key), touch := frame, pxValid := false, vramValid := false);
    }

    /** One frame on: what nothing wanted for three seconds is freed. */
    method Advance()
      modifies this, slots
      ensures DoTick(old(Abs())) == Some(Abs())
    {
      frame := (frame + 1) % WORD;
      ghost var want := DoTick(old(Abs())).value.slots;
      for i := 0 to slots.Length
        invariant frame == (old(frame) + 1) % WORD
        invariant forall j :: 0 <= j < i ==> slots[j] == Aged(old(slots[j]), frame)
        invariant forall j :: i <= j < slots.Length ==> slots[j] == old(slots[j])
      {
        if slots[i].state != Empty && Age(frame, slots[i].touch) > TTL_FRAMES {
          slots[i] := slots[i].(state := Empty, key := slots[i].key.(id := ""));
        }
      }
      assert forall j :: 0 <= j < |want| ==> want[j] == Aged(old(slots[..])[j], frame);
      assert slots[..] == want;
    }
  }

  lemma ClaimsExclude(slots: seq<Slot>, frame: nat, i: nat)
    requires NoneClaimed(slots, frame)
    ensures !IsClaimed(slots, frame, i)
  {
    if IsClaimed(slots, frame, i) {
      ClaimIsDetermined(slots, frame, i, i);
    }
  }
}
