/**
 Runs of the artwork cache from its start: how a request is served, how an image comes to be published torn, and how a
 slot that nothing wants is passed over.
 */
module ThumbnailRuns {
  import opened Basics
  import opened ThumbnailPixels
  import opened ThumbnailCache

  // ---- putting runs together --------------------------------------------------------------------------------

  predicate AsksOnly(acts: seq<Action>, keys: iset<Key>) {
    forall i :: 0 <= i < |acts| && acts[i].Request? ==> acts[i].key in keys
  }

  /** A run that asks for nothing else leads from one state to the other. */
  ghost predicate Reaches(c: Cache, keys: iset<Key>, d: Cache) {
    exists acts :: Runs(c, acts, d) && AsksOnly(acts, keys)
  }

  lemma {:induction false} RunsInTwo(c: Cache, x: seq<Action>, d: Cache, y: seq<Action>, e: Cache)
    requires Runs(c, x, d) && Runs(d, y, e)
    ensures Runs(c, x + y, e)
    decreases |x|
  {
    if x == [] {
      assert x + y == y;
    } else {
      hide Do;
      assert (x + y)[1..] == x[1..] + y;
      RunsInTwo(Do(c, x[0]).value, x[1..], d, y, e);
    }
  }

  lemma ReachesOn(c: Cache, keys: iset<Key>, d: Cache, e: Cache)
    requires Reaches(c, keys, d) && Reaches(d, keys, e)
    ensures Reaches(c, keys, e)
  {
    hide Runs;
    var x :| Runs(c, x, d) && AsksOnly(x, keys);
    var y :| Runs(d, y, e) && AsksOnly(y, keys);
    RunsInTwo(c, x, d, y, e);
    assert AsksOnly(x + y, keys);
  }

  lemma OneStep(c: Cache, keys: iset<Key>, a: Action, d: Cache)
    requires Do(c, a) == Some(d) && (a.Request? ==> a.key in keys)
    ensures Reaches(c, keys, d)
  {
    hide Do;
    assert Runs(d, [a][1..], d);
    assert Runs(c, [a], d) && AsksOnly([a], keys);
  }

  lemma ReachesItself(c: Cache, keys: iset<Key>)
    ensures Reaches(c, keys, c)
  {
    assert Runs(c, [], c) && AsksOnly([], keys);
  }

  lemma ReachedIsSound(c: Cache, keys: iset<Key>, d: Cache)
    requires Sound(c) && Reaches(c, keys, d)
    ensures Sound(d)
  {
    hide Sound, Runs;
    var acts :| Runs(c, acts, d) && AsksOnly(acts, keys);
    RunsAreSound(c, acts, d);
  }

  lemma {:induction false} TornBehind(c: Cache, acts: seq<Action>, d: Cache, more: seq<Action>)
    requires Runs(c, acts, d) && !NeverTorn(d, more)
    ensures !NeverTorn(c, acts + more)
    decreases |acts|
  {
    if acts == [] {
      assert acts + more == more;
    } else {
      hide Do, Torn;
      assert (acts + more)[1..] == acts[1..] + more;
      TornBehind(Do(c, acts[0]).value, acts[1..], d, more);
    }
  }

  /** A torn image is published next. */
  lemma TearsNext(c: Cache, keys: iset<Key>, d: Cache)
    requires Sound(c) && AllShow(c) && Reaches(c, keys, d) && Torn(d)
    ensures exists acts, e :: Runs(c, acts, e) && AsksOnly(acts, keys) && !AlwaysShow(c, acts)
  {
    var e := DoPublish(d).value;
    assert Do(d, Publish) == Some(e);
    assert Runs(e, [Publish][1..], e);
    assert Runs(d, [Publish], e) && !NeverTorn(d, [Publish]);
    hide Sound, AllShow, Torn, Runs, Do, AlwaysShow, NeverTorn;
    var acts :| Runs(c, acts, d) && AsksOnly(acts, keys);
    RunsInTwo(c, acts, d, [Publish], e);
    TornBehind(c, acts, d, [Publish]);
    ShowExactly(c, acts + [Publish], e);
    assert AsksOnly(acts + [Publish], keys);
  }

  // ---- the frame clock --------------------------------------------------------------------------------------

  /** All that is held was wanted in this frame. */
  predicate AllNew(c: Cache) {
    c.ui.Calling? && forall i :: 0 <= i < |c.slots| && !c.slots[i].state.Empty? ==> c.slots[i].touch == c.frame
  }

  function Later(c: Cache, n: nat): Cache { c.(frame := (c.frame + n) % WORD) }

  lemma {:induction false} FramesPass(c: Cache, keys: iset<Key>, n: nat)
    requires AllNew(c) && n <= TTL_FRAMES && c.frame < WORD
    ensures Reaches(c, keys, Later(c, n))
    decreases n
  {
    if n == 0 {
      ReachesItself(c, keys);
    } else {
      hide Reaches, Do;
      FramesPass(c, keys, n - 1);
      OneMoreFrame(c, n - 1);
      OneStep(Later(c, n - 1), keys, Tick, Later(c, n));
      ReachesOn(c, keys, Later(c, n - 1), Later(c, n));
    }
  }

  lemma AgeLater(frame: nat, n: nat)
    requires n < WORD
    ensures Age((frame + n) % WORD, frame) == n
  {
    var k := (frame + n) / WORD;
    assert (frame + n) % WORD - frame == n - k * WORD;
    DivMod(-k, WORD, n);
  }

  lemma OneMoreFrame(c: Cache, n: nat)
    requires AllNew(c) && n < TTL_FRAMES
    ensures Do(Later(c, n), Tick) == Some(Later(c, n + 1))
  {
    hide Age;
    var d := Later(c, n);
    AgeLater(c.frame, n + 1);
    assert (d.frame + 1) % WORD == (c.frame + (n + 1)) % WORD;
    assert DoTick(d).value.slots == c.slots;
  }

  /** What three seconds without a request leave. */
  function AllFreed(c: Cache): Cache {
    c.(frame := (c.frame + (TTL_FRAMES + 1)) % WORD,
       slots := Map(c.slots, (s: Slot) => if s.state.Empty? then s else s.(state := Empty, key := s.key.(id := ""))))
  }

  lemma AgesOut(c: Cache, keys: iset<Key>)
    requires AllNew(c) && c.frame < WORD
    ensures Reaches(c, keys, AllFreed(c))
  {
    hide Reaches, Do;
    FramesPass(c, keys, TTL_FRAMES);
    LastFrame(c);
    OneStep(Later(c, TTL_FRAMES), keys, Tick, AllFreed(c));
    ReachesOn(c, keys, Later(c, TTL_FRAMES), AllFreed(c));
  }

  lemma LastFrame(c: Cache)
    requires AllNew(c)
    ensures Do(Later(c, TTL_FRAMES), Tick) == Some(AllFreed(c))
  {
    hide Age;
    var d := Later(c, TTL_FRAMES);
    AgeLater(c.frame, TTL_FRAMES + 1);
    assert (d.frame + 1) % WORD == (c.frame + (TTL_FRAMES + 1)) % WORD;
    assert DoTick(d).value.slots == AllFreed(c).slots;
  }

  // ---- one slot ---------------------------------------------------------------------------------------------

  /** Nothing but the first slot is in use, and the UI thread is free. */
  ghost predicate Lone(c: Cache) {
    && Sound(c) && c.ui.Calling? && c.running && c.frame < WORD && c.slots[0].pixels
    && forall i :: 1 <= i < SLOTS ==> c.slots[i].state.Empty?
  }

  /** The first slot is in use, and was wanted in this frame. */
  ghost predicate InUse(c: Cache) {
    Lone(c) && !c.slots[0].state.Empty? && c.slots[0].touch == c.frame
  }

  ghost predicate Free(c: Cache) { Lone(c) && c.slots[0].state.Empty? }

  lemma Frees(c: Cache, keys: iset<Key>) returns (d: Cache)
    requires InUse(c)
    ensures Reaches(c, keys, d) && Free(d) && d.fetch == c.fetch && d.cap == c.cap && d.fetched == c.fetched
    ensures |d.slots| == |c.slots| == SLOTS && d.slots[0].px == c.slots[0].px
  {
    d := AllFreed(c);
    AgesOut(c, keys);
    ReachedIsSound(c, keys, d);
  }

  lemma AsksFirst(c: Cache, keys: iset<Key>, key: Key) returns (d: Cache)
    requires Free(c) && CanBeAsked(key, c.cap) && key in keys
    ensures Reaches(c, keys, d) && InUse(d) && d.fetch == c.fetch && d.cap == c.cap && d.fetched == c.fetched
    ensures |d.slots| == |c.slots| == SLOTS && d.slots[0].state.Queued? && d.slots[0].key == Stored(key)
    ensures d.slots[0].px == c.slots[0].px
  {
    d := WithSlot(c, 0, Asked(c.slots[0], key, c.frame));
    assert DoRequest(c, key, 0) == Some(d);
    OneStep(c, keys, Request(key, 0), d);
    hide Sound, CanBeAsked;
    ReachedIsSound(c, keys, d);
    assert |c.slots| == SLOTS by { SoundHasSlots(c); }
  }

  /** The first slot is being written. */
  ghost predicate IsWriting(c: Cache) { InUse(c) && c.fetch.Writing? && c.fetch.job.slot == 0 }

  lemma Begins(c: Cache, keys: iset<Key>, key: Key) returns (d: Cache)
    requires Free(c) && c.fetch.Looking? && CanBeAsked(key, c.cap) && key in keys
    ensures Reaches(c, keys, d) && IsWriting(d) && d.slots[0].key == Stored(key) && d.slots[0].px == c.slots[0].px
    ensures d.fetch == Writing(Job(c.fetched, 0, Truncated(key.id), key.img, false, None, [])) && d.cap == c.cap
    ensures d.fetched == c.fetched + 1
  {
    var c1 := AsksFirst(c, keys, key);
    var c2 := DoPick(c1, 0, false).value;
    OneStep(c1, keys, Pick(0, false), c2);
    d := DoRecheck(c2).value;
    OneStep(c2, keys, Recheck, d);
    hide Reaches;
    ReachesOn(c, keys, c1, c2);
    ReachesOn(c, keys, c2, d);
    ReachedIsSound(c, keys, d);
  }

  /** d is c but for the first slot's pixels and the job's rows, which went on by n. */
  predicate WroteOn(c: Cache, d: Cache, n: nat) {
    && |c.slots| == SLOTS == |d.slots| && c.fetch.Writing? && d.fetch.Writing?
    && d.cap == c.cap && d.fetched == c.fetched && d.fetch.job == c.fetch.job.(rows := d.fetch.job.rows)
    && RowsOn(c.fetch.job.rows, d.fetch.job.rows, n, c.slots[0].key.size)
    && d.slots[0] == c.slots[0].(px := d.slots[0].px)
    && SameFrom(c.slots[0].px, d.slots[0].px, (|c.fetch.job.rows| + n) * c.slots[0].key.size.w)
  }

  predicate RowsOn(rows: seq<Size>, more: seq<Size>, n: nat, z: Size) {
    && |more| == |rows| + n && rows <= more
    && forall y :: |rows| <= y < |more| ==> more[y] == z
  }

  predicate SameFrom(px: Pixels, px': Pixels, from: nat) {
    |px| == |px'| && forall k :: from <= k < |px| ==> px'[k] == px[k]
  }

  /** So many more rows, at the size that the slot has. */
  lemma {:induction false} WritesRows(c: Cache, keys: iset<Key>, n: nat) returns (d: Cache)
    requires IsWriting(c) && |c.fetch.job.rows| + n <= FirstSize(c).h
    ensures Reaches(c, keys, d) && IsWriting(d) && WroteOn(c, d, n)
    decreases n
  {
    if n == 0 {
      d := c;
      hide Sound;
      SoundHasSlots(c);
      ReachesItself(c, keys);
    } else {
      var e := WritesOne(c, keys);
      hide Reaches, IsWriting;
      d := WritesRows(e, keys, n - 1);
      ReachesOn(c, keys, e, d);
      WroteFurther(c, e, d, n - 1);
    }
  }

  function FirstSize(c: Cache): Size { if c.slots == [] then Size(0, 0) else c.slots[0].key.size }

  lemma WroteFurther(c: Cache, d: Cache, e: Cache, n: nat)
    requires WroteOn(c, d, 1) && WroteOn(d, e, n)
    ensures WroteOn(c, e, 1 + n)
  {
    var r, w := |c.fetch.job.rows|, c.slots[0].key.size.w;
    MulMono(w, r + 1, r + (1 + n));
    assert (r + 1) * w <= (r + (1 + n)) * w;
    assert |d.fetch.job.rows| + n == r + (1 + n);
  }

  lemma WritesOne(c: Cache, keys: iset<Key>) returns (d: Cache)
    requires IsWriting(c) && |c.fetch.job.rows| < FirstSize(c).h
    ensures Reaches(c, keys, d) && IsWriting(d) && WroteOn(c, d, 1)
  {
    d := DoWriteRow(c).value;
    OneStep(c, keys, WriteRow, d);
    hide Sound;
    ReachedIsSound(c, keys, d);
    SoundHasSlots(c);
    RowsInFront(|c.fetch.job.rows|, FirstSize(c).w);
  }

  lemma Leaves(c: Cache, keys: iset<Key>) returns (d: Cache)
    requires IsWriting(c) && FirstSize(c).h <= |c.fetch.job.rows|
    ensures Reaches(c, keys, d) && InUse(d) && d == c.(fetch := Leaving(c.fetch.job))
  {
    d := DoLeave(c).value;
    OneStep(c, keys, Leave, d);
    hide Sound;
    ReachedIsSound(c, keys, d);
    SoundHasSlots(c);
  }

  lemma Publishes(c: Cache, keys: iset<Key>) returns (d: Cache)
    requires InUse(c) && c.fetch.Leaving? && c.fetch.job.slot == 0 && IsFor(c.slots[0], c.fetch.job)
    ensures Reaches(c, keys, d) && InUse(d) && d.fetch.Looking? && d.cap == c.cap && d.fetched == c.fetched
    ensures d.slots[0].state.Ready? && d.slots[0].pxValid && d.slots[0].px == c.slots[0].px
    ensures d.slots[0].key == c.slots[0].key
    ensures IsWhole(c.fetch.job, c.slots[0].key.size) ==> Shows(d.slots[0].px, d.slots[0].key)
  {
    d := DoPublish(c).value;
    OneStep(c, keys, Publish, d);
    WholeJobsShow(c.fetch, c.slots[0]);
    ReachedIsSound(c, keys, d);
  }

  /** After the first init, with memory that holds nothing yet. */
  lemma Starts(cap: nat, keys: iset<Key>) returns (d: Cache)
    ensures Reaches(Boot(cap), keys, d) && Free(d) && d.fetch.Looking? && d.cap == cap && d.frame == 0
    ensures forall i :: 0 <= i < SLOTS ==> d.slots[i].state.Empty? && d.slots[i].pixels
  {
    var blank: Pixels := seq(cap, _ => None);
    var px: seq<Option<Pixels>> := seq(SLOTS, _ => Some(blank));
    var vram: seq<Option<Pixels>> := seq(SLOTS, _ => None);
    d := DoInit(Boot(cap), px, vram).value;
    OneStep(Boot(cap), keys, Init(px, vram), d);
    BootIsSound(cap);
    hide Sound, Reaches;
    ReachedIsSound(Boot(cap), keys, d);
  }

  // ---- a request that nothing disturbs is served ------------------------------------------------------------

  /** Some run serves a request from a cache that is free: it ends with the slot ready, showing the image. */
  lemma RequestsCanBeServed(c: Cache, keys: iset<Key>, key: Key) returns (d: Cache)
    requires Free(c) && c.fetch.Looking? && CanBeAsked(key, c.cap) && key in keys
    ensures Reaches(c, keys, d) && InUse(d) && d.fetch.Looking? && d.cap == c.cap && d.slots != []
    ensures d.slots[0].state.Ready? && d.slots[0].pxValid && d.slots[0].key == Stored(key)
    ensures Shows(d.slots[0].px, Stored(key))
  {
    var c1 := Begins(c, keys, key);
    InUseHasSlots(c1);
    hide InUse, Free, CanBeAsked, Shows;
    var c2 := WritesRows(c1, keys, key.size.h);
    var c3 := Leaves(c2, keys);
    RowsAreWhole(c3.fetch.job, key.size);
    InUseHasSlots(c3);
    d := Publishes(c3, keys);
    InUseHasSlots(d);
    hide Reaches;
    ReachesOn(c, keys, c1, c2);
    ReachesOn(c, keys, c2, c3);
    ReachesOn(c, keys, c3, d);
  }

  lemma InUseHasSlots(c: Cache)
    requires InUse(c)
    ensures |c.slots| == SLOTS
  {
  }

  lemma RowsAreWhole(j: Job, z: Size)
    requires |j.rows| == z.h && j.crop == None && forall y :: 0 <= y < z.h ==> j.rows[y] == z
    ensures IsWhole(j, z)
  {
  }

  // ---- what is asked for at two sizes can be torn -----------------------------------------------------------

  /**
   Two requests of different sizes suffice, of whichever items: the slot of the first is taken over by the second
   while it is written, and by the first again before it is published.
   */
  lemma TwoSizesCanTear(cap: nat, x: Key, y: Key)
    requires CanBeAsked(x, cap) && CanBeAsked(y, cap) && x.size != y.size
    ensures exists acts, d :: Runs(Boot(cap), acts, d) && AsksOnly(acts, iset{x, y}) && !AlwaysShow(Boot(cap), acts)
  {
    var keys := iset{x, y};
    AreaIsPositive(x.size);
    AreaIsPositive(y.size);
    BootIsSound(cap);
    var c0 := Starts(cap, keys);
    hide Area, AlwaysShow, Runs;
    var c1 := Begins(c0, keys, x);
    InUseHasSlots(c1);
    var d := TakenOver(c1, keys, x, y);
    hide Sound, Reaches, Torn;
    ReachesOn(Boot(cap), keys, c0, c1);
    ReachesOn(Boot(cap), keys, c1, d);
    TearsNext(Boot(cap), keys, d);
  }

  lemma TakenOver(c: Cache, keys: iset<Key>, x: Key, y: Key) returns (d: Cache)
    requires x in keys && y in keys && CanBeAsked(x, c.cap) && CanBeAsked(y, c.cap) && x.size != y.size
    requires x.size.h > 0 && y.size.h > 0 && |c.slots| == SLOTS
    requires IsWriting(c) && c.fetch.job.rows == [] && c.fetch.job.id == Truncated(x.id) && c.fetch.job.img == x.img
    ensures Reaches(c, keys, d) && Torn(d)
  {
    hide Reaches, CanBeAsked, Sound;
    var c1 := Frees(c, keys);
    var c2 := AsksFirst(c1, keys, y);
    InUseHasSlots(c2);
    var c3 := WritesRows(c2, keys, 1);
    var c4 := Frees(c3, keys);
    var c5 := AsksFirst(c4, keys, x);
    InUseHasSlots(c5);
    var c6 := WritesRows(c5, keys, x.size.h - 1);
    InUseHasSlots(c6);
    d := Leaves(c6, keys);
    InUseHasSlots(d);
    ReachesOn(c, keys, c1, c2);
    ReachesOn(c, keys, c2, c3);
    ReachesOn(c, keys, c3, c4);
    ReachesOn(c, keys, c4, c5);
    ReachesOn(c, keys, c5, c6);
    ReachesOn(c, keys, c6, d);
    assert d.fetch.job.rows[0] == c3.fetch.job.rows[0] == y.size;
  }

  // ---- and what is asked for at one size cannot -------------------------------------------------------------

  /** All that is held, or being written, has one size. */
  predicate SizesAre(c: Cache, z: Size) {
    && (forall i :: 0 <= i < |c.slots| && !c.slots[i].state.Empty? ==> c.slots[i].key.size == z)
    && (InFlight(c.fetch) ==> c.fetch.job.slot < |c.slots| && c.slots[c.fetch.job.slot].key.size == z)
  }

  predicate AsksAtSize(a: Action, z: Size, cap: nat) {
    a.Request? && CanBeAsked(a.key, cap) ==> a.key.size == z
  }

  lemma StepsKeepOneSize(c: Cache, a: Action, z: Size)
    requires Sound(c) && SizesAre(c, z) && AsksAtSize(a, z, c.cap) && Do(c, a).Some?
    ensures SizesAre(Do(c, a).value, z) && KeepsSize(c, a) && Do(c, a).value.cap == c.cap
  {
    SoundHasSlots(c);
    JobIdsAreNotEmpty(c);
    hide Sound, Do, SizesAre, KeepsSize;
    if OfFetch(a) {
      FetchKeepsSize(c, a, z);
    } else if OfAllSlots(a) {
      AllKeepSize(c, a, z);
    } else if a.Request? {
      RequestKeepsSize(c, a, z);
    } else {
      CallKeepsSize(c, a, z);
    }
    NotResized(c, a, z);
  }

  lemma NotResized(c: Cache, a: Action, z: Size)
    requires Do(c, a).Some? && SizesAre(c, z) && SizesAre(Do(c, a).value, z)
    requires a.Request? ==> Do(c, a).value.fetch == c.fetch
    ensures KeepsSize(c, a)
  {
    hide Do;
  }

  lemma FetchKeepsSize(c: Cache, a: Action, z: Size)
    requires |c.slots| == SLOTS && JobHasId(c) && SizesAre(c, z) && Do(c, a).Some? && OfFetch(a)
    ensures SizesAre(Do(c, a).value, z) && Do(c, a).value.cap == c.cap
  {
    hide DoGet, DoTexture, DoCopyRow, DoCopyDone, DoTick, DoRetarget, DoShutdown, DoInit, DoRequest, Filled, PartOf;
  }

  lemma AllKeepSize(c: Cache, a: Action, z: Size)
    requires |c.slots| == SLOTS && SizesAre(c, z) && Do(c, a).Some? && OfAllSlots(a)
    ensures SizesAre(Do(c, a).value, z) && Do(c, a).value.cap == c.cap
  {
    hide DoGet, DoTexture, DoCopyRow, DoCopyDone, DoPick, DoFail, DoRecheck, DoCrop, DoWriteRow, DoLeave, DoPublish,
         DoRequest, Age;
  }

  lemma RequestKeepsSize(c: Cache, a: Action, z: Size)
    requires |c.slots| == SLOTS && SizesAre(c, z) && AsksAtSize(a, z, c.cap) && Do(c, a).Some? && a.Request?
    ensures SizesAre(Do(c, a).value, z) && Do(c, a).value.cap == c.cap && Do(c, a).value.fetch == c.fetch
  {
    hide DoGet, DoTexture, DoCopyRow, DoCopyDone, DoPick, DoFail, DoRecheck, DoCrop, DoWriteRow, DoLeave, DoPublish,
         DoTick, DoRetarget, DoShutdown, DoInit, CanBeAsked;
  }

  lemma CallKeepsSize(c: Cache, a: Action, z: Size)
    requires |c.slots| == SLOTS && SizesAre(c, z) && Do(c, a).Some? && !OfFetch(a) && !OfAllSlots(a) && !a.Request?
    ensures SizesAre(Do(c, a).value, z) && Do(c, a).value.cap == c.cap
  {
    hide DoPick, DoFail, DoRecheck, DoCrop, DoWriteRow, DoLeave, DoPublish, DoTick, DoRetarget, DoShutdown, DoInit,
         DoRequest, Copied;
  }

  lemma {:induction false} OneSizeKeepsSizes(c: Cache, acts: seq<Action>, d: Cache, z: Size)
    requires Sound(c) && SizesAre(c, z) && Runs(c, acts, d)
    requires forall i :: 0 <= i < |acts| ==> AsksAtSize(acts[i], z, c.cap)
    ensures KeepsSizes(c, acts)
    decreases |acts|
  {
    hide Sound, SizesAre, Do, KeepsSize, AsksAtSize;
    if acts != [] {
      StepExactly(c, acts[0]);
      StepsKeepOneSize(c, acts[0], z);
      OneSizeKeepsSizes(Do(c, acts[0]).value, acts[1..], d, z);
    }
  }

  /** All that can be asked for has one size. */
  ghost predicate OneSize(keys: iset<Key>, cap: nat) {
    forall x, y :: x in keys && y in keys && CanBeAsked(x, cap) && CanBeAsked(y, cap) ==> x.size == y.size
  }

  /**
   What a caller must keep to, exactly: whatever the threads do, every image is shown whole if and only if all images
   are asked for at one size, of all items.  One size for each item is not enough.
   */
  lemma OneSizeExactly(cap: nat, keys: iset<Key>)
    ensures (forall acts, d :: Runs(Boot(cap), acts, d) && AsksOnly(acts, keys) ==> AlwaysShow(Boot(cap), acts))
       <==> OneSize(keys, cap)
  {
    hide Runs, AlwaysShow, CanBeAsked;
    if OneSize(keys, cap) {
      forall acts, d | Runs(Boot(cap), acts, d) && AsksOnly(acts, keys)
        ensures AlwaysShow(Boot(cap), acts)
      {
        OneSizeShows(cap, keys, acts, d);
      }
    } else {
      var x, y :| x in keys && y in keys && CanBeAsked(x, cap) && CanBeAsked(y, cap) && x.size != y.size;
      TwoSizesCanTear(cap, x, y);
      var acts, d :| Runs(Boot(cap), acts, d) && AsksOnly(acts, iset{x, y}) && !AlwaysShow(Boot(cap), acts);
      assert AsksOnly(acts, keys);
    }
  }

  lemma OneSizeShows(cap: nat, keys: iset<Key>, acts: seq<Action>, d: Cache)
    requires OneSize(keys, cap) && Runs(Boot(cap), acts, d) && AsksOnly(acts, keys)
    ensures AlwaysShow(Boot(cap), acts)
  {
    hide Runs, AlwaysShow, CanBeAsked, KeepsSizes;
    var z := if exists x :: x in keys && CanBeAsked(x, cap) then
               (var x :| x in keys && CanBeAsked(x, cap); x.size)
             else Size(0, 0);
    forall i | 0 <= i < |acts|
      ensures AsksAtSize(acts[i], z, cap)
    {
    }
    BootIsSound(cap);
    OneSizeKeepsSizes(Boot(cap), acts, d, z);
    KeptSizesShow(cap, acts, d);
  }

  /** One size for each item: two items at two sizes. */
  lemma OneSizeEachCanTear(cap: nat, x: Key, y: Key)
    requires CanBeAsked(x, cap) && CanBeAsked(y, cap) && x.size != y.size && Truncated(x.id) != Truncated(y.id)
    ensures forall k, l :: k in iset{x, y} && l in iset{x, y} && k.id == l.id && k.img == l.img ==> k.size == l.size
    ensures exists acts, d :: Runs(Boot(cap), acts, d) && AsksOnly(acts, iset{x, y}) && !AlwaysShow(Boot(cap), acts)
  {
    hide Runs, AlwaysShow, CanBeAsked;
    TwoSizesCanTear(cap, x, y);
  }

  // ---- and then another item's image shows ------------------------------------------------------------------

  /**
   An item that is asked for at a size and, once its rows are written, at a larger one, comes out with the end of the
   image that was in the buffer before it.
   */
  lemma AnotherImageShows(cap: nat, a: Key, b: Key, small: Size)
    requires CanBeAsked(a, cap) && CanBeAsked(b, cap) && b.size == a.size && 0 < Area(small) < Area(a.size)
    ensures exists d :: Reaches(Boot(cap), iset{a, b, a.(size := small)}, d) && ShowsEndOf(d, a, b)
  {
    var keys := iset{a, b, a.(size := small)};
    var c0 := Starts(cap, keys);
    assert CanBeAsked(a.(size := small), cap);
    hide Reaches, CanBeAsked;
    var c1 := RequestsCanBeServed(c0, keys, b);
    var c2 := FreesWith(c1, keys, b);
    var d := EndOfBefore(c2, keys, a, b, small);
    ReachesOn(Boot(cap), keys, c0, c1);
    ReachesOn(Boot(cap), keys, c1, c2);
    ReachesOn(Boot(cap), keys, c2, d);
  }

  /** The first slot is handed out for a, and the last of its pixels is of b. */
  predicate ShowsEndOf(c: Cache, a: Key, b: Key) {
    && c.slots != [] && c.slots[0].state.Ready? && c.slots[0].pxValid && c.slots[0].key == Stored(a)
    && EndsIn(c.slots[0].px, a.size, b)
  }

  predicate EndsIn(px: Pixels, z: Size, b: Key) {
    && 0 < Area(z) <= |px|
    && px[Area(z) - 1].Some? && px[Area(z) - 1].value.id == Truncated(b.id) && px[Area(z) - 1].value.img == b.img
  }

  lemma FreesWith(c: Cache, keys: iset<Key>, b: Key) returns (d: Cache)
    requires InUse(c) && c.fetch.Looking? && c.slots != [] && Shows(c.slots[0].px, Stored(b))
    ensures Reaches(c, keys, d) && Free(d) && d.fetch.Looking? && d.cap == c.cap
    ensures d.slots != [] && EndsIn(d.slots[0].px, b.size, b)
  {
    hide Reaches;
    d := Frees(c, keys);
  }

  lemma EndOfBefore(c: Cache, keys: iset<Key>, a: Key, b: Key, small: Size) returns (d: Cache)
    requires Free(c) && c.fetch.Looking? && Area(small) < Area(a.size)
    requires c.slots != [] && EndsIn(c.slots[0].px, a.size, b)
    requires CanBeAsked(a, c.cap) && CanBeAsked(a.(size := small), c.cap) && a in keys && a.(size := small) in keys
    ensures Reaches(c, keys, d) && ShowsEndOf(d, a, b)
  {
    hide Reaches, CanBeAsked, Sound;
    var c1 := Begins(c, keys, a.(size := small));
    InUseHasSlots(c1);
    var c2 := WritesRows(c1, keys, small.h);
    InUseHasSlots(c2);
    assert EndsIn(c2.slots[0].px, a.size, b) by {
      assert Area(small) == (0 + small.h) * small.w;
    }
    hide Area, EndsIn;
    var c3 := Leaves(c2, keys);
    var c4 := Frees(c3, keys);
    var c5 := AsksFirst(c4, keys, a);
    InUseHasSlots(c5);
    d := Publishes(c5, keys);
    InUseHasSlots(d);
    ReachesOn(c, keys, c1, c2);
    ReachesOn(c, keys, c2, c3);
    ReachesOn(c, keys, c3, c4);
    ReachesOn(c, keys, c4, c5);
    ReachesOn(c, keys, c5, d);
  }

  // ---- a slot that nothing wants is passed over -------------------------------------------------------------

  /** Thirty-two different ids. */
  function Id(j: nat): (id: string)
    ensures |id| == j + 1
  {
    seq(j + 1, _ => 'a')
  }

  function Item(j: nat): Key { Key(Id(j), Size(1, 1), 0) }

  const ITEMS: iset<Key> := iset j: nat | j < SLOTS :: Item(j)

  lemma ItemsAreDifferent(i: nat, j: nat)
    requires i < SLOTS && j < SLOTS
    ensures Stored(Item(j)) == Item(j) && Item(j) in ITEMS && (Item(i) == Item(j) ==> i == j)
  {
    assert |Id(i)| == i + 1 && |Id(j)| == j + 1;
  }

  /** The first n slots are queued for the first n items, and the others are free. */
  predicate Queued(c: Cache, n: nat) {
    && n <= SLOTS == |c.slots| && c.ui.Calling? && c.cap > 0 && c.frame < WORD
    && (forall j :: 0 <= j < SLOTS ==> c.slots[j].pixels)
    && (forall j :: 0 <= j < n ==> c.slots[j].state.Queued? && c.slots[j].key == Item(j))
    && (forall j :: n <= j < SLOTS ==> c.slots[j].state.Empty?)
  }

  /** Those before n, but for k, were wanted in this frame, and the others in frame t. */
  predicate WantedBut(c: Cache, n: nat, k: nat, t: nat) {
    n <= |c.slots| && forall j :: 0 <= j < |c.slots| ==> c.slots[j].touch == if j < n && j != k then c.frame else t
  }

  lemma ItemCanBeAsked(j: nat, cap: nat)
    requires cap > 0
    ensures CanBeAsked(Item(j), cap)
  {
    assert Area(Size(1, 1)) == 1;
  }

  /** The n-th request takes the n-th slot. */
  lemma QueuesOneMore(c: Cache, n: nat) returns (d: Cache)
    requires Queued(c, n) && n < SLOTS && (forall j :: 0 <= j < n ==> c.slots[j].touch == c.frame)
    ensures Reaches(c, ITEMS, d) && Queued(d, n + 1) && d.frame == c.frame && d.cap == c.cap
    ensures forall j :: 0 <= j < n + 1 ==> d.slots[j].touch == d.frame
  {
    d := WithSlot(c, n, Asked(c.slots[n], Item(n), c.frame));
    ItemCanBeAsked(n, c.cap);
    hide CanBeAsked, Id, Reaches;
    forall j | 0 <= j < n
      ensures Item(j) != Item(n)
    {
      ItemsAreDifferent(j, n);
    }
    ItemsAreDifferent(n, n);
    assert IsClaimed(c.slots, c.frame, n);
    OneStep(c, ITEMS, Request(Item(n), n), d);
  }

  lemma {:induction false} QueuesAll(c: Cache, n: nat) returns (d: Cache)
    requires Queued(c, n) && (forall j :: 0 <= j < n ==> c.slots[j].touch == c.frame)
    ensures Reaches(c, ITEMS, d) && Queued(d, SLOTS) && d.frame == c.frame
    ensures forall j :: 0 <= j < SLOTS ==> d.slots[j].touch == d.frame
    decreases SLOTS - n
  {
    if n == SLOTS {
      d := c;
      ReachesItself(c, ITEMS);
    } else {
      var e := QueuesOneMore(c, n);
      hide Reaches;
      d := QueuesAll(e, n + 1);
      ReachesOn(c, ITEMS, e, d);
    }
  }

  /** A request for what is held touches it. */
  lemma WantsAgain(c: Cache, n: nat, k: nat, t: nat) returns (d: Cache)
    requires Queued(c, SLOTS) && n < SLOTS && WantedBut(c, n, k, t)
    ensures Reaches(c, ITEMS, d) && Queued(d, SLOTS) && WantedBut(d, n + 1, k, t) && d.frame == c.frame
  {
    if n == k {
      d := c;
      ReachesItself(c, ITEMS);
    } else {
      d := Touched(c, n);
      ItemCanBeAsked(n, c.cap);
      hide CanBeAsked, Id, Reaches;
      forall j | 0 <= j < SLOTS && j != n
        ensures Item(j) != Item(n)
      {
        ItemsAreDifferent(j, n);
      }
      ItemsAreDifferent(n, n);
      assert c.slots[n].Matches(Item(n));
      assert FindSlot(c.slots, Item(n)) == Some(n);
      OneStep(c, ITEMS, Request(Item(n), 0), d);
    }
  }

  lemma {:induction false} WantsAllBut(c: Cache, n: nat, k: nat, t: nat) returns (d: Cache)
    requires Queued(c, SLOTS) && n <= SLOTS && WantedBut(c, n, k, t)
    ensures Reaches(c, ITEMS, d) && Queued(d, SLOTS) && WantedBut(d, SLOTS, k, t) && d.frame == c.frame
    decreases SLOTS - n
  {
    if n == SLOTS {
      d := c;
      ReachesItself(c, ITEMS);
    } else {
      var e := WantsAgain(c, n, k, t);
      hide Reaches, Queued, WantedBut;
      d := WantsAllBut(e, n + 1, k, t);
      ReachesOn(c, ITEMS, e, d);
    }
  }

  /** The program gets to a full table in which a slot that nothing wanted for thirty frames is passed over. */
  lemma StaleSlotsArePassedOver(cap: nat, k: nat)
    requires cap > 0 && 0 < k < SLOTS
    ensures exists d :: Reaches(Boot(cap), ITEMS, d) && PassesOver(d, k)
  {
    var c0 := Starts(cap, ITEMS);
    assert Queued(c0, 0);
    hide Reaches, Free;
    var c1 := QueuesAll(c0, 0);
    FramesPass(c1, ITEMS, QUEUED_BIAS);
    var c2 := Later(c1, QUEUED_BIAS);
    var d := WantsAllBut(c2, 0, k, c1.frame);
    AgeLater(c1.frame, QUEUED_BIAS);
    NothingClaimed(d, k, c1.frame);
    ReachesOn(Boot(cap), ITEMS, c0, c1);
    ReachesOn(Boot(cap), ITEMS, c1, c2);
    ReachesOn(Boot(cap), ITEMS, c2, d);
  }

  predicate PassesOver(c: Cache, k: nat) {
    && Full(c.slots) && NoneClaimed(c.slots, c.frame)
    && k < |c.slots| && c.slots[k].state.Queued? && Age(c.frame, c.slots[k].touch) == QUEUED_BIAS
  }

  lemma NothingClaimed(c: Cache, k: nat, t: nat)
    requires Queued(c, SLOTS) && 0 < k < SLOTS && WantedBut(c, SLOTS, k, t) && Age(c.frame, t) == QUEUED_BIAS
    ensures PassesOver(c, k)
  {
    NoAge(c.frame);
    hide Age, NoneClaimed, Id;
    StaleSlotsCanBePassedOver(c.slots, c.frame, k);
  }

  lemma NoAge(frame: nat)
    ensures Age(frame, frame) == 0
  {
  }
}
