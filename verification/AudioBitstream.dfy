/**
 The journal around the console's audio output setting in source/audio/audio_bitstream.cpp.  The setting and the journal
 outlive the process; each call is the row of durable states it goes through, one for each write, so that a crash can be
 placed behind any of them.
 */
module AudioBitstream {
  import opened Basics
  import opened Decimals

  // ---- state ------------------------------------------------------------------------------------------------

  const LPCM: nat := 0
  const AC3: nat := 1
  const DTS: nat := 6
  const BITSTREAM: nat := 0xFF

  datatype Config = Config(encoder: nat, channel: nat, downmix: nat) {
    predicate Valid() { encoder < 256 && channel < 256 && downmix < 0x1_0000_0000 }
  }

  /** What a crash leaves: the output's setting, and the journal file if there is one. */
  datatype Durable = Durable(hw: Config, journal: Option<string>)

  /** What a crash takes with it. */
  datatype Memory = Memory(engaged: bool, passthrough: bool, applied: bool, appliedCfg: Config, saved: Config)

  function Fresh(): Memory { Memory(false, false, false, Config(0, 0, 0), Config(LPCM, 0, 0)) }

  datatype Full = Full(d: Durable, m: Memory)

  /** The states a call goes through after the first, and where it ends. */
  datatype Outcome = Outcome(steps: seq<Durable>, end: Full)

  // ---- the journal's text -----------------------------------------------------------------------------------------

  function Journal(c: Config): string {
    Decimal(c.encoder) + (" " + (Decimal(c.channel) + (" " + (Decimal(c.downmix) + "\n"))))
  }

  predicate IsBlank(c: char) { c == ' ' || c == '\n' }

  function SkipBlanks(t: string, p: nat): (q: nat)
    requires p <= |t|
    ensures p <= q <= |t|
    decreases |t| - p
  {
    if p < |t| && IsBlank(t[p]) then SkipBlanks(t, p + 1) else p
  }

  /** A number behind blanks: its value, and where it ends. */
  function ScanNumber(t: string, p: nat): (r: Option<(nat, nat)>)
    requires p <= |t|
    ensures r.Some? ==> r.value.1 <= |t|
  {
    var q := SkipBlanks(t, p);
    var n := DigitRun(t, q);
    if n == 0 then None else Some((Number(t[q..q + n]), q + n))
  }

  /** The three numbers of a journal, if they are there. */
  function Scan(t: string): Option<(nat, nat, nat)> {
    match ScanNumber(t, 0)
    case None => None
    case Some((a, p)) =>
      match ScanNumber(t, p)
      case None => None
      case Some((b, q)) =>
        match ScanNumber(t, q)
        case None => None
        case Some((c, _)) => Some((a, b, c))
  }

  // ---- the calls ----------------------------------------------------------------------------------------------------

  datatype Mode = Off | AskAc3 | AskDts | Raw | AskLpcm | Kick | Passthrough | PassthroughForce

  function CodingFor(mode: Mode): nat {
    match mode
    case AskAc3 => AC3
    case AskDts => DTS
    case Raw => BITSTREAM
    case Passthrough => BITSTREAM
    case PassthroughForce => BITSTREAM
    case _ => LPCM
  }

  /**
   What a begin finds: the mode and the port, whether the journal can be opened, and what the system's calls answer.  A
   request that succeeds leaves the output as the system sees fit (`kicked`, `landed`), which need not be what was asked
   for; one that fails leaves it alone.  `restores` is the answer to putting the setting back, should it come to that.
   */
  datatype Begin = Begin(
    mode: Mode, requested: bool, port: nat, readable: bool, opens: bool, kickWorks: bool, kicked: Config, works: bool,
    landed: Config, readsBack: bool, stateKnown: bool, wireType: nat, restores: bool)

  function IsPass(mode: Mode): bool { mode == Passthrough || mode == PassthroughForce }

  function Wanted(b: Begin): Config {
    Config(CodingFor(b.mode), if IsPass(b.mode) then 2 else if b.port >= 6 then 6 else b.port % 256, 0)
  }

  /** Nothing is asked for: a begin without effect. */
  predicate Idle(m: Memory, b: Begin) {
    b.mode == Off || m.engaged || (IsPass(b.mode) && !b.requested) || (!IsPass(b.mode) && b.port < 6) || !b.readable
  }

  /** The journal as it is being written: opened empty, then longer and longer. */
  function Written(d: Durable, text: string, k: nat): seq<Durable>
    requires k <= |text| + 1
  {
    if k == 0 then [] else Written(d, text, k - 1) + [d.(journal := Some(text[..k - 1]))]
  }

  /** What a restore asks for. */
  function Back(c: Config): Config { c.(channel := if c.channel > 0 then c.channel else 8) }

  /** Back to what was saved, if anything was changed; then the journal goes, whether or not the system obliged. */
  function EndCall(f: Full, restores: bool): Outcome {
    var m := f.m.(engaged := false, passthrough := false, applied := false);
    if f.m.applied && restores then
      var d1 := f.d.(hw := Back(f.m.saved));
      var d2 := d1.(journal := None);
      Outcome([d1, d2], Full(d2, m))
    else
      var d := f.d.(journal := None);
      Outcome([d], Full(d, m))
  }

  function Then(steps: seq<Durable>, o: Outcome): Outcome { Outcome(steps + o.steps, o.end) }

  function BeginCall(f: Full, b: Begin): Outcome {
    if Idle(f.m, b) then Outcome([], f)
    else
      var m := f.m.(saved := f.d.hw);
      if b.opens then
        var text := Journal(f.d.hw);
        Then(Written(f.d, text, |text| + 1), Apply(Full(f.d.(journal := Some(text)), m), b))
      else Apply(Full(f.d, m), b)
  }

  /** The detour over eight channels, if the mode asks for it. */
  function Apply(f: Full, b: Begin): Outcome {
    if b.mode == Kick && b.kickWorks then
      var d := f.d.(hw := b.kicked);
      Then([d], Request(Full(d, f.m.(applied := true)), b))
    else Request(f, b)
  }

  function Request(f: Full, b: Begin): Outcome {
    if b.works then
      var d := f.d.(hw := b.landed);
      Then([d], Judge(Full(d, f.m.(applied := true, appliedCfg := Wanted(b))), b))
    else Judge(f, b)
  }

  function Engage(f: Full, pass: bool): Outcome {
    Outcome([], Full(f.d, f.m.(engaged := true, passthrough := f.m.passthrough || pass)))
  }

  /** The coding that is read back; the system's answer is in a cleared record if there is none. */
  function ReadBack(d: Durable, b: Begin): nat { if b.readsBack then d.hw.encoder else 0 }

  /** What is made of the answers: kept, or put back at once. */
  function Judge(f: Full, b: Begin): Outcome {
    var coding := CodingFor(b.mode);
    if !b.works || ReadBack(f.d, b) != coding then
      var o := EndCall(f, b.restores);
      if b.mode == PassthroughForce then o.(end := Full(o.end.d, o.end.m.(passthrough := true))) else o
    else if IsPass(b.mode) then
      if (b.stateKnown && b.wireType != LPCM) || b.mode == PassthroughForce then Engage(f, true)
      else EndCall(f, b.restores)
    else if b.stateKnown && b.wireType != coding then Outcome([], Full(f.d, f.m.(engaged := false)))
    else if b.stateKnown && (b.mode == AskAc3 || b.mode == AskDts) then EndCall(f, b.restores)
    else Engage(f, false)
  }

  /** Asks again for what the last begin applied; the system answers as it sees fit. */
  function ReassertCall(f: Full, works: bool, landed: Config): Outcome {
    if !f.m.applied || !works then Outcome([], f)
    else
      var d := f.d.(hw := landed);
      Outcome([d], Full(d, f.m))
  }

  /**
   What is found at launch: whether a journal that is there can be opened, and what the system answers; `accepts` are
   the widths of LPCM that it takes.
   */
  datatype Recovery = Recovery(opens: bool, restores: bool, readable: bool, accepts: set<nat>)

  /** The first width that is taken, of those tried in turn. */
  function Widest(accepts: set<nat>): Option<nat> {
    if 8 in accepts then Some(8) else if 6 in accepts then Some(6) else if 2 in accepts then Some(2) else None
  }

  /** At launch: a journal is put back, and goes; without one, an output left on a coding is reset. */
  function RecoverCall(d: Durable, r: Recovery): (o: (seq<Durable>, Durable)) {
    if d.journal.Some? && r.opens then
      var s := Scan(d.journal.value);
      if s.Some? && r.restores then
        var (enc, ch, dm) := s.value;
        var d1 := d.(hw := Config(enc % 256, if ch > 0 then ch % 256 else 8, dm));
        var d2 := d1.(journal := None);
        ([d1, d2], d2)
      else
        var d1 := d.(journal := None);
        ([d1], d1)
    else if !r.readable || d.hw.encoder == LPCM || Widest(r.accepts).None? then ([], d)
    else
      var d1 := d.(hw := Config(LPCM, Widest(r.accepts).value, 0));
      ([d1], d1)
  }

  // ---- what the system is asked for -------------------------------------------------------------------------------

  /** An end asks for what was saved, if anything was changed. */
  function EndAsks(m: Memory): seq<Config> { if m.applied then [Back(m.saved)] else [] }

  /** Whether a request of the begin, or one before it, left a change. */
  predicate Changed(m: Memory, b: Begin) { m.applied || b.works || (b.mode == Kick && b.kickWorks) }

  /** The detour, what the mode wants, and the setting as it was if that is put back. */
  function BeginAsks(f: Full, b: Begin): seq<Config> {
    if Idle(f.m, b) then []
    else
      (if b.mode == Kick then [Config(LPCM, 8, 0)] else []) + [Wanted(b)]
      + (if Reverts(b) && Changed(f.m, b) then [Back(f.d.hw)] else [])
  }

  function ReassertAsks(m: Memory): seq<Config> { if m.applied then [m.appliedCfg] else [] }

  /** LPCM of the first n widths, the widest first. */
  function Widths(n: nat): seq<Config>
    requires n <= 3
  {
    [Config(LPCM, 8, 0), Config(LPCM, 6, 0), Config(LPCM, 2, 0)][..n]
  }

  function RecoverAsks(d: Durable, r: Recovery): seq<Config> {
    if d.journal.Some? && r.opens then
      match Scan(d.journal.value)
      case None => []
      case Some((enc, ch, dm)) => [Config(enc % 256, if ch > 0 then ch % 256 else 8, dm)]
    else if !r.readable || d.hw.encoder == LPCM then []
    else Widths(if 8 in r.accepts then 1 else if 6 in r.accepts then 2 else 3)
  }

  /** What a begin that is not idle asks for: the codings' numbers, on a stereo link for a bitstream to be passed on. */
  lemma RequestsAre(f: Full, b: Begin)
    requires !Idle(f.m, b)
    ensures var back := if Reverts(b) && Changed(f.m, b) then [Back(f.d.hw)] else [];
            BeginAsks(f, b) ==
            match b.mode
            case Passthrough => [Config(0xFF, 2, 0)] + back
            case PassthroughForce => [Config(0xFF, 2, 0)] + back
            case AskAc3 => [Config(1, 6, 0)] + back
            case AskDts => [Config(6, 6, 0)] + back
            case Raw => [Config(0xFF, 6, 0)] + back
            case AskLpcm => [Config(0, 6, 0)] + back
            case Kick => [Config(0, 8, 0), Config(0, 6, 0)] + back
            case Off => []
  {
    hide Reverts, Changed;
  }

  /**
   When the system does what it is asked: a passthrough begin leaves a bitstream on a stereo link and packs frames,
   unless it is not forced and the wire is not known to carry one; a request for AC-3 or DTS is put back exactly if
   that is known to be on the wire, and counts as engaged only while nothing is known; the others stay.
   */
  lemma ObligingSystem(f: Full, b: Begin)
    requires !f.m.engaged && !f.m.passthrough && !f.m.applied && !Idle(f.m, b) && f.d.hw.channel > 0
    requires b.works && b.readsBack && b.restores
    requires b.landed == BeginAsks(f, b)[if b.mode == Kick then 1 else 0]
    ensures var g := BeginCall(f, b).end;
            match b.mode
            case PassthroughForce => g.m.passthrough && g.m.engaged && g.d.hw == Config(0xFF, 2, 0)
            case Passthrough =>
              if b.stateKnown && b.wireType != 0 then g.m.passthrough && g.m.engaged && g.d.hw == Config(0xFF, 2, 0)
              else !g.m.passthrough && !g.m.engaged && g.d == Durable(f.d.hw, None)
            case AskAc3 =>
              if b.stateKnown && b.wireType == 1 then !g.m.engaged && g.d == Durable(f.d.hw, None)
              else g.d.hw == Config(1, 6, 0) && (g.m.engaged <==> !b.stateKnown)
            case AskDts =>
              if b.stateKnown && b.wireType == 6 then !g.m.engaged && g.d == Durable(f.d.hw, None)
              else g.d.hw == Config(6, 6, 0) && (g.m.engaged <==> !b.stateKnown)
            case Raw => g.d.hw == Config(0xFF, 6, 0) && (g.m.engaged <==> !b.stateKnown || b.wireType == 0xFF)
            case _ => g.d.hw == Config(0, 6, 0) && (g.m.engaged <==> !b.stateKnown || b.wireType == 0)
  {
    RequestsAre(f, b);
    BeginComesTo(f, b);
    hide Journal, Written, BeginAsks, BeginCall;
  }

  // ---- what a begin comes to --------------------------------------------------------------------------------------

  /** The output as the requests leave it. */
  function LeftBy(f: Full, b: Begin): Config {
    if b.works then b.landed else if b.mode == Kick && b.kickWorks then b.kicked else f.d.hw
  }

  /** The answers on which a begin puts the setting back. */
  predicate Reverts(b: Begin) {
    var coding := CodingFor(b.mode);
    || !b.works
    || (if b.readsBack then b.landed.encoder else 0) != coding
    || (b.mode == Passthrough && !(b.stateKnown && b.wireType != LPCM))
    || ((b.mode == AskAc3 || b.mode == AskDts) && b.stateKnown && b.wireType == coding)
  }

  /**
   From a clean state: a begin that keeps its change has it in effect and remembers what was there before; one that
   does not leaves no journal, and the output as it was unless the restore failed.  Engaged is a change that is kept,
   unless it is no passthrough and the wire is known to carry another coding; frames are packed where passthrough is
   kept, and in the forced mode whatever the answers.
   */
  lemma BeginComesTo(f: Full, b: Begin)
    requires !f.m.engaged && !f.m.passthrough && !f.m.applied && !Idle(f.m, b) && f.d.hw.channel > 0
    ensures var g := BeginCall(f, b).end;
            && (g.m.applied <==> !Reverts(b))
            && (g.m.engaged <==> !Reverts(b) && (IsPass(b.mode) || !b.stateKnown || b.wireType == CodingFor(b.mode)))
            && (g.m.passthrough <==> b.mode == PassthroughForce || (b.mode == Passthrough && !Reverts(b)))
            && (g.m.engaged && b.readsBack ==> g.d.hw.encoder == CodingFor(b.mode))
            && (!g.m.applied ==> g.d == Durable(if b.restores then f.d.hw else LeftBy(f, b), None))
            && (g.m.applied ==> b.works && g.m.appliedCfg == Wanted(b) && g.m.saved == f.d.hw
                                && g.d == Durable(b.landed, if b.opens then Some(Journal(f.d.hw)) else f.d.journal))
  {
    hide Journal, Written, CodingFor, Wanted;
  }

  // ---- what a crash can find --------------------------------------------------------------------------------------

  /** The setting as it was, with at most the beginning of a journal; or a whole journal that holds it. */
  predicate Safe(orig: Config, d: Durable) {
    d.journal == Some(Journal(orig)) || (d.hw == orig && (d.journal.Some? ==> d.journal.value <= Journal(orig)))
  }

  /** Between calls: unchanged and no journal, or changed with the journal in place. */
  predicate Kept(orig: Config, f: Full) {
    if f.m.applied then f.m.saved == orig && f.d.journal == Some(Journal(orig))
    else f.d == Durable(orig, None) && !f.m.engaged
  }

  predicate AllSafe(orig: Config, steps: seq<Durable>) {
    forall i :: 0 <= i < |steps| ==> Safe(orig, steps[i])
  }

  lemma {:induction false} WritingIsSafe(orig: Config, d: Durable, k: nat)
    requires k <= |Journal(orig)| + 1 && d.hw == orig
    ensures AllSafe(orig, Written(d, Journal(orig), k))
  {
    if k > 0 {
      hide Journal;
      WritingIsSafe(orig, d, k - 1);
    }
  }

  /**
   An end that has a change to undo does so exactly if the restore gives the original, or the output is there already.
   */
  predicate MayEnd(orig: Config, f: Full, restores: bool) {
    f.m.applied ==> if restores then orig.channel > 0 else f.d.hw == orig
  }

  /** Every durable state of the call is safe, and its end keeps the original. */
  predicate Harmless(orig: Config, o: Outcome) { AllSafe(orig, o.steps) && Kept(orig, o.end) }

  lemma EndIsSafe(orig: Config, f: Full, restores: bool)
    requires Kept(orig, f)
    ensures Harmless(orig, EndCall(f, restores)) <==> MayEnd(orig, f, restores)
    ensures MayEnd(orig, f, restores) ==> EndCall(f, restores).end.d == Durable(orig, None)
  {
    hide Journal;
    var steps := EndCall(f, restores).steps;
    assert steps[|steps| - 1] == EndCall(f, restores).end.d;
  }

  /** While the requests are made the journal holds the original. */
  predicate Covered(orig: Config, f: Full, b: Begin) { if b.opens then f.d.hw == orig else f.m.applied }

  /** No request leaves the output anywhere else. */
  predicate Untouched(orig: Config, b: Begin) {
    (b.mode == Kick && b.kickWorks ==> b.kicked == orig) && (b.works ==> b.landed == orig)
  }

  /** The output after a begin that reverts. */
  function PutBack(f: Full, b: Begin): Config {
    if b.restores && (f.m.applied || b.works || (b.mode == Kick && b.kickWorks)) then Back(f.d.hw) else LeftBy(f, b)
  }

  /**
   A journal that is written is the original's; there is one, or nothing is changed; and what is kept was changed from
   the original under its journal, what is reverted ends there.
   */
  predicate MayBegin(orig: Config, f: Full, b: Begin) {
    || Idle(f.m, b)
    || ((b.opens ==> f.d.hw == orig)
        && (Covered(orig, f, b) || Untouched(orig, b))
        && if Reverts(b) then PutBack(f, b) == orig else Covered(orig, f, b) && f.d.hw == orig)
  }

  /** A begin is safe at every write, and keeps the original, exactly under `MayBegin`. */
  lemma BeginIsSafe(orig: Config, f: Full, b: Begin)
    requires Kept(orig, f)
    ensures Harmless(orig, BeginCall(f, b)) <==> MayBegin(orig, f, b)
  {
    if !Idle(f.m, b) {
      hide Journal, Apply;
      var text := Journal(f.d.hw);
      var m := f.m.(saved := f.d.hw);
      if !b.opens {
        RequestExactly(orig, Full(f.d, m), b);
      } else if f.d.hw != orig {
        OpeningLosesTheJournal(orig, f.d, text);
        FirstOnesSafe(orig, Written(f.d, text, |text| + 1), Apply(Full(f.d.(journal := Some(text)), m), b).steps);
      } else {
        WritingIsSafe(orig, f.d, |text| + 1);
        FirstOnesSafe(orig, Written(f.d, text, |text| + 1), Apply(Full(f.d.(journal := Some(text)), m), b).steps);
        RequestExactly(orig, Full(f.d.(journal := Some(text)), m), b);
      }
    }
  }

  lemma FirstOnesSafe(orig: Config, a: seq<Durable>, b: seq<Durable>)
    ensures AllSafe(orig, a + b) <==> AllSafe(orig, a) && AllSafe(orig, b)
  {
    hide Safe;
    if AllSafe(orig, a + b) {
      forall i | 0 <= i < |a|
        ensures Safe(orig, a[i])
      {
        assert (a + b)[i] == a[i];
      }
      forall i | 0 <= i < |b|
        ensures Safe(orig, b[i])
      {
        assert (a + b)[|a| + i] == b[i];
      }
    }
  }

  lemma OpeningLosesTheJournal(orig: Config, d: Durable, text: string)
    requires d.hw != orig
    ensures !AllSafe(orig, Written(d, text, |text| + 1))
  {
    WrittenFirst(d, text, |text| + 1);
    assert |Journal(orig)| > 0;
    hide Journal;
    assert !Safe(orig, Written(d, text, |text| + 1)[0]);
  }

  lemma {:induction false} WrittenFirst(d: Durable, text: string, k: nat)
    requires 0 < k <= |text| + 1
    ensures Written(d, text, k) != [] && Written(d, text, k)[0] == d.(journal := Some(""))
  {
    if k > 1 {
      WrittenFirst(d, text, k - 1);
    } else {
      assert text[..0] == "";
    }
  }

  /** The requests and what is made of them, with the journal as it then is. */
  lemma RequestExactly(orig: Config, f: Full, b: Begin)
    requires !f.m.engaged && f.m.saved == f.d.hw
    requires f.d.journal == Some(Journal(orig)) || (f.d == Durable(orig, None) && !f.m.applied)
    ensures Harmless(orig, Apply(f, b)) <==>
            && (f.d.journal.Some? || Untouched(orig, b))
            && if Reverts(b) then PutBack(f, b) == orig else f.d.journal.Some? && f.d.hw == orig
  {
    hide Journal, Judge, Reverts, Harmless, Wanted;
    var d, m := f.d, f.m;
    if b.mode == Kick && b.kickWorks {
      d, m := d.(hw := b.kicked), m.(applied := true);
      FirstIsSafe(orig, d, Request(Full(d, m), b));
    }
    if b.works {
      d, m := d.(hw := b.landed), m.(applied := true, appliedCfg := Wanted(b));
      FirstIsSafe(orig, d, Judge(Full(d, m), b));
    }
    JudgeExactly(orig, Full(d, m), b);
  }

  lemma FirstIsSafe(orig: Config, d: Durable, o: Outcome)
    ensures Harmless(orig, Then([d], o)) <==> Safe(orig, d) && Harmless(orig, o)
  {
    hide Safe, Kept;
    FirstOnesSafe(orig, [d], o.steps);
    assert AllSafe(orig, [d]) <==> Safe(orig, [d][0]);
  }

  lemma JudgeExactly(orig: Config, f: Full, b: Begin)
    requires !f.m.engaged && (b.works ==> f.m.applied && f.d.hw == b.landed)
    requires f.d.journal == Some(Journal(orig)) || f.d.journal == None
    ensures Harmless(orig, Judge(f, b)) <==>
            if Reverts(b) then (if b.restores && f.m.applied then Back(f.m.saved) else f.d.hw) == orig
            else f.d.journal.Some? && f.m.saved == orig
  {
    hide Journal, EndCall, Harmless, CodingFor;
    EndExactly(orig, f, b.restores);
    if b.works {
      KeptAsItIs(orig, f);
    }
  }

  lemma EndExactly(orig: Config, f: Full, restores: bool)
    requires f.d.journal == Some(Journal(orig)) || f.d.journal == None
    ensures Harmless(orig, EndCall(f, restores)) <==>
            (if restores && f.m.applied then Back(f.m.saved) else f.d.hw) == orig
    ensures forall passthrough :: var o := EndCall(f, restores);
              Harmless(orig, o.(end := Full(o.end.d, o.end.m.(passthrough := passthrough)))) == Harmless(orig, o)
  {
    hide Journal;
    var steps := EndCall(f, restores).steps;
    assert steps[|steps| - 1] == EndCall(f, restores).end.d;
  }

  lemma KeptAsItIs(orig: Config, f: Full)
    requires f.m.applied && (f.d.journal == Some(Journal(orig)) || f.d.journal == None)
    ensures forall engaged, passthrough ::
              Harmless(orig, Outcome([], Full(f.d, f.m.(engaged := engaged, passthrough := passthrough))))
              == (f.d.journal.Some? && f.m.saved == orig)
  {
    hide Journal;
  }

  // ---- reading a journal, whole or not ----------------------------------------------------------------------------

  lemma {:induction false} DecimalIsDigits(n: nat)
    ensures Decimal(n) != "" && AllDigits(Decimal(n)) && Number(Decimal(n)) == n
    ensures n < 10 <==> |Decimal(n)| == 1
  {
    var s := Decimal(n);
    if n >= 10 {
      DecimalIsDigits(n / 10);
      assert s[..|s| - 1] == Decimal(n / 10);
    } else {
      assert s[..0] == "";
    }
  }

  /** One digit less is another number. */
  lemma ShorterIsSmaller(n: nat, j: nat)
    requires 0 < j < |Decimal(n)|
    ensures AllDigits(Decimal(n)[..j]) && Number(Decimal(n)[..j]) < n
  {
    DecimalIsDigits(n);
    PrefixIsSmaller(Decimal(n), j);
    FirstIsNotZero(n);
    PositiveNumber(Decimal(n)[..j]);
  }

  lemma {:induction false} FirstIsNotZero(n: nat)
    requires n > 0
    ensures DecimalIsNotZero(n)
  {
    if n >= 10 {
      FirstIsNotZero(n / 10);
    }
  }

  predicate DecimalIsNotZero(n: nat) { Decimal(n) != "" && Decimal(n)[0] != '0' }

  lemma {:induction false} PositiveNumber(s: string)
    requires AllDigits(s) && s != "" && s[0] != '0'
    ensures Number(s) > 0
  {
    var k := |s| - 1;
    if k > 0 {
      PositiveNumber(s[..k]);
    }
  }

  lemma {:induction false} PrefixIsSmaller(s: string, j: nat)
    requires AllDigits(s) && j < |s|
    ensures AllDigits(s[..j]) && 10 * Number(s[..j]) <= Number(s)
    decreases |s|
  {
    var k := |s| - 1;
    if j < k {
      PrefixIsSmaller(s[..k], j);
      assert s[..k][..j] == s[..j];
    }
  }

  lemma ScansFrom(t: string, p: nat, q: nat, d: string)
    requires p <= |t| && SkipBlanks(t, p) == q
    requires d != "" && AllDigits(d) && HasAt(t, q, d) && !IsDigit(At(t, q + |d|))
    ensures ScanNumber(t, p) == Some((Number(d), q + |d|))
  {
    hide Number, DigitRun, SkipBlanks;
    RunOfDigits(t, q, d);
    assert t[q..q + |d|] == d;
  }

  lemma ScansDigits(t: string, p: nat, d: string)
    requires d != "" && AllDigits(d) && HasAt(t, p, d) && !IsDigit(At(t, p + |d|))
    ensures p <= |t| && ScanNumber(t, p) == Some((Number(d), p + |d|))
  {
    assert IsDigit(d[0]);
    hide *;
    HasFirst(t, p, d);
    DigitIsNoBlank(t, p);
    ScansFrom(t, p, p, d);
  }

  lemma DigitIsNoBlank(t: string, p: nat)
    requires p < |t| && IsDigit(t[p])
    ensures SkipBlanks(t, p) == p
  {
  }

  lemma OneBlank(t: string, p: nat)
    requires p < |t| && t[p] == ' '
    ensures SkipBlanks(t, p) == SkipBlanks(t, p + 1)
  {
  }

  lemma ScansBehindBlank(t: string, p: nat, d: string)
    requires p < |t| && t[p] == ' ' && d != "" && AllDigits(d) && HasAt(t, p + 1, d) && !IsDigit(At(t, p + 1 + |d|))
    ensures ScanNumber(t, p) == Some((Number(d), p + 1 + |d|))
  {
    assert IsDigit(d[0]);
    hide *;
    HasFirst(t, p + 1, d);
    OneBlank(t, p);
    DigitIsNoBlank(t, p + 1);
    ScansFrom(t, p, p + 1, d);
  }

  lemma ScansNothing(t: string, p: nat)
    requires p <= |t| && (forall i :: p <= i < |t| ==> IsBlank(t[i]))
    ensures ScanNumber(t, p).None?
  {
    AllSkipped(t, p);
  }

  lemma {:induction false} AllSkipped(t: string, p: nat)
    requires p <= |t| && (forall i :: p <= i < |t| ==> IsBlank(t[i]))
    ensures SkipBlanks(t, p) == |t|
    decreases |t| - p
  {
    if p < |t| {
      AllSkipped(t, p + 1);
    }
  }

  /** A journal that was being written: three numbers are read from the first digit of the third one on. */
  lemma TornJournal(c: Config, k: nat)
    requires k <= |Journal(c)|
    ensures var e, h, m := Decimal(c.encoder), Decimal(c.channel), Decimal(c.downmix);
            var j := k - (|e| + 1 + |h| + 1);
            Scan(Journal(c)[..k]) == if j <= 0 then None
                                     else Some((c.encoder, c.channel, ThirdNumber(c, j)))
  {
    hide *;
    DecimalIsDigits(c.encoder);
    DecimalIsDigits(c.channel);
    DecimalIsDigits(c.downmix);
    JournalIs(c);
    TornParts(Decimal(c.encoder), Decimal(c.channel), Decimal(c.downmix), k);
  }

  lemma JournalIs(c: Config)
    ensures Journal(c) == Decimal(c.encoder) + (" " + (Decimal(c.channel) + (" " + (Decimal(c.downmix) + "\n"))))
    ensures |Journal(c)| == |Decimal(c.encoder)| + 1 + |Decimal(c.channel)| + 1 + |Decimal(c.downmix)| + 1
    ensures AllDigits(Decimal(c.downmix))
    ensures forall j: nat :: j > 0 ==>
              ThirdNumber(c, j)
              == Number(if j < |Decimal(c.downmix)| then Decimal(c.downmix)[..j] else Decimal(c.downmix))
  {
    hide Decimal, Number;
    DecimalIsDigits(c.downmix);
  }

  /** The number that the first j characters of the third one and the newline read as. */
  function ThirdNumber(c: Config, j: nat): nat
    requires j > 0
  {
    DecimalIsDigits(c.downmix);
    Number(if j < |Decimal(c.downmix)| then Decimal(c.downmix)[..j] else Decimal(c.downmix))
  }

  lemma TornParts(e: string, h: string, m: string, k: nat)
    requires e != "" && AllDigits(e) && h != "" && AllDigits(h) && m != "" && AllDigits(m)
    requires k <= |e| + 1 + |h| + 1 + |m| + 1
    ensures var t := (e + (" " + (h + (" " + (m + "\n")))))[..k];
            var j := k - (|e| + 1 + |h| + 1);
            Scan(t) == if j <= 0 then None
                       else Some((Number(e), Number(h), Number(if j < |m| then m[..j] else m)))
  {
    hide Number, ScanNumber;
    var x := e + (" " + (h + (" " + (m + "\n"))));
    var t := x[..k];
    if k <= |e| {
      assert t == e[..k];
      OneTorn(e, t, k);
    } else {
      var u := " " + (h + (" " + (m + "\n")));
      assert t == e + u[..k - |e|];
      FirstOfTwo(e, u[..k - |e|]);
      TwoTorn(t, |e|, h, m, k);
    }
  }

  lemma FirstOfTwo(e: string, u: string)
    requires e != "" && AllDigits(e) && u != "" && u[0] == ' '
    ensures ScanNumber(e + u, 0) == Some((Number(e), |e|)) && HasAt(e + u, |e|, u)
  {
    hide Number, ScanNumber;
    assert HasAt(e + u, 0, e);
    assert At(e + u, |e|) == ' ';
    ScansDigits(e + u, 0, e);
  }

  /** Behind the first number. */
  lemma TwoTorn(t: string, p: nat, h: string, m: string, k: nat)
    requires h != "" && AllDigits(h) && m != "" && AllDigits(m) && p < k == |t| <= p + 1 + |h| + 1 + |m| + 1
    requires HasAt(t, p, (" " + (h + (" " + (m + "\n"))))[..k - p])
    ensures var j := k - (p + 1 + |h| + 1);
            var second := ScanNumber(t, p);
            if k <= p + 1 then second.None?
            else if j <= 0 then second.Some? && second.value.1 <= |t| && ScanNumber(t, second.value.1).None?
            else
              && second == Some((Number(h), p + 1 + |h|))
              && ScanNumber(t, p + 1 + |h|)
              == Some((Number(if j < |m| then m[..j] else m), p + 1 + |h| + 1 + Shorter(j, |m|)))
  {
    hide Number, ScanNumber;
    var u := " " + (h + (" " + (m + "\n")));
    var q := p + 1 + |h|;
    forall i | p <= i < k
      ensures t[i] == u[i - p]
    {
      assert t[p..k][i - p] == u[..k - p][i - p];
    }
    if k <= p + 1 {
      ScansNothing(t, p);
    } else if k <= q {
      PartOf(t, p, h, k - p - 1);
      ScansBehindBlank(t, p, h[..k - p - 1]);
      ScansNothing(t, k);
    } else {
      PartOf(t, p, h, |h|);
      ScansBehindBlank(t, p, h);
      if k == q + 1 {
        ScansNothing(t, q);
      } else {
        var j := Shorter(k - q - 1, |m|);
        PartOf(t, q, m, j);
        ScansBehindBlank(t, q, m[..j]);
        assert m[..|m|] == m;
      }
    }
  }

  function Shorter(j: nat, n: nat): nat { if j < n then j else n }

  /** A blank and the first n characters of d, one by one. */
  lemma PartOf(t: string, p: nat, d: string, n: nat)
    requires n <= |d| && p + 1 + n <= |t| && t[p] == ' ' && forall i :: 0 <= i < n ==> t[p + 1 + i] == d[i]
    ensures HasAt(t, p + 1, d[..n]) && (n == |d| ==> d[..n] == d)
  {
    assert t[p + 1..p + 1 + n] == d[..n];
  }

  lemma OneTorn(e: string, t: string, k: nat)
    requires AllDigits(e) && k <= |e| && t == e[..k]
    ensures Scan(t).None?
  {
    if k == 0 {
      ScansNothing(t, 0);
    } else {
      ScansDigits(t, 0, t);
      ScansNothing(t, k);
    }
  }

  // ---- recovering -------------------------------------------------------------------------------------------------

  /** What the third number of a torn journal reads as matters from two digits on. */
  lemma ThirdIsWhole(c: Config)
    ensures c.downmix < 10 ==> forall j: nat :: j > 0 ==> ThirdNumber(c, j) == c.downmix
    ensures c.downmix >= 10 ==> ThirdNumber(c, 1) != c.downmix
  {
    DecimalIsDigits(c.downmix);
    if c.downmix >= 10 {
      ShorterIsSmaller(c.downmix, 1);
    }
  }

  /** The original setting is one that a recovery can tell: LPCM, of some channels. */
  predicate Original(c: Config) { c.Valid() && c.encoder == LPCM && c.channel > 0 }

  /**
   A recovery from a safe state is safe at every write and restores exactly if a journal that is there can be opened,
   and the restore succeeds or is not needed.
   */
  lemma RecoversFrom(orig: Config, d: Durable, r: Recovery)
    requires Original(orig) && orig.downmix < 10 && Safe(orig, d)
    ensures AllSafe(orig, RecoverCall(d, r).0) && RecoverCall(d, r).1 == Durable(orig, None)
       <==> MayRecover(orig, d, r)
  {
    hide Journal, Scan, Decimal;
    var steps := RecoverCall(d, r).0;
    assert steps != [] ==> steps[|steps| - 1] == RecoverCall(d, r).1;
    if d.journal.Some? {
      RecoversFromJournal(orig, d);
    }
  }

  predicate MayRecover(orig: Config, d: Durable, r: Recovery) {
    (d.journal.Some? ==> r.opens) && (r.restores || d.hw == orig)
  }

  lemma RecoversFromJournal(orig: Config, d: Durable)
    requires Original(orig) && orig.downmix < 10 && Safe(orig, d) && d.journal.Some?
    ensures var s := Scan(d.journal.value);
            if s.Some? then s.value == (orig.encoder, orig.channel, orig.downmix) else d.hw == orig
  {
    var t, k := d.journal.value, |d.journal.value|;
    assert k <= |Journal(orig)| && t == Journal(orig)[..k] by { hide Journal; }
    hide *;
    TornJournal(orig, k);
    ThirdIsWhole(orig);
    WholeJournalReads(orig);
    SafeWithJournal(orig, d);
  }

  lemma SafeWithJournal(orig: Config, d: Durable)
    requires Safe(orig, d) && d.journal.Some?
    ensures d.journal == Some(Journal(orig)) || d.hw == orig
  {
    hide Journal;
  }

  lemma WholeJournalReads(c: Config)
    ensures Scan(Journal(c)) == Some((c.encoder, c.channel, c.downmix))
  {
    hide *;
    assert Journal(c)[..|Journal(c)|] == Journal(c);
    JournalIs(c);
    DecimalIsDigits(c.downmix);
    TornJournal(c, |Journal(c)|);
  }

  /**
   After a crash anywhere in a change, the next recovery that succeeds restores the original setting exactly when that
   is LPCM of some channels and its down-mix number has a single digit: a longer one may be read short from a journal
   that was being written.
   */
  lemma RecoveryRestoresExactly(orig: Config)
    requires orig.Valid()
    ensures Original(orig) && orig.downmix < 10 <==>
            forall d, r: Recovery :: Safe(orig, d) && r.opens && r.restores ==>
              RecoverCall(d, r).1 == Durable(orig, None)
  {
    if Original(orig) && orig.downmix < 10 {
      forall d, r: Recovery | Safe(orig, d) && r.opens && r.restores
        ensures RecoverCall(d, r).1 == Durable(orig, None)
      {
        RecoversFrom(orig, d, r);
      }
    } else {
      var d, r := NotRestored(orig);
      hide Safe, RecoverCall;
    }
  }

  lemma NotRestored(orig: Config) returns (d: Durable, r: Recovery)
    requires orig.Valid() && !(Original(orig) && orig.downmix < 10)
    ensures Safe(orig, d) && r.opens && r.restores && RecoverCall(d, r).1 != Durable(orig, None)
  {
    r := Recovery(true, true, true, {8});
    if orig.encoder != LPCM {
      d := Durable(orig, None);
    } else if orig.channel == 0 {
      d := Durable(orig, Some(Journal(orig)));
      hide Journal, Scan;
      WholeJournalReads(orig);
    } else {
      var k := |Decimal(orig.encoder)| + 1 + |Decimal(orig.channel)| + 1 + 1;
      DecimalIsDigits(orig.downmix);
      d := Durable(orig, Some(Journal(orig)[..k]));
      JournalIs(orig);
      assert Safe(orig, d) by { hide Journal; }
      hide Journal, Scan, ThirdNumber, Decimal;
      TornJournal(orig, k);
      ThirdIsWhole(orig);
    }
  }

  // ---- lives of the console's setting -----------------------------------------------------------------------------

  datatype Call = DoBegin(b: Begin) | DoEnd(restores: bool) | DoReassert(works: bool, landed: Config)

  function Perform(f: Full, c: Call): Outcome {
    match c
    case DoBegin(b) => BeginCall(f, b)
    case DoEnd(restores) => EndCall(f, restores)
    case DoReassert(works, landed) => ReassertCall(f, works, landed)
  }

  /** The app runs a call, or dies behind the k-th write of one; a launch recovers, or dies behind a write of that. */
  datatype Event = Runs(c: Call) | DiesIn(c: Call, k: nat) | Recovers(r: Recovery) | DiesRecovering(r: Recovery, k: nat)

  datatype Life = Up(f: Full) | Down(d: Durable)

  function StateAt(d: Durable, steps: seq<Durable>, k: nat): Durable {
    if k == 0 || k > |steps| then d else steps[k - 1]
  }

  /** The app runs before it dies, and recovers before it runs again. */
  predicate Possible(l: Life, e: Event) {
    match e
    case Runs(c) => l.Up?
    case DiesIn(c, k) => l.Up? && k <= |Perform(l.f, c).steps|
    case Recovers(r) => l.Down?
    case DiesRecovering(r, k) => l.Down? && k <= |RecoverCall(l.d, r).0|
  }

  function Next(l: Life, e: Event): Life
    requires Possible(l, e)
  {
    match e
    case Runs(c) => Up(Perform(l.f, c).end)
    case DiesIn(c, k) => Down(StateAt(l.f.d, Perform(l.f, c).steps, k))
    case Recovers(r) => Up(Full(RecoverCall(l.d, r).1, Fresh()))
    case DiesRecovering(r, k) => Down(StateAt(l.d, RecoverCall(l.d, r).0, k))
  }

  ghost predicate Lives(l: Life, es: seq<Event>, k: Life)
    decreases |es|
  {
    if es == [] then l == k else Possible(l, es[0]) && Lives(Next(l, es[0]), es[1..], k)
  }

  predicate Sound(orig: Config, l: Life) {
    match l
    case Up(f) => Kept(orig, f)
    case Down(d) => Safe(orig, d)
  }

  /** Whatever writes of its calls the app should die behind, the life is sound there, and where a call ends. */
  predicate NeverLost(orig: Config, l: Life, es: seq<Event>)
    decreases |es|
  {
    es == [] || (Possible(l, es[0]) && LosesNothing(orig, l, es[0]) && NeverLost(orig, Next(l, es[0]), es[1..]))
  }

  predicate LosesNothing(orig: Config, l: Life, e: Event)
    requires Possible(l, e)
  {
    match e
    case Runs(c) => Harmless(orig, Perform(l.f, c))
    case DiesIn(c, k) => Harmless(orig, Perform(l.f, c))
    case Recovers(r) => AllSafe(orig, RecoverCall(l.d, r).0) && RecoverCall(l.d, r).1 == Durable(orig, None)
    case DiesRecovering(r, k) => AllSafe(orig, RecoverCall(l.d, r).0) && RecoverCall(l.d, r).1 == Durable(orig, None)
  }

  /** What a call finds allows it. */
  predicate MayPerform(orig: Config, f: Full, c: Call) {
    match c
    case DoBegin(b) => MayBegin(orig, f, b)
    case DoEnd(restores) => MayEnd(orig, f, restores)
    case DoReassert(works, landed) => true
  }

  predicate Allowed(orig: Config, l: Life, e: Event)
    requires Possible(l, e)
  {
    match e
    case Runs(c) => MayPerform(orig, l.f, c)
    case DiesIn(c, k) => MayPerform(orig, l.f, c)
    case Recovers(r) => MayRecover(orig, l.d, r)
    case DiesRecovering(r, k) => MayRecover(orig, l.d, r)
  }

  /** Every call of the life finds what allows it. */
  predicate AlwaysAllowed(orig: Config, l: Life, es: seq<Event>)
    decreases |es|
  {
    es == [] || (Possible(l, es[0]) && Allowed(orig, l, es[0]) && AlwaysAllowed(orig, Next(l, es[0]), es[1..]))
  }

  lemma KeptIsSafe(orig: Config, f: Full)
    requires Kept(orig, f)
    ensures Safe(orig, f.d)
  {
  }

  lemma CallsAreSafe(orig: Config, f: Full, c: Call)
    requires Kept(orig, f)
    ensures Harmless(orig, Perform(f, c)) <==> MayPerform(orig, f, c)
  {
    hide Journal, BeginCall, EndCall, MayBegin, MayEnd;
    match c
    case DoBegin(b) => BeginIsSafe(orig, f, b);
    case DoEnd(restores) => EndIsSafe(orig, f, restores);
    case DoReassert(works, landed) =>
  }

  lemma StepIsSound(orig: Config, l: Life, e: Event)
    requires Original(orig) && orig.downmix < 10 && Sound(orig, l) && Possible(l, e)
    ensures LosesNothing(orig, l, e) <==> Allowed(orig, l, e)
    ensures Allowed(orig, l, e) ==> Sound(orig, Next(l, e))
    ensures Allowed(orig, l, e) && e.Recovers? ==> Next(l, e) == Up(Full(Durable(orig, None), Fresh()))
  {
    hide Journal, Perform, RecoverCall, MayPerform, MayRecover;
    match e
    case Runs(c) => CallsAreSafe(orig, l.f, c);
    case DiesIn(c, k) =>
      KeptIsSafe(orig, l.f);
      CallsAreSafe(orig, l.f, c);
    case Recovers(r) => RecoversFrom(orig, l.d, r);
    case DiesRecovering(r, k) => RecoversFrom(orig, l.d, r);
  }

  lemma {:induction false} SoundLives(orig: Config, l: Life, es: seq<Event>, k: Life)
    requires Original(orig) && orig.downmix < 10 && Sound(orig, l) && Lives(l, es, k)
    ensures NeverLost(orig, l, es) <==> AlwaysAllowed(orig, l, es)
    ensures AlwaysAllowed(orig, l, es) ==>
              Sound(orig, k) && (es != [] && es[|es| - 1].Recovers? ==> k == Up(Full(Durable(orig, None), Fresh())))
    decreases |es|
  {
    hide Sound, Next, Possible, LosesNothing, Allowed, Original, Fresh;
    if es != [] {
      StepIsSound(orig, l, es[0]);
      assert |es| > 1 ==> es[1..][|es| - 2] == es[|es| - 1];
      if Allowed(orig, l, es[0]) {
        SoundLives(orig, Next(l, es[0]), es[1..], k);
      }
    }
  }

  /**
   The setting survives crashes: over every life that starts at the original setting, with any calls and answers of
   the system, and with crashes behind any write of any call, recoveries included, the original is never lost exactly
   if every call finds what allows it.  It is then in the output or in a journal at every write, and a recovery that
   completes leaves the output at the original setting and no journal.
   */
  lemma SettingSurvivesCrashes(orig: Config, es: seq<Event>, k: Life)
    requires Original(orig) && orig.downmix < 10 && Lives(Up(Full(Durable(orig, None), Fresh())), es, k)
    ensures var home := Up(Full(Durable(orig, None), Fresh()));
            && (NeverLost(orig, home, es) <==> AlwaysAllowed(orig, home, es))
            && (AlwaysAllowed(orig, home, es) ==>
                  Sound(orig, k) && (es != [] && es[|es| - 1].Recovers? ==> k == home))
  {
    hide NeverLost, AlwaysAllowed, Sound, Lives;
    LifeBeginsSound(orig);
    SoundLives(orig, Up(Full(Durable(orig, None), Fresh())), es, k);
  }

  lemma LifeBeginsSound(orig: Config)
    ensures Sound(orig, Up(Full(Durable(orig, None), Fresh())))
  {
  }

  // ---- what a caller can do about it ------------------------------------------------------------------------

  /** A begin finds nothing applied, and the file and the system do their part; so they do in an end. */
  predicate Careful(f: Full, c: Call) {
    match c
    case DoBegin(b) => Idle(f.m, b) || (!f.m.applied && b.opens && b.restores)
    case DoEnd(restores) => restores
    case DoReassert(_, _) => true
  }

  predicate CarefulEvent(l: Life, e: Event)
    requires Possible(l, e)
  {
    match e
    case Runs(c) => Careful(l.f, c)
    case DiesIn(c, _) => Careful(l.f, c)
    case Recovers(r) => r.opens && r.restores
    case DiesRecovering(r, _) => r.opens && r.restores
  }

  predicate AlwaysCareful(l: Life, es: seq<Event>)
    decreases |es|
  {
    es == [] || (Possible(l, es[0]) && CarefulEvent(l, es[0]) && AlwaysCareful(Next(l, es[0]), es[1..]))
  }

  lemma CarefulIsAllowed(orig: Config, l: Life, e: Event)
    requires Original(orig) && Sound(orig, l) && Possible(l, e) && CarefulEvent(l, e)
    ensures Allowed(orig, l, e)
  {
    hide Journal, Scan;
  }

  lemma {:induction false} CarefulLives(orig: Config, l: Life, es: seq<Event>)
    requires Original(orig) && orig.downmix < 10 && Sound(orig, l) && AlwaysCareful(l, es)
    ensures AlwaysAllowed(orig, l, es)
    decreases |es|
  {
    hide Sound, Next, Possible, CarefulEvent, Allowed, LosesNothing;
    if es != [] {
      CarefulIsAllowed(orig, l, es[0]);
      StepIsSound(orig, l, es[0]);
      CarefulLives(orig, Next(l, es[0]), es[1..]);
    }
  }

  /** Ends between begins suffice, as long as files can be opened and restores succeed: no crash loses the original. */
  lemma CareKeepsTheOriginal(orig: Config, es: seq<Event>, k: Life)
    requires Original(orig) && orig.downmix < 10
    requires var home := Up(Full(Durable(orig, None), Fresh())); Lives(home, es, k) && AlwaysCareful(home, es)
    ensures NeverLost(orig, Up(Full(Durable(orig, None), Fresh())), es) && Sound(orig, k)
  {
    hide NeverLost, AlwaysAllowed, AlwaysCareful, Sound, Lives;
    LifeBeginsSound(orig);
    CarefulLives(orig, Up(Full(Durable(orig, None), Fresh())), es);
    SettingSurvivesCrashes(orig, es, k);
  }

  // ---- a begin that finds a change which does not count as engaged ------------------------------------------------

  /**
   The request for 5.1 routing stays applied without counting as engaged.  A second begin on top of it takes the changed
   setting for the original: exactly then is the original lost, both from the journal and from memory.
   */
  lemma SecondBeginLosesTheOriginal(orig: Config, f: Full, b: Begin)
    requires orig.channel > 0 && Kept(orig, f) && !Idle(f.m, b)
    requires f.d.hw.channel > 0 && (b.opens || f.m.applied) && b.restores
    ensures Kept(orig, BeginCall(f, b).end) <==> f.d.hw == orig
    ensures !f.m.applied ==> f.d.hw == orig
  {
    hide Journal;
  }

  const HOME: Config := Config(LPCM, 8, 0)
  const ROUTED: Config := Config(AC3, 6, 0)

  /** Begin twice, die, and recover: the output stays on the coding that was asked for. */
  lemma TwoBeginsAndACrash()
    ensures var b := Begin(AskAc3, false, 8, true, true, false, HOME, true, ROUTED, true, true, LPCM, true);
            var f := BeginCall(Full(Durable(HOME, None), Fresh()), b).end;
            var g := BeginCall(f, b).end;
            Kept(HOME, f) && RecoverCall(g.d, Recovery(true, true, true, {8})).1.hw == ROUTED
  {
    hide Scan;
    WholeJournalReads(ROUTED);
  }

  // ---- the calls in place -----------------------------------------------------------------------------------------

  /** The setting, the journal file and the flags; `trace` is every durable state so far, `asked` every request. */
  class AudioOutput {
    var hw: Config
    var journal: Option<string>
    var engaged: bool
    var passthrough: bool
    var applied: bool
    var appliedCfg: Config
    var saved: Config
    ghost var trace: seq<Durable>
    ghost var asked: seq<Config>

    ghost function D(): Durable
      reads this
    {
      Durable(hw, journal)
    }

    ghost function F(): Full
      reads this
    {
      Full(D(), Memory(engaged, passthrough, applied, appliedCfg, saved))
    }

    constructor (d: Durable)
      ensures F() == Full(d, Fresh()) && trace == [] && asked == []
    {
      hw, journal := d.hw, d.journal;
      engaged, passthrough, applied, appliedCfg, saved := false, false, false, Config(0, 0, 0), Config(LPCM, 0, 0);
      trace, asked := [], [];
    }

    /** Asks the system for a setting; if that succeeds the output is as the system sees fit. */
    method Configure(c: Config, works: bool, landed: Config)
      modifies this`hw, this`trace, this`asked
      ensures asked == old(asked) + [c]
      ensures if works then hw == landed && trace == old(trace) + [D()] else hw == old(hw) && trace == old(trace)
    {
      asked := asked + [c];
      if works {
        hw := landed;
        trace := trace + [D()];
      }
    }

    method RemoveJournal()
      modifies this`journal, this`trace
      ensures journal == None && trace == old(trace) + [D()]
    {
      journal := None;
      trace := trace + [D()];
    }

    /** Opens the file anew and writes what was saved, character by character; nothing, if it cannot be opened. */
    method WriteJournal(opens: bool)
      modifies this`journal, this`trace
      ensures var text := Journal(saved);
              if opens then journal == Some(text) && trace == old(trace) + Written(old(D()), text, |text| + 1)
              else journal == old(journal) && trace == old(trace)
    {
      if !opens {
        return;
      }
      var text := Journal(saved);
      journal := Some("");
      trace := trace + [D()];
      assert text[..0] == "";
      assert Written(old(D()), text, 1) == Written(old(D()), text, 0) + [D()];
      for k := 0 to |text|
        invariant journal == Some(text[..k]) && hw == old(hw) && saved == old(saved)
        invariant trace == old(trace) + Written(old(D()), text, k + 1)
      {
        journal := Some(text[..k] + [text[k]]);
        assert text[..k] + [text[k]] == text[..k + 1];
        trace := trace + [D()];
      }
      assert text[..|text|] == text;
    }

    method End(restores: bool)
      modifies this
      ensures var o := EndCall(old(F()), restores); F() == o.end && trace == old(trace) + o.steps
      ensures asked == old(asked) + EndAsks(old(F()).m) && saved == old(saved)
    {
      hide Journal;
      passthrough := false;
      if !applied {
        engaged := false;
        RemoveJournal();
        return;
      }
      var back := saved.(channel := if saved.channel > 0 then saved.channel else 8);
      Configure(back, restores, back);
      engaged := false;
      applied := false;
      RemoveJournal();
    }

    /** Asks for what the mode wants, and keeps it or puts it back. */
    method BeginOutput(b: Begin)
      modifies this
      ensures F() == BeginCall(old(F()), b).end && trace == old(trace) + BeginCall(old(F()), b).steps
      ensures asked == old(asked) + BeginAsks(old(F()), b)
    {
      hide Journal, Written, Apply, Reverts, Wanted;
      var pass := IsPass(b.mode);
      if b.mode == Off || engaged || (pass && !b.requested) || (!pass && b.port < 6) || !b.readable {
        return;
      }
      saved := hw;
      WriteJournal(b.opens);
      RequestOutput(b);
    }

    /** The requests: over eight channels first if the mode asks for it. */
    method RequestOutput(b: Begin)
      modifies this
      ensures F() == Apply(old(F()), b).end && trace == old(trace) + Apply(old(F()), b).steps
      ensures asked == old(asked) + (if b.mode == Kick then [Config(LPCM, 8, 0)] else []) + [Wanted(b)]
                       + (if Reverts(b) && Changed(old(F()).m, b) then [Back(saved)] else [])
      ensures saved == old(saved)
    {
      hide EndCall, Request, Reverts, Wanted, Back;
      if b.mode == Kick {
        Configure(Config(LPCM, 8, 0), b.kickWorks, b.kicked);
        applied := applied || b.kickWorks;
      }
      RequestWanted(b);
    }

    /** The request for what the mode wants. */
    method RequestWanted(b: Begin)
      modifies this
      ensures F() == Request(old(F()), b).end && trace == old(trace) + Request(old(F()), b).steps
      ensures asked == old(asked) + [Wanted(b)]
                       + (if Reverts(b) && (old(applied) || b.works) then [Back(saved)] else [])
      ensures saved == old(saved)
    {
      hide EndCall, CodingFor, Judge, Reverts, Back;
      var want := Config(CodingFor(b.mode), if b.port >= 6 then 6 else b.port % 256, 0);
      if IsPass(b.mode) {
        want := want.(channel := 2);
      }
      Configure(want, b.works, b.landed);
      if b.works {
        applied, appliedCfg := true, want;
      }
      JudgeOutput(b);
    }

    /** What is made of the answers. */
    method JudgeOutput(b: Begin)
      modifies this
      requires b.works ==> hw == b.landed
      ensures F() == Judge(old(F()), b).end && trace == old(trace) + Judge(old(F()), b).steps
      ensures asked == old(asked) + (if Reverts(b) then EndAsks(old(F()).m) else []) && saved == old(saved)
    {
      hide EndCall, CodingFor;
      var after := if b.readsBack then hw.encoder else 0;
      if !b.works || after != CodingFor(b.mode) {
        End(b.restores);
        if b.mode == PassthroughForce {
          passthrough := true;
        }
      } else if IsPass(b.mode) {
        if (b.stateKnown && b.wireType != LPCM) || b.mode == PassthroughForce {
          passthrough, engaged := true, true;
        } else {
          End(b.restores);
        }
      } else if b.stateKnown && b.wireType != CodingFor(b.mode) {
        engaged := false;
      } else if b.stateKnown && (b.mode == AskAc3 || b.mode == AskDts) {
        End(b.restores);
      } else {
        engaged := true;
      }
    }

    /** A display mode change put the system's own setting back: asks again. */
    method Reassert(works: bool, landed: Config)
      modifies this`hw, this`trace, this`asked
      ensures var o := ReassertCall(old(F()), works, landed); F() == o.end && trace == old(trace) + o.steps
      ensures asked == old(asked) + ReassertAsks(old(F()).m)
    {
      if applied {
        Configure(appliedCfg, works, landed);
      }
    }

    method Recover(r: Recovery)
      modifies this`hw, this`journal, this`trace, this`asked
      ensures var o := RecoverCall(old(D()), r); D() == o.1 && trace == old(trace) + o.0
      ensures asked == old(asked) + RecoverAsks(old(D()), r)
    {
      hide Scan;
      if journal.Some? && r.opens {
        var s := Scan(journal.value);
        if s.Some? {
          var (enc, ch, dm) := s.value;
          var back := Config(enc % 256, if ch > 0 then ch % 256 else 8, dm);
          Configure(back, r.restores, back);
        }
        RemoveJournal();
        return;
      }
      if !r.readable || hw.encoder == LPCM {
        return;
      }
      TryWidths(r.accepts);
    }

    /** The widest LPCM that is taken. */
    method TryWidths(accepts: set<nat>)
      modifies this`hw, this`trace, this`asked
      ensures var w := Widest(accepts);
              if w.Some? then hw == Config(LPCM, w.value, 0) && trace == old(trace) + [D()]
              else hw == old(hw) && trace == old(trace)
      ensures asked == old(asked) + Widths(if 8 in accepts then 1 else if 6 in accepts then 2 else 3)
    {
      var widths, i, done := [8, 6, 2], 0, false;
      while i < 3 && !done
        invariant i <= 3 && asked == old(asked) + Widths(i)
        invariant !done ==> hw == old(hw) && trace == old(trace) && forall j :: 0 <= j < i ==> widths[j] !in accepts
        invariant done ==> i > 0 && widths[i - 1] in accepts && forall j :: 0 <= j < i - 1 ==> widths[j] !in accepts
        invariant done ==> hw == Config(LPCM, widths[i - 1], 0) && trace == old(trace) + [D()]
      {
        var c := Config(LPCM, widths[i], 0);
        done := widths[i] in accepts;
        Configure(c, done, c);
        assert Widths(i + 1) == Widths(i) + [c];
        i := i + 1;
      }
      assert widths[0] == 8 && widths[1] == 6 && widths[2] == 2;
    }
  }
}
