/**
  The fish program's blinking characters as an abstract list: add is cons, remove and find
  act on the first element with a location, and a timer tick counts every element down by
  one.  All fields are 16 bits wide and the countdown is compared as a signed number.
 */
module BlinkSpec {
  import opened Arithmetic

  type Word16 = w: int | 0 <= w < 0x1_0000

  const SCREEN: nat := 80 * 25

  datatype Blink = Blink(location: Word16, onChar: int, offChar: int, onLength: Word16, offLength: Word16,
                         countdown: Word16, status: Word16)
  {
    predicate IsOn() {
      status % 2 == 1
    }
  }

  datatype Op =
    | Add(b: Blink)
    | Remove(location: Word16)
    | Find(location: Word16)
    | Sync(source: Word16, target: Word16)
    | Tick

  // ------------------------------------------------------------------ one element

  /** A new element starts in its on phase. */
  function Started(b: Blink): Blink {
    b.(status := 1, countdown := b.onLength)
  }

  function Decremented(w: Word16): Word16 {
    if w == 0 then 0xFFFF else w - 1
  }

  /** The word read as a signed number is positive. */
  predicate SignedPositive(w: Word16) {
    0 < w < 0x8000
  }

  function Flipped(status: Word16): Word16 {
    if status % 2 == 1 then status - 1 else status + 1
  }

  function Ticked(b: Blink): Blink {
    var c := Decremented(b.countdown);
    if SignedPositive(c) then b.(countdown := c)
    else b.(countdown := if b.IsOn() then b.offLength else b.onLength, status := Flipped(b.status))
  }

  function TickedTimes(b: Blink, k: nat): Blink {
    if k == 0 then b else Ticked(TickedTimes(b, k - 1))
  }

  // ------------------------------------------------------------------ the list

  /** Index of the first element with the location, or the length. */
  function FirstAt(l: seq<Blink>, location: Word16): (i: nat)
    ensures i <= |l|
    ensures i < |l| ==> l[i].location == location
    ensures forall j | 0 <= j < i :: l[j].location != location
  {
    if l == [] || l[0].location == location then 0 else 1 + FirstAt(l[1..], location)
  }

  predicate Accepts(l: seq<Blink>, b: Blink) {
    b.location < SCREEN && |l| < SCREEN
  }

  function Removed(l: seq<Blink>, location: Word16): seq<Blink> {
    var i := FirstAt(l, location);
    if i == |l| then l else l[..i] + l[i + 1..]
  }

  /** The four timing fields of `target` become those of `source`. */
  function Synced(source: Blink, target: Blink): Blink {
    target.(onLength := source.onLength, offLength := source.offLength, countdown := source.countdown,
            status := source.status)
  }

  function TickedAll(l: seq<Blink>): (r: seq<Blink>)
    ensures |r| == |l|
  {
    seq(|l|, i requires 0 <= i < |l| => Ticked(l[i]))
  }

  function Apply(l: seq<Blink>, op: Op): seq<Blink> {
    match op
    case Add(b) => if Accepts(l, b) then [Started(b)] + l else l
    case Remove(location) => Removed(l, location)
    case Find(_) => l
    case Sync(source, target) =>
      var i, j := FirstAt(l, source), FirstAt(l, target);
      if i == |l| || j == |l| then l else l[j := Synced(l[i], l[j])]
    case Tick => TickedAll(l)
  }

  function Run(l: seq<Blink>, ops: seq<Op>): seq<Blink> {
    if ops == [] then l else Apply(Run(l, ops[..|ops| - 1]), ops[|ops| - 1])
  }

  // ------------------------------------------------------------------ the closed form of blinking

  /** How many ticks a phase of the given length lasts: lengths the signed test rejects last one tick. */
  function Phase(length: Word16): nat {
    if 1 <= length <= 0x8000 then length else 1
  }

  /** After `k` ticks of an element added with these lengths: the phase it is in and the ticks left in it. */
  ghost predicate InPhase(b: Blink, start: Blink, k: nat) {
    var on, off := Phase(start.onLength), Phase(start.offLength);
    var m := k % (on + off);
    && b.onLength == start.onLength && b.offLength == start.offLength
    && b.status == (if m < on then 1 else 0)
    && Phase(b.countdown) == if m < on then on - m else on + off - m
  }

  lemma TickAdvances(b: Blink, start: Blink, k: nat)
    requires InPhase(b, start, k)
    ensures InPhase(Ticked(b), start, k + 1)
  {
    var on, off := Phase(start.onLength), Phase(start.offLength);
    CycleStep(k, on + off - 1);
  }

  lemma {:induction false} AlwaysInPhase(b: Blink, k: nat)
    ensures InPhase(TickedTimes(Started(b), k), b, k)
  {
    if k == 0 {
      SmallModulo(0, Phase(b.onLength) + Phase(b.offLength));
    } else {
      AlwaysInPhase(b, k - 1);
      TickAdvances(TickedTimes(Started(b), k - 1), b, k - 1);
    }
  }

  /**
    Main result: for all 16-bit lengths, the state after `k` ticks in closed form; a length of 0 or of more than
    0x8000 counts as one tick.
   */
  lemma BlinkClosedForm(b: Blink, k: nat)
    ensures var on: nat := if 1 <= b.onLength <= 0x8000 then b.onLength else 1;
            var off: nat := if 1 <= b.offLength <= 0x8000 then b.offLength else 1;
            && on == Phase(b.onLength) && off == Phase(b.offLength)
            && (TickedTimes(Started(b), k).status % 2 == 1 <==> k % (on + off) < on)
    ensures TickedTimes(Started(b), k).IsOn() <==>
            k % (Phase(b.onLength) + Phase(b.offLength)) < Phase(b.onLength)
  {
    AlwaysInPhase(b, k);
  }

  // ------------------------------------------------------------------ laws of the list

  lemma FirstAtIs(l: seq<Blink>, location: Word16, i: nat)
    requires i <= |l| && (forall j | 0 <= j < i :: l[j].location != location)
    requires i < |l| ==> l[i].location == location
    ensures FirstAt(l, location) == i
  {
  }

  /** Removing what was just added gives the old list back. */
  lemma RemoveUndoesAdd(l: seq<Blink>, b: Blink)
    requires Accepts(l, b)
    ensures Apply(Apply(l, Add(b)), Remove(b.location)) == l
  {
  }

  /** The operation leaves the element that a lookup of `location` finds alone, apart from ticking it. */
  predicate Spares(op: Op, location: Word16) {
    match op
    case Add(b) => b.location != location
    case Remove(x) => x != location
    case Find(_) => true
    case Sync(_, target) => target != location
    case Tick => true
  }

  function Ticks(ops: seq<Op>): nat {
    if ops == [] then 0 else Ticks(ops[..|ops| - 1]) + if ops[|ops| - 1].Tick? then 1 else 0
  }

  /** What a lookup of `location` finds. */
  predicate Finds(l: seq<Blink>, location: Word16, b: Blink) {
    var i := FirstAt(l, location);
    i < |l| && l[i] == b
  }

  lemma RemovedSpares(l: seq<Blink>, x: Word16, location: Word16, b: Blink)
    requires Finds(l, location, b) && x != location
    ensures Finds(Removed(l, x), location, b)
  {
    var i, k, r := FirstAt(l, x), FirstAt(l, location), Removed(l, x);
    if i < k {
      assert r[k - 1] == l[k];
      FirstAtIs(r, location, k - 1);
    } else {
      FirstAtIs(r, location, k);
    }
  }

  lemma SparedStep(l: seq<Blink>, op: Op, location: Word16, b: Blink)
    requires Finds(l, location, b) && Spares(op, location)
    ensures Finds(Apply(l, op), location, if op.Tick? then Ticked(b) else b)
  {
    var k, r := FirstAt(l, location), Apply(l, op);
    match op
    case Add(c) =>
      if Accepts(l, c) {
        FirstAtIs(r, location, k + 1);
      }
    case Remove(x) => RemovedSpares(l, x, location, b);
    case Find(_) =>
    case Sync(_, _) => FirstAtIs(r, location, k);
    case Tick => FirstAtIs(r, location, k);
  }

  /**
    Main result: through any run that does not aim at its location, an element only ages by
    the ticks of the run, whatever happens to the others.
   */
  lemma {:induction false} AgesByTicksAlone(l: seq<Blink>, ops: seq<Op>, location: Word16, b: Blink)
    requires Finds(l, location, b) && forall op | op in ops :: Spares(op, location)
    ensures Finds(Run(l, ops), location, TickedTimes(b, Ticks(ops)))
  {
    if ops != [] {
      var before, op := ops[..|ops| - 1], ops[|ops| - 1];
      AgesByTicksAlone(l, before, location, b);
      SparedStep(Run(l, before), op, location, TickedTimes(b, Ticks(before)));
    }
  }

  /** Both together: what a lookup shows after an add and any such run. */
  lemma BlinksAsAdded(l: seq<Blink>, b: Blink, ops: seq<Op>)
    requires Accepts(l, b) && forall op | op in ops :: Spares(op, b.location)
    ensures var r := Run(Apply(l, Add(b)), ops); var i := FirstAt(r, b.location);
            && i < |r| && (r[i].IsOn() <==> Ticks(ops) % (Phase(b.onLength) + Phase(b.offLength)) < Phase(b.onLength))
            && r[i].onChar == b.onChar && r[i].offChar == b.offChar && r[i].location == b.location
            && r[i].onLength == b.onLength && r[i].offLength == b.offLength
  {
    FirstAtIs(Apply(l, Add(b)), b.location, 0);
    AgesByTicksAlone(Apply(l, Add(b)), ops, b.location, Started(b));
    BlinkClosedForm(b, Ticks(ops));
    AlwaysInPhase(b, Ticks(ops));
    CharactersStay(Started(b), Ticks(ops));
  }

  // ------------------------------------------------------------------ synchronising

  predicate SameTiming(a: Blink, b: Blink) {
    && a.onLength == b.onLength && a.offLength == b.offLength
    && a.countdown == b.countdown && a.status == b.status
  }

  lemma {:induction false} TimingStaysTheSame(a: Blink, b: Blink, k: nat)
    requires SameTiming(a, b)
    ensures SameTiming(TickedTimes(a, k), TickedTimes(b, k))
  {
    if k > 0 {
      TimingStaysTheSame(a, b, k - 1);
    }
  }

  /** Main result: from a sync on, source and target go on and off together, until one is aimed at again. */
  lemma SyncedBlinkTogether(l: seq<Blink>, source: Word16, target: Word16, ops: seq<Op>)
    requires FirstAt(l, source) < |l| && FirstAt(l, target) < |l|
    requires forall op | op in ops :: Spares(op, source) && Spares(op, target)
    ensures var r := Run(Apply(l, Sync(source, target)), ops);
            && FirstAt(r, source) < |r| && FirstAt(r, target) < |r|
            && SameTiming(r[FirstAt(r, source)], r[FirstAt(r, target)])
            && r[FirstAt(r, target)].onChar == l[FirstAt(l, target)].onChar
            && r[FirstAt(r, target)].offChar == l[FirstAt(l, target)].offChar
  {
    var b := Synced(l[FirstAt(l, source)], l[FirstAt(l, target)]);
    var m := Apply(l, Sync(source, target));
    FirstAtIs(m, source, FirstAt(l, source));
    FirstAtIs(m, target, FirstAt(l, target));
    AgesByTicksAlone(m, ops, source, m[FirstAt(l, source)]);
    AgesByTicksAlone(m, ops, target, b);
    TimingStaysTheSame(m[FirstAt(l, source)], b, Ticks(ops));
    CharactersStay(b, Ticks(ops));
  }

  lemma {:induction false} CharactersStay(b: Blink, k: nat)
    ensures TickedTimes(b, k).onChar == b.onChar && TickedTimes(b, k).offChar == b.offChar
  {
    if k > 0 {
      CharactersStay(b, k - 1);
    }
  }
}
