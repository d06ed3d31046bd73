// Sorted lists of initialised ticks and the search for the next one inside a 256 tick word.
module TickList {
  import opened Arith
  import opened Results

  datatype Tick = Tick(index: int, liquidityNet: int)

  // What validateList accepts: neighbours may be equal.
  predicate Sorted(ticks: seq<Tick>) {
    forall i, j :: 0 <= i < j < |ticks| ==> ticks[i].index <= ticks[j].index
  }

  predicate StrictlySorted(ticks: seq<Tick>) {
    forall i, j :: 0 <= i < j < |ticks| ==> ticks[i].index < ticks[j].index
  }

  predicate Spaced(ticks: seq<Tick>, spacing: int)
    requires spacing > 0
  {
    forall i :: 0 <= i < |ticks| ==> ticks[i].index % spacing == 0
  }

  // The query is not an index that occurs twice.
  predicate NotRepeated(ticks: seq<Tick>, tick: int) {
    forall i, j :: 0 <= i < j < |ticks| && ticks[j].index == tick ==> ticks[i].index != tick
  }

  predicate Initialised(ticks: seq<Tick>, tick: int) {
    exists i :: 0 <= i < |ticks| && ticks[i].index == tick
  }

  // i is the last position whose index does not exceed tick.
  predicate LastNotAbove(ticks: seq<Tick>, tick: int, i: int) {
    0 <= i < |ticks| && ticks[i].index <= tick && (i == |ticks| - 1 || tick < ticks[i + 1].index)
  }

  // ----- binary search -----

  datatype Probe = Found(i: nat) | OutOfBounds | Narrow(l: int, r: int)

  // One iteration of the loop from the interval l..r.
  function ProbeOnce(ticks: seq<Tick>, tick: int, l: int, r: int): Probe {
    var i := (l + r) / 2;
    if !(0 <= i < |ticks|) then OutOfBounds
    else if LastNotAbove(ticks, tick, i) then Found(i)
    else if ticks[i].index < tick then Narrow(i + 1, r)
    else Narrow(l, i - 1)
  }

  lemma {:induction false} LastNotAboveExists(ticks: seq<Tick>, tick: int) returns (i: nat)
    requires ticks != [] && ticks[0].index <= tick
    ensures LastNotAbove(ticks, tick, i)
    decreases |ticks|
  {
    var last := |ticks| - 1;
    if ticks[last].index <= tick {
      i := last;
    } else {
      i := LastNotAboveExists(ticks[..last], tick);
    }
  }

  // Terminates at the last tick not above the query.
  method BinarySearch(ticks: seq<Tick>, tick: int) returns (r: Result<nat>)
    requires Sorted(ticks) && NotRepeated(ticks, tick)
    ensures ticks == [] ==> r == Failure("LENGTH")
    ensures ticks != [] && tick < ticks[0].index ==> r == Failure("BELOW_SMALLEST")
    ensures ticks != [] && ticks[0].index <= tick ==> r.Success? && LastNotAbove(ticks, tick, r.value)
  {
    if ticks == [] {
      return Failure("LENGTH");
    }
    if tick < ticks[0].index {
      return Failure("BELOW_SMALLEST");
    }
    ghost var answer := LastNotAboveExists(ticks, tick);
    var low, high := 0, |ticks| - 1;
    while true
      invariant 0 <= low <= answer <= high < |ticks|
      decreases high - low
    {
      var i := (low + high) / 2;
      if ticks[i].index <= tick && (i == |ticks| - 1 || ticks[i + 1].index > tick) {
        return Success(i);
      }
      ghost var probe := ProbeOnce(ticks, tick, low, high);
      if ticks[i].index < tick {
        low := i + 1;
      } else {
        high := i - 1;
      }
      assert probe == Narrow(low, high);
    }
  }

  // The guard on repeated indices is needed: validateList accepts this list, yet the search for
  // its repeated index reaches an interval that it never leaves.
  lemma RepeatedIndexDiverges()
    ensures var ticks := [Tick(3, 1), Tick(5, 1), Tick(5, -1), Tick(5, -1)];
            && Sorted(ticks) && Spaced(ticks, 1)
            && ProbeOnce(ticks, 5, 0, 3) == Narrow(0, 0)
            && ProbeOnce(ticks, 5, 0, 0) == Narrow(1, 0)
            && ProbeOnce(ticks, 5, 1, 0) == Narrow(1, 0)
  {
    var ticks := [Tick(3, 1), Tick(5, 1), Tick(5, -1), Tick(5, -1)];
    assert ticks[0].index == 3 && ticks[1].index == 5 && ticks[2].index == 5;
  }

  // Positions a to b are those of one index.
  ghost predicate RunOf(ticks: seq<Tick>, tick: int, a: nat, b: nat) {
    a <= b < |ticks| && forall i :: 0 <= i < |ticks| ==> (ticks[i].index == tick <==> a <= i <= b)
  }

  // The first position inside a..b that halving the interval l..r lands on.
  function FirstInside(l: int, r: int, a: nat, b: nat): nat
    requires 0 <= l <= a <= b <= r
    decreases r - l
  {
    var i := (l + r) / 2;
    if i < a then FirstInside(i + 1, r, a, b) else if b < i then FirstInside(l, i - 1, a, b) else i
  }

  // The search after at most n probes.
  function Probes(ticks: seq<Tick>, tick: int, l: int, r: int, n: nat): Probe
    decreases n
  {
    if n == 0 then Narrow(l, r)
    else
      match ProbeOnce(ticks, tick, l, r)
      case Narrow(l', r') => Probes(ticks, tick, l', r', n - 1)
      case p => p
  }

  lemma OnlyTheLast(ticks: seq<Tick>, tick: int, a: nat, b: nat, i: int)
    requires Sorted(ticks) && RunOf(ticks, tick, a, b)
    ensures LastNotAbove(ticks, tick, i) <==> i == b
    ensures 0 <= i < |ticks| ==> (ticks[i].index < tick <==> i < a)
  {
    if b < i < |ticks| {
      assert ticks[b].index <= ticks[i].index;
    }
    if 0 <= i < b {
      assert ticks[i + 1].index <= ticks[b].index;
    }
    if 0 <= i < a {
      assert ticks[i].index <= ticks[a].index;
    }
  }

  // One probe into a list that has the run a..b.
  lemma ProbeRun(ticks: seq<Tick>, tick: int, a: nat, b: nat, l: int, r: int) returns (i: int)
    requires Sorted(ticks) && RunOf(ticks, tick, a, b) && 0 <= l <= a <= b <= r < |ticks|
    ensures l <= i <= r
    ensures ProbeOnce(ticks, tick, l, r) == if i == b then Found(b) else if i < a then Narrow(i + 1, r) else Narrow(l, i - 1)
    ensures FirstInside(l, r, a, b) ==
      if i < a then FirstInside(i + 1, r, a, b) else if b < i then FirstInside(l, i - 1, a, b) else i
  {
    i := (l + r) / 2;
    OnlyTheLast(ticks, tick, a, b, i);
    hide Sorted, RunOf, LastNotAbove;
  }

  lemma ProbesNext(ticks: seq<Tick>, tick: int, l: int, r: int, n: nat)
    ensures var p := ProbeOnce(ticks, tick, l, r);
      Probes(ticks, tick, l, r, n + 1) == if p.Narrow? then Probes(ticks, tick, p.l, p.r, n) else p
  {
    hide ProbeOnce;
  }

  lemma ProbeFirst(ticks: seq<Tick>, tick: int, l: int, r: int, l': int, r': int, n: nat, m: nat, b: nat)
    requires ProbeOnce(ticks, tick, l, r) == Narrow(l', r') && Probes(ticks, tick, l', r', n) == Found(b) && n <= m
    ensures Probes(ticks, tick, l, r, m + 1) == Found(b)
  {
    hide ProbeOnce;
    ProbesNext(ticks, tick, l, r, m);
    MoreProbes(ticks, tick, l', r', n, m);
  }

  lemma {:induction false} LandsOnLast(ticks: seq<Tick>, tick: int, a: nat, b: nat, l: int, r: int)
    requires Sorted(ticks) && RunOf(ticks, tick, a, b) && 0 <= l <= a <= b <= r < |ticks|
    requires FirstInside(l, r, a, b) == b
    ensures Probes(ticks, tick, l, r, r - l + 1) == Found(b)
    decreases r - l
  {
    hide *;
    var i := ProbeRun(ticks, tick, a, b, l, r);
    if i < a {
      LandsOnLast(ticks, tick, a, b, i + 1, r);
      ProbeFirst(ticks, tick, l, r, i + 1, r, r - i, r - l, b);
    } else if b < i {
      LandsOnLast(ticks, tick, a, b, l, i - 1);
      ProbeFirst(ticks, tick, l, r, l, i - 1, i - l, r - l, b);
    } else {
      ProbesNext(ticks, tick, l, r, r - l);
    }
  }

  lemma {:induction false} MoreProbes(ticks: seq<Tick>, tick: int, l: int, r: int, n: nat, m: nat)
    requires n <= m && Probes(ticks, tick, l, r, n).Found?
    ensures Probes(ticks, tick, l, r, m) == Probes(ticks, tick, l, r, n)
    decreases n
  {
    hide ProbeOnce;
    match ProbeOnce(ticks, tick, l, r)
    case Narrow(l', r') => MoreProbes(ticks, tick, l', r', n - 1, m - 1);
    case _ =>
  }

  // Once the interval lies left of the last position, the search never returns.
  lemma {:induction false} NeverBack(ticks: seq<Tick>, tick: int, a: nat, b: nat, l: int, r: int, n: nat)
    requires Sorted(ticks) && RunOf(ticks, tick, a, b) && r <= b - 2 && l <= r + 2
    ensures !Probes(ticks, tick, l, r, n).Found?
    decreases n
  {
    assert a <= b < |ticks|;
    hide Sorted, RunOf, LastNotAbove;
    var i := (l + r) / 2;
    OnlyTheLast(ticks, tick, a, b, i);
    if n > 0 {
      match ProbeOnce(ticks, tick, l, r)
      case Narrow(l', r') => NeverBack(ticks, tick, a, b, l', r', n - 1);
      case _ =>
    }
  }

  lemma {:induction false} LandsElsewhere(ticks: seq<Tick>, tick: int, a: nat, b: nat, l: int, r: int, n: nat)
    requires Sorted(ticks) && RunOf(ticks, tick, a, b) && 0 <= l <= a <= b <= r < |ticks|
    requires FirstInside(l, r, a, b) != b
    ensures !Probes(ticks, tick, l, r, n).Found?
    decreases r - l
  {
    hide Sorted, RunOf, ProbeOnce, FirstInside;
    if n > 0 {
      var i := ProbeRun(ticks, tick, a, b, l, r);
      if i < a {
        LandsElsewhere(ticks, tick, a, b, i + 1, r, n - 1);
      } else if b < i {
        LandsElsewhere(ticks, tick, a, b, l, i - 1, n - 1);
      } else {
        NeverBack(ticks, tick, a, b, l, i - 1, n - 1);
      }
    }
  }

  predicate ReturnsWithin(ticks: seq<Tick>, tick: int, n: nat) {
    Probes(ticks, tick, 0, |ticks| - 1, n).Found?
  }

  // On every sorted list, repeated indices included, the search for an initialised tick returns, with
  // the last position of its index, if and only if the first probe to land among the positions of
  // that index lands on the last of them. An index that occurs once meets this by itself.
  lemma SearchReturnsExactly(ticks: seq<Tick>, tick: int, a: nat, b: nat)
    requires Sorted(ticks) && RunOf(ticks, tick, a, b)
    ensures (exists n :: ReturnsWithin(ticks, tick, n)) <==> FirstInside(0, |ticks| - 1, a, b) == b
    ensures FirstInside(0, |ticks| - 1, a, b) == b ==> Probes(ticks, tick, 0, |ticks| - 1, |ticks|) == Found(b)
    ensures a == b ==> FirstInside(0, |ticks| - 1, a, b) == b
  {
    if FirstInside(0, |ticks| - 1, a, b) == b {
      LandsOnLast(ticks, tick, a, b, 0, |ticks| - 1);
      assert ReturnsWithin(ticks, tick, |ticks|);
    } else {
      forall n ensures !ReturnsWithin(ticks, tick, n) {
        LandsElsewhere(ticks, tick, a, b, 0, |ticks| - 1, n);
      }
    }
    InsideIsInside(0, |ticks| - 1, a, b);
  }

  lemma {:induction false} InsideIsInside(l: int, r: int, a: nat, b: nat)
    requires 0 <= l <= a <= b <= r
    ensures a <= FirstInside(l, r, a, b) <= b
    decreases r - l
  {
    var i := (l + r) / 2;
    if i < a {
      InsideIsInside(i + 1, r, a, b);
    } else if b < i {
      InsideIsInside(l, i - 1, a, b);
    }
  }

  method NextInitializedTick(ticks: seq<Tick>, tick: int, lte: bool) returns (r: Result<Tick>)
    requires StrictlySorted(ticks)
    ensures ticks == [] ==> r == Failure("LENGTH")
    ensures r.Success? ==> r.value in ticks
    ensures lte && ticks != [] && ticks[0].index <= tick ==> r.Success? && r.value.index <= tick
    ensures lte && ticks != [] && tick < ticks[0].index ==> r == Failure("BELOW_SMALLEST")
    ensures lte && r.Success? ==> forall t :: r.value.index < t <= tick ==> !Initialised(ticks, t)
    ensures !lte && ticks != [] && tick < ticks[|ticks| - 1].index ==> r.Success? && tick < r.value.index
    ensures !lte && ticks != [] && ticks[|ticks| - 1].index <= tick ==> r == Failure("AT_OR_ABOVE_LARGEST")
    ensures !lte && r.Success? ==> forall t :: tick < t < r.value.index ==> !Initialised(ticks, t)
  {
    if ticks == [] {
      return Failure("LENGTH");
    }
    if lte {
      if tick < ticks[0].index {
        return Failure("BELOW_SMALLEST");
      }
      if tick >= ticks[|ticks| - 1].index {
        return Success(ticks[|ticks| - 1]);
      }
      var index := BinarySearch(ticks, tick);
      r := Success(ticks[index.value]);
    } else {
      if tick >= ticks[|ticks| - 1].index {
        return Failure("AT_OR_ABOVE_LARGEST");
      }
      if tick < ticks[0].index {
        return Success(ticks[0]);
      }
      var index := BinarySearch(ticks, tick);
      r := Success(ticks[index.value + 1]);
    }
  }

  method GetTick(ticks: seq<Tick>, index: int) returns (r: Result<Tick>)
    requires StrictlySorted(ticks)
    ensures r.Success? <==> Initialised(ticks, index)
    ensures r.Success? ==> r.value in ticks && r.value.index == index
  {
    var i := BinarySearch(ticks, index);
    if i.Failure? {
      return Failure(i.error);
    }
    if ticks[i.value].index != index {
      return Failure("NOT_CONTAINED");
    }
    r := Success(ticks[i.value]);
  }

  // ----- one word -----

  // Linear scan of the compressed ticks from c down to the start of its word.
  function ScanDown(ticks: seq<Tick>, spacing: int, c: int, start: int): (int, bool)
    requires start <= c
    decreases c - start
  {
    if Initialised(ticks, c * spacing) then (c * spacing, true)
    else if c == start then (c * spacing, false)
    else ScanDown(ticks, spacing, c - 1, start)
  }

  // Linear scan of the compressed ticks from c up to the end of its word.
  function ScanUp(ticks: seq<Tick>, spacing: int, c: int, end: int): (int, bool)
    requires c <= end
    decreases end - c
  {
    if Initialised(ticks, c * spacing) then (c * spacing, true)
    else if c == end then (c * spacing, false)
    else ScanUp(ticks, spacing, c + 1, end)
  }

  // What the on-chain bitmap answers: the next initialised tick of the word, or its boundary.
  function NextInWord(ticks: seq<Tick>, tick: int, lte: bool, spacing: int): (int, bool)
    requires spacing > 0
  {
    var c := tick / spacing;
    if lte then ScanDown(ticks, spacing, c, c / 256 * 256)
    else ScanUp(ticks, spacing, c + 1, (c + 1) / 256 * 256 + 255)
  }

  lemma {:induction false} ScanDownFinds(ticks: seq<Tick>, spacing: int, c: int, start: int, target: int)
    requires start <= target <= c && spacing > 0
    requires forall d :: target < d <= c ==> !Initialised(ticks, d * spacing)
    requires target == start || Initialised(ticks, target * spacing)
    ensures ScanDown(ticks, spacing, c, start) == (target * spacing, Initialised(ticks, target * spacing))
    decreases c - start
  {
    if target < c {
      ScanDownFinds(ticks, spacing, c - 1, start, target);
    }
  }

  lemma {:induction false} ScanUpFinds(ticks: seq<Tick>, spacing: int, c: int, end: int, target: int)
    requires c <= target <= end && spacing > 0
    requires forall d :: c <= d < target ==> !Initialised(ticks, d * spacing)
    requires target == end || Initialised(ticks, target * spacing)
    ensures ScanUp(ticks, spacing, c, end) == (target * spacing, Initialised(ticks, target * spacing))
    decreases end - c
  {
    if c < target {
      ScanUpFinds(ticks, spacing, c + 1, end, target);
    }
  }

  lemma Compressed(tick: int, spacing: int, d: int)
    requires spacing > 0
    ensures d <= tick / spacing <==> d * spacing <= tick
    ensures tick / spacing < d <==> tick < d * spacing
  {
    FloorGalois(tick, spacing, d);
  }

  lemma SpacedIndex(ticks: seq<Tick>, spacing: int, t: int)
    requires spacing > 0 && Spaced(ticks, spacing) && Initialised(ticks, t)
    ensures t == t / spacing * spacing
  {
    var i :| 0 <= i < |ticks| && ticks[i].index == t;
    DivBounds(t, spacing);
  }

  // Multiples compare as their factors do.
  lemma Factors(a: int, b: int, spacing: int)
    requires spacing > 0
    ensures a < b <==> a * spacing < b * spacing
  {
    if a < b {
      MulStrict(a, b, spacing);
    } else {
      MulMono(b, a, spacing);
    }
  }

  lemma FactorsForall(a: int, spacing: int)
    requires spacing > 0
    ensures forall b :: a < b <==> a * spacing < b * spacing
    ensures forall b :: b < a <==> b * spacing < a * spacing
  {
    forall b ensures (a < b <==> a * spacing < b * spacing) && (b < a <==> b * spacing < a * spacing) {
      Factors(a, b, spacing);
      Factors(b, a, spacing);
    }
  }

  lemma CompressedForall(tick: int, spacing: int)
    requires spacing > 0
    ensures forall d :: d <= tick / spacing <==> d * spacing <= tick
  {
    forall d ensures d <= tick / spacing <==> d * spacing <= tick {
      Compressed(tick, spacing, d);
    }
  }

  // The last initialised tick at or below the query, clamped to the word, is what the scan finds.
  lemma ClampDown(ticks: seq<Tick>, tick: int, spacing: int, index: int)
    requires spacing > 0 && Spaced(ticks, spacing) && Initialised(ticks, index) && index <= tick
    requires forall t :: index < t <= tick ==> !Initialised(ticks, t)
    ensures var minimum := tick / spacing / 256 * 256 * spacing;
            var next := if minimum > index then minimum else index;
            NextInWord(ticks, tick, true, spacing) == (next, next == index)
  {
    var start, d := tick / spacing / 256 * 256, index / spacing;
    SpacedIndex(ticks, spacing, index);
    CompressedForall(tick, spacing);
    FactorsForall(start, spacing);
    FactorsForall(d, spacing);
    ScanDownFinds(ticks, spacing, tick / spacing, start, if start > d then start else d);
  }

  lemma NoneBelow(ticks: seq<Tick>, tick: int, spacing: int)
    requires spacing > 0 && forall t :: t <= tick ==> !Initialised(ticks, t)
    ensures NextInWord(ticks, tick, true, spacing) == (tick / spacing / 256 * 256 * spacing, false)
  {
    var start := tick / spacing / 256 * 256;
    CompressedForall(tick, spacing);
    ScanDownFinds(ticks, spacing, tick / spacing, start, start);
  }

  lemma ClampUp(ticks: seq<Tick>, tick: int, spacing: int, index: int)
    requires spacing > 0 && Spaced(ticks, spacing) && Initialised(ticks, index) && tick < index
    requires forall t :: tick < t < index ==> !Initialised(ticks, t)
    ensures var maximum := (((tick / spacing + 1) / 256 + 1) * 256 - 1) * spacing;
            var next := if maximum < index then maximum else index;
            NextInWord(ticks, tick, false, spacing) == (next, next == index)
  {
    var c := tick / spacing + 1;
    var end, d := c / 256 * 256 + 255, index / spacing;
    SpacedIndex(ticks, spacing, index);
    CompressedForall(tick, spacing);
    FactorsForall(end, spacing);
    FactorsForall(d, spacing);
    ScanUpFinds(ticks, spacing, c, end, if end < d then end else d);
  }

  lemma NoneAbove(ticks: seq<Tick>, tick: int, spacing: int)
    requires spacing > 0 && forall t :: tick < t ==> !Initialised(ticks, t)
    ensures NextInWord(ticks, tick, false, spacing) == ((((tick / spacing + 1) / 256 + 1) * 256 - 1) * spacing, false)
  {
    var c := tick / spacing + 1;
    CompressedForall(tick, spacing);
    ScanUpFinds(ticks, spacing, c, c / 256 * 256 + 255, c / 256 * 256 + 255);
  }

  // The binary search clamped to the word answers exactly like a linear scan of the word.
  method NextInitializedTickWithinOneWord(ticks: seq<Tick>, tick: int, lte: bool, spacing: int)
    returns (r: Result<(int, bool)>)
    requires spacing > 0 && StrictlySorted(ticks) && Spaced(ticks, spacing)
    ensures r == if ticks == [] then Failure("LENGTH") else Success(NextInWord(ticks, tick, lte, spacing))
  {
    if ticks == [] {
      return Failure("LENGTH");
    }
    hide NextInWord, Spaced;
    var compressed := tick / spacing;
    if lte {
      var wordPos := compressed / 256;
      var minimum := wordPos * 256 * spacing;
      if tick < ticks[0].index {
        NoneBelow(ticks, tick, spacing);
        return Success((minimum, false));
      }
      var next := NextInitializedTick(ticks, tick, lte);
      var index := next.value.index;
      ClampDown(ticks, tick, spacing, index);
      var nextInitializedTick := if minimum > index then minimum else index;
      r := Success((nextInitializedTick, nextInitializedTick == index));
    } else {
      var wordPos := (compressed + 1) / 256;
      var maximum := ((wordPos + 1) * 256 - 1) * spacing;
      if tick >= ticks[|ticks| - 1].index {
        NoneAbove(ticks, tick, spacing);
        return Success((maximum, false));
      }
      var next := NextInitializedTick(ticks, tick, lte);
      var index := next.value.index;
      ClampUp(ticks, tick, spacing, index);
      var nextInitializedTick := if maximum < index then maximum else index;
      r := Success((nextInitializedTick, nextInitializedTick == index));
    }
  }

  // The scan never skips an initialised tick, always moves in its direction, and stops at the edge of the
  // word of 256 compressed ticks: the tick's own word going down, that of the compressed tick after it
  // going up.
  lemma NextInWordSound(ticks: seq<Tick>, tick: int, lte: bool, spacing: int)
    requires spacing > 0 && Spaced(ticks, spacing)
    ensures var (next, initialised) := NextInWord(ticks, tick, lte, spacing);
            && initialised == Initialised(ticks, next)
            && (lte ==> next <= tick && forall t :: next < t <= tick ==> !Initialised(ticks, t))
            && (!lte ==> tick < next && forall t :: tick < t < next ==> !Initialised(ticks, t))
            && var edge := if lte then tick / spacing / 256 * 256 * spacing else ((tick / spacing + 1) / 256 * 256 + 255) * spacing;
               (if lte then edge <= next else next <= edge) && (!initialised ==> next == edge)
  {
    var c := tick / spacing;
    var (next, initialised) := NextInWord(ticks, tick, lte, spacing);
    CompressedForall(tick, spacing);
    if lte {
      var d := ScanDownSound(ticks, spacing, c, c / 256 * 256);
      MulMono(c / 256 * 256, d, spacing);
      FactorsForall(d, spacing);
      forall t | next < t <= tick ensures !Initialised(ticks, t) {
        if Initialised(ticks, t) {
          SpacedIndex(ticks, spacing, t);
        }
      }
    } else {
      var d := ScanUpSound(ticks, spacing, c + 1, (c + 1) / 256 * 256 + 255);
      MulMono(d, (c + 1) / 256 * 256 + 255, spacing);
      FactorsForall(d, spacing);
      forall t | tick < t < next ensures !Initialised(ticks, t) {
        if Initialised(ticks, t) {
          SpacedIndex(ticks, spacing, t);
        }
      }
    }
  }

  lemma {:induction false} ScanDownSound(ticks: seq<Tick>, spacing: int, c: int, start: int) returns (d: int)
    requires start <= c
    ensures start <= d <= c && ScanDown(ticks, spacing, c, start) == (d * spacing, Initialised(ticks, d * spacing))
    ensures forall e :: d < e <= c ==> !Initialised(ticks, e * spacing)
    ensures Initialised(ticks, d * spacing) || d == start
    decreases c - start
  {
    d := c;
    if !Initialised(ticks, c * spacing) && start < c {
      d := ScanDownSound(ticks, spacing, c - 1, start);
    }
  }

  lemma {:induction false} ScanUpSound(ticks: seq<Tick>, spacing: int, c: int, end: int) returns (d: int)
    requires c <= end
    ensures c <= d <= end && ScanUp(ticks, spacing, c, end) == (d * spacing, Initialised(ticks, d * spacing))
    ensures forall e :: c <= e < d ==> !Initialised(ticks, e * spacing)
    ensures Initialised(ticks, d * spacing) || d == end
    decreases end - c
  {
    d := c;
    if !Initialised(ticks, c * spacing) && c < end {
      d := ScanUpSound(ticks, spacing, c + 1, end);
    }
  }
}
