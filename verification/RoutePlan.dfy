// Compiling a trade into Universal Router commands, and what the commands then do.
module RoutePlan {
  import opened Results
  import opened RouterMachine
  import opened Sequences

  // ----- sections of a mixed route -----

  // The loop of partitionMixedRouteByProtocol after some pools: finished sections and the current one.
  function Scan(pools: seq<Pool>): (r: (seq<seq<Pool>>, seq<Pool>))
    ensures pools != [] ==> r.1 != []
  {
    if pools == [] then ([], [])
    else
      var (sections, current) := Scan(pools[..|pools| - 1]);
      var pool := pools[|pools| - 1];
      if |pools| == 1 || pool.CLPool? == pools[|pools| - 2].CLPool? then (sections, current + [pool])
      else (sections + [current], [pool])
  }

  function Sections(pools: seq<Pool>): seq<seq<Pool>> {
    var (sections, current) := Scan(pools);
    if current == [] then sections else sections + [current]
  }

  ghost predicate Runs(sections: seq<seq<Pool>>) {
    && (forall k :: 0 <= k < |sections| ==> sections[k] != [] && Uniform(sections[k]))
    && forall k :: 0 <= k < |sections| - 1 ==> sections[k][0].CLPool? != sections[k + 1][0].CLPool?
  }

  lemma {:induction false} ScanIsPartition(pools: seq<Pool>)
    ensures var (sections, current) := Scan(pools);
      && Flat(sections) + current == pools
      && (pools != [] ==> Runs(sections + [current]) && current[0].CLPool? == pools[|pools| - 1].CLPool?)
  {
    if pools != [] {
      var before, pool := pools[..|pools| - 1], pools[|pools| - 1];
      ScanIsPartition(before);
      var (sections, current) := Scan(before);
      FlatAppend(sections, current);
      assert before + [pool] == pools;
      if |pools| > 1 {
        assert before[|before| - 1] == pools[|pools| - 2];
        RunsGrow(sections, current, pool);
      } else {
        assert sections == [] && current == [];
        assert Runs([[pool]]);
        assert sections + [current + [pool]] == [[pool]];
      }
    }
  }

  lemma RunsGrow(sections: seq<seq<Pool>>, current: seq<Pool>, pool: Pool)
    requires current != [] && Runs(sections + [current])
    ensures pool.CLPool? == current[0].CLPool? ==> Runs(sections + [current + [pool]])
    ensures pool.CLPool? != current[0].CLPool? ==> Runs(sections + [current] + [[pool]])
  {
    var all := sections + [current];
    assert all[|sections|] == current;
    if pool.CLPool? == current[0].CLPool? {
      var grown: seq<seq<Pool>> := sections + [current + [pool]];
      forall k | 0 <= k < |grown| ensures grown[k] != [] && Uniform(grown[k]) && grown[k][0] == all[k][0] {
        assert k < |sections| ==> grown[k] == all[k];
      }
    } else {
      var grown: seq<seq<Pool>> := all + [[pool]];
      forall k | 0 <= k < |grown| ensures grown[k] != [] && Uniform(grown[k]) {
        assert k < |all| ==> grown[k] == all[k];
      }
      forall k | 0 <= k < |grown| - 1 ensures grown[k][0].CLPool? != grown[k + 1][0].CLPool? {
        assert grown[k] == all[k] && (k + 1 < |all| ==> grown[k + 1] == all[k + 1]);
      }
    }
  }

  // The sections are the pools in order, cut where the protocol changes and nowhere else.
  lemma SectionsPartition(pools: seq<Pool>)
    ensures Flat(Sections(pools)) == pools && Runs(Sections(pools)) && (pools != [] ==> Sections(pools) != [])
  {
    ScanIsPartition(pools);
    var (sections, current) := Scan(pools);
    FlatAppend(sections, current);
    if pools == [] { assert Sections(pools) == []; }
  }

  method PartitionMixedRouteByProtocol(pools: seq<Pool>) returns (sections: seq<seq<Pool>>)
    ensures sections == Sections(pools)
  {
    sections := [];
    var current: seq<Pool> := [];
    var currentIsCL: Option<bool> := None;
    var i := 0;
    while i < |pools|
      invariant 0 <= i <= |pools| && (sections, current) == Scan(pools[..i])
      invariant currentIsCL == if i == 0 then None else Some(pools[i - 1].CLPool?)
    {
      var poolIsCL := pools[i].CLPool?;
      assert pools[..i + 1][..i] == pools[..i];
      if currentIsCL.None? || poolIsCL == currentIsCL.value {
        current := current + [pools[i]];
      } else {
        sections := sections + [current];
        current := [pools[i]];
      }
      currentIsCL := Some(poolIsCL);
      i := i + 1;
    }
    assert pools[..i] == pools;
    if |current| > 0 { sections := sections + [current]; }
  }

  // ----- paths -----

  function PathOf(pools: seq<Pool>, tokenIn: nat): (r: seq<nat>)
    ensures |r| == |pools| + 1 && r[0] == tokenIn
    decreases |pools|
  {
    if pools == [] then [tokenIn] else [tokenIn] + PathOf(pools[1..], Other(pools[0], tokenIn))
  }

  lemma {:induction false} PathSplits(a: seq<Pool>, b: seq<Pool>, tokenIn: nat)
    ensures PathOf(a + b, tokenIn)[..|a| + 1] == PathOf(a, tokenIn)
    ensures PathOf(a + b, tokenIn)[|a|..] == PathOf(b, End(a, tokenIn))
    decreases |a|
  {
    if a == [] {
      assert a + b == b;
    } else {
      assert (a + b)[1..] == a[1..] + b;
      PathSplits(a[1..], b, Other(a[0], tokenIn));
    }
  }

  function V2Routes(pools: seq<Pool>, tokens: seq<nat>): seq<V2Leg>
    requires |tokens| == |pools| + 1 && AllV2(pools)
  {
    seq(|pools|, i requires 0 <= i < |pools| => V2Leg(tokens[i], tokens[i + 1], pools[i].stable))
  }

  lemma {:induction false} V2RoutesAreLegs(pools: seq<Pool>, tokenIn: nat)
    requires AllV2(pools)
    ensures V2Routes(pools, PathOf(pools, tokenIn)) == LegsOf(pools, tokenIn)
    decreases |pools|
  {
    if pools != [] {
      hide V2Routes, PathOf;
      var next := Other(pools[0], tokenIn);
      V2RoutesAreLegs(pools[1..], next);
      FirstLeg(pools, tokenIn);
    }
  }

  lemma FirstLeg(pools: seq<Pool>, tokenIn: nat)
    requires pools != [] && AllV2(pools)
    ensures var next := Other(pools[0], tokenIn);
      V2Routes(pools, PathOf(pools, tokenIn)) ==
      [V2Leg(tokenIn, next, pools[0].stable)] + V2Routes(pools[1..], PathOf(pools[1..], next))
  {
    assert PathOf(pools, tokenIn)[1..] == PathOf(pools[1..], Other(pools[0], tokenIn));
  }

  // One command over pools of one protocol.
  function SectionCommand(section: seq<Pool>, tokens: seq<nat>, recipient: Party, amountIn: nat, minimum: int, payerIsUser: bool): Command
    requires section != [] && Uniform(section) && |tokens| == |section| + 1
  {
    if section[0].CLPool?
    then V3SwapExactIn(recipient, amountIn, minimum, CLPath(tokens[0], StepsOf(section, tokens[0])), payerIsUser)
    else V2SwapExactIn(recipient, amountIn, minimum, V2Routes(section, tokens), payerIsUser)
  }

  function Amount(l: Ledger, tokenIn: nat, amountIn: nat): int {
    if amountIn == CONTRACT_BALANCE then Bal(l, Router, Token(tokenIn)) else amountIn
  }

  // What running some commands must come to: a walk over pools, with a floor on the output, paid for
  // by one party and received by another, with what the pools left untaken back with its holders.
  ghost predicate RunsAs(hop: Hop, s: State, result: Option<State>, pools: seq<Pool>, tokenIn: nat, amount: nat,
                         payer: Party, recipient: Party, minimum: int) {
    var walked := Walk(hop, s.world, pools, tokenIn, amount);
    && (result.Some? <==> walked.Some? && walked.value.1 >= minimum)
    && (result.Some? ==>
         && result.value.world == walked.value.0
         && Moved(s.ledger, result.value.ledger, payer, tokenIn, amount, recipient, End(pools, tokenIn), walked.value.1,
                  Rests(hop, s.world, pools, tokenIn, amount)))
  }

  lemma ExecSection(hop: Hop, s: State, section: seq<Pool>, tokenIn: nat, recipient: Party, amountIn: nat, minimum: int, payerIsUser: bool)
    requires section != [] && Uniform(section) && Chained(section, tokenIn)
    requires amountIn == CONTRACT_BALANCE ==> !payerIsUser
    requires CanPay(s.ledger, Payer(payerIsUser), Token(tokenIn), Amount(s.ledger, tokenIn, amountIn))
    ensures RunsAs(hop, s, Exec(hop, s, SectionCommand(section, PathOf(section, tokenIn), recipient, amountIn, minimum, payerIsUser)),
                   section, tokenIn, Amount(s.ledger, tokenIn, amountIn), Payer(payerIsUser), recipient, minimum)
  {
    hide Walk, V2Walk, CLWalk, Add, Moved, CanPay, LegsOf, StepsOf, V2Routes, Pay, Rests, Bal;
    var amount, payer := Amount(s.ledger, tokenIn, amountIn), Payer(payerIsUser);
    Payable(s.ledger, payer, Token(tokenIn), amount);
    if section[0].CLPool? {
      CLWalkIsWalk(hop, s, recipient, amount, section, tokenIn, payer);
    } else {
      V2RoutesAreLegs(section, tokenIn);
      V2WalkIsWalk(hop, s.world, section, tokenIn, amount);
      var walked := Walk(hop, s.world, section, tokenIn, amount);
      if walked.Some? {
        PayThenReceive(s.ledger, payer, tokenIn, amount, amount, recipient, End(section, tokenIn), walked.value.1);
        var l' := Add(Pay(s.ledger, payer, Token(tokenIn), amount).value, recipient, Token(End(section, tokenIn)), walked.value.1);
        V2Moved(hop, s, l', section, tokenIn, amount, payer, recipient, walked.value.1);
      }
    }
  }

  lemma V2Moved(hop: Hop, s: State, l': Ledger, section: seq<Pool>, tokenIn: nat, amount: nat, payer: Party, recipient: Party, out: nat)
    requires AllV2(section) && Moved(s.ledger, l', payer, tokenIn, amount, recipient, End(section, tokenIn), out, [Rest(tokenIn, 0)])
    ensures Moved(s.ledger, l', payer, tokenIn, amount, recipient, End(section, tokenIn), out, Rests(hop, s.world, section, tokenIn, amount))
  {
    hide Bal, End, Rests, Back;
    var rests := Rests(hop, s.world, section, tokenIn, amount);
    V2TakesAll(hop, s.world, section, tokenIn, amount);
    forall p, a ensures Back(payer, rests, p, a) == Back(payer, [Rest(tokenIn, 0)], p, a) {
      NoRestNoBack(payer, rests, p, a);
      NoRestNoBack(payer, [Rest(tokenIn, 0)], p, a);
    }
  }

  lemma Payable(l: Ledger, payer: Party, input: Asset, amount: int)
    requires CanPay(l, payer, input, amount)
    ensures amount >= 0 && Pay(l, payer, input, amount).Some?
  {
  }

  // ----- a mixed route -----

  // One command per section: all but the last pay the router, all but the first spend its balance.
  function MixedCommands(sections: seq<seq<Pool>>, tokens: seq<nat>, recipient: Party, amountIn: nat, minimum: int, payerIsUser: bool): seq<Command>
    requires sections != [] && |tokens| == |Flat(sections)| + 1
    requires forall k :: 0 <= k < |sections| ==> sections[k] != [] && Uniform(sections[k])
    decreases |sections|
  {
    var n := |sections[0]|;
    if |sections| == 1 then [SectionCommand(sections[0], tokens[..n + 1], recipient, amountIn, minimum, payerIsUser)]
    else
      [SectionCommand(sections[0], tokens[..n + 1], Router, amountIn, 0, payerIsUser)]
      + MixedCommands(sections[1..], tokens[n..], recipient, CONTRACT_BALANCE, minimum, false)
  }

  // The tokens handed from one section to the next.
  function Boundaries(sections: seq<seq<Pool>>, tokenIn: nat): set<nat>
    decreases |sections|
  {
    if |sections| <= 1 then {}
    else
      var through := End(sections[0], tokenIn);
      {through} + Boundaries(sections[1..], through)
  }

  // The router holds none of a token handed over, beyond what it is about to spend.
  ghost predicate BoundariesClear(l: Ledger, boundaries: set<nat>, spent: bool, tokenIn: nat, amount: int) {
    forall t :: t in boundaries ==> Bal(l, Router, Token(t)) == if spent && t == tokenIn then amount else 0
  }

  // No pool of a section leaves the router any of a token that this or a later section hands over.
  ghost predicate SectionsApart(hop: Hop, w: World, sections: seq<seq<Pool>>, tokenIn: nat, amount: nat, payer: Party)
    decreases |sections|
  {
    if |sections| <= 1 then true
    else
      match Walk(hop, w, sections[0], tokenIn, amount)
      case None => true
      case Some(mid) =>
        && (forall b :: b in Boundaries(sections, tokenIn) ==>
              Back(payer, Rests(hop, w, sections[0], tokenIn, amount), Router, Token(b)) == 0)
        && SectionsApart(hop, mid.0, sections[1..], End(sections[0], tokenIn), mid.1, Router)
  }

  lemma NextSection(l: Ledger, m: Ledger, boundaries: set<nat>, payer: Party, tokenIn: nat, amount: int, through: nat, mid: nat, rests: seq<Rest>)
    requires BoundariesClear(l, boundaries, payer == Router, tokenIn, amount) && through in boundaries
    requires Moved(l, m, payer, tokenIn, amount, Router, through, mid, rests) && CanPay(l, payer, Token(tokenIn), amount)
    requires forall b :: b in boundaries ==> Back(payer, rests, Router, Token(b)) == 0
    ensures BoundariesClear(m, boundaries, true, through, mid)
    ensures Bal(m, Router, Token(through)) == mid && CanPay(m, Router, Token(through), mid)
  {
    hide Bal, Back;
    forall a ensures Bal(m, Router, a) >= 0 {
      assert Bal(l, Router, a) >= 0;
    }
  }

  lemma {:induction false} ExecMixed(hop: Hop, s: State, sections: seq<seq<Pool>>, tokenIn: nat, recipient: Party, amountIn: nat,
                                     minimum: int, payerIsUser: bool)
    requires sections != [] && forall k :: 0 <= k < |sections| ==> sections[k] != [] && Uniform(sections[k])
    requires Chained(Flat(sections), tokenIn) && (amountIn == CONTRACT_BALANCE ==> !payerIsUser)
    requires CanPay(s.ledger, Payer(payerIsUser), Token(tokenIn), Amount(s.ledger, tokenIn, amountIn))
    requires BoundariesClear(s.ledger, Boundaries(sections, tokenIn), !payerIsUser, tokenIn, Amount(s.ledger, tokenIn, amountIn))
    requires SectionsApart(hop, s.world, sections, tokenIn, Amount(s.ledger, tokenIn, amountIn), Payer(payerIsUser))
    ensures RunsAs(hop, s, Run(hop, s, MixedCommands(sections, PathOf(Flat(sections), tokenIn), recipient, amountIn, minimum, payerIsUser)),
                   Flat(sections), tokenIn, Amount(s.ledger, tokenIn, amountIn), Payer(payerIsUser), recipient, minimum)
    decreases |sections|
  {
    hide Walk, Moved, CanPay, Exec, End, Chained, PathOf, Bal, Rests, Back;
    var first, rest := sections[0], sections[1..];
    PathSplits(first, Flat(rest), tokenIn);
    ChainConcat(first, Flat(rest), tokenIn);
    var amount, payer := Amount(s.ledger, tokenIn, amountIn), Payer(payerIsUser);
    Payable(s.ledger, payer, Token(tokenIn), amount);
    if |sections| == 1 {
      assert Flat(rest) == [] && first + [] == first;
      ExecSection(hop, s, first, tokenIn, recipient, amountIn, minimum, payerIsUser);
    } else {
      var through := End(first, tokenIn);
      var tokens := PathOf(Flat(sections), tokenIn);
      ExecSection(hop, s, first, tokenIn, Router, amountIn, 0, payerIsUser);
      var command := SectionCommand(first, PathOf(first, tokenIn), Router, amountIn, 0, payerIsUser);
      var commands := MixedCommands(rest, PathOf(Flat(rest), through), recipient, CONTRACT_BALANCE, minimum, false);
      assert MixedCommands(sections, tokens, recipient, amountIn, minimum, payerIsUser) == [command] + commands;
      var mid := Exec(hop, s, command);
      var result := Run(hop, s, [command] + commands);
      RunFirst(hop, s, command, commands);
      if mid.Some? {
        var walked := Walk(hop, s.world, first, tokenIn, amount).value;
        NextSection(s.ledger, mid.value.ledger, Boundaries(sections, tokenIn), payer, tokenIn, amount, through, walked.1,
                    Rests(hop, s.world, first, tokenIn, amount));
        ExecMixed(hop, mid.value, rest, through, recipient, CONTRACT_BALANCE, minimum, false);
      }
      JoinSections(hop, s, mid, result, first, Flat(rest), tokenIn, amount, payer, recipient, minimum);
    }
  }

  lemma RunFirst(hop: Hop, s: State, command: Command, commands: seq<Command>)
    ensures Run(hop, s, [command] + commands) ==
            match Exec(hop, s, command) case None => None case Some(s') => Run(hop, s', commands)
  {
    assert ([command] + commands)[1..] == commands;
  }

  lemma JoinSections(hop: Hop, s: State, mid: Option<State>, result: Option<State>, a: seq<Pool>, b: seq<Pool>, tokenIn: nat,
                     amount: nat, payer: Party, recipient: Party, minimum: int)
    requires a != [] && RunsAs(hop, s, mid, a, tokenIn, amount, payer, Router, 0)
    requires mid.None? ==> result.None?
    requires mid.Some? ==> RunsAs(hop, mid.value, result, b, End(a, tokenIn), Walk(hop, s.world, a, tokenIn, amount).value.1, Router, recipient, minimum)
    ensures RunsAs(hop, s, result, a + b, tokenIn, amount, payer, recipient, minimum)
  {
    hide Moved, Walk, End, Rests;
    WalkConcat(hop, s.world, a, b, tokenIn, amount);
    ChainConcat(a, b, tokenIn);
    if mid.Some? && result.Some? {
      RestsConcat(hop, s.world, a, b, tokenIn, amount);
      var first := Walk(hop, s.world, a, tokenIn, amount).value;
      var second := Walk(hop, first.0, b, End(a, tokenIn), first.1).value;
      MovedCompose(s.ledger, mid.value.ledger, result.value.ledger, payer, tokenIn, amount, End(a, tokenIn), first.1,
                   recipient, End(a + b, tokenIn), second.1,
                   Rests(hop, s.world, a, tokenIn, amount), Rests(hop, first.0, b, End(a, tokenIn), first.1));
    }
  }

  // ----- trades -----

  datatype Currency = Native | Erc20(id: nat)

  function Wrapped(c: Currency): nat {
    if c.Native? then WETH else c.id
  }

  datatype Protocol = V2 | CL | Mixed
  datatype Route = Route(protocol: Protocol, pools: seq<Pool>)

  // Amounts are exact fractions; quotient floors them.
  datatype Swap = Swap(route: Route, inputAmount: real, outputAmount: real)
  datatype Trade = Trade(input: Currency, output: Currency, swaps: seq<Swap>)
  datatype Fee = Fee(numerator: nat, denominator: nat, recipient: Party)
  datatype Options = Options(recipient: Option<Party>, fee: Option<Fee>, safeMode: bool,
                             slippageNumerator: nat, slippageDenominator: nat)

  function Quotient(amount: real): int {
    amount.Floor
  }

  function TotalIn(swaps: seq<Swap>): real {
    if swaps == [] then 0.0 else TotalIn(swaps[..|swaps| - 1]) + swaps[|swaps| - 1].inputAmount
  }

  function TotalOut(swaps: seq<Swap>): real {
    if swaps == [] then 0.0 else TotalOut(swaps[..|swaps| - 1]) + swaps[|swaps| - 1].outputAmount
  }

  // minimumAmountOut of an exact input trade: the amount over one plus the tolerance.
  function MinimumAmountOut(o: Options, amount: real): int
    requires o.slippageDenominator > 0
  {
    Quotient(amount) * o.slippageDenominator / (o.slippageDenominator + o.slippageNumerator)
  }

  function Bips(fee: Fee): nat
    requires fee.denominator > 0
  {
    fee.numerator * 10_000 / fee.denominator
  }

  function MinimumAfterFee(o: Options, minimum: int): int
    requires o.fee.Some? ==> o.fee.value.denominator > 0
  {
    match o.fee
    case None => minimum
    case Some(fee) => minimum * (fee.denominator - fee.numerator) / fee.denominator
  }

  function RouterMustCustody(t: Trade, o: Options): bool {
    t.output.Native? || o.fee.Some? || o.safeMode || |t.swaps| > 1
  }

  function FinalRecipient(o: Options): Party {
    match o.recipient case None => Sender case Some(p) => p
  }

  function SwapRecipient(t: Trade, o: Options): Party {
    if RouterMustCustody(t, o) then Router else FinalRecipient(o)
  }

  // What the types and constructors of routes and options promise.
  ghost predicate WellFormed(t: Trade, o: Options) {
    && t.swaps != [] && o.slippageDenominator > 0 && (o.fee.Some? ==> o.fee.value.denominator > 0)
    && forall k :: 0 <= k < |t.swaps| ==> RouteOk(t.swaps[k].route, Wrapped(t.input)) && t.swaps[k].inputAmount >= 0.0 && t.swaps[k].outputAmount >= 0.0
  }

  predicate RouteOk(r: Route, input: nat) {
    && r.pools != [] && Chained(r.pools, input)
    && (r.protocol.V2? ==> AllV2(r.pools))
    && (r.protocol.CL? ==> AllCL(r.pools))
  }

  // The sections one route is sent as.
  function RouteSections(r: Route): seq<seq<Pool>> {
    if r.protocol.Mixed? then Sections(r.pools) else [r.pools]
  }

  lemma RouteSectionsFacts(r: Route, input: nat)
    requires RouteOk(r, input)
    ensures Flat(RouteSections(r)) == r.pools && RouteSections(r) != []
    ensures forall k :: 0 <= k < |RouteSections(r)| ==> RouteSections(r)[k] != [] && Uniform(RouteSections(r)[k])
  {
    if r.protocol.Mixed? {
      SectionsPartition(r.pools);
    } else {
      assert [r.pools][1..] == [] && Flat<Pool>([]) == [];
    }
  }

  ghost function SwapCommands(t: Trade, o: Options, swap: Swap): seq<Command>
    requires o.slippageDenominator > 0 && RouteOk(swap.route, Wrapped(t.input)) && swap.inputAmount >= 0.0
  {
    var r := swap.route;
    RouteSectionsFacts(r, Wrapped(t.input));
    MixedCommands(RouteSections(r), PathOf(r.pools, Wrapped(t.input)), SwapRecipient(t, o), Quotient(swap.inputAmount),
                  if RouterMustCustody(t, o) then 0 else MinimumAmountOut(o, swap.outputAmount), !t.input.Native?)
  }

  ghost function AllSwapCommands(t: Trade, o: Options, from: nat): seq<Command>
    requires WellFormed(t, o) && from <= |t.swaps|
    decreases |t.swaps| - from
  {
    if from == |t.swaps| then [] else SwapCommands(t, o, t.swaps[from]) + AllSwapCommands(t, o, from + 1)
  }

  function Head(t: Trade): seq<Command>
    requires TotalIn(t.swaps) >= 0.0
  {
    if t.input.Native? then [WrapEth(Router, Quotient(TotalIn(t.swaps)))] else []
  }

  function OutputAsset(t: Trade): Asset {
    if t.output.Native? then Ether else Token(t.output.id)
  }

  function Tail(t: Trade, o: Options): seq<Command>
    requires o.slippageDenominator > 0 && (o.fee.Some? ==> o.fee.value.denominator > 0)
  {
    var minimum := MinimumAmountOut(o, TotalOut(t.swaps));
    var afterFee := MinimumAfterFee(o, minimum);
    if !RouterMustCustody(t, o) then []
    else
      (if t.output.Native? && o.fee.Some? then [UnwrapWeth(Router, minimum)] else [])
      + (if o.fee.Some? then [PayPortion(OutputAsset(t), o.fee.value.recipient, Bips(o.fee.value))] else [])
      + (if t.output.Native? && o.fee.None? then [UnwrapWeth(FinalRecipient(o), afterFee)]
         else [Sweep(OutputAsset(t), FinalRecipient(o), afterFee)])
  }

  lemma {:induction false} TotalInNonNegative(swaps: seq<Swap>)
    requires forall k :: 0 <= k < |swaps| ==> swaps[k].inputAmount >= 0.0
    ensures TotalIn(swaps) >= 0.0
  {
    if swaps != [] { TotalInNonNegative(swaps[..|swaps| - 1]); }
  }

  ghost function Plan(t: Trade, o: Options): seq<Command>
    requires WellFormed(t, o)
  {
    TotalInNonNegative(t.swaps);
    Head(t) + AllSwapCommands(t, o, 0) + Tail(t, o)
  }

  // ----- the compiler -----

  lemma RunsParts(sections: seq<seq<Pool>>)
    requires Runs(sections)
    ensures forall k :: 0 <= k < |sections| ==> sections[k] != [] && Uniform(sections[k])
  {
  }

  // The commands of the sections from the k-th on.
  function CommandsFrom(sections: seq<seq<Pool>>, k: nat, tokens: seq<nat>, recipient: Party, amountIn: nat, minimum: int, payerIsUser: bool): seq<Command>
    requires k <= |sections| && |tokens| == |Flat(sections[k..])| + 1
    requires forall i :: 0 <= i < |sections| ==> sections[i] != [] && Uniform(sections[i])
  {
    if k == |sections| then []
    else MixedCommands(sections[k..], tokens, recipient, if k == 0 then amountIn else CONTRACT_BALANCE, minimum, if k == 0 then payerIsUser else false)
  }

  lemma NextCommand(sections: seq<seq<Pool>>, k: nat, tokens: seq<nat>, recipient: Party, amountIn: nat, minimum: int, payerIsUser: bool)
    requires k < |sections| && |tokens| == |Flat(sections[k..])| + 1
    requires forall i :: 0 <= i < |sections| ==> sections[i] != [] && Uniform(sections[i])
    ensures |Flat(sections[k..])| == |sections[k]| + |Flat(sections[k + 1..])|
    ensures
      var isLast := k == |sections| - 1;
      CommandsFrom(sections, k, tokens, recipient, amountIn, minimum, payerIsUser) ==
      [SectionCommand(sections[k], tokens[..|sections[k]| + 1], if isLast then recipient else Router,
                      if k == 0 then amountIn else CONTRACT_BALANCE, if isLast then minimum else 0, if k == 0 then payerIsUser else false)]
      + CommandsFrom(sections, k + 1, tokens[|sections[k]|..], recipient, amountIn, minimum, payerIsUser)
  {
    hide SectionCommand;
    assert sections[k..][0] == sections[k] && sections[k..][1..] == sections[k + 1..];
  }

  class RoutePlanner {
    var commands: seq<Command>

    constructor ()
      ensures commands == []
    {
      commands := [];
    }

    method AddCommand(c: Command)
      modifies this
      ensures commands == old(commands) + [c]
    {
      commands := commands + [c];
    }

    method AddMixedSwap(pools: seq<Pool>, path: seq<nat>, amountIn: nat, amountOutMinimum: int, recipient: Party, payerIsUser: bool)
      requires pools != [] && |path| == |pools| + 1
      modifies this
      ensures Flat(Sections(pools)) == pools && Sections(pools) != []
      ensures forall k :: 0 <= k < |Sections(pools)| ==> Sections(pools)[k] != [] && Uniform(Sections(pools)[k])
      ensures commands == old(commands) + MixedCommands(Sections(pools), path, recipient, amountIn, amountOutMinimum, payerIsUser)
    {
      hide Sections, Runs, MixedCommands, SectionCommand;
      SectionsPartition(pools);
      RunsParts(Sections(pools));
      var sections := PartitionMixedRouteByProtocol(pools);
      var poolIndex, sectionIndex := 0, 0;
      assert sections[0..] == sections && path[0..] == path;
      while sectionIndex < |sections|
        invariant 0 <= sectionIndex <= |sections| && 0 <= poolIndex && poolIndex + |Flat(sections[sectionIndex..])| == |pools|
        invariant old(commands) + MixedCommands(sections, path, recipient, amountIn, amountOutMinimum, payerIsUser) ==
          commands + CommandsFrom(sections, sectionIndex, path[poolIndex..], recipient, amountIn, amountOutMinimum, payerIsUser)
      {
        var section := sections[sectionIndex];
        NextCommand(sections, sectionIndex, path[poolIndex..], recipient, amountIn, amountOutMinimum, payerIsUser);
        var isFirst := sectionIndex == 0;
        var isLast := sectionIndex == |sections| - 1;
        var tokens := path[poolIndex..poolIndex + |section| + 1];
        assert tokens == path[poolIndex..][..|section| + 1] && path[poolIndex..][|section|..] == path[poolIndex + |section|..];
        AddCommand(SectionCommand(section, tokens, if isLast then recipient else Router, if isFirst then amountIn else CONTRACT_BALANCE,
                                  if isLast then amountOutMinimum else 0, if isFirst then payerIsUser else false));
        poolIndex := poolIndex + |section|;
        sectionIndex := sectionIndex + 1;
      }
    }

    method AddSwap(t: Trade, swap: Swap, o: Options)
      requires o.slippageDenominator > 0 && RouteOk(swap.route, Wrapped(t.input)) && swap.inputAmount >= 0.0
      modifies this
      ensures commands == old(commands) + SwapCommands(t, o, swap)
    {
      var amountOutMinimum := if RouterMustCustody(t, o) then 0 else MinimumAmountOut(o, swap.outputAmount);
      var path := PathOf(swap.route.pools, Wrapped(t.input));
      RouteSectionsFacts(swap.route, Wrapped(t.input));
      if swap.route.protocol.Mixed? {
        AddMixedSwap(swap.route.pools, path, Quotient(swap.inputAmount), amountOutMinimum, SwapRecipient(t, o), !t.input.Native?);
      } else {
        assert path == path[..|swap.route.pools| + 1];
        AddCommand(SectionCommand(swap.route.pools, path, SwapRecipient(t, o), Quotient(swap.inputAmount), amountOutMinimum, !t.input.Native?));
      }
    }

    // What follows the swaps when the router holds their output.
    method AddPayout(t: Trade, o: Options)
      requires o.slippageDenominator > 0 && (o.fee.Some? ==> o.fee.value.denominator > 0)
      modifies this
      ensures commands == old(commands) + Tail(t, o)
    {
      var minimumAmountOut := MinimumAmountOut(o, TotalOut(t.swaps));
      var minimumAmountOutAfterFee := MinimumAfterFee(o, minimumAmountOut);
      if RouterMustCustody(t, o) {
        if t.output.Native? && o.fee.Some? {
          AddCommand(UnwrapWeth(Router, minimumAmountOut));
        }
        if o.fee.Some? {
          AddCommand(PayPortion(OutputAsset(t), o.fee.value.recipient, Bips(o.fee.value)));
        }
        if t.output.Native? && o.fee.None? {
          AddCommand(UnwrapWeth(FinalRecipient(o), minimumAmountOutAfterFee));
        } else {
          AddCommand(Sweep(OutputAsset(t), FinalRecipient(o), minimumAmountOutAfterFee));
        }
      }
    }
  }

  // swapCallParameters for exact input: the commands and the value sent along, or the failed invariant.
  method SwapCallParameters(t: Trade, o: Options) returns (planner: RoutePlanner, r: Result<int>)
    requires WellFormed(t, o)
    ensures r == if t.input.Native? && t.output.Native? then Failure("NATIVE_TO_NATIVE")
                 else Success(if t.input.Native? then Quotient(TotalIn(t.swaps)) else 0)
    ensures r.Success? ==> planner.commands == Plan(t, o)
  {
    hide MinimumAmountOut, MinimumAfterFee, SwapCommands, Tail;
    planner := new RoutePlanner();
    if t.input.Native? && t.output.Native? {
      r := Failure("NATIVE_TO_NATIVE");
      return;
    }
    TotalInNonNegative(t.swaps);
    var maximumAmountIn := TotalIn(t.swaps);
    if t.input.Native? {
      planner.AddCommand(WrapEth(Router, Quotient(maximumAmountIn)));
    }
    var i := 0;
    while i < |t.swaps|
      invariant 0 <= i <= |t.swaps|
      invariant planner.commands + AllSwapCommands(t, o, i) == Head(t) + AllSwapCommands(t, o, 0)
    {
      ghost var before := planner.commands;
      planner.AddSwap(t, t.swaps[i], o);
      assert planner.commands + AllSwapCommands(t, o, i + 1) == before + AllSwapCommands(t, o, i);
      i := i + 1;
    }
    assert planner.commands == Head(t) + AllSwapCommands(t, o, 0);
    planner.AddPayout(t, o);
    r := Success(if t.input.Native? then Quotient(maximumAmountIn) else 0);
  }
}
