// A plan whose sections spend another leg's share does not mean its walks: the condition is exact.
module PlanExactness {
  import opened Arith
  import opened Results
  import opened RouterMachine
  import opened RoutePlan
  import opened PlanAmounts
  import opened PlanMeaning
  import opened Sequences

  // Every pool takes all it is offered and gives out the same amount.
  function Constant(out: nat): Hop {
    (w: World, pool: Pool, tokenIn: nat, amount: nat) => Some(Fill(w, amount, out))
  }

  // ----- walking through such pools -----

  lemma {:induction false} ConstantWalk(out: nat, w: World, pools: seq<Pool>, tokenIn: nat, amount: nat)
    ensures Walk(Constant(out), w, pools, tokenIn, amount) == Some((w, if pools == [] then amount else out))
    ensures NoRest(Rests(Constant(out), w, pools, tokenIn, amount))
    decreases |pools|
  {
    if pools != [] {
      ConstantWalk(out, w, pools[1..], Other(pools[0], tokenIn), out);
    }
  }

  lemma {:induction false} ConstantWalkRoutes(out: nat, w: World, t: Trade, o: Options, from: nat)
    requires WellFormed(t, o) && from <= |t.swaps|
    ensures Amounts(t) && WalkRoutes(Constant(out), w, t, from) == Some((w, (|t.swaps| - from) * out))
    ensures TakesAll(Constant(out), w, t, from)
    ensures forall p, a :: LegsBack(Constant(out), w, t, from, p, a) == 0
    decreases |t.swaps| - from
  {
    hide Walk, LegRests, RouteOk, Back, Constant, Bal;
    AmountsOk(t, o);
    if from < |t.swaps| {
      var pools := t.swaps[from].route.pools;
      assert pools != [] by { RouteIsOk(t, o, from); }
      ConstantWalk(out, w, pools, Wrapped(t.input), Part(t.swaps[from]));
      ConstantWalkRoutes(out, w, t, o, from + 1);
      LegRestsAre(Constant(out), w, t, from);
      var rests := LegRests(Constant(out), w, t, from);
      forall p, a ensures Back(LegPayer(t), rests, p, a) == 0 {
        NoRestNoBack(LegPayer(t), rests, p, a);
      }
      assert (|t.swaps| - from) * out == out + (|t.swaps| - (from + 1)) * out;
    }
  }

  lemma RouteIsOk(t: Trade, o: Options, k: nat)
    requires WellFormed(t, o) && k < |t.swaps|
    ensures RouteOk(t.swaps[k].route, Wrapped(t.input)) && t.swaps[k].route.pools != []
  {
  }

  // ----- running through such pools -----

  // A payer's amount goes in and the router receives the output.
  ghost predicate Shifted(l: Ledger, l': Ledger, payer: Party, tokenIn: nat, amount: int, tokenOut: nat, out: nat) {
    forall p, a ::
      Bal(l', p, a) == Bal(l, p, a) - (if p == payer && a == Token(tokenIn) then amount else 0)
                                    + (if p == Router && a == Token(tokenOut) then out else 0)
  }

  lemma ShiftedIsSolvent(l: Ledger, l': Ledger, payer: Party, tokenIn: nat, amount: int, tokenOut: nat, out: nat)
    requires Shifted(l, l', payer, tokenIn, amount, tokenOut, out) && CanPay(l, payer, Token(tokenIn), amount)
    ensures Solvent(l')
  {
    hide Bal;
    forall a ensures Bal(l', Router, a) >= 0 {
      assert Bal(l, Router, a) >= 0;
    }
  }

  lemma MovedIsShifted(l: Ledger, l': Ledger, payer: Party, tokenIn: nat, amount: int, tokenOut: nat, out: nat, rests: seq<Rest>)
    requires Moved(l, l', payer, tokenIn, amount, Router, tokenOut, out, rests) && NoRest(rests)
    ensures Shifted(l, l', payer, tokenIn, amount, tokenOut, out)
  {
    hide Bal, Back;
    forall p, a ensures Back(payer, rests, p, a) == 0 {
      NoRestNoBack(payer, rests, p, a);
    }
  }

  // A section that goes through could be paid for.
  lemma PaidSection(out: nat, s: State, section: seq<Pool>, tokenIn: nat, amountIn: nat, payerIsUser: bool)
    requires section != [] && Uniform(section) && Chained(section, tokenIn)
    requires Solvent(s.ledger) && (amountIn == CONTRACT_BALANCE ==> !payerIsUser)
    requires Exec(Constant(out), s, SectionCommand(section, PathOf(section, tokenIn), Router, amountIn, 0, payerIsUser)).Some?
    ensures CanPay(s.ledger, Payer(payerIsUser), Token(tokenIn), Amount(s.ledger, tokenIn, amountIn))
  {
    hide Bal, LegsOf, StepsOf, V2Routes, End;
    var amount := Amount(s.ledger, tokenIn, amountIn);
    if section[0].CLPool? {
      FirstStep(section, tokenIn);
    } else {
      V2RoutesAreLegs(section, tokenIn);
      V2WalkIsWalk(Constant(out), s.world, section, tokenIn, 0);
    }
  }

  lemma ConstantSection(out: nat, s: State, section: seq<Pool>, tokenIn: nat, amountIn: nat, payerIsUser: bool)
    requires section != [] && Uniform(section) && Chained(section, tokenIn)
    requires Solvent(s.ledger) && (amountIn == CONTRACT_BALANCE ==> !payerIsUser)
    requires Exec(Constant(out), s, SectionCommand(section, PathOf(section, tokenIn), Router, amountIn, 0, payerIsUser)).Some?
    ensures CanPay(s.ledger, Payer(payerIsUser), Token(tokenIn), Amount(s.ledger, tokenIn, amountIn))
    ensures
      var l' := Exec(Constant(out), s, SectionCommand(section, PathOf(section, tokenIn), Router, amountIn, 0, payerIsUser)).value.ledger;
      && Shifted(s.ledger, l', Payer(payerIsUser), tokenIn, Amount(s.ledger, tokenIn, amountIn), End(section, tokenIn), out)
      && Solvent(l')
  {
    PaidSection(out, s, section, tokenIn, amountIn, payerIsUser);
    var amount, payer := Amount(s.ledger, tokenIn, amountIn), Payer(payerIsUser);
    hide Exec, SectionCommand, Bal, CanPay, Moved, Rests, Walk, End, Constant, Shifted, NoRest, Solvent;
    Payable(s.ledger, payer, Token(tokenIn), amount);
    ExecSection(Constant(out), s, section, tokenIn, Router, amountIn, 0, payerIsUser);
    ConstantWalk(out, s.world, section, tokenIn, amount);
    var l' := Exec(Constant(out), s, SectionCommand(section, PathOf(section, tokenIn), Router, amountIn, 0, payerIsUser)).value.ledger;
    MovedIsShifted(s.ledger, l', payer, tokenIn, amount, End(section, tokenIn), out, Rests(Constant(out), s.world, section, tokenIn, amount));
    ShiftedIsSolvent(s.ledger, l', payer, tokenIn, amount, End(section, tokenIn), out);
  }

  // What sections leave each party with: a token handed over is gone from the router whatever it held.
  function After(l: Ledger, boundaries: set<nat>, payer: Party, tokenIn: nat, amount: int, end: nat, out: nat, p: Party, a: Asset): int {
    (if p == Router && a.Token? && a.id in boundaries then 0
     else Bal(l, p, a) - if p == payer && a == Token(tokenIn) then amount else 0)
    + if p == Router && a == Token(end) then out else 0
  }

  ghost predicate Swept(l: Ledger, l': Ledger, boundaries: set<nat>, payer: Party, tokenIn: nat, amount: int, end: nat, out: nat) {
    forall p, a :: Bal(l', p, a) == After(l, boundaries, payer, tokenIn, amount, end, out, p, a)
  }

  lemma SweptNext(l: Ledger, m: Ledger, n: Ledger, later: set<nat>, payer: Party, tokenIn: nat, amount: int, through: nat, end: nat, out: nat)
    requires Shifted(l, m, payer, tokenIn, amount, through, out)
    requires Swept(m, n, later, Router, through, Bal(m, Router, Token(through)), end, out)
    ensures Swept(l, n, {through} + later, payer, tokenIn, amount, end, out)
  {
    hide Bal;
  }

  lemma {:induction false} ConstantMixed(out: nat, s: State, sections: seq<seq<Pool>>, tokenIn: nat, amountIn: nat, payerIsUser: bool)
    requires sections != [] && forall k :: 0 <= k < |sections| ==> sections[k] != [] && Uniform(sections[k])
    requires Chained(Flat(sections), tokenIn) && Solvent(s.ledger) && (amountIn == CONTRACT_BALANCE ==> !payerIsUser)
    requires Run(Constant(out), s, MixedCommands(sections, PathOf(Flat(sections), tokenIn), Router, amountIn, 0, payerIsUser)).Some?
    ensures CanPay(s.ledger, Payer(payerIsUser), Token(tokenIn), Amount(s.ledger, tokenIn, amountIn))
    ensures
      var l' := Run(Constant(out), s, MixedCommands(sections, PathOf(Flat(sections), tokenIn), Router, amountIn, 0, payerIsUser)).value.ledger;
      && Swept(s.ledger, l', Boundaries(sections, tokenIn), Payer(payerIsUser), tokenIn, Amount(s.ledger, tokenIn, amountIn),
               End(Flat(sections), tokenIn), out)
      && Solvent(l')
    decreases |sections|
  {
    hide Exec, End, Chained, PathOf, Bal, CanPay, Constant, Solvent, Shifted, Swept, SectionCommand;
    var first, rest := sections[0], sections[1..];
    PathSplits(first, Flat(rest), tokenIn);
    ChainConcat(first, Flat(rest), tokenIn);
    var amount, payer := Amount(s.ledger, tokenIn, amountIn), Payer(payerIsUser);
    if |sections| == 1 {
      assert Flat(rest) == [] && first + [] == first;
      RunOne(Constant(out), s, SectionCommand(first, PathOf(first, tokenIn), Router, amountIn, 0, payerIsUser));
      ConstantSection(out, s, first, tokenIn, amountIn, payerIsUser);
      var l' := Exec(Constant(out), s, SectionCommand(first, PathOf(first, tokenIn), Router, amountIn, 0, payerIsUser)).value.ledger;
      ShiftedIsSwept(s.ledger, l', payer, tokenIn, amount, End(first, tokenIn), out);
    } else {
      var through := End(first, tokenIn);
      var command := SectionCommand(first, PathOf(first, tokenIn), Router, amountIn, 0, payerIsUser);
      var commands := MixedCommands(rest, PathOf(Flat(rest), through), Router, CONTRACT_BALANCE, 0, false);
      assert MixedCommands(sections, PathOf(Flat(sections), tokenIn), Router, amountIn, 0, payerIsUser) == [command] + commands;
      RunFirst(Constant(out), s, command, commands);
      ConstantSection(out, s, first, tokenIn, amountIn, payerIsUser);
      var mid := Exec(Constant(out), s, command).value;
      ConstantMixed(out, mid, rest, through, CONTRACT_BALANCE, false);
      SweptNext(s.ledger, mid.ledger, Run(Constant(out), mid, commands).value.ledger, Boundaries(rest, through), payer, tokenIn, amount,
                through, End(Flat(sections), tokenIn), out);
    }
  }

  lemma ShiftedIsSwept(l: Ledger, l': Ledger, payer: Party, tokenIn: nat, amount: int, end: nat, out: nat)
    requires Shifted(l, l', payer, tokenIn, amount, end, out)
    ensures Swept(l, l', {}, payer, tokenIn, amount, end, out)
  {
    hide Bal;
  }

  // ----- the legs -----

  lemma ConstantLeg(out: nat, s: State, t: Trade, o: Options, k: nat)
    requires Base(t, o) && RouterMustCustody(t, o) && k < |t.swaps| && Solvent(s.ledger)
    requires RouteOk(t.swaps[k].route, Wrapped(t.input)) && t.swaps[k].inputAmount >= 0.0
    requires Run(Constant(out), s, SwapCommands(t, o, t.swaps[k])).Some?
    ensures CanPay(s.ledger, LegPayer(t), Token(Wrapped(t.input)), Part(t.swaps[k]))
    ensures
      var l' := Run(Constant(out), s, SwapCommands(t, o, t.swaps[k])).value.ledger;
      && Swept(s.ledger, l', HandedOver(t, k), LegPayer(t), Wrapped(t.input), Part(t.swaps[k]), Wrapped(t.output), out)
      && Solvent(l')
  {
    PlainAmount(t, o, k);
    assert End(t.swaps[k].route.pools, Wrapped(t.input)) == Wrapped(t.output);
    assert o.slippageDenominator > 0;
    hide Base, Run, Bal, CanPay, Swept, Solvent, MixedCommands, Boundaries, End, Constant;
    var r := t.swaps[k].route;
    RouteSectionsFacts(r, Wrapped(t.input));
    ConstantMixed(out, s, RouteSections(r), Wrapped(t.input), Part(t.swaps[k]), !t.input.Native?);
  }

  // What running the legs from some point on does at least: only the payer and the router are concerned;
  // a native input is used up once a leg hands it over; the output grows by no more than what the legs
  // give out, and by less once a leg hands over an output that is already there.
  ghost predicate OthersUntouched(l: Ledger, m: Ledger, t: Trade) {
    forall p, a :: (p != Router && a != Token(Wrapped(t.input))) || a == Ether ==> Bal(m, p, a) == Bal(l, p, a)
  }

  ghost predicate InputUsedUp(l: Ledger, m: Ledger, t: Trade, from: nat)
    requires from <= |t.swaps|
  {
    t.input.Native? ==>
      (Bal(l, Router, Token(WETH)) == 0 || exists k :: from <= k < |t.swaps| && WETH in HandedOver(t, k)) ==>
      Bal(m, Router, Token(WETH)) == 0
  }

  ghost predicate NoneAfterUse(l: Ledger, t: Trade, from: nat)
    requires from <= |t.swaps|
  {
    t.input.Native? ==>
      && (Bal(l, Router, Token(WETH)) == 0 ==> Spent(t, from) == 0)
      && forall k :: from <= k < |t.swaps| && WETH in HandedOver(t, k) ==> Spent(t, k + 1) == 0
  }

  ghost predicate OutputGrows(l: Ledger, m: Ledger, t: Trade, from: nat, out: nat)
    requires from <= |t.swaps|
  {
    var before, after := Bal(l, Router, Token(Wrapped(t.output))), Bal(m, Router, Token(Wrapped(t.output)));
    && after <= before + (|t.swaps| - from) * out
    && forall k :: from <= k < |t.swaps| && Wrapped(t.output) in HandedOver(t, k) && (from < k || before > 0) ==>
         after < before + (|t.swaps| - from) * out
  }

  lemma OthersNext(l: Ledger, m: Ledger, n: Ledger, t: Trade, k: nat, out: nat)
    requires k < |t.swaps| && OthersUntouched(m, n, t)
    requires Swept(l, m, HandedOver(t, k), LegPayer(t), Wrapped(t.input), Part(t.swaps[k]), Wrapped(t.output), out)
    ensures OthersUntouched(l, n, t)
  {
    hide Bal, HandedOver;
  }

  lemma InputNext(l: Ledger, m: Ledger, n: Ledger, t: Trade, o: Options, k: nat, out: nat)
    requires Base(t, o) && k < |t.swaps| && InputUsedUp(m, n, t, k + 1) && NoneAfterUse(m, t, k + 1)
    requires CanPay(l, LegPayer(t), Token(Wrapped(t.input)), Part(t.swaps[k]))
    requires Swept(l, m, HandedOver(t, k), LegPayer(t), Wrapped(t.input), Part(t.swaps[k]), Wrapped(t.output), out)
    ensures InputUsedUp(l, n, t, k) && NoneAfterUse(l, t, k)
  {
    hide Bal, HandedOver, WellFormed;
    if t.input.Native? {
      assert Spent(t, k) == Part(t.swaps[k]) + Spent(t, k + 1);
      assert WETH in HandedOver(t, k) ==> Bal(m, Router, Token(WETH)) == 0;
      assert Bal(l, Router, Token(WETH)) >= Part(t.swaps[k]) >= 0;
      assert Bal(l, Router, Token(WETH)) == 0 ==> Bal(m, Router, Token(WETH)) == 0;
    }
  }

  lemma OutputNext(l: Ledger, m: Ledger, n: Ledger, t: Trade, o: Options, k: nat, out: nat)
    requires Base(t, o) && k < |t.swaps| && OutputGrows(m, n, t, k + 1, out) && Solvent(l) && out > 0
    requires Swept(l, m, HandedOver(t, k), LegPayer(t), Wrapped(t.input), Part(t.swaps[k]), Wrapped(t.output), out)
    ensures OutputGrows(l, n, t, k, out)
  {
    hide Bal, HandedOver, WellFormed;
    var token := Token(Wrapped(t.output));
    assert (|t.swaps| - k) * out == out + (|t.swaps| - (k + 1)) * out;
    var before := Bal(l, Router, token);
    assert before >= 0;
    assert Bal(m, Router, token) == if Wrapped(t.output) in HandedOver(t, k) then out else before + out;
  }

  lemma NoLegsOutcome(l: Ledger, t: Trade, out: nat)
    ensures OthersUntouched(l, l, t) && InputUsedUp(l, l, t, |t.swaps|) && NoneAfterUse(l, t, |t.swaps|) && OutputGrows(l, l, t, |t.swaps|, out)
  {
  }

  lemma {:induction false} ConstantLegs(out: nat, s: State, t: Trade, o: Options, from: nat)
    requires Base(t, o) && RouterMustCustody(t, o) && from <= |t.swaps| && Solvent(s.ledger) && out > 0
    requires Run(Constant(out), s, AllSwapCommands(t, o, from)).Some?
    ensures
      var m := Run(Constant(out), s, AllSwapCommands(t, o, from)).value.ledger;
      && Solvent(m) && OthersUntouched(s.ledger, m, t)
      && InputUsedUp(s.ledger, m, t, from) && NoneAfterUse(s.ledger, t, from)
      && OutputGrows(s.ledger, m, t, from, out)
    decreases |t.swaps| - from
  {
    hide Bal, HandedOver, RouteOk, Run, SwapCommands, Solvent, Swept, CanPay, Constant, OthersUntouched, InputUsedUp, NoneAfterUse, OutputGrows;
    if from == |t.swaps| {
      NoLegsLeft(Constant(out), s, t, o);
      NoLegsOutcome(s.ledger, t, out);
    } else {
      RouteIsOk(t, o, from);
      RunConcat(Constant(out), s, SwapCommands(t, o, t.swaps[from]), AllSwapCommands(t, o, from + 1));
      ConstantLeg(out, s, t, o, from);
      var leg := Run(Constant(out), s, SwapCommands(t, o, t.swaps[from])).value;
      ConstantLegs(out, leg, t, o, from + 1);
      var m := Run(Constant(out), leg, AllSwapCommands(t, o, from + 1)).value.ledger;
      OthersNext(s.ledger, leg.ledger, m, t, from, out);
      InputNext(s.ledger, leg.ledger, m, t, o, from, out);
      OutputNext(s.ledger, leg.ledger, m, t, o, from, out) by { CanPayIsSolvent(s.ledger, LegPayer(t), Token(Wrapped(t.input)), Part(t.swaps[from])); }
    }
  }

  lemma CanPayIsSolvent(l: Ledger, payer: Party, input: Asset, amount: int)
    requires CanPay(l, payer, input, amount)
    ensures Solvent(l)
  {
  }

  // ----- the whole plan -----

  // The minimum an accepted output must meet is never negative.
  lemma {:induction false} OutputsNonNegative(swaps: seq<Swap>)
    requires forall k :: 0 <= k < |swaps| ==> swaps[k].outputAmount >= 0.0
    ensures TotalOut(swaps) >= 0.0
  {
    if swaps != [] { OutputsNonNegative(swaps[..|swaps| - 1]); }
  }

  lemma MinimumNonNegative(t: Trade, o: Options)
    requires WellFormed(t, o)
    ensures Minimum(t, o) >= 0
  {
    hide RouteOk;
    OutputsNonNegative(t.swaps);
    MinimumIsTolerated(o, TotalOut(t.swaps), 0);
  }

  // Only splits can share.
  lemma LoneLegIsApart(t: Trade, o: Options)
    requires Base(t, o) && !SharesApart(t)
    ensures |t.swaps| > 1
  {
    hide RouteOk, HandedOver;
    Dust(t);
    assert Spent(t, |t.swaps|) == 0;
  }

  // The accounts settle only if the legs left the router with the walks' output and the dust.
  lemma SettledNeeds(hop: Hop, w: World, l: Ledger, funded: Ledger, m: Ledger, f: Ledger, t: Trade, o: Options, total: nat, held: nat)
    requires Base(t, o) && Amounts(t) && StartsEmpty(l, t) && Funded(l, funded, t) && OthersUntouched(funded, m, t)
    requires PaidOut(m, f, t, o, held) && Settled(hop, w, l, f, t, o, total)
    requires forall p, a :: LegsBack(hop, w, t, 0, p, a) == 0
    ensures held == total
    ensures t.input.Native? ==> Bal(m, Router, Token(WETH)) == Quotient(TotalIn(t.swaps)) - Spent(t, 0)
  {
    hide Bal, WellFormed, LegsBack, FeeTaken;
    var p, a := FinalRecipient(o), OutputAsset(t);
    assert Bal(m, p, a) == Bal(funded, p, a) == Bal(l, p, a);
    if o.fee.Some? {
      var q := o.fee.value.recipient;
      assert Bal(m, q, a) == Bal(funded, q, a) == Bal(l, q, a);
    } else {
      NoFee(o, held);
      NoFee(o, total);
    }
  }

  lemma NoFee(o: Options, total: nat)
    requires o.fee.None?
    ensures FeeTaken(o, total) == 0
  {
  }

  // The pieces of a plan that goes through.
  lemma PlanParts(out: nat, s: State, t: Trade, o: Options) returns (funded: Ledger, m: Ledger, held: nat)
    requires Base(t, o) && RouterMustCustody(t, o) && StartsEmpty(s.ledger, t) && out > 0
    requires Run(Constant(out), s, Plan(t, o)).Some?
    ensures Funded(s.ledger, funded, t) && OthersUntouched(funded, m, t)
    ensures InputUsedUp(funded, m, t, 0) && NoneAfterUse(funded, t, 0) && OutputGrows(funded, m, t, 0, out)
    ensures Bal(funded, Router, Token(Wrapped(t.output))) == 0 && held == Bal(m, Router, Token(Wrapped(t.output)))
    ensures PaidOut(m, Run(Constant(out), s, Plan(t, o)).value.ledger, t, o, held)
  {
    hide Run, Bal, Exec, AllSwapCommands, Head, Tail, RouteOk, HandedOver, Constant, PaidOut, Holding, Accepted,
         InputUsedUp, NoneAfterUse, OutputGrows, OthersUntouched, Solvent, Funded, StartsEmpty;
    var hop := Constant(out);
    var legs, tail := AllSwapCommands(t, o, 0), Tail(t, o);
    ExecHead(hop, s, t, o);
    RunConcat(hop, s, Head(t) + legs, tail);
    RunConcat(hop, s, Head(t), legs);
    var start := Run(hop, s, Head(t)).value;
    ConstantLegs(out, start, t, o, 0);
    var swapped := Run(hop, start, legs).value;
    funded, m := start.ledger, swapped.ledger;
    held := HeldOutput(s.ledger, funded, m, t, o);
    ExecTail(hop, swapped, t, o, held);
  }

  lemma HeldOutput(l: Ledger, funded: Ledger, m: Ledger, t: Trade, o: Options) returns (held: nat)
    requires Base(t, o) && StartsEmpty(l, t) && Funded(l, funded, t) && OthersUntouched(funded, m, t) && Solvent(m)
    ensures Bal(funded, Router, Token(Wrapped(t.output))) == 0
    ensures held == Bal(m, Router, Token(Wrapped(t.output))) && Holding(m, t, held)
  {
    hide Bal, WellFormed;
    assert Bal(m, Router, Ether) == Bal(funded, Router, Ether);
    held := Bal(m, Router, Token(Wrapped(t.output)));
  }

  // No plan whose sections spend another leg's share means its walks: through some pools that take all
  // they are offered, the walks' output is acceptable and the plan reverts or settles otherwise.
  lemma UnsoundPlansDiffer(s: State, t: Trade, o: Options) returns (hop: Hop)
    requires Base(t, o) && !SharesApart(t) && PayableFee(o) && StartsEmpty(s.ledger, t)
    ensures Amounts(t) && TakesAll(hop, s.world, t, 0) && !PlanMeansWalks(hop, s, t, o)
  {
    hide Run, Bal, RouteOk, HandedOver, FeeTaken, PaidOut, Settled, Funded, OthersUntouched, StartsEmpty,
         LegsBack, MinimumAmountOut, TotalOut, TotalIn, Plan, Accepted, Constant, WalkRoutes, TakesAll;
    MinimumNonNegative(t, o);
    LoneLegIsApart(t, o);
    var out := Minimum(t, o) + 1;
    hop := Constant(out);
    var n := |t.swaps|;
    ConstantWalkRoutes(out, s.world, t, o, 0);
    assert n * out >= out by { MulMono(1, n, out); }
    CoveredIsAccepted(t, o, n * out);
    if PlanMeansWalks(hop, s, t, o) {
      var funded, m, held := PlanParts(out, s, t, o);
      SettledNeeds(hop, s.world, s.ledger, funded, m, Run(hop, s, Plan(t, o)).value.ledger, t, o, n * out, held);
      assert false;
    }
  }

  // A plan means its walks through all pools that take what they are offered if and only if no section
  // spends another leg's share.
  lemma SharesApartIsExact(s: State, t: Trade, o: Options)
    requires Base(t, o) && PayableFee(o) && StartsEmpty(s.ledger, t)
    ensures Amounts(t)
    ensures SharesApart(t) <==> forall hop: Hop :: TakesAll(hop, s.world, t, 0) ==> PlanMeansWalks(hop, s, t, o)
  {
    AmountsOk(t, o);
    hide SharesApart, TakesAll, PlanMeansWalks, StartsEmpty, RouteOk;
    if SharesApart(t) {
      forall hop: Hop | TakesAll(hop, s.world, t, 0) ensures PlanMeansWalks(hop, s, t, o) {
        TakesAllRestsApart(hop, s.world, t, o, 0);
        PlanContract(hop, s, t, o);
      }
    } else {
      var hop := UnsoundPlansDiffer(s, t, o);
    }
  }

  // A native split in which a leg hands over the wrapped input while a later leg has yet to spend some
  // of it cannot go through, whatever such pools give out.
  lemma DrainedSplitReverts(out: nat, s: State, t: Trade, o: Options, k: nat)
    requires Base(t, o) && StartsEmpty(s.ledger, t) && t.input.Native? && out > 0
    requires k < |t.swaps| && WETH in HandedOver(t, k) && Spent(t, k + 1) != 0
    ensures Run(Constant(out), s, Plan(t, o)) == None
  {
    hide Run, Plan, Bal, RouteOk, HandedOver, PaidOut, Funded, OthersUntouched, StartsEmpty, OutputGrows, InputUsedUp, TotalIn;
    if Run(Constant(out), s, Plan(t, o)).Some? {
      assert Spent(t, |t.swaps|) == 0;
      var funded, m, held := PlanParts(out, s, t, o);
      assert false;
    }
  }

  // ----- one such split -----

  // A route that leaves wrapped ether and comes back to it, in three sections, and a direct one.
  const REVISIT := [V2Pool(0, 1, false), CLPool(0, 1, 100), V2Pool(0, 2, false)]
  const DIRECT := [V2Pool(0, 2, true)]

  function RevisitSwap(): Swap { Swap(Route(Mixed, REVISIT), 100.0, 100.0) }
  function DirectSwap(): Swap { Swap(Route(V2, DIRECT), 100.0, 100.0) }

  function Split(first: Swap, second: Swap): Trade {
    Trade(Native, Erc20(2), [first, second])
  }

  function Plain(): Options {
    Options(None, None, false, 0, 1)
  }

  lemma ScanNext(before: seq<Pool>, pool: Pool)
    ensures Scan(before + [pool]) ==
      if before == [] || pool.CLPool? == before[|before| - 1].CLPool? then (Scan(before).0, Scan(before).1 + [pool])
      else (Scan(before).0 + [Scan(before).1], [pool])
  {
    var longer := before + [pool];
    assert longer[..|before|] == before && longer[|before|] == pool && |longer| == |before| + 1;
    assert before != [] ==> longer[|longer| - 2] == before[|before| - 1];
  }

  lemma RevisitSections()
    ensures Sections(REVISIT) == [[REVISIT[0]], [REVISIT[1]], [REVISIT[2]]]
    ensures Chained(REVISIT, 0) && End(REVISIT, 0) == 2 && Boundaries(Sections(REVISIT), 0) == {0, 1}
  {
    var a, b, c := REVISIT[0], REVISIT[1], REVISIT[2];
    ScanNext([], a);
    ScanNext([a], b);
    ScanNext([a, b], c);
    assert [] + [a] == [a] && [a] + [b] == [a, b] && [a, b] + [c] == REVISIT;
    assert REVISIT[1..] == [b, c] && [b, c][1..] == [c] && [c][1..] == [] && [a][1..] == [] && [b][1..] == [];
    assert End([c], 0) == 2 && End([b, c], 1) == 2;
    var sections := [[a], [b], [c]];
    assert sections[1..] == [[b], [c]] && [[b], [c]][1..] == [[c]];
    assert End([a], 0) == 1 && End([b], 1) == 0;
    assert Boundaries([[b], [c]], 1) == {0} + Boundaries([[c]], 0);
  }

  lemma DirectSections()
    ensures Chained(DIRECT, 0) && End(DIRECT, 0) == 2 && Boundaries([DIRECT], 0) == {}
  {
    assert DIRECT[1..] == [];
  }

  lemma SplitTotals(first: Swap, second: Swap)
    requires first.inputAmount == second.inputAmount == 100.0 && first.outputAmount == second.outputAmount == 100.0
    ensures TotalIn(Split(first, second).swaps) == 200.0 && TotalOut(Split(first, second).swaps) == 200.0
    ensures Spent(Split(first, second), 2) == 0 && Spent(Split(first, second), 1) == 100 && Spent(Split(first, second), 0) == 200
  {
    var swaps := Split(first, second).swaps;
    assert swaps[..1] == [first] && [first][..0] == [];
    assert TotalIn([first]) == TotalIn([]) + 100.0 && TotalOut([first]) == TotalOut([]) + 100.0;
    assert Spent(Split(first, second), 2) == 0;
  }

  lemma SplitIsBase(t: Trade)
    requires t == Split(RevisitSwap(), DirectSwap()) || t == Split(DirectSwap(), RevisitSwap())
    ensures Base(t, Plain())
    ensures forall k :: 0 <= k < 2 ==> HandedOver(t, k) == if t.swaps[k] == RevisitSwap() then {0, 1} else {}
  {
    RevisitSections();
    DirectSections();
    SplitTotals(t.swaps[0], t.swaps[1]);
    hide Sections, Boundaries, TotalIn, End, Chained;
  }

  // With the revisiting route first both routes can be walked and the output is acceptable, but the plan
  // reverts.
  lemma RevisitBreaksSplit(s: State)
    requires StartsEmpty(s.ledger, Split(RevisitSwap(), DirectSwap()))
    ensures
      var t := Split(RevisitSwap(), DirectSwap());
      && Base(t, Plain()) && Amounts(t)
      && WalkRoutes(Constant(100), s.world, t, 0) == Some((s.world, 200)) && Accepted(t, Plain(), 200)
      && Run(Constant(100), s, Plan(t, Plain())) == None
  {
    SplitTotals(RevisitSwap(), DirectSwap());
    SplitIsBase(Split(RevisitSwap(), DirectSwap()));
    RunsDry(s, Split(RevisitSwap(), DirectSwap()));
  }

  lemma RunsDry(s: State, t: Trade)
    requires Base(t, Plain()) && StartsEmpty(s.ledger, t) && |t.swaps| == 2 && t.input.Native? && WETH in HandedOver(t, 0)
    requires Spent(t, 1) == 100 && TotalOut(t.swaps) == 200.0
    ensures Amounts(t) && WalkRoutes(Constant(100), s.world, t, 0) == Some((s.world, 200)) && Accepted(t, Plain(), 200)
    ensures Run(Constant(100), s, Plan(t, Plain())) == None
  {
    hide Run, Plan, RouteOk, HandedOver, StartsEmpty, TotalIn, TotalOut, WalkRoutes, Spent, Constant;
    ConstantWalkRoutes(100, s.world, t, Plain(), 0);
    DrainedSplitReverts(100, s, t, Plain(), 0);
  }

  // The same routes the other way round share nothing: the plan means its walks.
  lemma RevisitLastIsApart()
    ensures Base(Split(DirectSwap(), RevisitSwap()), Plain()) && SharesApart(Split(DirectSwap(), RevisitSwap()))
  {
    var t := Split(DirectSwap(), RevisitSwap());
    SplitTotals(DirectSwap(), RevisitSwap());
    SplitIsBase(t);
    assert DirectSwap() != RevisitSwap() by { assert |REVISIT| != |DIRECT|; }
    hide HandedOver, TotalIn, Spent, Base, RevisitSwap, DirectSwap;
  }
}
