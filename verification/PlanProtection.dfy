// What the recipient of a plan that goes through is sure of, whatever the pools and the router hold.
module PlanProtection {
  import opened Arith
  import opened RouterMachine
  import opened RoutePlan
  import opened PlanAmounts
  import opened PlanMeaning
  import opened Sequences

  // ----- commands take from nobody but the payer -----

  // The sender pays in the plan's input token only.
  predicate TakesOnly(c: Command, input: nat) {
    match c
    case V2SwapExactIn(_, _, _, legs, payerIsUser) => payerIsUser && legs != [] ==> legs[0].from == input
    case V3SwapExactIn(_, _, _, path, payerIsUser) => payerIsUser ==> path.first == input
    case _ => true
  }

  // The router stays solvent and a party other than it loses none of an asset.
  ghost predicate NoLoss(l: Ledger, l': Ledger, p: Party, a: Asset) {
    Solvent(l') && Bal(l', p, a) >= Bal(l, p, a)
  }

  lemma PayLoses(l: Ledger, payer: Party, token: nat, amount: nat, p: Party, a: Asset)
    requires Solvent(l) && p != Router && (payer == p ==> a != Token(token)) && Pay(l, payer, Token(token), amount).Some?
    ensures NoLoss(l, Pay(l, payer, Token(token), amount).value, p, a)
  {
    hide Bal;
    var l' := Pay(l, payer, Token(token), amount).value;
    forall b ensures Bal(l', Router, b) >= 0 {
      assert Bal(l, Router, b) >= 0;
    }
  }

  lemma AddLoses(l: Ledger, recipient: Party, asset: Asset, amount: nat, p: Party, a: Asset)
    requires Solvent(l)
    ensures NoLoss(l, Add(l, recipient, asset, amount), p, a)
  {
    hide Bal;
    var l' := Add(l, recipient, asset, amount);
    forall b ensures Bal(l', Router, b) >= 0 {
      assert Bal(l, Router, b) >= 0;
    }
  }

  lemma {:induction false} CLWalkLoses(hop: Hop, s: State, recipient: Party, amount: nat, path: CLPath, payer: Party, p: Party, a: Asset)
    requires Solvent(s.ledger) && p != Router && (payer == p ==> a != Token(path.first))
    requires CLWalk(hop, s, recipient, amount, path, payer).Some?
    ensures
      var done := CLWalk(hop, s, recipient, amount, path, payer).value;
      && path.steps != [] && NoLoss(s.ledger, done.0.ledger, p, a)
      && (p == recipient && a == Token(path.steps[|path.steps| - 1].1) ==> Bal(done.0.ledger, p, a) >= Bal(s.ledger, p, a) + done.1)
    decreases |path.steps|
  {
    hide Bal, Add, Pay, Solvent;
    var spacing, next := path.steps[0].0, path.steps[0].1;
    var pool := CLPool(Low(path.first, next), High(path.first, next), spacing);
    var f := hop(s.world, pool, path.first, amount).value;
    PayLoses(s.ledger, payer, path.first, Taken(pool, amount, f), p, a);
    var l := Pay(s.ledger, payer, Token(path.first), Taken(pool, amount, f)).value;
    var receiver := if |path.steps| == 1 then recipient else Router;
    AddLoses(l, receiver, Token(next), f.out, p, a);
    if |path.steps| == 1 {
      AddGives(l, recipient, Token(next), f.out);
    } else {
      CLWalkLoses(hop, State(f.world, Add(l, Router, Token(next), f.out)), recipient, f.out, CLPath(next, path.steps[1..]), Router, p, a);
    }
  }

  lemma AddGives(l: Ledger, recipient: Party, asset: Asset, amount: int)
    ensures Bal(Add(l, recipient, asset, amount), recipient, asset) == Bal(l, recipient, asset) + amount
  {
  }

  // What a command that pays a recipient out must deliver.
  predicate Delivers(c: Command, recipient: Party, asset: Asset, minimum: int) {
    match c
    case Sweep(a, r, m) => a == asset && r == recipient && m == minimum
    case UnwrapWeth(r, m) => asset == Ether && r == recipient && m == minimum
    case V2SwapExactIn(r, _, m, legs, _) => legs != [] && Token(legs[|legs| - 1].to) == asset && r == recipient && m == minimum
    case V3SwapExactIn(r, _, m, path, _) =>
      path.steps != [] && Token(path.steps[|path.steps| - 1].1) == asset && r == recipient && m == minimum
    case _ => false
  }

  lemma ExecLoses(hop: Hop, s: State, c: Command, input: nat, p: Party, a: Asset)
    requires Solvent(s.ledger) && TakesOnly(c, input) && p != Router && a != Token(input)
    requires Exec(hop, s, c).Some?
    ensures NoLoss(s.ledger, Exec(hop, s, c).value.ledger, p, a)
    ensures forall minimum :: Delivers(c, p, a, minimum) ==> Bal(Exec(hop, s, c).value.ledger, p, a) >= Bal(s.ledger, p, a) + minimum
  {
    hide Bal, Add, Pay, NoLoss, Solvent;
    match c
    case V2SwapExactIn(_, _, _, _, _) => V2Loses(hop, s, c, input, p, a);
    case V3SwapExactIn(_, _, _, _, _) => V3Loses(hop, s, c, input, p, a);
    case _ => PaymentLoses(hop, s, c, p, a);
  }

  lemma V3Loses(hop: Hop, s: State, c: Command, input: nat, p: Party, a: Asset)
    requires c.V3SwapExactIn? && Solvent(s.ledger) && TakesOnly(c, input) && p != Router && a != Token(input)
    requires ExecV3(hop, s, c).Some?
    ensures NoLoss(s.ledger, ExecV3(hop, s, c).value.ledger, p, a)
    ensures forall minimum :: Delivers(c, p, a, minimum) ==> Bal(ExecV3(hop, s, c).value.ledger, p, a) >= Bal(s.ledger, p, a) + minimum
  {
    hide Bal, CLWalk, NoLoss, Solvent;
    var amount := if c.amountIn == CONTRACT_BALANCE then Bal(s.ledger, Router, Token(c.path.first)) else c.amountIn;
    CLWalkLoses(hop, s, c.recipient, amount, c.path, Payer(c.payerIsUser), p, a);
  }

  lemma V2Loses(hop: Hop, s: State, c: Command, input: nat, p: Party, a: Asset)
    requires c.V2SwapExactIn? && Solvent(s.ledger) && TakesOnly(c, input) && p != Router && a != Token(input)
    requires ExecV2(hop, s, c).Some?
    ensures NoLoss(s.ledger, ExecV2(hop, s, c).value.ledger, p, a)
    ensures forall minimum :: Delivers(c, p, a, minimum) ==> Bal(ExecV2(hop, s, c).value.ledger, p, a) >= Bal(s.ledger, p, a) + minimum
  {
    hide Bal, V2Walk, Add, Pay, Solvent;
    var payer, token := Payer(c.payerIsUser), c.legs[0].from;
    var amount := if payer == Router && c.amountIn == CONTRACT_BALANCE then Bal(s.ledger, Router, Token(token)) else c.amountIn;
    PayLoses(s.ledger, payer, token, amount, p, a);
    var l := Pay(s.ledger, payer, Token(token), amount).value;
    var out := V2Walk(hop, s.world, c.legs, amount).value.1;
    AddLoses(l, c.recipient, Token(c.legs[|c.legs| - 1].to), out, p, a);
    AddGives(l, c.recipient, Token(c.legs[|c.legs| - 1].to), out);
  }

  lemma PaymentLoses(hop: Hop, s: State, c: Command, p: Party, a: Asset)
    requires !c.V2SwapExactIn? && !c.V3SwapExactIn? && Solvent(s.ledger) && p != Router && Exec(hop, s, c).Some?
    ensures NoLoss(s.ledger, Exec(hop, s, c).value.ledger, p, a)
    ensures forall minimum :: Delivers(c, p, a, minimum) ==> Bal(Exec(hop, s, c).value.ledger, p, a) >= Bal(s.ledger, p, a) + minimum
  {
    hide Bal;
    var l, l' := s.ledger, Exec(hop, s, c).value.ledger;
    assert Bal(l, Router, Ether) >= 0 && Bal(l, Router, Token(WETH)) >= 0;
    if c.PayPortion? {
      assert Bal(l, Router, c.asset) >= 0;
      PortionOfBalance(Bal(l, Router, c.asset), c.bips);
    }
    if c.Sweep? { assert Bal(l, Router, c.asset) >= 0; }
    forall b ensures Bal(l', Router, b) >= 0 {
      assert Bal(l, Router, b) >= 0;
    }
  }

  lemma PortionOfBalance(held: nat, bips: int)
    requires 0 < bips <= 10_000
    ensures 0 <= held * bips / 10_000 <= held
  {
    MulMono(0, bips, held);
    MulMono(bips, 10_000, held);
    FloorGalois(held * bips, 10_000, 0);
    FloorGalois(held * bips, 10_000, held + 1);
  }

  lemma {:induction false} RunLoses(hop: Hop, s: State, plan: seq<Command>, input: nat, p: Party, a: Asset)
    requires Solvent(s.ledger) && p != Router && a != Token(input)
    requires forall k :: 0 <= k < |plan| ==> TakesOnly(plan[k], input)
    requires Run(hop, s, plan).Some?
    ensures NoLoss(s.ledger, Run(hop, s, plan).value.ledger, p, a)
    decreases |plan|
  {
    hide Bal, Exec, Solvent;
    if plan != [] {
      ExecLoses(hop, s, plan[0], input, p, a);
      RunLoses(hop, Exec(hop, s, plan[0]).value, plan[1..], input, p, a);
    }
  }

  // ----- the commands of a plan -----

  ghost predicate AllTakeOnly(plan: seq<Command>, input: nat) {
    forall k :: 0 <= k < |plan| ==> TakesOnly(plan[k], input)
  }

  lemma JoinTakeOnly(a: seq<Command>, b: seq<Command>, input: nat)
    requires AllTakeOnly(a, input) && AllTakeOnly(b, input)
    ensures AllTakeOnly(a + b, input)
  {
    hide TakesOnly;
    forall k | 0 <= k < |a + b| ensures TakesOnly((a + b)[k], input) {
      if k < |a| { assert (a + b)[k] == a[k]; } else { assert (a + b)[k] == b[k - |a|]; }
    }
  }

  lemma SectionTakesOnly(section: seq<Pool>, tokens: seq<nat>, recipient: Party, amountIn: nat, minimum: int, payerIsUser: bool, input: nat)
    requires section != [] && Uniform(section) && |tokens| == |section| + 1 && (payerIsUser ==> tokens[0] == input)
    ensures TakesOnly(SectionCommand(section, tokens, recipient, amountIn, minimum, payerIsUser), input)
  {
  }

  lemma {:induction false} MixedTakeOnly(sections: seq<seq<Pool>>, tokens: seq<nat>, recipient: Party, amountIn: nat, minimum: int,
                                         payerIsUser: bool, input: nat)
    requires sections != [] && |tokens| == |Flat(sections)| + 1 && (payerIsUser ==> tokens[0] == input)
    requires forall k :: 0 <= k < |sections| ==> sections[k] != [] && Uniform(sections[k])
    ensures AllTakeOnly(MixedCommands(sections, tokens, recipient, amountIn, minimum, payerIsUser), input)
    decreases |sections|
  {
    hide TakesOnly, SectionCommand;
    var n := |sections[0]|;
    if |sections| == 1 {
      SectionTakesOnly(sections[0], tokens[..n + 1], recipient, amountIn, minimum, payerIsUser, input);
    } else {
      SectionTakesOnly(sections[0], tokens[..n + 1], Router, amountIn, 0, payerIsUser, input);
      MixedTakeOnly(sections[1..], tokens[n..], recipient, CONTRACT_BALANCE, minimum, false, input);
    }
  }

  lemma LegTakesOnly(t: Trade, o: Options, swap: Swap)
    requires o.slippageDenominator > 0 && RouteOk(swap.route, Wrapped(t.input)) && swap.inputAmount >= 0.0
    ensures AllTakeOnly(SwapCommands(t, o, swap), Wrapped(t.input))
  {
    hide MixedCommands, AllTakeOnly;
    RouteSectionsFacts(swap.route, Wrapped(t.input));
    MixedTakeOnly(RouteSections(swap.route), PathOf(swap.route.pools, Wrapped(t.input)), SwapRecipient(t, o), Quotient(swap.inputAmount),
                  if RouterMustCustody(t, o) then 0 else MinimumAmountOut(o, swap.outputAmount), !t.input.Native?, Wrapped(t.input));
  }

  lemma {:induction false} LegsTakeOnly(t: Trade, o: Options, from: nat)
    requires WellFormed(t, o) && from <= |t.swaps|
    ensures AllTakeOnly(AllSwapCommands(t, o, from), Wrapped(t.input))
    decreases |t.swaps| - from
  {
    hide AllTakeOnly, SwapCommands, RouteOk;
    if from == |t.swaps| {
      NoneTake(Wrapped(t.input));
    } else {
      LegTakesOnly(t, o, t.swaps[from]);
      LegsTakeOnly(t, o, from + 1);
      JoinTakeOnly(SwapCommands(t, o, t.swaps[from]), AllSwapCommands(t, o, from + 1), Wrapped(t.input));
    }
  }

  lemma NoneTake(input: nat)
    ensures AllTakeOnly([], input)
  {
  }

  // The last command of a route, which pays its recipient in the token the route ends at.
  lemma {:induction false} LastSection(sections: seq<seq<Pool>>, tokenIn: nat, recipient: Party, amountIn: nat, minimum: int, payerIsUser: bool)
    returns (front: seq<Command>, last: Command)
    requires sections != [] && forall k :: 0 <= k < |sections| ==> sections[k] != [] && Uniform(sections[k])
    ensures MixedCommands(sections, PathOf(Flat(sections), tokenIn), recipient, amountIn, minimum, payerIsUser) == front + [last]
    ensures Delivers(last, recipient, Token(End(Flat(sections), tokenIn)), minimum)
    ensures last.V2SwapExactIn? || last.V3SwapExactIn?
    decreases |sections|
  {
    hide SectionCommand, Delivers, PathOf, End;
    var first, rest := sections[0], sections[1..];
    var tokens := PathOf(Flat(sections), tokenIn);
    PathSplits(first, Flat(rest), tokenIn);
    ChainConcat(first, Flat(rest), tokenIn);
    if |sections| == 1 {
      assert Flat(rest) == [] && first + [] == first;
      front, last := [], SectionCommand(first, PathOf(first, tokenIn), recipient, amountIn, minimum, payerIsUser);
      SectionDelivers(first, tokenIn, recipient, amountIn, minimum, payerIsUser);
      assert [] + [last] == [last];
    } else {
      var front', last' := LastSection(rest, End(first, tokenIn), recipient, CONTRACT_BALANCE, minimum, false);
      var command := SectionCommand(first, tokens[..|first| + 1], Router, amountIn, 0, payerIsUser);
      front, last := [command] + front', last';
      assert [command] + (front' + [last']) == ([command] + front') + [last'];
    }
  }

  lemma SectionDelivers(section: seq<Pool>, tokenIn: nat, recipient: Party, amountIn: nat, minimum: int, payerIsUser: bool)
    requires section != [] && Uniform(section)
    ensures Delivers(SectionCommand(section, PathOf(section, tokenIn), recipient, amountIn, minimum, payerIsUser),
                     recipient, Token(End(section, tokenIn)), minimum)
    ensures var c := SectionCommand(section, PathOf(section, tokenIn), recipient, amountIn, minimum, payerIsUser);
            c.V2SwapExactIn? || c.V3SwapExactIn?
  {
    PathEnds(section, tokenIn);
    if section[0].CLPool? { StepsEnd(section, tokenIn); }
  }

  lemma {:induction false} PathEnds(pools: seq<Pool>, tokenIn: nat)
    ensures PathOf(pools, tokenIn)[|pools|] == End(pools, tokenIn)
    decreases |pools|
  {
    if pools != [] { PathEnds(pools[1..], Other(pools[0], tokenIn)); }
  }

  lemma {:induction false} StepsEnd(pools: seq<Pool>, tokenIn: nat)
    requires pools != [] && AllCL(pools)
    ensures StepsOf(pools, tokenIn)[|pools| - 1].1 == End(pools, tokenIn)
    decreases |pools|
  {
    if |pools| > 1 { StepsEnd(pools[1..], Other(pools[0], tokenIn)); }
  }

  // A plan ends with the payout when its output is native, a fee is taken, safe mode asks for it or the
  // trade is split, and otherwise with the swap itself; either way the last command pays the recipient,
  // the sender where none is named.
  lemma LastCommand(t: Trade, o: Options) returns (front: seq<Command>, last: Command)
    requires WellFormed(t, o)
    requires forall k :: 0 <= k < |t.swaps| ==> End(t.swaps[k].route.pools, Wrapped(t.input)) == Wrapped(t.output)
    ensures Plan(t, o) == front + [last] && AllTakeOnly(front, Wrapped(t.input)) && TakesOnly(last, Wrapped(t.input))
    ensures Delivers(last, if o.recipient.Some? then o.recipient.value else Sender,
                     if t.output.Native? then Ether else Token(t.output.id), MinimumAfterFee(o, Minimum(t, o)))
    ensures last.Sweep? || last.UnwrapWeth? <==> t.output.Native? || o.fee.Some? || o.safeMode || |t.swaps| > 1
  {
    TotalInNonNegative(t.swaps);
    var input := Wrapped(t.input);
    LegsTakeOnly(t, o, 0);
    HeadTakesOnly(t);
    hide AllTakeOnly, RouteOk, Delivers, TakesOnly, MinimumAmountOut, MinimumAfterFee;
    var before := Head(t) + AllSwapCommands(t, o, 0);
    JoinTakeOnly(Head(t), AllSwapCommands(t, o, 0), input);
    if RouterMustCustody(t, o) {
      var paid;
      paid, last := LastOfTail(t, o);
      front := before + paid;
      JoinTakeOnly(before, paid, input);
      assert before + (paid + [last]) == front + [last];
    } else {
      var swaps;
      swaps, last := LastOfLeg(t, o);
      front := Head(t) + swaps;
      SplitTakeOnly(swaps, last, input);
      JoinTakeOnly(Head(t), swaps, input);
      assert Tail(t, o) == [];
      assert Head(t) + (swaps + [last]) + [] == front + [last];
    }
  }

  lemma HeadTakesOnly(t: Trade)
    requires TotalIn(t.swaps) >= 0.0
    ensures AllTakeOnly(Head(t), Wrapped(t.input))
  {
  }

  lemma SplitTakeOnly(front: seq<Command>, last: Command, input: nat)
    requires AllTakeOnly(front + [last], input)
    ensures AllTakeOnly(front, input) && TakesOnly(last, input)
  {
    hide TakesOnly;
    var all := front + [last];
    assert all[|front|] == last;
    forall k | 0 <= k < |front| ensures TakesOnly(front[k], input) { assert all[k] == front[k]; }
  }

  lemma LastOfTail(t: Trade, o: Options) returns (paid: seq<Command>, last: Command)
    requires WellFormed(t, o) && RouterMustCustody(t, o)
    ensures Tail(t, o) == paid + [last] && AllTakeOnly(paid, Wrapped(t.input)) && TakesOnly(last, Wrapped(t.input))
    ensures Delivers(last, if o.recipient.Some? then o.recipient.value else Sender,
                     if t.output.Native? then Ether else Token(t.output.id), MinimumAfterFee(o, Minimum(t, o)))
    ensures last.Sweep? || last.UnwrapWeth?
  {
    hide RouteOk, MinimumAmountOut, MinimumAfterFee, Bips;
    var minimum := Minimum(t, o);
    last := if t.output.Native? && o.fee.None? then UnwrapWeth(FinalRecipient(o), MinimumAfterFee(o, minimum))
            else Sweep(OutputAsset(t), FinalRecipient(o), MinimumAfterFee(o, minimum));
    paid := (if t.output.Native? && o.fee.Some? then [UnwrapWeth(Router, minimum)] else [])
            + (if o.fee.Some? then [PayPortion(OutputAsset(t), o.fee.value.recipient, Bips(o.fee.value))] else []);
  }

  lemma LastOfLeg(t: Trade, o: Options) returns (swaps: seq<Command>, last: Command)
    requires WellFormed(t, o) && !RouterMustCustody(t, o)
    requires End(t.swaps[0].route.pools, Wrapped(t.input)) == Wrapped(t.output)
    ensures AllSwapCommands(t, o, 0) == swaps + [last] && (last.V2SwapExactIn? || last.V3SwapExactIn?)
    ensures Delivers(last, if o.recipient.Some? then o.recipient.value else Sender, Token(t.output.id), MinimumAfterFee(o, Minimum(t, o)))
  {
    hide RouteOk, Delivers, MixedCommands, MinimumAmountOut;
    var swap := t.swaps[0];
    RouteIsFine(t, o);
    RouteSectionsFacts(swap.route, Wrapped(t.input));
    LoneMinimum(t, o);
    swaps, last := LastSection(RouteSections(swap.route), Wrapped(t.input), SwapRecipient(t, o), Quotient(swap.inputAmount),
                               MinimumAmountOut(o, swap.outputAmount), !t.input.Native?);
    assert AllSwapCommands(t, o, 1) == [];
    assert SwapCommands(t, o, swap) == swaps + [last];
    assert (swaps + [last]) + [] == swaps + [last];
  }

  lemma RouteIsFine(t: Trade, o: Options)
    requires WellFormed(t, o)
    ensures RouteOk(t.swaps[0].route, Wrapped(t.input)) && t.swaps[0].inputAmount >= 0.0
  {
  }

  // ----- what the recipient is sure of -----

  // Whatever the pools do and whatever the router holds beforehand, a plan that goes through leaves the
  // recipient up by the minimum, less the fee where one is taken; and the minimum, raised by the
  // tolerance, falls short of the quoted output by less than a unit.
  lemma SlippageIsRespected(hop: Hop, s: State, t: Trade, o: Options) returns (minimum: int)
    requires WellFormed(t, o) && Wrapped(t.input) != Wrapped(t.output) && FinalRecipient(o) != Router && Solvent(s.ledger)
    requires forall k :: 0 <= k < |t.swaps| ==> End(t.swaps[k].route.pools, Wrapped(t.input)) == Wrapped(t.output)
    requires Run(hop, s, Plan(t, o)).Some?
    ensures (minimum + 1) * (o.slippageDenominator + o.slippageNumerator) > TotalOut(t.swaps).Floor * o.slippageDenominator
    ensures
      var recipient := if o.recipient.Some? then o.recipient.value else Sender;
      var asset := if t.output.Native? then Ether else Token(t.output.id);
      var gain := Bal(Run(hop, s, Plan(t, o)).value.ledger, recipient, asset) - Bal(s.ledger, recipient, asset);
      && (o.fee.None? ==> gain >= minimum)
      && (o.fee.Some? ==> (gain + 1) * o.fee.value.denominator > minimum * (o.fee.value.denominator - o.fee.value.numerator))
  {
    hide *;
    DenominatorsPositive(t, o);
    var gain := RecipientGains(hop, s, t, o);
    minimum := Minimum(t, o);
    MinimumsMet(o, TotalOut(t.swaps), minimum, gain) by { MinimumIs(t, o); }
  }

  lemma DenominatorsPositive(t: Trade, o: Options)
    requires WellFormed(t, o)
    ensures o.slippageDenominator > 0 && (o.fee.Some? ==> o.fee.value.denominator > 0)
  {
  }

  lemma MinimumIs(t: Trade, o: Options)
    requires o.slippageDenominator > 0
    ensures Minimum(t, o) == MinimumAmountOut(o, TotalOut(t.swaps))
  {
    hide MinimumAmountOut, TotalOut;
  }

  lemma MinimumsMet(o: Options, quoted: real, minimum: int, gain: int)
    requires o.slippageDenominator > 0 && (o.fee.Some? ==> o.fee.value.denominator > 0)
    requires minimum == MinimumAmountOut(o, quoted) && gain >= MinimumAfterFee(o, minimum)
    ensures (minimum + 1) * (o.slippageDenominator + o.slippageNumerator) > quoted.Floor * o.slippageDenominator
    ensures o.fee.None? ==> gain >= minimum
    ensures o.fee.Some? ==> (gain + 1) * o.fee.value.denominator > minimum * (o.fee.value.denominator - o.fee.value.numerator)
  {
    hide MinimumAmountOut, MinimumAfterFee;
    MinimumIsTolerated(o, quoted, minimum + 1);
    MinimumAfterFeeIsRest(o, minimum, gain + 1);
  }

  lemma RecipientGains(hop: Hop, s: State, t: Trade, o: Options) returns (gain: int)
    requires WellFormed(t, o) && Wrapped(t.input) != Wrapped(t.output) && FinalRecipient(o) != Router && Solvent(s.ledger)
    requires forall k :: 0 <= k < |t.swaps| ==> End(t.swaps[k].route.pools, Wrapped(t.input)) == Wrapped(t.output)
    requires Run(hop, s, Plan(t, o)).Some?
    ensures
      var recipient := if o.recipient.Some? then o.recipient.value else Sender;
      var asset := if t.output.Native? then Ether else Token(t.output.id);
      && gain == Bal(Run(hop, s, Plan(t, o)).value.ledger, recipient, asset) - Bal(s.ledger, recipient, asset)
      && gain >= MinimumAfterFee(o, Minimum(t, o))
  {
    var recipient := if o.recipient.Some? then o.recipient.value else Sender;
    var asset := if t.output.Native? then Ether else Token(t.output.id);
    var front, last := LastCommand(t, o);
    hide Run, Plan, Bal, Exec, TakesOnly, Delivers, MinimumAmountOut, MinimumAfterFee, RouteOk, TotalOut, Solvent;
    RunConcat(hop, s, front, [last]);
    var before := Run(hop, s, front).value;
    RunOne(hop, before, last);
    RunLoses(hop, s, front, Wrapped(t.input), recipient, asset);
    ExecLoses(hop, before, last, Wrapped(t.input), recipient, asset);
    gain := Bal(Run(hop, s, Plan(t, o)).value.ledger, recipient, asset) - Bal(s.ledger, recipient, asset);
  }

  // The quoted output is the sum over the legs.
  lemma {:induction false} TotalOutAdds(a: seq<Swap>, b: seq<Swap>)
    ensures TotalOut(a + b) == TotalOut(a) + TotalOut(b) && TotalIn(a + b) == TotalIn(a) + TotalIn(b)
    ensures |b| == 1 ==> TotalOut(b) == b[0].outputAmount && TotalIn(b) == b[0].inputAmount
    decreases |b|
  {
    if b == [] {
      assert a + b == a;
    } else {
      var front := b[..|b| - 1];
      assert (a + b)[..|a + b| - 1] == a + front;
      TotalOutAdds(a, front);
      assert TotalOut(b) == TotalOut(front) + b[|b| - 1].outputAmount;
    }
  }
}
