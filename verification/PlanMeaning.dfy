// The compiled plan means what walking each route pool by pool means.
module PlanMeaning {
  import opened Results
  import opened RouterMachine
  import opened RoutePlan
  import opened PlanAmounts
  import opened Sequences

  // ----- walking the routes -----

  // Walking the routes one after the other.
  function WalkRoutes(hop: Hop, w: World, t: Trade, from: nat): Option<(World, nat)>
    requires from <= |t.swaps| && forall k :: 0 <= k < |t.swaps| ==> t.swaps[k].inputAmount >= 0.0
    decreases |t.swaps| - from
  {
    if from == |t.swaps| then Some((w, 0))
    else
      match Walk(hop, w, t.swaps[from].route.pools, Wrapped(t.input), Part(t.swaps[from]))
      case None => None
      case Some(leg) =>
        match WalkRoutes(hop, leg.0, t, from + 1)
        case None => None
        case Some(rest) => Some((rest.0, leg.1 + rest.1))
  }

  function LegPayer(t: Trade): Party {
    Payer(!t.input.Native?)
  }

  function LegFloor(t: Trade, o: Options, swap: Swap): int
    requires o.slippageDenominator > 0
  {
    if RouterMustCustody(t, o) then 0 else MinimumAmountOut(o, swap.outputAmount)
  }

  function HandedOver(t: Trade, k: nat): set<nat>
    requires k < |t.swaps|
  {
    Boundaries(RouteSections(t.swaps[k].route), Wrapped(t.input))
  }

  function LegRests(hop: Hop, w: World, t: Trade, k: nat): seq<Rest>
    requires k < |t.swaps| && t.swaps[k].inputAmount >= 0.0
  {
    Rests(hop, w, t.swaps[k].route.pools, Wrapped(t.input), Part(t.swaps[k]))
  }

  predicate Amounts(t: Trade) {
    forall k :: 0 <= k < |t.swaps| ==> t.swaps[k].inputAmount >= 0.0
  }

  // What the pools of the walks leave untaken, as it comes back to its holders.
  function LegsBack(hop: Hop, w: World, t: Trade, from: nat, p: Party, a: Asset): nat
    requires from <= |t.swaps| && Amounts(t)
    decreases |t.swaps| - from
  {
    if from == |t.swaps| then 0
    else
      match Walk(hop, w, t.swaps[from].route.pools, Wrapped(t.input), Part(t.swaps[from]))
      case None => 0
      case Some(leg) => Back(LegPayer(t), LegRests(hop, w, t, from), p, a) + LegsBack(hop, leg.0, t, from + 1, p, a)
  }

  // ----- what the plan's meaning rests on -----

  // Every route ends at the output, which is not the input, and the payees are not the router itself.
  ghost predicate Base(t: Trade, o: Options) {
    && WellFormed(t, o)
    && Wrapped(t.input) != Wrapped(t.output)
    && Quotient(TotalIn(t.swaps)) < 0x8000000000000000000000000000000000000000000000000000000000000000
    && FinalRecipient(o) != Router && (o.fee.Some? ==> o.fee.value.recipient != Router)
    && forall k :: 0 <= k < |t.swaps| ==> End(t.swaps[k].route.pools, Wrapped(t.input)) == Wrapped(t.output)
  }

  // What the router holds of a native input for others once leg k has paid: later legs' parts and dust.
  function OthersShare(t: Trade, k: nat): int
    requires k < |t.swaps|
  {
    Quotient(TotalIn(t.swaps)) - Spent(t, 0) + Spent(t, k + 1)
  }

  // No section hands over a token of which the router holds another leg's share: the output, unless no
  // leg has delivered yet, or the wrapped input of a native trade, unless nothing else is left of it.
  ghost predicate SharesApart(t: Trade) {
    forall k, b :: 0 <= k < |t.swaps| && b in HandedOver(t, k) ==>
      && (b == Wrapped(t.output) ==> k == 0)
      && (t.input.Native? && b == WETH ==> OthersShare(t, k) == 0)
  }

  // The router needs a token again after leg k: a later section hands it over, or it is the output.
  ghost predicate NeededAgain(t: Trade, o: Options, k: nat, b: nat)
    requires k < |t.swaps|
  {
    (RouterMustCustody(t, o) && b == Wrapped(t.output)) || exists j :: k < j < |t.swaps| && b in HandedOver(t, j)
  }

  // No pool leaves the router any of a token it needs again.
  ghost predicate RestsApart(hop: Hop, w: World, t: Trade, o: Options, from: nat)
    requires from <= |t.swaps| && Amounts(t)
    decreases |t.swaps| - from
  {
    if from == |t.swaps| then true
    else
      && SectionsApart(hop, w, RouteSections(t.swaps[from].route), Wrapped(t.input), Part(t.swaps[from]), LegPayer(t))
      && match Walk(hop, w, t.swaps[from].route.pools, Wrapped(t.input), Part(t.swaps[from]))
         case None => true
         case Some(leg) =>
           && (forall b :: NeededAgain(t, o, from, b) ==>
                 Back(LegPayer(t), LegRests(hop, w, t, from), Router, Token(b)) == 0)
           && RestsApart(hop, leg.0, t, o, from + 1)
  }

  // ----- the legs -----

  // What the router holds as leg k comes up: enough of a native input, and of each token still to be
  // handed over nothing but the native input.
  ghost predicate Ready(l: Ledger, t: Trade, from: nat)
    requires from <= |t.swaps|
  {
    && Solvent(l)
    && (t.input.Native? ==> Bal(l, Router, Token(WETH)) >= Unspent(t, from))
    && forall k, b :: from <= k < |t.swaps| && b in HandedOver(t, k) ==> Bal(l, Router, Token(b)) == HeldOf(t, from, b)
  }

  function Unspent(t: Trade, from: nat): int
    requires from <= |t.swaps|
  {
    Quotient(TotalIn(t.swaps)) - Spent(t, 0) + Spent(t, from)
  }

  function HeldOf(t: Trade, from: nat, b: nat): int
    requires from <= |t.swaps|
  {
    if t.input.Native? && b == WETH then Unspent(t, from) else 0
  }

  lemma PlainAmount(t: Trade, o: Options, k: nat)
    requires Base(t, o) && k < |t.swaps|
    ensures 0 <= Part(t.swaps[k]) < CONTRACT_BALANCE && Part(t.swaps[k]) <= Spent(t, k) <= Unspent(t, k)
    ensures RouteOk(t.swaps[k].route, Wrapped(t.input))
    ensures Spent(t, k) == Part(t.swaps[k]) + Spent(t, k + 1)
  {
    hide RouteOk;
    SpentBounds(t, o, 0);
    SpentBounds(t, o, k);
    Dust(t);
  }

  lemma LegIsClear(l: Ledger, t: Trade, o: Options, k: nat)
    requires Base(t, o) && SharesApart(t) && k < |t.swaps| && Ready(l, t, k)
    ensures 0 <= Part(t.swaps[k])
    ensures BoundariesClear(l, HandedOver(t, k), LegPayer(t) == Router, Wrapped(t.input), Part(t.swaps[k]))
    ensures CanPay(l, LegPayer(t), Token(Wrapped(t.input)), Part(t.swaps[k]))
  {
    hide Bal, RouteOk, HandedOver, WellFormed;
    PlainAmount(t, o, k);
    forall b | b in HandedOver(t, k)
      ensures Bal(l, Router, Token(b)) == if LegPayer(t) == Router && b == Wrapped(t.input) then Part(t.swaps[k]) else 0
    {
      assert Bal(l, Router, Token(b)) == HeldOf(t, k, b);
    }
  }

  lemma ExecLeg(hop: Hop, s: State, t: Trade, o: Options, k: nat)
    requires Base(t, o) && SharesApart(t) && k < |t.swaps| && Ready(s.ledger, t, k)
    requires SectionsApart(hop, s.world, RouteSections(t.swaps[k].route), Wrapped(t.input), Part(t.swaps[k]), LegPayer(t))
    ensures RouteOk(t.swaps[k].route, Wrapped(t.input)) && Part(t.swaps[k]) >= 0
    ensures RunsAs(hop, s, Run(hop, s, SwapCommands(t, o, t.swaps[k])), t.swaps[k].route.pools, Wrapped(t.input), Part(t.swaps[k]),
                   LegPayer(t), SwapRecipient(t, o), LegFloor(t, o, t.swaps[k]))
  {
    assert o.slippageDenominator > 0;
    hide RunsAs, Ready, Base, SharesApart, Bal, CanPay, BoundariesClear, MixedCommands, SectionsApart;
    var r := t.swaps[k].route;
    PlainAmount(t, o, k);
    LegIsClear(s.ledger, t, o, k);
    RouteSectionsFacts(r, Wrapped(t.input));
    ExecMixed(hop, s, RouteSections(r), Wrapped(t.input), SwapRecipient(t, o), Part(t.swaps[k]), LegFloor(t, o, t.swaps[k]), !t.input.Native?);
  }

  lemma StillReady(l: Ledger, m: Ledger, t: Trade, o: Options, k: nat, out: nat, rests: seq<Rest>)
    requires Base(t, o) && SharesApart(t) && k < |t.swaps| && Ready(l, t, k)
    requires Moved(l, m, LegPayer(t), Wrapped(t.input), Part(t.swaps[k]), SwapRecipient(t, o), Wrapped(t.output), out, rests)
    requires forall b :: NeededAgain(t, o, k, b) ==> Back(LegPayer(t), rests, Router, Token(b)) == 0
    ensures Ready(m, t, k + 1)
  {
    hide Bal, RouteOk, HandedOver, WellFormed, Back;
    PlainAmount(t, o, k);
    forall a ensures Bal(m, Router, a) >= 0 {
      assert Bal(l, Router, a) >= 0;
    }
    forall j, b | k + 1 <= j < |t.swaps| && b in HandedOver(t, j) ensures Bal(m, Router, Token(b)) == HeldOf(t, k + 1, b) {
      assert Bal(l, Router, Token(b)) == HeldOf(t, k, b);
      assert NeededAgain(t, o, k, b);
    }
  }

  // The legs' payments, receipts and rests, taken together.
  ghost predicate LegsMoved(hop: Hop, w: World, l: Ledger, m: Ledger, t: Trade, o: Options, from: nat, out: int)
    requires from <= |t.swaps| && Amounts(t)
  {
    forall p, a ::
      Bal(m, p, a) == Bal(l, p, a) - (if p == LegPayer(t) && a == Token(Wrapped(t.input)) then Spent(t, from) else 0)
                                   + (if p == SwapRecipient(t, o) && a == Token(Wrapped(t.output)) then out else 0)
                                   + LegsBack(hop, w, t, from, p, a)
  }

  lemma LegsMovedNext(hop: Hop, w: World, l: Ledger, m: Ledger, n: Ledger, t: Trade, o: Options, from: nat, leg: (World, nat), rest: nat)
    requires from < |t.swaps| && Amounts(t)
    requires Walk(hop, w, t.swaps[from].route.pools, Wrapped(t.input), Part(t.swaps[from])) == Some(leg)
    requires Moved(l, m, LegPayer(t), Wrapped(t.input), Part(t.swaps[from]), SwapRecipient(t, o), Wrapped(t.output), leg.1, LegRests(hop, w, t, from))
    requires LegsMoved(hop, leg.0, m, n, t, o, from + 1, rest)
    ensures LegsMoved(hop, w, l, n, t, o, from, leg.1 + rest)
  {
    hide Bal, Back, Walk, LegRests;
    forall p, a ensures
      Bal(n, p, a) == Bal(l, p, a) - (if p == LegPayer(t) && a == Token(Wrapped(t.input)) then Spent(t, from) else 0)
                                   + (if p == SwapRecipient(t, o) && a == Token(Wrapped(t.output)) then leg.1 + rest else 0)
                                   + LegsBack(hop, w, t, from, p, a)
    {
      LegsBackNext(hop, w, t, from, leg, p, a);
      assert Spent(t, from) == Part(t.swaps[from]) + Spent(t, from + 1);
      hide LegsBack;
    }
  }

  lemma LegsBackNext(hop: Hop, w: World, t: Trade, from: nat, leg: (World, nat), p: Party, a: Asset)
    requires from < |t.swaps| && Amounts(t)
    requires Walk(hop, w, t.swaps[from].route.pools, Wrapped(t.input), Part(t.swaps[from])) == Some(leg)
    ensures LegsBack(hop, w, t, from, p, a) == Back(LegPayer(t), LegRests(hop, w, t, from), p, a) + LegsBack(hop, leg.0, t, from + 1, p, a)
  {
    hide Back, Walk, LegRests;
  }

  lemma NoLegsLeft(hop: Hop, s: State, t: Trade, o: Options)
    requires WellFormed(t, o)
    ensures Amounts(t)
    ensures Run(hop, s, AllSwapCommands(t, o, |t.swaps|)) == Some(s)
    ensures LegsMoved(hop, s.world, s.ledger, s.ledger, t, o, |t.swaps|, 0)
  {
    hide Bal, RouteOk;
  }

  lemma AmountsOk(t: Trade, o: Options)
    requires WellFormed(t, o)
    ensures Amounts(t)
  {
    hide RouteOk;
  }

  // What running the legs from some point on comes to.
  ghost predicate LegsRun(hop: Hop, s: State, result: Option<State>, t: Trade, o: Options, from: nat)
    requires from <= |t.swaps| && t.swaps != [] && Amounts(t) && o.slippageDenominator > 0
  {
    var walked := WalkRoutes(hop, s.world, t, from);
    && (result.Some? <==>
         walked.Some? && (RouterMustCustody(t, o) || from == |t.swaps| || walked.value.1 >= LegFloor(t, o, t.swaps[0])))
    && (result.Some? ==>
         result.value.world == walked.value.0 && LegsMoved(hop, s.world, s.ledger, result.value.ledger, t, o, from, walked.value.1))
  }

  lemma LegRestsAre(hop: Hop, w: World, t: Trade, k: nat)
    requires k < |t.swaps| && t.swaps[k].inputAmount >= 0.0
    ensures LegRests(hop, w, t, k) == Rests(hop, w, t.swaps[k].route.pools, Wrapped(t.input), Part(t.swaps[k]))
  {
  }

  lemma WalkRoutesNext(hop: Hop, w: World, t: Trade, from: nat)
    requires from < |t.swaps| && Amounts(t)
    ensures
      var leg := Walk(hop, w, t.swaps[from].route.pools, Wrapped(t.input), Part(t.swaps[from]));
      WalkRoutes(hop, w, t, from) ==
        if leg.None? then None
        else
          var rest := WalkRoutes(hop, leg.value.0, t, from + 1);
          if rest.None? then None else Some((rest.value.0, leg.value.1 + rest.value.1))
    ensures forall w' :: WalkRoutes(hop, w', t, |t.swaps|) == Some((w', 0))
  {
    hide Walk;
  }

  lemma JoinLegs(hop: Hop, s: State, leg: Option<State>, result: Option<State>, t: Trade, o: Options, from: nat)
    requires Base(t, o) && Amounts(t) && from < |t.swaps| && Part(t.swaps[from]) >= 0
    requires RunsAs(hop, s, leg, t.swaps[from].route.pools, Wrapped(t.input), Part(t.swaps[from]), LegPayer(t), SwapRecipient(t, o),
                    LegFloor(t, o, t.swaps[from]))
    requires leg.None? ==> result.None?
    requires leg.Some? ==> LegsRun(hop, leg.value, result, t, o, from + 1)
    ensures LegsRun(hop, s, result, t, o, from)
  {
    hide RouteOk, Walk, LegRests, LegsMoved, Moved, TotalIn, MinimumAmountOut, Quotient;
    WalkRoutesNext(hop, s.world, t, from);
    hide WalkRoutes;
    if leg.Some? && result.Some? {
      var walked := Walk(hop, s.world, t.swaps[from].route.pools, Wrapped(t.input), Part(t.swaps[from])).value;
      LegRestsAre(hop, s.world, t, from);
      LegsMovedNext(hop, s.world, s.ledger, leg.value.ledger, result.value.ledger, t, o, from, walked,
                    WalkRoutes(hop, walked.0, t, from + 1).value.1);
    }
  }

  lemma RestsApartNext(hop: Hop, w: World, t: Trade, o: Options, from: nat)
    requires from < |t.swaps| && Amounts(t) && RestsApart(hop, w, t, o, from)
    ensures SectionsApart(hop, w, RouteSections(t.swaps[from].route), Wrapped(t.input), Part(t.swaps[from]), LegPayer(t))
    ensures
      var leg := Walk(hop, w, t.swaps[from].route.pools, Wrapped(t.input), Part(t.swaps[from]));
      leg.Some? ==>
        && (forall b :: NeededAgain(t, o, from, b) ==> Back(LegPayer(t), LegRests(hop, w, t, from), Router, Token(b)) == 0)
        && RestsApart(hop, leg.value.0, t, o, from + 1)
  {
    hide SectionsApart, Walk, NeededAgain, LegRests;
  }

  lemma {:induction false} ExecLegs(hop: Hop, s: State, t: Trade, o: Options, from: nat)
    requires Base(t, o) && SharesApart(t) && from <= |t.swaps| && Ready(s.ledger, t, from)
    requires Amounts(t) && RestsApart(hop, s.world, t, o, from)
    ensures LegsRun(hop, s, Run(hop, s, AllSwapCommands(t, o, from)), t, o, from)
    decreases |t.swaps| - from
  {
    hide Bal, HandedOver, RouteOk, Ready, Run, SwapCommands, Walk, SharesApart, SectionsApart, LegRests, LegsMoved, Moved,
         NeededAgain, RestsApart;
    if from == |t.swaps| {
      NoLegsLeft(hop, s, t, o);
    } else {
      var leg := Run(hop, s, SwapCommands(t, o, t.swaps[from]));
      RestsApartNext(hop, s.world, t, o, from);
      ExecLeg(hop, s, t, o, from);
      RunConcat(hop, s, SwapCommands(t, o, t.swaps[from]), AllSwapCommands(t, o, from + 1));
      if leg.Some? {
        var walked := Walk(hop, s.world, t.swaps[from].route.pools, Wrapped(t.input), Part(t.swaps[from])).value;
        LegRestsAre(hop, s.world, t, from);
        StillReady(s.ledger, leg.value.ledger, t, o, from, walked.1, LegRests(hop, s.world, t, from));
        ExecLegs(hop, leg.value, t, o, from + 1);
      }
      hide LegsRun, RunsAs, Base;
      JoinLegs(hop, s, leg, Run(hop, s, AllSwapCommands(t, o, from)), t, o, from);
    }
  }

  // ----- the payout -----

  // The router gives up the output; the recipient and the fee's payee share it in the trade's currency.
  ghost predicate PaidOut(l: Ledger, l': Ledger, t: Trade, o: Options, total: nat)
    requires o.fee.Some? ==> o.fee.value.denominator > 0
  {
    forall p, a ::
      Bal(l', p, a) == Bal(l, p, a) - (if p == Router && a == Token(Wrapped(t.output)) then total else 0)
        + (if p == FinalRecipient(o) && a == OutputAsset(t) then total - FeeTaken(o, total) else 0)
        + (if o.fee.Some? && p == o.fee.value.recipient && a == OutputAsset(t) then FeeTaken(o, total) else 0)
  }

  ghost predicate PayoutOf(s: State, result: Option<State>, t: Trade, o: Options, total: nat)
    requires o.slippageDenominator > 0 && (o.fee.Some? ==> o.fee.value.denominator > 0)
  {
    && (result.Some? <==> Accepted(t, o, total))
    && (result.Some? ==> result.value.world == s.world && PaidOut(s.ledger, result.value.ledger, t, o, total))
  }

  lemma RunOne(hop: Hop, s: State, c: Command)
    ensures Run(hop, s, [c]) == Exec(hop, s, c)
  {
    hide Exec;
    assert [c][1..] == [];
    assert forall s' :: Run(hop, s', []) == Some(s');
  }

  lemma RunTwo(hop: Hop, s: State, c: Command, d: Command)
    ensures Run(hop, s, [c, d]) == match Exec(hop, s, c) case None => None case Some(s') => Exec(hop, s', d)
  {
    hide Exec;
    assert [c, d] == [c] + [d];
    RunFirst(hop, s, c, [d]);
    match Exec(hop, s, c)
    case None =>
    case Some(s') => RunOne(hop, s', d);
  }

  ghost predicate Holding(l: Ledger, t: Trade, total: nat) {
    && Bal(l, Router, Token(Wrapped(t.output))) == total
    && (t.output.Native? ==> Bal(l, Router, Ether) == 0)
  }

  lemma PayWithoutFee(hop: Hop, s: State, t: Trade, o: Options, total: nat)
    requires o.slippageDenominator > 0 && RouterMustCustody(t, o) && o.fee.None? && FinalRecipient(o) != Router
    requires Holding(s.ledger, t, total)
    ensures PayoutOf(s, Run(hop, s, Tail(t, o)), t, o, total)
  {
    hide Bal, Run, MinimumAmountOut, ExecV2, ExecV3;
    var minimum := Minimum(t, o);
    if t.output.Native? {
      var c := UnwrapWeth(FinalRecipient(o), minimum);
      assert Tail(t, o) == [c];
      RunOne(hop, s, c);
    } else {
      var c := Sweep(OutputAsset(t), FinalRecipient(o), minimum);
      assert Tail(t, o) == [c];
      RunOne(hop, s, c);
    }
  }

  lemma PortionThenSweep(hop: Hop, s: State, asset: Asset, total: nat, fee: Fee, recipient: Party, minimum: int)
    requires Bal(s.ledger, Router, asset) == total && fee.denominator > 0 && fee.recipient != Router && recipient != Router
    ensures
      var taken := total * Bips(fee) / 10_000;
      var result := Run(hop, s, [PayPortion(asset, fee.recipient, Bips(fee)), Sweep(asset, recipient, minimum)]);
      && (result.Some? <==> 0 < Bips(fee) <= 10_000 && total - taken >= minimum)
      && (result.Some? ==>
           && result.value.world == s.world
           && forall p, a ::
                Bal(result.value.ledger, p, a) == Bal(s.ledger, p, a) - (if p == Router && a == asset then total else 0)
                  + (if p == recipient && a == asset then total - taken else 0)
                  + (if p == fee.recipient && a == asset then taken else 0))
  {
    hide Bal, Run, Bips, ExecV2, ExecV3;
    RunTwo(hop, s, PayPortion(asset, fee.recipient, Bips(fee)), Sweep(asset, recipient, minimum));
  }

  lemma PayWithFee(hop: Hop, s: State, t: Trade, o: Options, total: nat)
    requires o.slippageDenominator > 0 && FinalRecipient(o) != Router
    requires o.fee.Some? && o.fee.value.denominator > 0 && o.fee.value.recipient != Router
    requires Holding(s.ledger, t, total)
    ensures PayoutOf(s, Run(hop, s, Tail(t, o)), t, o, total)
  {
    hide Bal, Run, MinimumAmountOut, MinimumAfterFee, ExecV2, ExecV3, Bips;
    var fee, minimum := o.fee.value, Minimum(t, o);
    var rest := [PayPortion(OutputAsset(t), fee.recipient, Bips(fee)), Sweep(OutputAsset(t), FinalRecipient(o), MinimumAfterFee(o, minimum))];
    if t.output.Native? {
      var c := UnwrapWeth(Router, minimum);
      assert Tail(t, o) == [c] + rest;
      RunFirst(hop, s, c, rest);
      var unwrapped := Exec(hop, s, c);
      if unwrapped.Some? {
        PortionThenSweep(hop, unwrapped.value, Ether, total, fee, FinalRecipient(o), MinimumAfterFee(o, minimum));
      }
    } else {
      assert Tail(t, o) == rest;
      PortionThenSweep(hop, s, OutputAsset(t), total, fee, FinalRecipient(o), MinimumAfterFee(o, minimum));
    }
  }

  // ----- the whole plan -----

  // The router starts with nothing but the native input sent along with the plan.
  ghost predicate StartsEmpty(l: Ledger, t: Trade) {
    forall a :: Bal(l, Router, a) == if a == Ether && t.input.Native? then Quotient(TotalIn(t.swaps)) else 0
  }

  // Who ends up with what: the payees share the output, the payer is out the legs' parts, and the router
  // is left with the dust of a native split and with what its pools did not take.
  ghost predicate Settled(hop: Hop, w: World, l: Ledger, l': Ledger, t: Trade, o: Options, total: nat)
    requires WellFormed(t, o)
  {
    AmountsOk(t, o);
    forall p, a ::
      Bal(l', p, a) == Bal(l, p, a)
        - (if p == Router && a == Ether && t.input.Native? then Quotient(TotalIn(t.swaps)) else 0)
        + (if p == Router && a == Token(WETH) && t.input.Native? then Quotient(TotalIn(t.swaps)) - Spent(t, 0) else 0)
        - (if p == Sender && a == Token(Wrapped(t.input)) && !t.input.Native? then Spent(t, 0) else 0)
        + (if p == FinalRecipient(o) && a == OutputAsset(t) then total - FeeTaken(o, total) else 0)
        + (if o.fee.Some? && p == o.fee.value.recipient && a == OutputAsset(t) then FeeTaken(o, total) else 0)
        + LegsBack(hop, w, t, 0, p, a)
  }

  ghost predicate Funded(l: Ledger, m: Ledger, t: Trade) {
    forall p, a :: Bal(m, p, a) == Bal(l, p, a)
      - (if p == Router && a == Ether && t.input.Native? then Quotient(TotalIn(t.swaps)) else 0)
      + (if p == Router && a == Token(WETH) && t.input.Native? then Quotient(TotalIn(t.swaps)) else 0)
  }

  lemma ExecHead(hop: Hop, s: State, t: Trade, o: Options)
    requires Base(t, o) && StartsEmpty(s.ledger, t)
    ensures TotalIn(t.swaps) >= 0.0
    ensures Run(hop, s, Head(t)).Some?
    ensures
      var s' := Run(hop, s, Head(t)).value;
      && s'.world == s.world && Ready(s'.ledger, t, 0) && Funded(s.ledger, s'.ledger, t)
  {
    hide Bal, RouteOk, HandedOver, ExecV2, ExecV3;
    TotalInNonNegative(t.swaps);
    Dust(t);
    if t.input.Native? {
      RunOne(hop, s, WrapEth(Router, Quotient(TotalIn(t.swaps))));
    }
  }

  // Under custody no pool leaves the router any of the output, nor ever any ether.
  lemma {:induction false} OutputComesBackNowhere(hop: Hop, w: World, t: Trade, o: Options, from: nat)
    requires from <= |t.swaps| && Amounts(t) && RestsApart(hop, w, t, o, from) && RouterMustCustody(t, o)
    ensures LegsBack(hop, w, t, from, Router, Token(Wrapped(t.output))) == 0
    ensures LegsBack(hop, w, t, from, Router, Ether) == 0
    decreases |t.swaps| - from
  {
    hide Walk, SectionsApart, LegRests;
    if from < |t.swaps| {
      var leg := Walk(hop, w, t.swaps[from].route.pools, Wrapped(t.input), Part(t.swaps[from]));
      if leg.Some? {
        assert NeededAgain(t, o, from, Wrapped(t.output));
        OutputComesBackNowhere(hop, leg.value.0, t, o, from + 1);
      }
    }
  }

  lemma HoldsOutput(hop: Hop, w: World, l: Ledger, m: Ledger, n: Ledger, t: Trade, o: Options, total: nat)
    requires Base(t, o) && Amounts(t) && RestsApart(hop, w, t, o, 0) && RouterMustCustody(t, o)
    requires StartsEmpty(l, t) && Funded(l, m, t) && LegsMoved(hop, w, m, n, t, o, 0, total)
    ensures Holding(n, t, total)
  {
    hide Bal, WellFormed, LegsBack, RestsApart;
    OutputComesBackNowhere(hop, w, t, o, 0);
    var out := Token(Wrapped(t.output));
    assert Bal(m, Router, out) == 0 && Bal(m, Router, Ether) == 0;
  }

  lemma SettledWithCustody(hop: Hop, w: World, l: Ledger, m: Ledger, n: Ledger, f: Ledger, t: Trade, o: Options, total: nat)
    requires Base(t, o) && Amounts(t) && RouterMustCustody(t, o)
    requires Funded(l, m, t) && LegsMoved(hop, w, m, n, t, o, 0, total) && PaidOut(n, f, t, o, total)
    ensures Settled(hop, w, l, f, t, o, total)
  {
    hide Bal, WellFormed, FeeTaken, LegsBack;
  }

  lemma SettledDirectly(hop: Hop, w: World, l: Ledger, m: Ledger, n: Ledger, t: Trade, o: Options, total: nat)
    requires Base(t, o) && Amounts(t) && !RouterMustCustody(t, o)
    requires Funded(l, m, t) && LegsMoved(hop, w, m, n, t, o, 0, total)
    ensures Settled(hop, w, l, n, t, o, total)
  {
    hide Bal, WellFormed, LegsBack;
  }

  lemma LoneMinimum(t: Trade, o: Options)
    requires WellFormed(t, o) && !RouterMustCustody(t, o)
    ensures LegFloor(t, o, t.swaps[0]) == Minimum(t, o)
  {
    hide RouteOk;
    assert t.swaps[..0] == [];
    assert TotalOut(t.swaps) == TotalOut(t.swaps[..0]) + t.swaps[0].outputAmount;
  }

  lemma ExecTail(hop: Hop, s: State, t: Trade, o: Options, total: nat)
    requires Base(t, o) && RouterMustCustody(t, o) && Holding(s.ledger, t, total)
    ensures PayoutOf(s, Run(hop, s, Tail(t, o)), t, o, total)
  {
    hide RouteOk, PayoutOf, Holding, Tail;
    if o.fee.None? {
      PayWithoutFee(hop, s, t, o, total);
    } else {
      PayWithFee(hop, s, t, o, total);
    }
  }

  // The plan goes through exactly when every route can be walked pool by pool and the output is
  // acceptable; then the pools are left as the walks leave them and everyone is settled.
  ghost predicate PlanMeansWalks(hop: Hop, s: State, t: Trade, o: Options)
    requires WellFormed(t, o)
  {
    AmountsOk(t, o);
    var result := Run(hop, s, Plan(t, o));
    var walked := WalkRoutes(hop, s.world, t, 0);
    && (result.Some? <==> walked.Some? && Accepted(t, o, walked.value.1))
    && (result.Some? ==>
         && result.value.world == walked.value.0
         && Settled(hop, s.world, s.ledger, result.value.ledger, t, o, walked.value.1))
  }

  // Compiler correctness, from an empty router, where neither another leg's share nor what a pool left
  // untaken is in the way of a section that spends the router's whole balance.
  lemma PlanContract(hop: Hop, s: State, t: Trade, o: Options)
    requires Base(t, o) && SharesApart(t) && StartsEmpty(s.ledger, t)
    requires Amounts(t) && RestsApart(hop, s.world, t, o, 0)
    ensures PlanMeansWalks(hop, s, t, o)
  {
    assert o.slippageDenominator > 0;
    hide Bal, WalkRoutes, Exec, Run, Accepted, SharesApart, Settled, StartsEmpty, Ready, PaidOut, Holding, AllSwapCommands, Head,
         LegsMoved, Funded, Tail, RestsApart, TotalIn, RouteOk, MinimumAmountOut;
    var legs, tail := AllSwapCommands(t, o, 0), Tail(t, o);
    ExecHead(hop, s, t, o);
    var funded := Run(hop, s, Head(t)).value;
    RunConcat(hop, s, Head(t) + legs, tail);
    RunConcat(hop, s, Head(t), legs);
    ExecLegs(hop, funded, t, o, 0);
    hide Base;
    var swapped := Run(hop, funded, legs);
    if swapped.Some? {
      var total := WalkRoutes(hop, s.world, t, 0).value.1;
      if RouterMustCustody(t, o) {
        HoldsOutput(hop, s.world, s.ledger, funded.ledger, swapped.value.ledger, t, o, total);
        ExecTail(hop, swapped.value, t, o, total);
        var result := Run(hop, swapped.value, tail);
        if result.Some? {
          SettledWithCustody(hop, s.world, s.ledger, funded.ledger, swapped.value.ledger, result.value.ledger, t, o, total);
        }
      } else {
        FinishDirectly(hop, s, t, o, funded, swapped.value, total);
      }
    } else if !RouterMustCustody(t, o) {
      LoneMinimum(t, o);
    }
  }

  lemma FinishDirectly(hop: Hop, s: State, t: Trade, o: Options, funded: State, swapped: State, total: nat)
    requires Base(t, o) && Amounts(t) && !RouterMustCustody(t, o)
    requires Funded(s.ledger, funded.ledger, t) && LegsMoved(hop, s.world, funded.ledger, swapped.ledger, t, o, 0, total)
    requires total >= LegFloor(t, o, t.swaps[0])
    ensures Run(hop, swapped, Tail(t, o)) == Some(swapped) && Accepted(t, o, total)
    ensures Settled(hop, s.world, s.ledger, swapped.ledger, t, o, total)
  {
    hide Settled, Funded, LegsMoved;
    LoneMinimum(t, o);
    SettledDirectly(hop, s.world, s.ledger, funded.ledger, swapped.ledger, t, o, total);
  }

  // ----- what is left -----

  // The rests that come back to the router: all of them, or where another pays, all but the first pool's.
  function Kept(payer: Party, rests: seq<Rest>): seq<Rest> {
    if payer == Router || rests == [] then rests else rests[1..]
  }

  lemma KeptIsBack(payer: Party, rests: seq<Rest>, token: nat)
    ensures Back(payer, rests, Router, Token(token)) == SumOf(Kept(payer, rests), token)
  {
  }

  lemma {:induction false} NoSumNoRest(rests: seq<Rest>)
    requires forall token :: SumOf(rests, token) == 0
    ensures NoRest(rests)
  {
    if rests != [] {
      assert SumOf(rests, rests[0].token) == rests[0].amount + SumOf(rests[1..], rests[0].token);
      forall token ensures SumOf(rests[1..], token) == 0 {
        assert SumOf(rests, token) == 0;
      }
      NoSumNoRest(rests[1..]);
    }
  }

  // Every pool that the router pays takes the whole of what it is offered.
  predicate TakesAll(hop: Hop, w: World, t: Trade, from: nat)
    requires from <= |t.swaps| && Amounts(t)
    decreases |t.swaps| - from
  {
    if from == |t.swaps| then true
    else
      && NoRest(Kept(LegPayer(t), LegRests(hop, w, t, from)))
      && match Walk(hop, w, t.swaps[from].route.pools, Wrapped(t.input), Part(t.swaps[from]))
         case None => true
         case Some(leg) => TakesAll(hop, leg.0, t, from + 1)
  }

  lemma NoneKeptNoneBack(payer: Party, rests: seq<Rest>, token: nat)
    requires NoRest(Kept(payer, rests))
    ensures Back(payer, rests, Router, Token(token)) == 0
  {
    KeptIsBack(payer, rests, token);
    NoRestNoSum(Kept(payer, rests), token);
  }

  lemma {:induction false} TakesAllNoneBack(hop: Hop, w: World, t: Trade, from: nat, a: Asset)
    requires from <= |t.swaps| && Amounts(t) && TakesAll(hop, w, t, from)
    ensures LegsBack(hop, w, t, from, Router, a) == 0
    decreases |t.swaps| - from
  {
    hide Walk, LegRests, NoRest, Kept;
    if from < |t.swaps| {
      if a.Token? { NoneKeptNoneBack(LegPayer(t), LegRests(hop, w, t, from), a.id); }
      var leg := Walk(hop, w, t.swaps[from].route.pools, Wrapped(t.input), Part(t.swaps[from]));
      if leg.Some? { TakesAllNoneBack(hop, leg.value.0, t, from + 1, a); }
    }
  }

  lemma {:induction false} NoneBackTakesAll(hop: Hop, w: World, t: Trade, from: nat)
    requires from <= |t.swaps| && Amounts(t) && WalkRoutes(hop, w, t, from).Some?
    requires forall token :: LegsBack(hop, w, t, from, Router, Token(token)) == 0
    ensures TakesAll(hop, w, t, from)
    decreases |t.swaps| - from
  {
    hide Walk, LegRests, NoRest, Kept, Back, LegsBack;
    if from < |t.swaps| {
      var leg := Walk(hop, w, t.swaps[from].route.pools, Wrapped(t.input), Part(t.swaps[from])).value;
      var rests := LegRests(hop, w, t, from);
      forall token ensures SumOf(Kept(LegPayer(t), rests), token) == 0 && LegsBack(hop, leg.0, t, from + 1, Router, Token(token)) == 0 {
        LegsBackNext(hop, w, t, from, leg, Router, Token(token));
        KeptIsBack(LegPayer(t), rests, token);
      }
      NoSumNoRest(Kept(LegPayer(t), rests));
      NoneBackTakesAll(hop, leg.0, t, from + 1);
    }
  }

  lemma {:induction false} TakesAllSectionsApart(hop: Hop, w: World, sections: seq<seq<Pool>>, tokenIn: nat, amount: nat, payer: Party)
    requires forall k :: 0 <= k < |sections| ==> sections[k] != []
    requires NoRest(Kept(payer, Rests(hop, w, Flat(sections), tokenIn, amount)))
    ensures SectionsApart(hop, w, sections, tokenIn, amount, payer)
    decreases |sections|
  {
    hide Walk, Rests, End, Boundaries;
    if |sections| > 1 && Walk(hop, w, sections[0], tokenIn, amount).Some? {
      var first := Rests(hop, w, sections[0], tokenIn, amount);
      var mid := Walk(hop, w, sections[0], tokenIn, amount).value;
      var rest := Rests(hop, mid.0, Flat(sections[1..]), End(sections[0], tokenIn), mid.1);
      RestsConcat(hop, w, sections[0], Flat(sections[1..]), tokenIn, amount);
      assert Kept(payer, first + rest) == Kept(payer, first) + rest;
      NoRestParts(Kept(payer, first), rest);
      forall b ensures Back(payer, first, Router, Token(b)) == 0 {
        NoneKeptNoneBack(payer, first, b);
      }
      TakesAllSectionsApart(hop, mid.0, sections[1..], End(sections[0], tokenIn), mid.1, Router);
    }
  }

  lemma NoRestParts(a: seq<Rest>, b: seq<Rest>)
    requires NoRest(a + b)
    ensures NoRest(a) && NoRest(b)
  {
    forall i | 0 <= i < |a| ensures a[i].amount == 0 { assert (a + b)[i] == a[i]; }
    forall i | 0 <= i < |b| ensures b[i].amount == 0 { assert (a + b)[|a| + i] == b[i]; }
  }

  // Pools that take all leave nothing in the way.
  lemma {:induction false} TakesAllRestsApart(hop: Hop, w: World, t: Trade, o: Options, from: nat)
    requires WellFormed(t, o) && from <= |t.swaps| && Amounts(t) && TakesAll(hop, w, t, from)
    ensures RestsApart(hop, w, t, o, from)
    decreases |t.swaps| - from
  {
    hide Walk, NoRest, Kept, NeededAgain, RouteOk, SectionsApart;
    if from < |t.swaps| {
      var r := t.swaps[from].route;
      RouteSectionsFacts(r, Wrapped(t.input));
      LegRestsAre(hop, w, t, from);
      hide LegRests, RouteSections;
      TakesAllSectionsApart(hop, w, RouteSections(r), Wrapped(t.input), Part(t.swaps[from]), LegPayer(t));
      forall b ensures Back(LegPayer(t), LegRests(hop, w, t, from), Router, Token(b)) == 0 {
        NoneKeptNoneBack(LegPayer(t), LegRests(hop, w, t, from), b);
      }
      var leg := Walk(hop, w, r.pools, Wrapped(t.input), Part(t.swaps[from]));
      if leg.Some? { TakesAllRestsApart(hop, leg.value.0, t, o, from + 1); }
    }
  }

  // The dust of a native split, in wrapped form.
  function DustOf(t: Trade, a: Asset): int {
    if t.input.Native? && a == Token(WETH) then Quotient(TotalIn(t.swaps)) - Spent(t, 0) else 0
  }

  // Once a plan has gone through, the router holds the dust of a native split, less than one unit per
  // leg, and what the pools it paid did not take; so it holds dust alone exactly if these took all.
  lemma NothingIsLeft(hop: Hop, s: State, t: Trade, o: Options)
    requires Base(t, o) && SharesApart(t) && StartsEmpty(s.ledger, t)
    requires Amounts(t) && RestsApart(hop, s.world, t, o, 0)
    requires Run(hop, s, Plan(t, o)).Some?
    ensures
      var left := Run(hop, s, Plan(t, o)).value.ledger;
      && (forall a :: Bal(left, Router, a) == DustOf(t, a) + LegsBack(hop, s.world, t, 0, Router, a))
      && (forall a :: 0 <= DustOf(t, a) < |t.swaps|)
      && ((forall a :: Bal(left, Router, a) == DustOf(t, a)) <==> TakesAll(hop, s.world, t, 0))
  {
    hide Run, Plan, Bal, RouteOk, SharesApart, RestsApart, StartsEmpty, Accepted, Settled, WalkRoutes, LegsBack, TakesAll;
    PlanContract(hop, s, t, o);
    var left := Run(hop, s, Plan(t, o)).value.ledger;
    Remains(hop, s, left, t, o);
    Dust(t);
    if TakesAll(hop, s.world, t, 0) {
      forall a ensures LegsBack(hop, s.world, t, 0, Router, a) == 0 {
        TakesAllNoneBack(hop, s.world, t, 0, a);
      }
    }
    if forall a :: Bal(left, Router, a) == DustOf(t, a) {
      forall token ensures LegsBack(hop, s.world, t, 0, Router, Token(token)) == 0 {
        assert Bal(left, Router, Token(token)) == DustOf(t, Token(token));
      }
      NoneBackTakesAll(hop, s.world, t, 0);
    }
  }

  lemma Remains(hop: Hop, s: State, left: Ledger, t: Trade, o: Options)
    requires Base(t, o) && Amounts(t) && StartsEmpty(s.ledger, t) && WalkRoutes(hop, s.world, t, 0).Some?
    requires Settled(hop, s.world, s.ledger, left, t, o, WalkRoutes(hop, s.world, t, 0).value.1)
    ensures forall a :: Bal(left, Router, a) == DustOf(t, a) + LegsBack(hop, s.world, t, 0, Router, a)
  {
    hide Bal, WellFormed, WalkRoutes, LegsBack, FeeTaken;
  }

  // A fee of less than one bip cannot be taken at all: its plan reverts, whatever pools and router hold.
  lemma TinyFeeReverts(hop: Hop, s: State, t: Trade, o: Options)
    requires WellFormed(t, o) && o.fee.Some? && o.fee.value.numerator * 10_000 < o.fee.value.denominator
    ensures Run(hop, s, Plan(t, o)) == None
  {
    hide Run, Bal, RouteOk, Exec, AllSwapCommands, Head, MinimumAmountOut, MinimumAfterFee, TotalOut, Bips;
    var fee := o.fee.value;
    TinyFeeIsNoBip(fee);
    var pay := PayPortion(OutputAsset(t), fee.recipient, Bips(fee));
    var minimum := MinimumAmountOut(o, TotalOut(t.swaps));
    var sweep := Sweep(OutputAsset(t), FinalRecipient(o), MinimumAfterFee(o, minimum));
    var unwrap := if t.output.Native? then [UnwrapWeth(Router, minimum)] else [];
    TotalInNonNegative(t.swaps);
    var before := Head(t) + AllSwapCommands(t, o, 0) + unwrap;
    assert Plan(t, o) == before + ([pay] + [sweep]);
    RunConcat(hop, s, before, [pay] + [sweep]);
    var paid := Run(hop, s, before);
    if paid.Some? {
      RunFirst(hop, paid.value, pay, [sweep]);
      NothingPaid(hop, paid.value, OutputAsset(t), fee.recipient);
    }
  }

  lemma NothingPaid(hop: Hop, s: State, asset: Asset, recipient: Party)
    ensures Exec(hop, s, PayPortion(asset, recipient, 0)) == None
  {
  }

  // ----- what the route constructors do not check -----

  // A constructor asks that the last pool involve the output, and that pools chain from the input.
  predicate Constructible(pools: seq<Pool>, input: nat, output: nat) {
    pools != [] && Chained(pools, input) && Involves(pools[|pools| - 1], output)
  }

  // Such a route ends at its output if and only if it does not enter its last pool with the output.
  lemma EndsAtOutput(pools: seq<Pool>, input: nat, output: nat)
    requires Constructible(pools, input, output)
    ensures End(pools, input) == output <==> End(pools[..|pools| - 1], input) != output
  {
    var before, last := pools[..|pools| - 1], pools[|pools| - 1];
    assert pools == before + [last];
    ChainConcat(before, [last], input);
    var entered := End(before, input);
    assert [last][1..] == [];
    assert End([last], entered) == Other(last, entered);
  }

  // A route from token 0 said to end at token 2, whose last pool involves 2 but is entered with it.
  const ASTRAY := [V2Pool(0, 2, false), V2Pool(1, 2, false)]

  lemma AcceptedRouteEndsElsewhere()
    ensures Constructible(ASTRAY, 0, 2) && End(ASTRAY, 0) == 1
  {
    assert ASTRAY[1..] == [V2Pool(1, 2, false)] && ASTRAY[1..][1..] == [];
    assert End([V2Pool(1, 2, false)], 2) == End([], 1);
  }
}
