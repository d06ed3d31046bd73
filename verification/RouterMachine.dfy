// The Universal Router as a machine over balances: what each command a plan can hold does.
module RouterMachine {
  import opened Results

  // A flag amount: the router's whole balance of the input token.
  const CONTRACT_BALANCE: nat := 0x8000000000000000000000000000000000000000000000000000000000000000

  // The wrapped native token.
  const WETH: nat := 0

  datatype Party = Router | Sender | Account(address: nat)
  datatype Asset = Ether | Token(id: nat)

  // A pool is its key: its tokens in order, and what tells it apart within its protocol.
  datatype Pool = V2Pool(token0: nat, token1: nat, stable: bool) | CLPool(token0: nat, token1: nat, tickSpacing: int)

  predicate Involves(pool: Pool, token: nat) {
    token == pool.token0 || token == pool.token1
  }

  function Other(pool: Pool, token: nat): nat {
    if token == pool.token0 then pool.token1 else pool.token0
  }

  function Low(a: nat, b: nat): nat { if a < b then a else b }
  function High(a: nat, b: nat): nat { if a < b then b else a }

  // Everything pools hold and know; only hops look inside.
  type World

  // A swap of an input amount through one pool: the world after it, what the pool took of the input
  // and what it gave out, or a revert.
  datatype Fill = Fill(world: World, taken: nat, out: nat)
  type Hop = (World, Pool, nat, nat) -> Option<Fill>

  // A v2 pool is sent its whole input beforehand. A CL pool asks for what it takes, which is less than
  // it was offered when its price limit stops the swap, and never more.
  function Taken(pool: Pool, offered: nat, f: Fill): (taken: nat)
    ensures taken <= offered
  {
    if pool.V2Pool? || offered < f.taken then offered else f.taken
  }

  // ----- balances -----

  type Ledger = map<(Party, Asset), int>

  function Bal(l: Ledger, p: Party, a: Asset): int {
    if (p, a) in l then l[(p, a)] else 0
  }

  function Add(l: Ledger, p: Party, a: Asset, n: int): (r: Ledger)
    ensures forall q, b :: Bal(r, q, b) == Bal(l, q, b) + if q == p && b == a then n else 0
  {
    l[(p, a) := Bal(l, p, a) + n]
  }

  // The router cannot pay what it does not hold; the sender's funds are not modelled.
  function Pay(l: Ledger, payer: Party, a: Asset, amount: nat): Option<Ledger> {
    if payer == Router && Bal(l, Router, a) < amount then None else Some(Add(l, payer, a, -(amount as int)))
  }

  datatype State = State(world: World, ledger: Ledger)

  // ----- commands -----

  datatype V2Leg = V2Leg(from: nat, to: nat, stable: bool)

  // A packed path: a token, then a tick spacing and a token for each pool.
  datatype CLPath = CLPath(first: nat, steps: seq<(int, nat)>)

  datatype Command =
    | WrapEth(recipient: Party, amount: nat)
    | UnwrapWeth(recipient: Party, minimum: int)
    | V2SwapExactIn(recipient: Party, amountIn: nat, amountOutMinimum: int, legs: seq<V2Leg>, payerIsUser: bool)
    | V3SwapExactIn(recipient: Party, amountIn: nat, amountOutMinimum: int, path: CLPath, payerIsUser: bool)
    | PayPortion(asset: Asset, recipient: Party, bips: int)
    | Sweep(asset: Asset, recipient: Party, minimum: int)

  function Payer(payerIsUser: bool): Party {
    if payerIsUser then Sender else Router
  }

  // _v2Swap: each pool sends its output straight to the next.
  function V2Walk(hop: Hop, w: World, legs: seq<V2Leg>, amount: nat): Option<(World, nat)> {
    if legs == [] then Some((w, amount))
    else
      var leg := legs[0];
      match hop(w, V2Pool(Low(leg.from, leg.to), High(leg.from, leg.to), leg.stable), leg.from, amount)
      case None => None
      case Some(f) => V2Walk(hop, f.world, legs[1..], f.out)
  }

  function ExecV2(hop: Hop, s: State, c: Command): Option<State>
    requires c.V2SwapExactIn?
  {
    if c.legs == [] then None
    else
      var payer, input := Payer(c.payerIsUser), Token(c.legs[0].from);
      var amount := if payer == Router && c.amountIn == CONTRACT_BALANCE then Bal(s.ledger, Router, input) else c.amountIn;
      if amount < 0 then None
      else
        match Pay(s.ledger, payer, input, amount)
        case None => None
        case Some(l) =>
          match V2Walk(hop, s.world, c.legs, amount)
          case None => None
          case Some(done) =>
            if done.1 < c.amountOutMinimum then None
            else Some(State(done.0, Add(l, c.recipient, Token(c.legs[|c.legs| - 1].to), done.1)))
  }

  // v3SwapExactInput's loop: the router takes custody between pools and pays for all but the first.
  function CLWalk(hop: Hop, s: State, recipient: Party, amount: nat, path: CLPath, payer: Party): Option<(State, nat)>
    decreases |path.steps|
  {
    if path.steps == [] then None
    else
      var spacing, next := path.steps[0].0, path.steps[0].1;
      var pool := CLPool(Low(path.first, next), High(path.first, next), spacing);
      match hop(s.world, pool, path.first, amount)
      case None => None
      case Some(f) =>
        match Pay(s.ledger, payer, Token(path.first), Taken(pool, amount, f))
        case None => None
        case Some(l) =>
          if |path.steps| == 1 then Some((State(f.world, Add(l, recipient, Token(next), f.out)), f.out))
          else CLWalk(hop, State(f.world, Add(l, Router, Token(next), f.out)), recipient, f.out, CLPath(next, path.steps[1..]), Router)
  }

  function ExecV3(hop: Hop, s: State, c: Command): Option<State>
    requires c.V3SwapExactIn?
  {
    var amount := if c.amountIn == CONTRACT_BALANCE then Bal(s.ledger, Router, Token(c.path.first)) else c.amountIn;
    if amount < 0 then None
    else
      match CLWalk(hop, s, c.recipient, amount, c.path, Payer(c.payerIsUser))
      case None => None
      case Some(done) => if done.1 < c.amountOutMinimum then None else Some(done.0)
  }

  // One command; None is a revert, which undoes the whole plan.
  function Exec(hop: Hop, s: State, c: Command): Option<State> {
    match c
    case WrapEth(recipient, asked) =>
      var held := Bal(s.ledger, Router, Ether);
      var amount := if asked == CONTRACT_BALANCE then held else asked;
      if amount > held then None
      else Some(s.(ledger := Add(Add(s.ledger, Router, Ether, -amount), recipient, Token(WETH), amount)))
    case UnwrapWeth(recipient, minimum) =>
      var held := Bal(s.ledger, Router, Token(WETH));
      if held < minimum then None
      else Some(s.(ledger := Add(Add(s.ledger, Router, Token(WETH), -held), recipient, Ether, held)))
    case PayPortion(asset, recipient, bips) =>
      if bips <= 0 || bips > 10_000 then None
      else
        var amount := Bal(s.ledger, Router, asset) * bips / 10_000;
        Some(s.(ledger := Add(Add(s.ledger, Router, asset, -amount), recipient, asset, amount)))
    case Sweep(asset, recipient, minimum) =>
      var held := Bal(s.ledger, Router, asset);
      if held < minimum then None
      else Some(s.(ledger := Add(Add(s.ledger, Router, asset, -held), recipient, asset, held)))
    case V2SwapExactIn(_, _, _, _, _) => ExecV2(hop, s, c)
    case V3SwapExactIn(_, _, _, _, _) => ExecV3(hop, s, c)
  }

  function Run(hop: Hop, s: State, plan: seq<Command>): Option<State>
    decreases |plan|
  {
    if plan == [] then Some(s)
    else
      match Exec(hop, s, plan[0])
      case None => None
      case Some(s') => Run(hop, s', plan[1..])
  }

  lemma {:induction false} RunConcat(hop: Hop, s: State, a: seq<Command>, b: seq<Command>)
    ensures Run(hop, s, a + b) == match Run(hop, s, a) case None => None case Some(s') => Run(hop, s', b)
    decreases |a|
  {
    hide Exec;
    if a == [] {
      assert a + b == b;
    } else {
      assert (a + b)[0] == a[0] && (a + b)[1..] == a[1..] + b;
      match Exec(hop, s, a[0])
      case None =>
      case Some(s') => RunConcat(hop, s', a[1..], b);
    }
  }

  // ----- walking pools one by one -----

  function Walk(hop: Hop, w: World, pools: seq<Pool>, tokenIn: nat, amount: nat): Option<(World, nat)>
    decreases |pools|
  {
    if pools == [] then Some((w, amount))
    else
      match hop(w, pools[0], tokenIn, amount)
      case None => None
      case Some(f) => Walk(hop, f.world, pools[1..], Other(pools[0], tokenIn), f.out)
  }

  // What the pools of a walk leave untaken, pool by pool.
  datatype Rest = Rest(token: nat, amount: nat)

  function Rests(hop: Hop, w: World, pools: seq<Pool>, tokenIn: nat, amount: nat): seq<Rest>
    decreases |pools|
  {
    if pools == [] then []
    else
      match hop(w, pools[0], tokenIn, amount)
      case None => []
      case Some(f) =>
        [Rest(tokenIn, amount - Taken(pools[0], amount, f))] + Rests(hop, f.world, pools[1..], Other(pools[0], tokenIn), f.out)
  }

  function SumOf(rests: seq<Rest>, token: nat): nat {
    if rests == [] then 0 else (if rests[0].token == token then rests[0].amount else 0) + SumOf(rests[1..], token)
  }

  lemma {:induction false} SumOfConcat(a: seq<Rest>, b: seq<Rest>, token: nat)
    ensures SumOf(a + b, token) == SumOf(a, token) + SumOf(b, token)
  {
    if a == [] {
      assert a + b == b;
    } else {
      assert (a + b)[0] == a[0] && (a + b)[1..] == a[1..] + b;
      SumOfConcat(a[1..], b, token);
    }
  }

  // Each pool takes in the token the one before it gave out.
  predicate Chained(pools: seq<Pool>, tokenIn: nat)
    decreases |pools|
  {
    pools == [] ||
    (Involves(pools[0], tokenIn) && pools[0].token0 < pools[0].token1 && Chained(pools[1..], Other(pools[0], tokenIn)))
  }

  function End(pools: seq<Pool>, tokenIn: nat): nat
    decreases |pools|
  {
    if pools == [] then tokenIn else End(pools[1..], Other(pools[0], tokenIn))
  }

  lemma {:induction false} WalkConcat(hop: Hop, w: World, a: seq<Pool>, b: seq<Pool>, tokenIn: nat, amount: nat)
    ensures Walk(hop, w, a + b, tokenIn, amount) ==
      match Walk(hop, w, a, tokenIn, amount) case None => None case Some(done) => Walk(hop, done.0, b, End(a, tokenIn), done.1)
    decreases |a|
  {
    if a == [] {
      assert a + b == b;
    } else {
      assert (a + b)[0] == a[0] && (a + b)[1..] == a[1..] + b;
      match hop(w, a[0], tokenIn, amount)
      case None =>
      case Some(f) => WalkConcat(hop, f.world, a[1..], b, Other(a[0], tokenIn), f.out);
    }
  }

  lemma RestsStep(hop: Hop, w: World, pools: seq<Pool>, tokenIn: nat, amount: nat, f: Fill)
    requires pools != [] && hop(w, pools[0], tokenIn, amount) == Some(f)
    ensures Rests(hop, w, pools, tokenIn, amount) ==
      [Rest(tokenIn, amount - Taken(pools[0], amount, f))] + Rests(hop, f.world, pools[1..], Other(pools[0], tokenIn), f.out)
    ensures Walk(hop, w, pools, tokenIn, amount) == Walk(hop, f.world, pools[1..], Other(pools[0], tokenIn), f.out)
    ensures |pools| == 1 ==>
      (Walk(hop, w, pools, tokenIn, amount) == Some((f.world, f.out))
       && Rests(hop, w, pools, tokenIn, amount) == [Rest(tokenIn, amount - Taken(pools[0], amount, f))])
  {
    hide Taken;
  }

  lemma {:induction false} RestsConcat(hop: Hop, w: World, a: seq<Pool>, b: seq<Pool>, tokenIn: nat, amount: nat)
    requires Walk(hop, w, a, tokenIn, amount).Some?
    ensures var mid := Walk(hop, w, a, tokenIn, amount).value;
      Rests(hop, w, a + b, tokenIn, amount) == Rests(hop, w, a, tokenIn, amount) + Rests(hop, mid.0, b, End(a, tokenIn), mid.1)
    ensures a != [] ==> Rests(hop, w, a, tokenIn, amount) != []
    decreases |a|
  {
    if a == [] {
      assert a + b == b;
    } else {
      assert hop(w, a[0], tokenIn, amount).Some?;
      hide Taken, Rests, Walk;
      assert (a + b)[0] == a[0] && (a + b)[1..] == a[1..] + b;
      var f := hop(w, a[0], tokenIn, amount).value;
      RestsStep(hop, w, a, tokenIn, amount, f);
      RestsStep(hop, w, a + b, tokenIn, amount, f);
      RestsConcat(hop, f.world, a[1..], b, Other(a[0], tokenIn), f.out);
    }
  }

  lemma {:induction false} ChainConcat(a: seq<Pool>, b: seq<Pool>, tokenIn: nat)
    ensures Chained(a + b, tokenIn) <==> Chained(a, tokenIn) && Chained(b, End(a, tokenIn))
    ensures End(a + b, tokenIn) == End(b, End(a, tokenIn))
    decreases |a|
  {
    if a == [] {
      assert a + b == b;
    } else {
      assert (a + b)[0] == a[0] && (a + b)[1..] == a[1..] + b;
      ChainConcat(a[1..], b, Other(a[0], tokenIn));
    }
  }

  // ----- what a swap does to the balances -----

  // What comes back of the input: the first rest stays with the payer, every later one with the
  // router, which holds the input of every pool but the first.
  function Back(payer: Party, rests: seq<Rest>, p: Party, a: Asset): nat {
    if a.Ether? || rests == [] then 0
    else
      (if p == payer && a.id == rests[0].token then rests[0].amount else 0) + (if p == Router then SumOf(rests[1..], a.id) else 0)
  }

  // The payer is down the input, the recipient up the output, the rests are back, and nobody else moves.
  ghost predicate Moved(l: Ledger, l': Ledger, payer: Party, tokenIn: nat, amount: int, recipient: Party, tokenOut: nat, out: int, rests: seq<Rest>) {
    forall p, a ::
      Bal(l', p, a) == Bal(l, p, a) - (if p == payer && a == Token(tokenIn) then amount else 0)
                                    + (if p == recipient && a == Token(tokenOut) then out else 0)
                                    + Back(payer, rests, p, a)
  }

  lemma BackConcat(payer: Party, a: seq<Rest>, b: seq<Rest>, p: Party, asset: Asset)
    requires a != []
    ensures Back(payer, a + b, p, asset) == Back(payer, a, p, asset) + Back(Router, b, p, asset)
  {
    if asset.Token? {
      assert (a + b)[0] == a[0] && (a + b)[1..] == a[1..] + b;
      SumOfConcat(a[1..], b, asset.id);
    }
  }

  lemma MovedCompose(l: Ledger, m: Ledger, n: Ledger, payer: Party, tokenIn: nat, amount: int, through: nat, mid: int,
                     recipient: Party, tokenOut: nat, out: int, a: seq<Rest>, b: seq<Rest>)
    requires Moved(l, m, payer, tokenIn, amount, Router, through, mid, a) && a != []
    requires Moved(m, n, Router, through, mid, recipient, tokenOut, out, b)
    ensures Moved(l, n, payer, tokenIn, amount, recipient, tokenOut, out, a + b)
  {
    hide Bal, Back;
    forall p, asset ensures
      Bal(n, p, asset) == Bal(l, p, asset) - (if p == payer && asset == Token(tokenIn) then amount else 0)
                                   + (if p == recipient && asset == Token(tokenOut) then out else 0)
                                   + Back(payer, a + b, p, asset)
    {
      BackConcat(payer, a, b, p, asset);
      assert Bal(m, p, asset) == Bal(l, p, asset) - (if p == payer && asset == Token(tokenIn) then amount else 0)
                                   + (if p == Router && asset == Token(through) then mid else 0) + Back(payer, a, p, asset);
    }
  }

  ghost predicate Solvent(l: Ledger) {
    forall a :: Bal(l, Router, a) >= 0
  }

  ghost predicate CanPay(l: Ledger, payer: Party, input: Asset, amount: int) {
    Solvent(l) && amount >= 0 && (payer == Router ==> Bal(l, Router, input) >= amount)
  }

  predicate Uniform(pools: seq<Pool>) {
    forall i :: 0 <= i < |pools| ==> pools[i].CLPool? == pools[0].CLPool?
  }

  predicate AllV2(pools: seq<Pool>) {
    forall i :: 0 <= i < |pools| ==> pools[i].V2Pool?
  }

  predicate AllCL(pools: seq<Pool>) {
    forall i :: 0 <= i < |pools| ==> pools[i].CLPool?
  }

  function LegsOf(pools: seq<Pool>, tokenIn: nat): (legs: seq<V2Leg>)
    requires AllV2(pools)
    ensures |legs| == |pools|
    decreases |pools|
  {
    if pools == [] then []
    else [V2Leg(tokenIn, Other(pools[0], tokenIn), pools[0].stable)] + LegsOf(pools[1..], Other(pools[0], tokenIn))
  }

  function StepsOf(pools: seq<Pool>, tokenIn: nat): (steps: seq<(int, nat)>)
    requires AllCL(pools)
    ensures |steps| == |pools|
    decreases |pools|
  {
    if pools == [] then []
    else [(pools[0].tickSpacing, Other(pools[0], tokenIn))] + StepsOf(pools[1..], Other(pools[0], tokenIn))
  }

  // A v2 command's legs lead through exactly the pools they encode.
  lemma {:induction false} V2WalkIsWalk(hop: Hop, w: World, pools: seq<Pool>, tokenIn: nat, amount: nat)
    requires Chained(pools, tokenIn) && AllV2(pools)
    ensures V2Walk(hop, w, LegsOf(pools, tokenIn), amount) == Walk(hop, w, pools, tokenIn, amount)
    ensures pools != [] ==> LegsOf(pools, tokenIn)[0].from == tokenIn && LegsOf(pools, tokenIn)[|pools| - 1].to == End(pools, tokenIn)
    decreases |pools|
  {
    if pools != [] {
      var next := Other(pools[0], tokenIn);
      assert LegsOf(pools, tokenIn)[1..] == LegsOf(pools[1..], next);
      match hop(w, pools[0], tokenIn, amount)
      case None => V2WalkIsWalk(hop, w, pools[1..], next, amount);
      case Some(f) => V2WalkIsWalk(hop, f.world, pools[1..], next, f.out);
    }
  }

  // V2 pools leave nothing untaken.
  lemma {:induction false} V2TakesAll(hop: Hop, w: World, pools: seq<Pool>, tokenIn: nat, amount: nat)
    requires AllV2(pools)
    ensures forall i :: 0 <= i < |Rests(hop, w, pools, tokenIn, amount)| ==> Rests(hop, w, pools, tokenIn, amount)[i].amount == 0
    decreases |pools|
  {
    if pools != [] && hop(w, pools[0], tokenIn, amount).Some? {
      var f := hop(w, pools[0], tokenIn, amount).value;
      V2TakesAll(hop, f.world, pools[1..], Other(pools[0], tokenIn), f.out);
    }
  }

  predicate NoRest(rests: seq<Rest>) {
    forall i :: 0 <= i < |rests| ==> rests[i].amount == 0
  }

  lemma {:induction false} NoRestNoSum(rests: seq<Rest>, token: nat)
    requires NoRest(rests)
    ensures SumOf(rests, token) == 0
  {
    if rests != [] { NoRestNoSum(rests[1..], token); }
  }

  lemma NoRestNoBack(payer: Party, rests: seq<Rest>, p: Party, a: Asset)
    requires NoRest(rests)
    ensures Back(payer, rests, p, a) == 0
  {
    if a.Token? && rests != [] {
      NoRestNoSum(rests[1..], a.id);
    }
  }

  // One payment, of all but a rest, and one receipt.
  lemma PayThenReceive(l: Ledger, payer: Party, tokenIn: nat, amount: nat, taken: nat, recipient: Party, tokenOut: nat, out: nat)
    requires CanPay(l, payer, Token(tokenIn), amount) && taken <= amount
    ensures Pay(l, payer, Token(tokenIn), taken).Some?
    ensures
      var l' := Add(Pay(l, payer, Token(tokenIn), taken).value, recipient, Token(tokenOut), out);
      && Moved(l, l', payer, tokenIn, amount, recipient, tokenOut, out, [Rest(tokenIn, amount - taken)])
      && (recipient == Router ==> CanPay(l', Router, Token(tokenOut), out))
  {
    hide Bal, Add, Pay, Moved, Solvent;
    PayableAll(l, payer, tokenIn, amount);
    PaidLedger(l, payer, tokenIn, taken);
    var paid := Pay(l, payer, Token(tokenIn), taken).value;
    var l' := Add(paid, recipient, Token(tokenOut), out);
    PaidAndReceived(l, paid, l', payer, tokenIn, amount, taken, recipient, tokenOut, out);
    StillSolvent(l, paid, l', payer, tokenIn, taken, recipient, tokenOut, out);
  }

  lemma PayableAll(l: Ledger, payer: Party, tokenIn: nat, amount: int)
    requires CanPay(l, payer, Token(tokenIn), amount)
    ensures payer == Router ==> Bal(l, Router, Token(tokenIn)) >= amount
  {
  }

  lemma PaidAndReceived(l: Ledger, paid: Ledger, l': Ledger, payer: Party, tokenIn: nat, amount: nat, taken: nat,
                        recipient: Party, tokenOut: nat, out: nat)
    requires taken <= amount
    requires forall p, a :: Bal(paid, p, a) == Bal(l, p, a) - if p == payer && a == Token(tokenIn) then taken else 0
    requires forall p, a :: Bal(l', p, a) == Bal(paid, p, a) + if p == recipient && a == Token(tokenOut) then out else 0
    ensures Moved(l, l', payer, tokenIn, amount, recipient, tokenOut, out, [Rest(tokenIn, amount - taken)])
  {
    hide Bal, Back;
    OneRest(payer, tokenIn, amount - taken);
  }

  lemma StillSolvent(l: Ledger, paid: Ledger, l': Ledger, payer: Party, tokenIn: nat, taken: nat, recipient: Party, tokenOut: nat, out: nat)
    requires Solvent(l) && (payer == Router ==> Bal(l, Router, Token(tokenIn)) >= taken)
    requires forall p, a :: Bal(paid, p, a) == Bal(l, p, a) - if p == payer && a == Token(tokenIn) then taken else 0
    requires forall p, a :: Bal(l', p, a) == Bal(paid, p, a) + if p == recipient && a == Token(tokenOut) then out else 0
    ensures Solvent(l') && (recipient == Router ==> Bal(l', Router, Token(tokenOut)) >= out)
  {
    hide Bal;
    forall a ensures Bal(paid, Router, a) >= 0 {
      assert Bal(l, Router, a) >= 0;
    }
  }

  lemma PaidLedger(l: Ledger, payer: Party, tokenIn: nat, taken: nat)
    requires payer == Router ==> Bal(l, Router, Token(tokenIn)) >= taken
    ensures Pay(l, payer, Token(tokenIn), taken).Some?
    ensures forall p, a :: Bal(Pay(l, payer, Token(tokenIn), taken).value, p, a) ==
                           Bal(l, p, a) - if p == payer && a == Token(tokenIn) then taken else 0
  {
    hide Bal;
  }

  lemma OneRest(payer: Party, token: nat, rest: nat)
    ensures forall p, a :: Back(payer, [Rest(token, rest)], p, a) == if p == payer && a == Token(token) then rest else 0
  {
    assert [Rest(token, rest)][1..] == [];
  }

  // CLWalk over encoded pools, one pool at a time.
  lemma CLWalkStep(hop: Hop, s: State, recipient: Party, amount: nat, pools: seq<Pool>, tokenIn: nat, payer: Party, f: Fill)
    requires pools != [] && Chained(pools, tokenIn) && AllCL(pools)
    requires hop(s.world, pools[0], tokenIn, amount) == Some(f)
    requires Pay(s.ledger, payer, Token(tokenIn), Taken(pools[0], amount, f)).Some?
    ensures
      var next := Other(pools[0], tokenIn);
      var l := Pay(s.ledger, payer, Token(tokenIn), Taken(pools[0], amount, f)).value;
      CLWalk(hop, s, recipient, amount, CLPath(tokenIn, StepsOf(pools, tokenIn)), payer) ==
      if |pools| == 1 then Some((State(f.world, Add(l, recipient, Token(next), f.out)), f.out))
      else CLWalk(hop, State(f.world, Add(l, Router, Token(next), f.out)), recipient, f.out, CLPath(next, StepsOf(pools[1..], next)), Router)
  {
    hide Bal, Add, Pay;
    FirstStep(pools, tokenIn);
  }

  lemma FirstStep(pools: seq<Pool>, tokenIn: nat)
    requires pools != [] && Chained(pools, tokenIn) && AllCL(pools)
    ensures
      var next, steps := Other(pools[0], tokenIn), StepsOf(pools, tokenIn);
      && steps[0] == (pools[0].tickSpacing, next) && steps[1..] == StepsOf(pools[1..], next)
      && CLPool(Low(tokenIn, next), High(tokenIn, next), pools[0].tickSpacing) == pools[0]
  {
  }

  lemma CLWalkStops(hop: Hop, s: State, recipient: Party, amount: nat, pools: seq<Pool>, tokenIn: nat, payer: Party)
    requires pools != [] && Chained(pools, tokenIn) && AllCL(pools)
    requires hop(s.world, pools[0], tokenIn, amount) == None
    ensures CLWalk(hop, s, recipient, amount, CLPath(tokenIn, StepsOf(pools, tokenIn)), payer) == None
  {
    hide Bal, Add, Pay;
    FirstStep(pools, tokenIn);
  }

  // A CL command walks the encoded pools. Custody between them nets out, except that the router is left
  // with what its pools did not take.
  lemma {:induction false} CLWalkIsWalk(hop: Hop, s: State, recipient: Party, amount: nat, pools: seq<Pool>, tokenIn: nat, payer: Party)
    requires pools != [] && Chained(pools, tokenIn) && AllCL(pools)
    requires CanPay(s.ledger, payer, Token(tokenIn), amount)
    ensures
      var done := CLWalk(hop, s, recipient, amount, CLPath(tokenIn, StepsOf(pools, tokenIn)), payer);
      var walked := Walk(hop, s.world, pools, tokenIn, amount);
      && (done.Some? <==> walked.Some?)
      && (done.Some? ==>
           && done.value.0.world == walked.value.0 && done.value.1 == walked.value.1
           && Moved(s.ledger, done.value.0.ledger, payer, tokenIn, amount, recipient, End(pools, tokenIn), done.value.1,
                    Rests(hop, s.world, pools, tokenIn, amount)))
    decreases |pools|
  {
    hide Bal, Add, CLWalk, Moved, CanPay, StepsOf, Pay, Rests, Taken;
    var next := Other(pools[0], tokenIn);
    match hop(s.world, pools[0], tokenIn, amount)
    case None =>
      CLWalkStops(hop, s, recipient, amount, pools, tokenIn, payer);
    case Some(f) =>
      var taken := Taken(pools[0], amount, f);
      var receiver := if |pools| == 1 then recipient else Router;
      PayThenReceive(s.ledger, payer, tokenIn, amount, taken, receiver, next, f.out);
      CLWalkStep(hop, s, recipient, amount, pools, tokenIn, payer, f);
      RestsStep(hop, s.world, pools, tokenIn, amount, f);
      if |pools| > 1 {
        var l := Add(Pay(s.ledger, payer, Token(tokenIn), taken).value, Router, Token(next), f.out);
        CLWalkIsWalk(hop, State(f.world, l), recipient, f.out, pools[1..], next, Router);
        var done := CLWalk(hop, State(f.world, l), recipient, f.out, CLPath(next, StepsOf(pools[1..], next)), Router);
        if done.Some? {
          MovedCompose(s.ledger, l, done.value.0.ledger, payer, tokenIn, amount, next, f.out,
                       recipient, End(pools, tokenIn), done.value.1, [Rest(tokenIn, amount - taken)], Rests(hop, f.world, pools[1..], next, f.out));
        }
      }
  }

  // What a CL pool asks for is what its payer is down, however much it was offered.
  lemma PaidWhatIsTaken(hop: Hop, s: State, recipient: Party, amount: nat, pool: Pool, tokenIn: nat, payer: Party, f: Fill)
    requires pool.CLPool? && Chained([pool], tokenIn) && CanPay(s.ledger, payer, Token(tokenIn), amount)
    requires hop(s.world, pool, tokenIn, amount) == Some(f) && f.taken <= amount
    ensures
      var done := CLWalk(hop, s, recipient, amount, CLPath(tokenIn, [(pool.tickSpacing, Other(pool, tokenIn))]), payer);
      && done.Some? && done.value.1 == f.out
      && Bal(done.value.0.ledger, payer, Token(tokenIn)) == Bal(s.ledger, payer, Token(tokenIn)) - f.taken
  {
    var next := Other(pool, tokenIn);
    OnePoolPath(pool, tokenIn);
    assert Taken(pool, amount, f) == f.taken;
    hide Bal, Add, CLWalk, CanPay, StepsOf, Pay, Taken, Moved;
    PayThenReceive(s.ledger, payer, tokenIn, amount, f.taken, recipient, next, f.out);
    PaidLedger(s.ledger, payer, tokenIn, f.taken) by { PayableAll(s.ledger, payer, tokenIn, amount); }
    CLWalkStep(hop, s, recipient, amount, [pool], tokenIn, payer, f);
    Added(Pay(s.ledger, payer, Token(tokenIn), f.taken).value, recipient, Token(next), f.out);
  }

  lemma Added(l: Ledger, recipient: Party, asset: Asset, n: int)
    ensures forall q, b :: Bal(Add(l, recipient, asset, n), q, b) == Bal(l, q, b) + if q == recipient && b == asset then n else 0
  {
  }

  lemma OnePoolPath(pool: Pool, tokenIn: nat)
    requires pool.CLPool? && Chained([pool], tokenIn)
    ensures AllCL([pool]) && StepsOf([pool], tokenIn) == [(pool.tickSpacing, Other(pool, tokenIn))] && Other(pool, tokenIn) != tokenIn
  {
    assert [pool][1..] == [];
  }
}
