# Verified models of the Topaz swap stack

Dafny models of the parts of the repository that compute with money or coordinate concurrent work,
with proofs of what those parts promise. `dafny verify dfyconfig.toml` checks everything.

* **Concentrated liquidity** (`TickMath`, `TickConstants`, `TickLog`, `TickOfPrice`, `SqrtPriceMath`,
  `SwapMath`, `TickList`, `V3Swap`, `Reserves`, `SwapOutcome`). The tick price table, the fixed-point
  logarithm that inverts it, amount deltas with their roundings, one swap step, the tick list, the swap
  loop and the pool built from its result. Nothing is assumed about tick prices: the twenty constants
  are the powers of 1.0001 they stand for, strict monotonicity of `getSqrtRatioAtTick` over all of them
  is proved, and so is that `getTickAtSqrtRatio` is its exact lower adjoint. The results climb from
  there to whole swaps: every reachable state keeps liquidity, tick and price consistent, the loop ends,
  a rebuilt pool passes its own constructor, every price move is paid for in full apart from the fee,
  swapping there and back loses at least the fee, and it is stated exactly when a swap fails and where
  it stops.
* **Solidly pools** (`V2Pool`, `StableCurve`, `V2Trade`). Newton's iteration `getY` and its brackets,
  the rounded stable curve against the polynomial it stands for, the stable invariant through all
  normalisation, the volatile round trips, and trades over routes of any length, those that do not end
  at their output included.
* **Route search** (`RouteSearch`, `Prerank`, `BestSwapRoute`). The depth first enumeration with its
  budget, the interleaved pre-ranking, and the layered search for a split.
* **Plan compiler** (`RouterMachine`, `RoutePlan`, `PlanAmounts`, `PlanMeaning`, `PlanExactness`,
  `PlanProtection`). A
  trade is compiled into Universal Router commands; a balance machine gives the commands their meaning,
  over pools that may take less than they are offered; the plan is proved to mean the same as walking
  each route pool by pool, what is left in the router is accounted for to the unit, and the condition
  on the routes under which this holds is proved exact. What a recipient is sure to receive from a plan
  that goes through needs no such condition.
* **Concurrency** (`WorkBudget`, `ResponseCache`, `Multicall`). The work gate, the response cache and
  the batched reads as transition systems whose atomic steps are the runs between `await`s, with
  theorems over every sequence of events.

`Arith`, `Sequences` and `Results` hold shared facts about integers and sequences and the result
types. Exceptions and failed invariants are `Failure` with the message; promise settlement, clocks and
timers are events or parameters.

## Findings

Where code and documentation differ, the model follows the code; these are proved.

* `isSorted` lets equal neighbours through (`packages/v3-sdk/src/utils/isSorted.ts:9`), and on a repeated
  index the binary search (`packages/v3-sdk/src/utils/tickList.ts:62-81`) need not leave its loop
  (`TickList.RepeatedIndexDiverges`; `TickList.SearchReturnsExactly` says when it returns). The pool
  results therefore ask for strictly increasing ticks.
* The swap loop compares price objects by reference (`packages/v3-sdk/src/utils/v3swap.ts:56`). A loop
  that compared prices would end in the same price, tick, liquidity and amounts
  (`V3Swap.ReferenceGuardIsHarmless`).
* The comment at `packages/smart-order-router/src/routers/compute-routes.ts:92` says a path with a
  token appearing twice is dropped. It is not: such a path forms a route (`RouteSearch.RevisitIsKept`),
  and the constructors drop nothing the search finds (`RouteSearch.NothingIsDropped`).
* A section that spends the router's whole balance of a token
  (`packages/universal-router-sdk/src/swapRouter.ts:233`) also spends what the router holds of it for
  other legs. This concerns a leg after the first that hands the output from one section to the next,
  and a leg of a native trade that hands over the wrapped input while dust or a later leg's part is
  left of it. A plan means its walks through all pools that take what they are offered if and only if
  no leg does so (`PlanExactness.SharesApartIsExact`). `PlanExactness.RevisitBreaksSplit` has a split
  that reverts although every route can be walked, `PlanExactness.RevisitLastIsApart` the same routes
  in an order that is sound.
* A CL pool that stops at its price limit takes less than it is offered
  (`packages/universal-router/contracts/modules/topaz/v3/V3SwapRouter.sol:76-115`), and no command
  sends the rest back: the router keeps it (`PlanMeaning.NothingIsLeft`).
* The route constructors only ask that the last pool involve the output
  (`packages/router-sdk/src/entities/mixedRoute.ts:28`, `packages/v2-sdk/src/entities/route.ts:25`); a
  route ends at its output exactly when it does not enter its last pool with it
  (`PlanMeaning.EndsAtOutput`, with an accepted route that ends elsewhere in
  `PlanMeaning.AcceptedRouteEndsElsewhere`). An exact output trade over a v2 route that does not
  (`packages/v2-sdk/src/entities/trade.ts:52-64`) either fails or states an amount of another token as
  its input (`V2Trade.PricedInInput`).
* A fee below one bip becomes zero bips (`packages/universal-router-sdk/src/swapRouter.ts:123`), which
  the router refuses (`packages/universal-router/contracts/modules/Payments.sol:42`), so the plan always
  reverts (`PlanMeaning.TinyFeeReverts`).
* `getInputAmount` adds one unit whether or not it rounded
  (`packages/v2-sdk/src/entities/pool.ts:160-166`). One unit less is enough exactly when something was
  asked for and the reserve division left no remainder (`V2Trade.OneUnitLess`); an output of nothing
  costs one unit (`V2Trade.ExactOutputSuffices`).

## Model

| member | source | states |
|---|---|---|
| TickMath.GetSqrtRatioAtTick | packages/v3-sdk/src/utils/tickMath.ts:41-75 | the twenty conditional multiplications, the inversion for positive ticks and the rounding to Q96 give the specified price for every tick in range, and fail with TICK outside |
| TickMath.SqrtAtIncreasing | packages/v3-sdk/src/utils/tickMath.ts:45-74 | a higher tick has a strictly higher price, over all truncations of the twenty constants |
| TickMath.SqrtAtBounds | packages/v3-sdk/src/utils/tickMath.ts:41-75 | the extreme ticks have exactly the prices MIN_SQRT_RATIO and MAX_SQRT_RATIO |
| TickConstants.MagicIsRounded | packages/v3-sdk/src/utils/tickMath.ts:45-67 | each of the twenty constants is 2^128 * 1.0001^(-2^j / 2) rounded to the nearest integer |
| TickLog.Round | packages/v3-sdk/src/utils/tickMath.ts:102-107 | one round of the logarithm loop keeps r in [2^127, 2^128), extracts one bit, and loses less than one unit of the next mantissa |
| TickLog.LogBitsLower | packages/v3-sdk/src/utils/tickMath.ts:102-107 | the extracted bits n never overstate the logarithm: 2^n (2^127)^(2^k) <= r^(2^k) |
| TickLog.LogBitsUpper | packages/v3-sdk/src/utils/tickMath.ts:102-107 | nor do they understate it by more than one unit |
| TickLog.PriceLog | packages/v3-sdk/src/utils/tickMath.ts:89-107 | normalisation and fourteen rounds bound log2 of any price from both sides |
| TickLog.RatioPower | packages/v3-sdk/src/utils/tickMath.ts:45-67 | the tabulated ratio of every tick is the power of two its tick stands for, within stated error on both sides |
| TickLog.LowTick | packages/v3-sdk/src/utils/tickMath.ts:109-116 | a tick LOW_MARGIN below the logarithm of a price has a price no higher |
| TickLog.HighTick | packages/v3-sdk/src/utils/tickMath.ts:117-122 | a tick more than HIGH_MARGIN above it has a higher price |
| TickOfPrice.MostSignificantBit | packages/v3-sdk/src/utils/mostSignificantBit.ts:12-24 | 2^msb <= x < 2^(msb+1), with ZERO and MAX failures exactly outside the 256-bit range |
| TickOfPrice.OrFreshBit | packages/v3-sdk/src/utils/tickMath.ts:105 | or-ing a bit into a clear position is an addition, also for negative numbers |
| TickOfPrice.AppendBit | packages/v3-sdk/src/utils/tickMath.ts:103-107 | every OR of the loop hits a fresh bit, so the assembled logarithm is the sum of its bits |
| TickOfPrice.LogTwo | packages/v3-sdk/src/utils/tickMath.ts:100-107 | the loop computes (msb - 128) and the fourteen fraction bits of the logarithm |
| TickOfPrice.Decision | packages/v3-sdk/src/utils/tickMath.ts:111-128 | the upper candidate is a tick that can be priced, and equality of the candidates or comparison with its price picks the tick of the price |
| TickOfPrice.TickUnique | packages/v3-sdk/src/utils/tickMath.ts:77-81 | at most one tick satisfies the documented bracket |
| TickOfPrice.TickExists | packages/v3-sdk/src/utils/tickMath.ts:77-81 | at least one does, for every price in range |
| TickOfPrice.GetTickAtSqrtRatio | packages/v3-sdk/src/utils/tickMath.ts:82-129 | for every price in range the lookup succeeds and returns the one tick with sqrt(tick) <= price < sqrt(tick + 1); it fails with SQRT_RATIO exactly outside |
| SqrtPriceMath.MulDivGalois | packages/v3-sdk/src/utils/fullMath.ts:10-15 | the rounded-up quotient is the least integer whose multiple covers the product |
| SqrtPriceMath.Amount0UpGalois | packages/v3-sdk/src/utils/sqrtPriceMath.ts:25-36 | two nested rounded-up divisions give the least integer not below the exact token0 amount |
| SqrtPriceMath.Amount0DownGalois | packages/v3-sdk/src/utils/sqrtPriceMath.ts:25-36 | two nested floors give the greatest integer not above it |
| SqrtPriceMath.RoundingGap | packages/v3-sdk/src/utils/sqrtPriceMath.ts:25-46 | rounded-up and rounded-down deltas of either token differ by at most one |
| SqrtPriceMath.SplittingIsNeverCheaper | packages/v3-sdk/src/utils/sqrtPriceMath.ts:25-46 | moving the price in two pieces never lets the trader pay less or receive more |
| SqrtPriceMath.WrapTest | packages/v3-sdk/src/utils/sqrtPriceMath.ts:81-82 | the division test detects exactly the products that wrap at 256 bits |
| SqrtPriceMath.AddAmount0 | packages/v3-sdk/src/utils/sqrtPriceMath.ts:71-89 | through both formulas, the wrapped sum and the fallback, adding token0 never fails, raises no price and never undercuts the exact price |
| SqrtPriceMath.AddAmount0Least | packages/v3-sdk/src/utils/sqrtPriceMath.ts:71-89 | it is the least integer not below the exact price when neither product nor sum wraps, and never above the price of the fallback formula |
| SqrtPriceMath.RemoveAmount0 | packages/v3-sdk/src/utils/sqrtPriceMath.ts:90-97 | removing token0 fails exactly when the product wraps or exhausts the virtual reserve, and otherwise rounds the exact price up |
| SqrtPriceMath.AddAmount1 | packages/v3-sdk/src/utils/sqrtPriceMath.ts:100-111 | adding token1 moves the price up to the greatest integer not above the exact price |
| SqrtPriceMath.RemoveAmount1 | packages/v3-sdk/src/utils/sqrtPriceMath.ts:112-117 | removing token1 fails exactly when it would use the price up, and otherwise moves it to the greatest integer that releases the amount |
| SwapMath.NextBetween | packages/v3-sdk/src/utils/swapMath.ts:32-64 | in all four cases the next price lies between current and target; it fails exactly for a token0 output that misses its target and whose product with the price exceeds 256 bits |
| SwapMath.StepContract | packages/v3-sdk/src/utils/swapMath.ts:14-104 | exact input takes at most the remaining amount, fee included, and all of it when the target is missed; exact output gives at most what was asked and exactly that on a miss; the fee is the least that covers its share of the input, or the rest of an input that missed |
| SwapMath.AmountsAreTight | packages/v3-sdk/src/utils/swapMath.ts:66-90 | the input of a step is the least integer that pays for its price move, the output the greatest integer the move releases or what was asked for if less |
| SwapMath.InputGoesAsFarAsPaid | packages/v3-sdk/src/utils/swapMath.ts:32-49 | an exact input that misses its target moves the price as far as it pays for: one unit further costs more than the input less fee; for token0 as long as product and sum fit 256 bits, so that the fallback formula is not used |
| SwapMath.OutputGoesNoFarther | packages/v3-sdk/src/utils/swapMath.ts:50-64 | an exact output that misses its target moves the price no farther than it must: one unit less releases less than was asked for |
| SwapMath.ComputeSwapStep | packages/v3-sdk/src/utils/swapMath.ts:14-104 | the record filled branch by branch is the specified step |
| SwapOutcome.FeeInMillionths | packages/v3-sdk/src/utils/swapMath.ts:32-36 | the fee of a step in millionths: on an exact input that misses its target all that is not paid for the move, at least its share of what was left, while one price unit further would have left less than that share (for token0 as long as product and sum fit 256 bits); otherwise the least fee that is its share of input and fee |
| SwapMath.IdleStep | packages/v3-sdk/src/utils/swapMath.ts:14-104 | a step from a price to itself moves and charges nothing |
| TickList.BinarySearch | packages/v3-sdk/src/utils/tickList.ts:62-81 | ends at the last tick not above the query on every sorted list where the query is not a repeated index; fails exactly on an empty list or below the smallest tick |
| TickList.RepeatedIndexDiverges | packages/v3-sdk/src/utils/isSorted.ts:7-14 | a list the validation accepts on which the search reaches an interval it never leaves |
| TickList.SearchReturnsExactly | packages/v3-sdk/src/utils/tickList.ts:62-81 | on every sorted list, repeats included, the search for an initialised tick ever returns if and only if the first probe to land among the positions of that index lands on the last of them |
| TickList.NextInitializedTick | packages/v3-sdk/src/utils/tickList.ts:83-99 | returns the nearest initialised tick in the given direction; fails with LENGTH on an empty list, BELOW_SMALLEST below the smallest tick going down and AT_OR_ABOVE_LARGEST at or above the largest going up |
| TickList.GetTick | packages/v3-sdk/src/utils/tickList.ts:50-54 | returns the tick of that index if and only if the list has one |
| TickList.NextInitializedTickWithinOneWord | packages/v3-sdk/src/utils/tickList.ts:101-132 | agrees with a linear scan of the 256-tick word, in both directions, on every strictly increasing spaced list |
| TickList.NextInWordSound | packages/v3-sdk/src/utils/tickList.ts:101-132 | that scan never skips an initialised tick, reports initialisation truthfully, always makes progress, and otherwise stops at the edge of the word of 256 compressed ticks |
| V3Swap.NetCrossed | packages/v3-sdk/src/utils/v3swap.ts:104-113 | crossing an initialised tick changes the liquidity in range by that tick's net liquidity |
| V3Swap.IterationContract | packages/v3-sdk/src/utils/v3swap.ts:56-119 | each iteration keeps the loop invariant, moves the price one way only, fails only when its step fails, and strictly shortens the way to the end of the tick range or ends the loop |
| V3Swap.MissEndsLoop | packages/v3-sdk/src/utils/v3swap.ts:101-118 | an iteration that misses the next tick is the last |
| V3Swap.RunContract | packages/v3-sdk/src/utils/v3swap.ts:47-119 | in every reachable state liquidity is the sum of liquidityNet at or below the tick, the price is inside its tick and within the limit, the remaining amount keeps its sign, and specified = remaining + settled |
| V3Swap.RunFees | packages/v3-sdk/src/utils/v3swap.ts:76-99 | of everything paid in over any number of iterations, at least the fee's millionths are fees |
| V3Swap.RunEnds | packages/v3-sdk/src/utils/v3swap.ts:56-119 | the loop ends within one iteration more than there are ticks left |
| V3Swap.IdleIteration | packages/v3-sdk/src/utils/v3swap.ts:56 | an iteration that starts at a price equal to the limit moves no price, tick, liquidity or amount |
| V3Swap.ReferenceGuardIsHarmless | packages/v3-sdk/src/utils/v3swap.ts:56 | the loop as it is and a loop that compares prices by value end with the same error, or with the same price, tick, liquidity and amounts |
| V3Swap.IterateOnce | packages/v3-sdk/src/utils/v3swap.ts:57-118 | the loop body computes the specified iteration |
| V3Swap.SwapLoop | packages/v3-sdk/src/utils/v3swap.ts:56-119 | the loop terminates in the specified final state |
| V3Swap.V3Swap | packages/v3-sdk/src/utils/v3swap.ts:19-127 | the limit checks in order, the loop and the returned record are the specified swap, for every amount sign, direction and limit |
| Reserves.HoldingsOppose | packages/v3-sdk/src/entities/pool.ts:157-185 | of two prices, the one with no more token1 behind it has no less token0 ahead of it |
| Reserves.IterationCovers | packages/v3-sdk/src/utils/v3swap.ts:76-99 | one iteration charges, fee apart, at least what its price move adds to the pool and pays at most what it releases |
| Reserves.RunCovers | packages/v3-sdk/src/utils/v3swap.ts:56-119 | the same over any number of iterations |
| Reserves.RunOfSwap | packages/v3-sdk/src/utils/v3swap.ts:47-127 | a finished loop has used up its amount or stands on its limit, within the limit and with a consistent pool |
| Reserves.SwapContract | packages/v3-sdk/src/entities/pool.ts:157-221 | after every successful swap the rebuilt pool is consistent, the price moved only towards the limit and not past it, and the whole move was paid for by what the fee leaves of the payment |
| Reserves.RebuildSucceeds | packages/v3-sdk/src/entities/pool.ts:65-93 | the constructor's FEE, TICK_SPACING, TICK and PRICE_BOUNDS checks never reject the pool rebuilt from a swap |
| Reserves.RebuildNeverFails | packages/v3-sdk/src/entities/pool.ts:157-221 | a quote fails if and only if its swap fails |
| Reserves.GetOutputAmount | packages/v3-sdk/src/entities/pool.ts:157-185 | the quoted output is never negative and the returned pool is consistent |
| Reserves.GetInputAmount | packages/v3-sdk/src/entities/pool.ts:193-221 | the quoted input is never negative and the returned pool is consistent |
| Reserves.QuoteCovers | packages/v3-sdk/src/entities/pool.ts:157-185 | what the fee leaves of the amount is at least what the price move between the two pools is worth, and the quote pays at most that |
| Reserves.RoundTripNeverProfits | packages/v3-sdk/src/entities/pool.ts:157-185 | swapping back no more than was received returns no more than the first swap's fee left of the payment: a round trip loses at least the fee |
| SwapOutcome.LimitErrors | packages/v3-sdk/src/utils/v3swap.ts:30-41 | RATIO_MIN, RATIO_MAX, RATIO_CURRENT and LENGTH each exactly when the given or default limit, or the empty tick list, calls for it, with the limits in figures |
| SwapOutcome.SwapEnds | packages/v3-sdk/src/utils/v3swap.ts:30-127 | a swap within its limits, given or default, fails only if a step of its run does, which only an exact output of token0 can; otherwise it has settled the whole amount or stopped on the limit |
| SwapOutcome.ExactInputNeverFails | packages/v3-sdk/src/entities/pool.ts:157-215 | an exact input quote without a limit always has an answer between the extreme prices, and so has an exact output of token1 |
| SwapOutcome.ConstructorChecks | packages/v3-sdk/src/entities/pool.ts:75-84 | the constructor fails with FEE exactly from 1000000 on, with TICK_SPACING exactly for no positive spacing, and accepts exactly the prices within their tick |
| SwapOutcome.Units | packages/v3-sdk/src/utils/tickMath.ts:13-39 | prices have 96 fraction bits in amounts and ticks alike, tick 0 has the price one, and the extreme ticks have the extreme prices, in figures |
| V2Pool.GetY | packages/v2-sdk/src/entities/pool.ts:236-257 | the 255-round loop is the specified iteration, with division by a vanishing derivative and running out of rounds as failures |
| V2Pool.GetYBrackets | packages/v2-sdk/src/entities/pool.ts:236-257 | whatever path the iteration took, f(x0, r) >= xy and f(x0, y) <= xy for every smaller y |
| V2Pool.GetYNotAbove | packages/v2-sdk/src/entities/pool.ts:236-257 | started on or above the curve value, the result does not exceed the start |
| V2Pool.OutputNonNegative | packages/v2-sdk/src/entities/pool.ts:188-204 | no quote has a negative output |
| V2Pool.StableOutput | packages/v2-sdk/src/entities/pool.ts:188-204 | the output is the scaled-down distance from the reserve to a root at which the curve reaches the invariant, and one below which it does not exceed it |
| V2Pool.StableInvariantNeverDecreases | packages/v2-sdk/src/entities/pool.ts:106-136 | for every stable pool, token order, decimals and input that returns an output, k of the next reserves is at least k before |
| StableCurve.CurveIsPolynomial | packages/v2-sdk/src/entities/pool.ts:219-226 | the rounded curve is x^3 y + x y^3 in units of 10^54, never above it and below it by less than one unit and a stated loss |
| StableCurve.DivisorIsDerivative | packages/v2-sdk/src/entities/pool.ts:228-233 | Newton's divisor is 3 x y^2 + x^3 in units of 10^36, with the same two bounds |
| StableCurve.KOfReserves | packages/v2-sdk/src/entities/pool.ts:207-217 | k never exceeds x^3 y + x y^3 of the raw reserves, each brought to eighteen decimals |
| StableCurve.TenTo18 | packages/v2-sdk/src/entities/pool.ts:179-185 | decimals scale by powers of ten |
| StableCurve.NormaliseIsScaling | packages/v2-sdk/src/entities/pool.ts:192-193 | reserves are scaled to eighteen decimals and rounded down |
| StableCurve.StableQuoteIsRoot | packages/v2-sdk/src/entities/pool.ts:188-204 | a stable quote pays the distance from the reserve to a root of the polynomial, up to the loss of the rounded curve |
| StableCurve.PolynomialIsKept | packages/v2-sdk/src/entities/pool.ts:106-136 | no stable swap lowers x^3 y + x y^3 of the scaled reserves by more than the rounded curve can lose |
| StableCurve.StableQuoteFails | packages/v2-sdk/src/entities/pool.ts:188-204 | a stable quote has no root exactly if 255 rounds from the output reserve do not end |
| StableCurve.FeeWithheld | packages/v2-sdk/src/entities/pool.ts:116-118 | the fee withheld is its ten-thousandths of the input, rounded down |
| StableCurve.QuoteWithinReserve | packages/v2-sdk/src/entities/pool.ts:106-131 | what is quoted lies strictly between nothing and the reserve; a volatile quote fails exactly for a foreign token, an empty reserve or an output of nothing, each with its error |
| V2Trade.GrossUpInverts | packages/v2-sdk/src/entities/pool.ts:160-170 | the grossed-up input is worth the wanted amount after the fee, and one unit less is worth less |
| V2Trade.BuysGalois | packages/v2-sdk/src/entities/pool.ts:122-125 | a payment after fee buys an output if and only if it covers that output at the remaining reserve |
| V2Trade.ExactOutputSuffices | packages/v2-sdk/src/entities/pool.ts:142-177 | the computed input, or any larger one, buys at least the requested output, and the recorded trade strictly grows the product; a requested output of nothing is priced at one unit, and only then can the input be too small to buy anything |
| V2Trade.ExactInputKeepsProduct | packages/v2-sdk/src/entities/pool.ts:106-136 | a volatile exact input swap never shrinks the product |
| V2Trade.OneUnitLess | packages/v2-sdk/src/entities/pool.ts:157-167 | one unit less input still buys the output if and only if the reserve division was exact and the output not zero |
| V2Trade.InputQuoteFails | packages/v2-sdk/src/entities/pool.ts:142-152 | an exact output is priced exactly for a token of a volatile pool with both reserves and less than that token's reserve, and otherwise fails with the error of the first of these that is missing |
| V2Trade.ExactInputThenOutput | packages/v2-sdk/src/entities/pool.ts:106-177 | asking back for the output of an exact input succeeds and costs at most two units more for every fee up to one half |
| V2Trade.ExactInTrade | packages/v2-sdk/src/entities/trade.ts:39-45 | the array is filled front to back with each pool's quote, failing at the first pool that does |
| V2Trade.ExactOutTrade | packages/v2-sdk/src/entities/trade.ts:52-58 | the array is filled back to front with each pool's quote, each pool being asked in the token the one after it was quoted in, from the output on; it fails at the first pool that does |
| V2Trade.QuoteExactOut | packages/smart-order-router/src/providers/quote-provider.ts:135-154 | a route has a quote exactly when it has no stable pool and every hop can be priced, and it is the first amount of the backward chain from the output |
| V2Trade.ForwardCovers | packages/v2-sdk/src/entities/trade.ts:39-58 | from any point of a priced route on, at least the computed input arrives as at least the computed amounts, unless nothing was asked for and the last pool finds its input too small |
| V2Trade.ExactOutputRoundTrip | packages/v2-sdk/src/entities/trade.ts:39-65 | for volatile routes of any length that end at their output the computed input fed forward delivers at least the requested output at the end and at every hop, and strictly grows every product |
| V2Trade.PricedInInput | packages/v2-sdk/src/entities/trade.ts:52-64 | a priced exact output trade states its input in the input token if and only if its route ends at the output; one that does not can be priced only if all its pools join the same two tokens |
| RouteSearch.Walker.Walk | packages/smart-order-router/src/routers/compute-routes.ts:47-67 | collects the enumeration below the current path, restores path and visited set, counts what it examined, and throws if and only if the budget does not cover it |
| RouteSearch.AllPaths | packages/smart-order-router/src/routers/compute-routes.ts:33-69 | the limits 3, 60, 2000 and 100000 are checked in order, then all paths or the budget error |
| RouteSearch.SearchIsExact | packages/smart-order-router/src/routers/compute-routes.ts:43-69 | within its budget the search collects exactly, and without duplicates, every chain of at most maxHops distinct pools from tokenIn to its first arrival at tokenOut |
| RouteSearch.RouteMeans | packages/smart-order-router/src/routers/compute-routes.ts:47-66 | such a chain is a list of distinct pools with tokens between them, from tokenIn to tokenOut, each two neighbours being the tokens of the pool between them |
| RouteSearch.BudgetPaysFor | packages/smart-order-router/src/routers/compute-routes.ts:54-56 | the search examines the number of pools once for each chain of distinct pools, shorter than maxHops and not yet at tokenOut |
| RouteSearch.Classify | packages/smart-order-router/src/routers/compute-routes.ts:75-100 | each list is the beginning of the constructible paths of its protocol in order, up to the cap |
| RouteSearch.NothingIsDropped | packages/smart-order-router/src/routers/compute-routes.ts:79-94 | no path of the search is dropped by a constructor, whatever the ranking: each is in the list its pools call for, all CL, none CL or both |
| RouteSearch.OrderIsKept | packages/smart-order-router/src/routers/compute-routes.ts:79-94 | each list keeps the order of the ranking |
| RouteSearch.OnlyRoutesAreKept | packages/smart-order-router/src/routers/compute-routes.ts:79-94 | what is kept was ranked, starts at the input and is completed by a pool of the output |
| RouteSearch.RevisitIsKept | packages/smart-order-router/src/routers/compute-routes.ts:91-93 | a path in which a token appears twice is collected and forms a route |
| Prerank.PrerankRoutes | packages/smart-order-router/src/routers/estimate-route.ts:92-126 | terminates with the first limit distinct routes of the interleaved rankings followed by the rest, or with all routes when they fit |
| Prerank.ExactlyLimit | packages/smart-order-router/src/routers/estimate-route.ts:107-125 | over the limit, exactly limit distinct routes of the input are kept |
| Prerank.TurnsAreKept | packages/smart-order-router/src/routers/estimate-route.ts:107-118 | the rankings take turns, position by position and in order: a route that fewer than limit turns precede is kept |
| Prerank.TopsAreKept | packages/smart-order-router/src/routers/estimate-route.ts:107-118 | the top floor(limit / k) routes of each of the k rankings are kept |
| Prerank.UnscoredComeLast | packages/smart-order-router/src/routers/estimate-route.ts:120-123 | a route no ranking mentions is kept only when every ranked route is |
| Prerank.UnscoredInOrder | packages/smart-order-router/src/routers/estimate-route.ts:120-123 | routes no ranking mentions are kept in the order they came in |
| BestSwapRoute.ExtendSound | packages/smart-order-router/src/routers/best-swap-route.ts:99-121 | extending an allocation keeps percents and remainder at 100 in total and the pools disjoint |
| BestSwapRoute.Seed | packages/smart-order-router/src/routers/best-swap-route.ts:81-90 | the queue starts with exactly the two best quotes of each percentage |
| BestSwapRoute.FirstFreeIsBest | packages/smart-order-router/src/routers/best-swap-route.ts:106-107 | the first candidate sharing no pool is the best such candidate |
| BestSwapRoute.ExtendEntry | packages/smart-order-router/src/routers/best-swap-route.ts:98-123 | afterwards everything the entry leads to is matched by the best allocation or still reachable from the queue, and best never gets worse |
| BestSwapRoute.ExtendLayer | packages/smart-order-router/src/routers/best-swap-route.ts:94-124 | the same for a whole layer |
| BestSwapRoute.GetBestSwapRoute | packages/smart-order-router/src/routers/best-swap-route.ts:44-135 | the result totals 100 percent over quoted routes no two of which share a pool, within the split bounds; it is as good as every complete allocation the recursive search reaches and, when minSplits <= 1, returns at least (or for exact output costs at most) what every single route does; it is null only if there is none of these |
| BestSwapRoute.PairsAreCovered | packages/smart-order-router/src/routers/best-swap-route.ts:81-123 | in particular it returns at least (or costs at most) what every two-way split does that starts from one of the two best quotes of a share and completes it with a quote over other pools, if the share of that rest comes no later in the list of percentages |
| BestSwapRoute.TriplesAreCovered | packages/smart-order-router/src/routers/best-swap-route.ts:81-123 | and what every three-way split does that goes on from there with the best second route over free pools and completes it, at no later a share, over other pools |
| RouterMachine.V2WalkIsWalk | packages/universal-router/contracts/modules/topaz/v2/V2SwapRouter.sol:18-51 | the legs of a v2 command lead through exactly the pools they encode |
| RouterMachine.CLWalkIsWalk | packages/universal-router/contracts/modules/topaz/v3/V3SwapRouter.sol:76-115 | the CL loop walks the encoded pools; the router's custody between them nets out, except that it keeps what its pools do not take, while the first pool's rest stays with the payer |
| RouterMachine.PaidWhatIsTaken | packages/universal-router/contracts/modules/topaz/v3/V3SwapRouter.sol:40-55 | the payer of a CL pool is down exactly what the pool asks for, however much it was offered |
| RoutePlan.SectionsPartition | packages/router-sdk/src/entities/mixedRoute.ts:71-95 | the sections are the pools in order, cut exactly where the protocol changes |
| RoutePlan.PartitionMixedRouteByProtocol | packages/router-sdk/src/entities/mixedRoute.ts:77-95 | the loop computes those sections |
| RoutePlan.ExecSection | packages/universal-router-sdk/src/swapRouter.ts:237-253 | one section's command is a walk over its pools paid by its payer to its recipient, reverting exactly if the walk does or its output is below the minimum, with what its pools do not take back with payer and router |
| RoutePlan.ExecMixed | packages/universal-router-sdk/src/swapRouter.ts:212-257 | all sections of a route together are one walk over the whole route, if the router holds nothing of the tokens handed over and no pool leaves it any |
| RoutePlan.RoutePlanner.AddMixedSwap | packages/universal-router-sdk/src/swapRouter.ts:216-257 | appends the commands of all sections, slicing the path by a running pool index |
| RoutePlan.RoutePlanner.AddSwap | packages/universal-router-sdk/src/swapRouter.ts:158-210 | appends the commands of one route of an exact input trade |
| RoutePlan.RoutePlanner.AddPayout | packages/universal-router-sdk/src/swapRouter.ts:104-136 | appends unwrap, fee and sweep as the trade's output and options require |
| RoutePlan.SwapCallParameters | packages/universal-router-sdk/src/swapRouter.ts:74-156 | the whole command plan of an exact input trade and the value sent along, or NATIVE_TO_NATIVE |
| PlanAmounts.Dust | packages/smart-order-router/src/routers/topaz-router.ts:414-416 | flooring slice by slice leaves less than one unit per leg of the floored total |
| PlanAmounts.SplitAmount | packages/smart-order-router/src/routers/topaz-router.ts:407-420 | for a positive distribution percentage, as routing demands: every multiple of it up to 100, each with its share of the amount |
| PlanAmounts.SplitSpends | packages/smart-order-router/src/routers/topaz-router.ts:407-436 | slices whose percentages total 100 total the amount, and their floors spend all of it but less than one unit per leg |
| PlanMeaning.ExecLegs | packages/universal-router-sdk/src/swapRouter.ts:100-102 | any number of legs, run one after the other, are the walks of their routes one after the other, if no section spends another leg's share and no pool leaves the router any of a token it needs again |
| PlanMeaning.PayWithFee | packages/universal-router-sdk/src/swapRouter.ts:110-136 | with a fee, the payout succeeds exactly for acceptable outputs and shares the output between payee and recipient |
| PlanMeaning.PlanContract | packages/universal-router-sdk/src/swapRouter.ts:74-136 | from an empty router, and under these two conditions, the plan succeeds if and only if every route can be walked and the output is acceptable; then pools, payees, payer and router hold exactly what the walks say |
| PlanMeaning.NothingIsLeft | packages/universal-router-sdk/src/swapRouter.ts:74-136 | after a plan the router holds the dust of a native split, less than one unit per leg, and what the pools it paid did not take; it holds the dust alone if and only if these took all they were offered |
| PlanExactness.UnsoundPlansDiffer | packages/universal-router-sdk/src/swapRouter.ts:227-253 | for every trade with a payable fee in which a section spends another leg's share there are pools, taking all they are offered, through which the plan and the walks disagree from every empty router |
| PlanExactness.SharesApartIsExact | packages/universal-router-sdk/src/swapRouter.ts:74-136 | such a plan means its walks through all pools that take what they are offered if and only if no section spends another leg's share |
| PlanExactness.ConstantMixed | packages/universal-router-sdk/src/swapRouter.ts:227-253 | whatever the router holds, sections that go through leave it none of a token they hand over beyond the output |
| PlanExactness.DrainedSplitReverts | packages/universal-router-sdk/src/swapRouter.ts:227-253 | a native split in which a leg hands over the wrapped input while later legs have some of it to spend reverts |
| PlanAmounts.FeeKeepsMinimum | packages/universal-router-sdk/src/swapRouter.ts:104-136 | an output that meets minimumAmountOut still meets the fee-reduced sweep minimum, for every payable fee |
| PlanAmounts.MinimumIsTolerated | packages/router-sdk/src/entities/trade.ts:124-130 | the minimum is the greatest amount that, raised by the tolerance, the quoted output still covers |
| PlanAmounts.MinimumAfterFeeIsRest | packages/universal-router-sdk/src/swapRouter.ts:105-107 | with a fee the sweep minimum is the greatest integer that is no more than the rest of the minimum |
| PlanProtection.LastCommand | packages/universal-router-sdk/src/swapRouter.ts:90-136 | a plan ends with a sweep or unwrap exactly for native output, a fee, safe mode or a split, and otherwise with the swap itself; the last command delivers the output to the recipient, or the sender, with the minimum less the fee |
| PlanProtection.SlippageIsRespected | packages/universal-router-sdk/src/swapRouter.ts:104-136 | through all pools and whatever the router holds, a plan that goes through leaves the recipient up by the minimum, less the fee, in the trade's output; the minimum, raised by the tolerance, falls short of the quoted output by less than a unit |
| PlanProtection.TotalOutAdds | packages/router-sdk/src/entities/trade.ts:83-99 | the quoted input and output of a trade are the sums over its legs |
| PlanAmounts.FeeIsItsShare | packages/universal-router/contracts/modules/Payments.sol:41-52 | the fee taken is at most its share of the output, and less than that by under a unit and one bip of the output |
| PlanMeaning.TinyFeeReverts | packages/universal-router/contracts/modules/Payments.sol:41-52 | a plan with a fee of less than one bip reverts, from every state and through all pools |
| PlanMeaning.EndsAtOutput | packages/router-sdk/src/entities/mixedRoute.ts:18-41 | a route the constructor accepts ends at its output if and only if it does not enter its last pool with the output |
| PlanMeaning.AcceptedRouteEndsElsewhere | packages/router-sdk/src/entities/mixedRoute.ts:27-36 | a route from token 0 that the constructor accepts for output 2 and that ends at token 1 |
| PlanExactness.RevisitBreaksSplit | packages/universal-router-sdk/src/swapRouter.ts:227-253 | a native split whose routes can all be walked to an acceptable output, yet whose plan reverts |
| PlanExactness.RevisitLastIsApart | packages/universal-router-sdk/src/swapRouter.ts:100-102 | the same two routes in the other order meet the condition |
| WorkBudget.GateContract | packages/routing-api/src/work-budget.ts:63-128 | over every sequence of starts, aborts, resumptions, settlements, expiries and finally blocks: active is the number of slot holders and within capacity, a queue means a full gate, the queue is bounded, grants are in arrival order, and each call takes and returns a slot at most once and in that order |
| WorkBudget.StepKeepsInv | packages/routing-api/src/work-budget.ts:88-128 | every event keeps the counter, bounds and queue consistent |
| WorkBudget.AbortedSlotIsReclaimed | packages/routing-api/src/work-budget.ts:106-127 | from the abort of a running call on, the slot of a task that never settles is returned by the grace timer and the finally block, whatever else happens |
| WorkBudget.SettledSlotIsReturned | packages/routing-api/src/work-budget.ts:117-127 | the slot of a task that settles is returned by the finally block, whatever else happens |
| WorkBudget.AbortedWaiterLeaves | packages/routing-api/src/work-budget.ts:92-102 | a call aborted in the queue leaves it at once and never runs |
| WorkBudget.GrantedCallRuns | packages/routing-api/src/work-budget.ts:92-119 | a granted call runs once it resumes |
| WorkBudget.SlotPassesOn | packages/routing-api/src/work-budget.ts:120-127 | the slot of a call that finishes goes to the head of the queue, or is free if nobody waits |
| WorkBudget.AbandonedCountsReclaims | packages/routing-api/src/work-budget.ts:106-112 | the number of abandoned slots goes up by one exactly when a started grace timer fires |
| WorkBudget.AbortedGrantIsReturned | packages/routing-api/src/work-budget.ts:92-127 | a call aborted between its grant and its resumption gives the slot back on resuming, without starting its task |
| WorkBudget.OverIsFinal | packages/routing-api/src/work-budget.ts:88-128 | a call that was refused, cancelled or has released its slot stays so, whatever settles later |
| WorkBudget.BusyExactlyWhenFull | packages/routing-api/src/work-budget.ts:88-102 | a call is turned away as busy if and only if every slot and every place in the queue is taken, starts at once if and only if a slot is free, and otherwise joins the end of the queue; with an aborted signal it takes neither |
| WorkBudget.WorkGate.Start | packages/routing-api/src/work-budget.ts:88-102 | refuses, takes a slot or queues, exactly as specified |
| WorkBudget.WorkGate.Abort | packages/routing-api/src/work-budget.ts:94-112 | leaves the queue while waiting, starts the grace timer while running |
| WorkBudget.WorkGate.Finally | packages/routing-api/src/work-budget.ts:120-127 | hands the slot to the head of the queue or gives it back |
| WorkBudget.Budget.SpendRpcCall | packages/routing-api/src/work-budget.ts:31-40 | one unit is spent unless aborted, and the overrun aborts with its own reason |
| WorkBudget.BudgetContract | packages/routing-api/src/work-budget.ts:31-40 | over any sequence of calls and aborts no more calls get through than were budgeted, all of them do while within budget, and only an overrun aborts with rpc_budget_exceeded |
| ResponseCache.NoFailureIsStored | packages/routing-api/src/cache.ts:61-89 | in every reachable state what is stored has not failed, is stored under its own key, and there are at most maxEntries entries |
| ResponseCache.JoinedIsFresh | packages/routing-api/src/cache.ts:64-69 | what a caller joins is in flight or before its expiry, and a bypass joins nothing |
| ResponseCache.ServedExactly | packages/routing-api/src/cache.ts:61-69 | a caller joins what is stored for its key exactly when the cache is on, the caller does not bypass and the computation is in flight or before its expiry; nothing is stored exactly when the cache is off |
| ResponseCache.BypassIsShared | packages/routing-api/src/cache.ts:54-89 | a bypass always starts its own computation, which the next caller joins |
| ResponseCache.PlaceIsKept | packages/routing-api/src/cache.ts:86 | a new computation takes over the place of its key in the order of eviction, and a new key goes last |
| ResponseCache.SettlementIsLocal | packages/routing-api/src/cache.ts:72-83 | a late success or failure leaves every other entry stored and unchanged; a failure removes its own entry only |
| ResponseCache.OnlyTheOldestGo | packages/routing-api/src/cache.ts:107-119 | eviction drops an unexpired entry if and only if there are too many entries and maxEntries newer unexpired ones |
| ResponseCache.NewEntrySurvives | packages/routing-api/src/cache.ts:86-88 | with room for at least one entry, the entry just stored survives eviction |
| ResponseCache.LifeOfAnEntry | packages/routing-api/src/cache.ts:61-89 | with no other event in between: the next caller joins a computation in flight, is served for exactly ttlMs after it settled, and recomputes at once after a failure |
| ResponseCache.ResponseCache.Resolve | packages/routing-api/src/cache.ts:61-89 | the synchronous part of resolve, its state and what it hands back |
| ResponseCache.ResponseCache.Evict | packages/routing-api/src/cache.ts:107-119 | the two loops keep the newest maxEntries of the unexpired entries |
| ResponseCache.ResponseCache.Fail | packages/routing-api/src/cache.ts:78-82 | a failure deletes its key only while the key still holds this entry |
| Multicall.CallBatch | packages/smart-order-router/src/providers/multicall.ts:82-99 | returns one of the specified outcomes, whichever failing half fails first |
| Multicall.BisectionIsPerCall | packages/smart-order-router/src/providers/multicall.ts:82-99 | a result is the per-call answers in order and at equal length; a call that hits the ceiling alone is marked unsuccessful with empty data |
| Multicall.OnlyRefusalsPropagate | packages/smart-order-router/src/providers/multicall.ts:87-98 | it fails if and only if some request sent met an error that halving cannot cure, with the error of such a request |
| Multicall.RequestBound | packages/smart-order-router/src/providers/multicall.ts:82-99 | at most 2n - 1 requests for a batch of n |
| Multicall.BoundIsMet | packages/smart-order-router/src/providers/multicall.ts:82-99 | a node that always hits the ceiling makes exactly that many |
| Multicall.RoundsAreFew | packages/smart-order-router/src/providers/multicall.ts:92-98 | both halves being asked at once, a batch of at most 2^k calls takes at most k + 1 rounds |
| Multicall.RoundsAreMet | packages/smart-order-router/src/providers/multicall.ts:92-98 | a node that always hits the ceiling takes exactly that many |
| Multicall.Batches | packages/smart-order-router/src/providers/multicall.ts:61-64 | the batches concatenate to the calls, all full but the last |
| Multicall.Prepare | packages/smart-order-router/src/providers/multicall.ts:53-77 | limits are accepted if and only if within 1..500 and 1..32, and never more workers than batches start |
| Multicall.ClaimedOnce | packages/smart-order-router/src/providers/multicall.ts:68-77 | in every interleaving batches are claimed in order, at most once and by one worker each |
| Multicall.PoolContract | packages/smart-order-router/src/providers/multicall.ts:68-79 | once all workers have returned, whatever the interleaving, the flattened results are the per-call answers of all calls in order |
| Multicall.OnlyRefusalsReject | packages/smart-order-router/src/providers/multicall.ts:68-79 | in every interleaving a worker has thrown, which rejects the whole call, if and only if some request of a batch that has come back was refused, and what it threw is such a refusal |
| Multicall.NoWorkerIsStuck | packages/smart-order-router/src/providers/multicall.ts:70-76 | a worker that has neither returned nor thrown can always take its next step |
| Multicall.StepsRunOut | packages/smart-order-router/src/providers/multicall.ts:70-77 | every step brings the pool strictly closer to its end |

## Left out

Of the modelled files:

- Amounts above 2^256 - 1: the sdk-core constructor that rejects them is not part of this model; amounts are unbounded except where the code itself masks to 256 bits.
- The numeric type of ticks: `compressed >> 8` is modelled as floor division, which agrees within 32 bits.
- The twenty conditionals of `getSqrtRatioAtTick` are written as a loop over the table of their constants.
- The `TickDataProvider` behind the swap is the tick list provider; the swap's awaits are dropped because the list does not change.
- Token addresses, chain ids and currency metadata: tokens are ids, and the one-chain check is not modelled.
- Sort calls in the split search, the pre-ranking and the path ranking: the sorted or ranked order is a parameter, assumed ordered for the split search and arbitrary elsewhere.
- `estimateOutput`, `pathDepth` and the gas fields of a quote: they rank or report and never decide an answer.
- Mid prices, execution prices and price impact.
- PlanAmounts.SplitAmount: asks for a positive percentage, which `packages/smart-order-router/src/routers/topaz-router.ts:121-132` makes sure of; with any other the loop would not end.
- RoutePlan.RoutePlanner.AddSwap: does not model the exact output commands and the MIXED_EXACT_OUTPUT_UNSUPPORTED failure, because the plan results cover exact input.
- RoutePlan.SwapCallParameters: does not model the Permit2 command, the encoding of the deadline and the refund of an exact output trade's wrapped input, because the plan results cover exact input plans without a permit.
- PlanMeaning.PlanContract: where a pool leaves the router some of a token that a later section or the payout spends, it says nothing; that remainder is then spent along with what was handed over.
- The sender's own balance and approvals, Permit2 and the deadline: the machine lets the sender pay.
- Exact-output plans: floored slices can total less than the sweep minimum, so the plan results cover exact input.
- `withQuoteBudget`'s timer and race appear as aborts of the budget; `isGasCeiling`'s text matching appears as a classified answer of the node.
- `WorkGate.state().stuck`: it measures time since the last settlement, so a burst after an idle period reads as stuck.
- `resolveWithOutcome`: its age is read after the await and may belong to a newer entry than the value.
- Nodes that answer the same request differently: the per-call results are about reads at a fixed block.

Of the repository:

- The HTTP server, request parsing, configuration, RPC transport, subgraph queries, ABI encoding and address derivation.
- The v3 `Trade` class: its duplicate-pool check keys pools by fee rather than tick spacing, and its best-trade search relies on a library `sortedInsert` that is not part of this model.
- The Solidity contracts beyond the commands a plan can hold.
