/** Model of the current rebate service (Smartwyre.DeveloperTest/Services/RebateService.cs):
    the calculator's guarded rule table and the orchestration that chains the rebate lookup,
    the product lookup, the calculator and the store. */
module RebateService {
  import opened Monads
  import opened Types
  import opened RebateData

  /** The amount formula of each incentive scheme (the value a calculator stores when the
      scheme's eligibility condition holds). */
  function AmountFormula(request: CalculateRebateRequest, rebate: Rebate, product: Product): real
  {
    match rebate.incentive
    case FixedCashAmount => rebate.amount
    case FixedRateRebate => product.price * rebate.percentage * request.volume
    case AmountPerUom => rebate.amount * request.volume
    case Undefined(_) => 0.0
  }

  /** The eligibility condition of the current calculator: any non-zero factor suffices. */
  predicate Eligible(request: CalculateRebateRequest, rebate: Rebate, product: Product)
  {
    match rebate.incentive
    case FixedCashAmount => rebate.amount != 0.0
    case FixedRateRebate => rebate.percentage != 0.0 || product.price != 0.0 || request.volume != 0.0
    case AmountPerUom => rebate.amount != 0.0 || request.volume != 0.0
    case Undefined(_) => false
  }

  /** `GetRebateAmount`: nothing unless the product supports the rebate's scheme; then the
      first arm of the switch whose guard holds, and nothing when none does. */
  function GetRebateAmount(request: CalculateRebateRequest, rebate: Rebate, product: Product): (r: Maybe<real>)
    ensures rebate.incentive !in product.supportedIncentives ==> r.Empty?
    ensures rebate.incentive.Undefined? ==> r.Empty?
    ensures rebate.incentive == FixedCashAmount && FixedCashAmount in product.supportedIncentives
            ==> (r.Present? <==> rebate.amount != 0.0) && (r.Present? ==> r.value == rebate.amount)
    ensures rebate.incentive == FixedRateRebate && FixedRateRebate in product.supportedIncentives
            ==> (r.Present? <==> (rebate.percentage != 0.0 || product.price != 0.0 || request.volume != 0.0))
                && (r.Present? ==> r.value == product.price * rebate.percentage * request.volume)
    ensures rebate.incentive == AmountPerUom && AmountPerUom in product.supportedIncentives
            ==> (r.Present? <==> (rebate.amount != 0.0 || request.volume != 0.0))
                && (r.Present? ==> r.value == rebate.amount * request.volume)
  {
    if rebate.incentive !in product.supportedIncentives then Empty
    else if rebate.incentive == FixedCashAmount && rebate.amount != 0.0 then
      Present(rebate.amount)
    else if rebate.incentive == FixedRateRebate
            && (rebate.percentage != 0.0 || product.price != 0.0 || request.volume != 0.0) then
      Present(product.price * rebate.percentage * request.volume)
    else if rebate.incentive == AmountPerUom && (rebate.amount != 0.0 || request.volume != 0.0) then
      Present(rebate.amount * request.volume)
    else Empty
  }

  /** The rule table in one line: the calculator yields the scheme's formula exactly when the
      product supports the scheme and the scheme's eligibility condition holds. */
  lemma GetRebateAmountIsRuleTable(request: CalculateRebateRequest, rebate: Rebate, product: Product)
    ensures GetRebateAmount(request, rebate, product)
         == if rebate.incentive in product.supportedIncentives && Eligible(request, rebate, product)
            then Present(AmountFormula(request, rebate, product)) else Empty
  {
    match rebate.incentive
    case FixedCashAmount =>
    case FixedRateRebate =>
    case AmountPerUom =>
    case Undefined(_) =>
  }

  /** Worked cases of the rule table, including an eligible fixed-rate rebate whose amount is 0. */
  lemma GetRebateAmountExamples()
    ensures var fixedCash := Product("p", 0.0, {FixedCashAmount});
            && GetRebateAmount(CalculateRebateRequest("p", "r", 0.0), Rebate("r", FixedCashAmount, 10.0, 0.0), fixedCash) == Present(10.0)
            && GetRebateAmount(CalculateRebateRequest("p", "r", 0.0), Rebate("r", FixedCashAmount, 0.0, 0.0), fixedCash) == Empty
    ensures var fixedRate := Rebate("r", FixedRateRebate, 0.0, 2.0);
            && GetRebateAmount(CalculateRebateRequest("p", "r", 3.0), fixedRate, Product("p", 5.0, {FixedRateRebate})) == Present(30.0)
            && GetRebateAmount(CalculateRebateRequest("p", "r", 0.0), fixedRate, Product("p", 0.0, {FixedRateRebate})) == Present(0.0)
            && GetRebateAmount(CalculateRebateRequest("p", "r", 0.0), fixedRate.(percentage := 0.0), Product("p", 0.0, {FixedRateRebate})) == Empty
    ensures var perUom := Product("p", 0.0, {AmountPerUom});
            && GetRebateAmount(CalculateRebateRequest("p", "r", 5.0), Rebate("r", AmountPerUom, 4.0, 0.0), perUom) == Present(20.0)
            && GetRebateAmount(CalculateRebateRequest("p", "r", 0.0), Rebate("r", AmountPerUom, 0.0, 0.0), perUom) == Empty
    ensures GetRebateAmount(CalculateRebateRequest("p", "r", 3.0), Rebate("r", AmountPerUom, 4.0, 0.0), Product("p", 5.0, {FixedCashAmount})) == Empty
  {
  }

  /** `ProcessRebateRequest`: look up the rebate; if found, look up the product; if found, run
      the calculator; if it yields an amount, store it and return the stored record, and
      otherwise return the rebate as it was found. Every collaborator call is recorded. */
  function ProcessRebateRequest(request: CalculateRebateRequest, stores: DataStores): (run: Run<Maybe<Rebate>>)
    ensures stores.getRebate(request.rebateIdentifier).Empty?
            ==> run == Run(Empty, [GetRebateCall(request.rebateIdentifier)])
    ensures stores.getRebate(request.rebateIdentifier).Present? && stores.getProduct(request.productIdentifier).Empty?
            ==> run == Run(Empty, [GetRebateCall(request.rebateIdentifier), GetProductCall(request.productIdentifier)])
    ensures run.result.Present? <==>
            stores.getRebate(request.rebateIdentifier).Present? && stores.getProduct(request.productIdentifier).Present?
    ensures |run.calls| <= 3
    ensures |run.calls| == 3
            ==> && run.calls[2].StoreCalculationResultCall?
                && run.result == Present(StoreCalculationResult(run.calls[2].account, run.calls[2].rebateAmount))
    ensures forall i :: 0 <= i < |run.calls| - 1 ==> !run.calls[i].StoreCalculationResultCall?
  {
    var rebateLookup := [GetRebateCall(request.rebateIdentifier)];
    match stores.getRebate(request.rebateIdentifier)
    case Empty => Run(Empty, rebateLookup)
    case Present(rebate) =>
      var lookups := rebateLookup + [GetProductCall(request.productIdentifier)];
      match stores.getProduct(request.productIdentifier)
      case Empty => Run(Empty, lookups)
      case Present(product) =>
        match GetRebateAmount(request, rebate, product)
        case Empty => Run(Present(rebate), lookups)
        case Present(amount) =>
          Run(Present(StoreCalculationResult(rebate, amount)),
              lookups + [StoreCalculationResultCall(rebate, amount)])
  }

  /** The result is the one the source's `SelectMany`/`Match` chain computes. */
  lemma ProcessRebateRequestIsSelectManyChain(request: CalculateRebateRequest, stores: DataStores)
    ensures ProcessRebateRequest(request, stores).result
         == SelectMany(stores.getRebate(request.rebateIdentifier),
                       (rebate: Rebate) => stores.getProduct(request.productIdentifier),
                       (rebate: Rebate, product: Product) =>
                         NonNull(Match(GetRebateAmount(request, rebate, product), rebate,
                                       (amount: real) => StoreCalculationResult(rebate, amount))))
  {
  }

  /** The calls only in the store. */
  function StoreCalls(calls: seq<Call>): seq<Call>
  {
    Filter(calls, (c: Call) => c.StoreCalculationResultCall?)
  }

  /** When the calculator yields an amount, the store is called exactly once, with the found
      rebate and exactly that amount, and the stored record is the result. */
  lemma StoresExactlyOnceWhenAmount(request: CalculateRebateRequest, stores: DataStores, rebate: Rebate, product: Product, amount: real)
    requires stores.getRebate(request.rebateIdentifier) == Present(rebate)
    requires stores.getProduct(request.productIdentifier) == Present(product)
    requires GetRebateAmount(request, rebate, product) == Present(amount)
    ensures StoreCalls(ProcessRebateRequest(request, stores).calls) == [StoreCalculationResultCall(rebate, amount)]
    ensures ProcessRebateRequest(request, stores).calls
         == [GetRebateCall(request.rebateIdentifier), GetProductCall(request.productIdentifier),
             StoreCalculationResultCall(rebate, amount)]
    ensures ProcessRebateRequest(request, stores).result == Present(StoreCalculationResult(rebate, amount))
    ensures ProcessRebateRequest(request, stores).result.value.amount == amount
  {
    var calls := ProcessRebateRequest(request, stores).calls;
    var isStore := (c: Call) => c.StoreCalculationResultCall?;
    assert calls == [calls[0], calls[1]] + [calls[2]];
    FilterConcat([calls[0], calls[1]], [calls[2]], isStore);
    FilterNoneKept([calls[0], calls[1]], isStore);
  }

  /** When the calculator yields nothing, the found rebate is returned unchanged (present, not
      empty) and the store is never called. */
  lemma ReturnsRebateUnchangedWhenNoAmount(request: CalculateRebateRequest, stores: DataStores, rebate: Rebate, product: Product)
    requires stores.getRebate(request.rebateIdentifier) == Present(rebate)
    requires stores.getProduct(request.productIdentifier) == Present(product)
    requires GetRebateAmount(request, rebate, product).Empty?
    ensures ProcessRebateRequest(request, stores) == Run(Present(rebate), [GetRebateCall(request.rebateIdentifier), GetProductCall(request.productIdentifier)])
    ensures StoreCalls(ProcessRebateRequest(request, stores).calls) == []
  {
    var calls := ProcessRebateRequest(request, stores).calls;
    FilterNoneKept(calls, (c: Call) => c.StoreCalculationResultCall?);
  }

  /** The store is called at most once, and exactly when the calculator yields an amount for
      the rebate and product that were found. */
  lemma StoreCalledIffAmount(request: CalculateRebateRequest, stores: DataStores)
    ensures |StoreCalls(ProcessRebateRequest(request, stores).calls)| <= 1
    ensures |StoreCalls(ProcessRebateRequest(request, stores).calls)| == 1 <==>
            && stores.getRebate(request.rebateIdentifier).Present?
            && stores.getProduct(request.productIdentifier).Present?
            && GetRebateAmount(request, stores.getRebate(request.rebateIdentifier).value,
                               stores.getProduct(request.productIdentifier).value).Present?
  {
    var rebateFound := stores.getRebate(request.rebateIdentifier);
    var productFound := stores.getProduct(request.productIdentifier);
    var calls := ProcessRebateRequest(request, stores).calls;
    if rebateFound.Present? && productFound.Present? {
      var amount := GetRebateAmount(request, rebateFound.value, productFound.value);
      if amount.Present? {
        StoresExactlyOnceWhenAmount(request, stores, rebateFound.value, productFound.value, amount.value);
      } else {
        ReturnsRebateUnchangedWhenNoAmount(request, stores, rebateFound.value, productFound.value);
      }
    } else {
      FilterNoneKept(calls, (c: Call) => c.StoreCalculationResultCall?);
    }
  }

  /** With an unsupported scheme, whatever the amounts, the found rebate comes back unchanged
      and nothing is stored. */
  lemma UnsupportedSchemeStoresNothing(request: CalculateRebateRequest, stores: DataStores, rebate: Rebate, product: Product)
    requires stores.getRebate(request.rebateIdentifier) == Present(rebate)
    requires stores.getProduct(request.productIdentifier) == Present(product)
    requires rebate.incentive !in product.supportedIncentives
    ensures ProcessRebateRequest(request, stores).result == Present(rebate)
    ensures StoreCalls(ProcessRebateRequest(request, stores).calls) == []
  {
    ReturnsRebateUnchangedWhenNoAmount(request, stores, rebate, product);
  }
}
