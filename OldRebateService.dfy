/** Model of the legacy calculator kept beside the tests
    (Smartwyre.DeveloperTest.Tests/OldRebateService.cs), and of how it relates to the current
    calculator: it is stricter (every factor must be non-zero), and whenever it succeeds the
    current calculator yields the same amount. */
module OldRebateService {
  import opened Monads
  import opened Types
  import opened RebateData
  import opened RebateService

  /** The placeholder used when no rebate is found: an amount-per-unit rebate of zero. */
  const ErrorRebate := Rebate("error", AmountPerUom, 0.0, 0.0)

  /** The placeholder used when no product is found. Its flag set is the enum's default;
      here it is taken to hold none of the three named schemes. */
  const ErrorProduct := Product("error", 0.0, {})

  /** The legacy eligibility condition: the product supports the scheme and every factor of
      the scheme's formula is non-zero. */
  predicate LegacyEligible(request: CalculateRebateRequest, rebate: Rebate, product: Product)
  {
    && rebate.incentive in product.supportedIncentives
    && match rebate.incentive
       case FixedCashAmount => rebate.amount != 0.0
       case FixedRateRebate => rebate.percentage != 0.0 && product.price != 0.0 && request.volume != 0.0
       case AmountPerUom => rebate.amount != 0.0 && request.volume != 0.0
       case Undefined(_) => false
  }

  /** `Calculate`: look up both records (falling back to the placeholders), decide success
      per scheme, accumulate the amount, and store it only on success. `success` is the
      returned `CalculateRebateResult.Success`; `calls` records the collaborator calls. */
  method Calculate(request: CalculateRebateRequest, stores: DataStores) returns (success: bool, calls: seq<Call>)
    ensures var rebate := Match(stores.getRebate(request.rebateIdentifier), ErrorRebate, (r: Rebate) => r);
            var product := Match(stores.getProduct(request.productIdentifier), ErrorProduct, (p: Product) => p);
            && success == LegacyEligible(request, rebate, product)
            && calls == [GetRebateCall(request.rebateIdentifier), GetProductCall(request.productIdentifier)]
                        + (if success then [StoreCalculationResultCall(rebate, AmountFormula(request, rebate, product))] else [])
    ensures stores.getRebate(request.rebateIdentifier).Empty? ==> !success && |calls| == 2
    ensures success ==> |calls| == 3 && calls[2].rebateAmount != 0.0
  {
    calls := [GetRebateCall(request.rebateIdentifier)];
    var rebate := Match(stores.getRebate(request.rebateIdentifier), ErrorRebate, (r: Rebate) => r);
    calls := calls + [GetProductCall(request.productIdentifier)];
    var product := Match(stores.getProduct(request.productIdentifier), ErrorProduct, (p: Product) => p);

    success := false;
    var rebateAmount := 0.0;

    match rebate.incentive {
      case FixedCashAmount =>
        if FixedCashAmount !in product.supportedIncentives {
          success := false;
        } else if rebate.amount == 0.0 {
          success := false;
        } else {
          rebateAmount := rebate.amount;
          success := true;
        }
      case FixedRateRebate =>
        if FixedRateRebate !in product.supportedIncentives {
          success := false;
        } else if rebate.percentage == 0.0 || product.price == 0.0 || request.volume == 0.0 {
          success := false;
        } else {
          rebateAmount := rebateAmount + product.price * rebate.percentage * request.volume;
          success := true;
        }
      case AmountPerUom =>
        if AmountPerUom !in product.supportedIncentives {
          success := false;
        } else if rebate.amount == 0.0 || request.volume == 0.0 {
          success := false;
        } else {
          rebateAmount := rebateAmount + rebate.amount * request.volume;
          success := true;
        }
      case Undefined(_) =>
    }

    assert success == LegacyEligible(request, rebate, product);
    assert success ==> rebateAmount == AmountFormula(request, rebate, product);
    if success {
      LegacyAmountNonZero(request, rebate, product);
      calls := calls + [StoreCalculationResultCall(rebate, rebateAmount)];
    }
  }

  /** On success the stored amount is never zero, since it is a product of non-zero factors. */
  lemma LegacyAmountNonZero(request: CalculateRebateRequest, rebate: Rebate, product: Product)
    requires LegacyEligible(request, rebate, product)
    ensures AmountFormula(request, rebate, product) != 0.0
  {
    match rebate.incentive
    case FixedCashAmount =>
    case FixedRateRebate =>
      var priceTimesRate := product.price * rebate.percentage;
      assert priceTimesRate != 0.0;
      assert priceTimesRate * request.volume != 0.0;
    case AmountPerUom =>
      assert rebate.amount * request.volume != 0.0;
  }

  /** A missing rebate always fails: the placeholder's amount is zero whatever the product. */
  lemma MissingRebateNeverSucceeds(request: CalculateRebateRequest, product: Product)
    ensures !LegacyEligible(request, ErrorRebate, product)
  {
  }

  /** The legacy eligibility is the stronger one: it implies the current one. */
  lemma LegacyEligibleImpliesEligible(request: CalculateRebateRequest, rebate: Rebate, product: Product)
    requires LegacyEligible(request, rebate, product)
    ensures rebate.incentive in product.supportedIncentives && Eligible(request, rebate, product)
  {
  }

  /** Refinement: whenever the legacy calculator succeeds, the current calculator yields
      exactly the amount the legacy one stores. */
  lemma LegacySuccessImpliesSameAmount(request: CalculateRebateRequest, rebate: Rebate, product: Product)
    requires LegacyEligible(request, rebate, product)
    ensures GetRebateAmount(request, rebate, product) == Present(AmountFormula(request, rebate, product))
  {
    LegacyEligibleImpliesEligible(request, rebate, product);
    GetRebateAmountIsRuleTable(request, rebate, product);
  }

  /** The converse fails: with a zero factor the current calculator still yields an amount
      (zero) for a fixed-rate and for an amount-per-unit rebate, where the legacy one fails. */
  lemma ConverseFails()
    ensures var request := CalculateRebateRequest("p", "r", 0.0);
            var rebate := Rebate("r", FixedRateRebate, 0.0, 2.0);
            var product := Product("p", 0.0, {FixedRateRebate});
            GetRebateAmount(request, rebate, product) == Present(0.0) && !LegacyEligible(request, rebate, product)
    ensures var request := CalculateRebateRequest("p", "r", 0.0);
            var rebate := Rebate("r", AmountPerUom, 4.0, 0.0);
            var product := Product("p", 0.0, {AmountPerUom});
            GetRebateAmount(request, rebate, product) == Present(0.0) && !LegacyEligible(request, rebate, product)
  {
  }

  /** Service-level agreement: when both records are found and the legacy calculator succeeds,
      the current service makes exactly the calls the legacy one makes, storing the same amount. */
  lemma ServicesStoreTheSameAmount(request: CalculateRebateRequest, stores: DataStores, rebate: Rebate, product: Product)
    requires stores.getRebate(request.rebateIdentifier) == Present(rebate)
    requires stores.getProduct(request.productIdentifier) == Present(product)
    requires LegacyEligible(request, rebate, product)
    ensures ProcessRebateRequest(request, stores).calls
         == [GetRebateCall(request.rebateIdentifier), GetProductCall(request.productIdentifier),
             StoreCalculationResultCall(rebate, AmountFormula(request, rebate, product))]
    ensures ProcessRebateRequest(request, stores).result
         == Present(StoreCalculationResult(rebate, AmountFormula(request, rebate, product)))
  {
    LegacySuccessImpliesSameAmount(request, rebate, product);
    StoresExactlyOnceWhenAmount(request, stores, rebate, product, AmountFormula(request, rebate, product));
  }

  /** The equivalence test's scenario: a fixed cash rebate of 10 on a product that supports
      it, with volume 0. Both services succeed and store 10. */
  lemma EquivalenceTestScenario()
    ensures var rebate := Rebate("test", FixedCashAmount, 10.0, 10.0);
            var product := Product("test", 0.0, {FixedCashAmount});
            var request := CalculateRebateRequest("test", "test", 0.0);
            var stores := DataStores((id: string) => Present(rebate), (id: string) => Present(product));
            && LegacyEligible(request, rebate, product)
            && AmountFormula(request, rebate, product) == 10.0
            && ProcessRebateRequest(request, stores).calls[2] == StoreCalculationResultCall(rebate, 10.0)
  {
  }

  /** The scenario of the first legacy test: a fixed cash rebate of 10 (percentage 10), a
      product that supports it, volume 0. The legacy calculator succeeds and stores 10. */
  lemma FirstTestScenarioSucceeds()
    ensures var rebate := Rebate("", FixedCashAmount, 10.0, 10.0);
            var product := Product("", 0.0, {FixedCashAmount});
            var request := CalculateRebateRequest("test", "test", 0.0);
            LegacyEligible(request, rebate, product) && AmountFormula(request, rebate, product) == 10.0
  {
  }
}
