/** Model of the rebate data store (Smartwyre.DeveloperTest/Data/RebateDataStore.cs) and of
    how the services see their collaborators.

    Both data stores have virtual methods that a database or a test double supplies, so the
    services take their lookups as functions (`DataStores`). Each collaborator call is
    recorded, in order, as a `Call`, the way a mock records its invocations. */
module RebateData {
  import opened Monads
  import opened Types

  /** One invocation of a collaborator, with its arguments. */
  datatype Call =
    | GetRebateCall(rebateIdentifier: string)
    | GetProductCall(productIdentifier: string)
    | StoreCalculationResultCall(account: Rebate, rebateAmount: real)

  /** The lookups of the rebate store and the product store. */
  datatype DataStores = DataStores(getRebate: string -> Maybe<Rebate>, getProduct: string -> Maybe<Product>)

  /** A value computed together with the collaborator calls made while computing it. */
  datatype Run<R> = Run(result: R, calls: seq<Call>)

  /** The record `new Rebate()` builds. Its C# field defaults are not known here: an empty
      identifier, the incentive with raw value 0 and zero amounts stand for them, and no
      property depends on them. */
  const DefaultRebate := Rebate("", Undefined(0), 0.0, 0.0)

  /** The stub `GetRebate`: a non-null `new Rebate()` converted to `Maybe<Rebate>`, so it is
      present for every identifier. */
  function GetRebate(rebateIdentifier: string): (r: Maybe<Rebate>)
    ensures r.Present?
  {
    Convert(NonNull(DefaultRebate))
  }

  /** `StoreCalculationResult`: a new record equal to `account` with `Amount` replaced. The
      records are values, so the caller's `account` cannot change. */
  function StoreCalculationResult(account: Rebate, rebateAmount: real): (r: Rebate)
    ensures r.amount == rebateAmount
    ensures r.identifier == account.identifier
    ensures r.incentive == account.incentive
    ensures r.percentage == account.percentage
  {
    Rebate(account.identifier, account.incentive, rebateAmount, account.percentage)
  }

  /** Storing again overrides only the amount: the second store wins. */
  lemma StoreOverridesAmount(account: Rebate, a: real, b: real)
    ensures StoreCalculationResult(StoreCalculationResult(account, a), b) == StoreCalculationResult(account, b)
  {
  }

  /** Storing the same amount twice gives the same record as storing it once. */
  lemma StoreIdempotent(account: Rebate, a: real)
    ensures StoreCalculationResult(StoreCalculationResult(account, a), a) == StoreCalculationResult(account, a)
  {
    StoreOverridesAmount(account, a, a);
  }

  /** Storing a record's own amount gives back an equal record. */
  lemma StoreOwnAmount(account: Rebate)
    ensures StoreCalculationResult(account, account.amount) == account
  {
  }
}
