/** The domain records the rebate services work on, with the fields the services read and
    the data store copies. The C# field defaults and the enum's numeric values are not known
    here; where the model needs them, it says what it takes them to be. Decimal amounts are
    exact `real`s. */
module Types {

  /** `IncentiveType`: the three named schemes. A C# enum variable can hold any integer, so
      `Undefined(raw)` stands for a value outside the named members. */
  datatype IncentiveType = FixedCashAmount | FixedRateRebate | AmountPerUom | Undefined(raw: int)

  /** A rebate record: the one scheme it uses, a fixed amount and a percentage. */
  datatype Rebate = Rebate(identifier: string, incentive: IncentiveType, amount: real, percentage: real)

  /** A product record. `SupportedIncentives` is a flag set; `HasFlag(kind)` is membership,
      which takes each named scheme to be a distinct non-zero bit. */
  datatype Product = Product(identifier: string, price: real, supportedIncentives: set<IncentiveType>)

  /** What a caller asks to have calculated. */
  datatype CalculateRebateRequest = CalculateRebateRequest(productIdentifier: string, rebateIdentifier: string, volume: real)
}
