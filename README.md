# Rebate calculation engine: a Dafny model

This project models the rebate engine of the Smartwyre developer test:

- `Maybe<T>`, the optional-value type with map, match, dependent lookup and sequence helpers. This is module `Monads`, in `Monads.dfy`.
- The domain records. This is module `Types`, in `Types.dfy`.
- The rebate data store. Its `StoreCalculationResult` copies a record with a new amount. Its `GetRebate` stub always finds a record. This is module `RebateData`, in `RebateData.dfy`.
- The current rebate service. `GetRebateAmount` is a guarded rule table for each incentive scheme. `ProcessRebateRequest` chains the rebate lookup, the product lookup, the calculator and the store. This is module `RebateService`, in `RebateService.dfy`.
- The legacy service `OldRebateService.Calculate`. It is an imperative calculator with stricter, all-factors-non-zero eligibility. This is module `OldRebateService`, in `OldRebateService.dfy`.

How C# concepts are mapped:

- **Null.** C# `null` is modelled explicitly as `Nullable<T> = Null | NonNull(target)`. It is used for:
  - the constructor's argument;
  - what a selector returns;
  - the delegates that the argument guards check, and the other guarded arguments (`nothing`, `maybe`).
  A guard failure is a `Threw(ArgumentNullException(paramName))` outcome.
- **Decimal amounts.** These are exact `real`s.
- **Incentive flag sets.** These are `set<IncentiveType>`, and `HasFlag` is membership. This takes each named scheme to be a distinct non-zero bit: if one were 0, `HasFlag` of it would hold for every product. A C# enum can hold values outside its named members, so `IncentiveType` has a fourth variant, `Undefined(raw)`, for them.
- **Collaborators.** The two data stores are injected, so the services take their lookups as functions (`DataStores`). Every collaborator call is recorded, in order, as a `Call`, the way the tests' mocks record invocations. This makes these properties statable:
  - "no product lookup when the rebate is missing";
  - "the store is called exactly once, with exactly this amount".
- **Form of each service.**
  - The current service is a pure function returning `Run(result, calls)`.
  - The legacy service is a method with the source's mutable locals: `Success`, the accumulated `rebateAmount`, and the call log.

Three behaviours of the code are easy to misread; the model follows the code in each:

- When the calculator yields no amount, `ProcessRebateRequest` returns the found rebate unchanged. The result is present, not absent (RebateService.cs:40). `ReturnsRebateUnchangedWhenNoAmount` states this.
- The OR-eligibility rules for FixedRateRebate and AmountPerUom can yield an eligible amount of 0. The current calculator returns it as present. `GetRebateAmountExamples` and `ConverseFails` show this.
- The first legacy test (PaymentService.Tests.cs:36) expects `Failed` for a fixed cash rebate of 10 on a product that supports it. The code succeeds in that case, and `FirstTestScenarioSucceeds` shows it.

## Model

| member | source | states |
|---|---|---|
| Monads.FromNullable | Smartwyre.DeveloperTest/Monads.cs:33-41 | a null item gives an empty value; a non-null item gives `HasValue` with `Value` equal to the item |
| Monads.Convert | Smartwyre.DeveloperTest/Monads.cs:237-240 | the implicit conversion behaves like the constructor: present iff the value is non-null, holding that value |
| Monads.ValueOrNull | Smartwyre.DeveloperTest/Monads.cs:330 | reading `.Value` of a reference-typed Maybe gives null exactly when it is empty; converting that back rebuilds the Maybe |
| Monads.ValueOrNullFromNullable | Smartwyre.DeveloperTest/Monads.cs:33-41 | constructing from a possibly-null value and reading `.Value` back returns the same value |
| Monads.Just | Smartwyre.DeveloperTest/Monads.cs:59-68 | empty stays empty, whichever selector is given; the result is present iff the input is present and the selector's result is non-null, and then it holds that result |
| Monads.JustOrThrow | Smartwyre.DeveloperTest/Monads.cs:59-68 | a null selector throws `ArgumentNullException("selector")`; a non-null selector returns the result of `Just` |
| Monads.JustIdentity | Smartwyre.DeveloperTest/Monads.cs:59-68 | mapping the identity selector returns an equal Maybe |
| Monads.JustComposition | Smartwyre.DeveloperTest/Monads.cs:59-68 | two `Just` calls equal one `Just` through the composed selector; a null from the first selector short-circuits the second |
| Monads.Match | Smartwyre.DeveloperTest/Monads.cs:103-115 | the eager match returns `just(Value)` when present and `nothing` when empty |
| Monads.MatchOrThrow | Smartwyre.DeveloperTest/Monads.cs:103-115 | a null `nothing` throws first, then a null `just`; with both non-null, the result is `Match` |
| Monads.MatchRebuilds | Smartwyre.DeveloperTest/Monads.cs:103-115 | matching into Empty/Present rebuilds the original value |
| Monads.MatchLazy | Smartwyre.DeveloperTest/Monads.cs:124-136 | the lazy match returns `just(Value)` when present and `lazyNothing()` when empty |
| Monads.MatchLazyOrThrow | Smartwyre.DeveloperTest/Monads.cs:124-136 | a null `lazyNothing` throws first, then a null `just`; with both non-null, the result is `MatchLazy` |
| Monads.MatchLazyUsesOneBranch | Smartwyre.DeveloperTest/Monads.cs:135 | a present value makes the result independent of the factory; an empty value makes it independent of `just` |
| Monads.MatchLazyAgreesWithMatch | Smartwyre.DeveloperTest/Monads.cs:103-136 | the lazy match with a constant factory equals the eager match |
| Monads.Equals | Smartwyre.DeveloperTest/Monads.cs:231-234 | true iff both `HasValue` flags are equal and (when present) both values are equal; equivalently, structural equality |
| Monads.SelectMany | Smartwyre.DeveloperTest/Monads.cs:310-331 | empty input gives empty, whichever selectors are given; an empty inner lookup gives empty; with both present the result is the converted `resultSelector(v, b)` |
| Monads.SelectManyOrThrow | Smartwyre.DeveloperTest/Monads.cs:310-331 | null `maybe`, `selector` and `resultSelector` throw, checked in that order; otherwise the result is `SelectMany` |
| Monads.SelectMatch | Smartwyre.DeveloperTest/Monads.cs:344-364 | empty when `maybe` is empty; otherwise `selector(m, o)` when `other` holds `o` and `selector(m, m)` when `other` is empty |
| Monads.Filter | Smartwyre.DeveloperTest/Monads.cs:444 | the LINQ filter keeps only accepted elements of the input, and every accepted element of the input is kept |
| Monads.FilterConcat | Smartwyre.DeveloperTest/Monads.cs:444 | filtering distributes over concatenation, so the kept elements stay in their original order |
| Monads.WithValues | Smartwyre.DeveloperTest/Monads.cs:437-446 | exactly the non-empty elements of the source |
| Monads.WithValuesPreservesOrder | Smartwyre.DeveloperTest/Monads.cs:437-446 | `WithValues` distributes over concatenation, keeps a present element and drops an empty one |
| Monads.Values | Smartwyre.DeveloperTest/Monads.cs:454-463 | the values of the `WithValues` elements, index by index; every present element's value occurs, and no other value does |
| Monads.Where | Smartwyre.DeveloperTest/Monads.cs:374-387 | every result element is non-empty and satisfies the predicate, and every such element of the source occurs in the result; order and multiplicity are stated by `WhereIsFilterOfWithValues` and `WherePreservesOrder` |
| Monads.WhereTrueIsWithValues | Smartwyre.DeveloperTest/Monads.cs:386 | with an always-true predicate, `Where` equals `WithValues` |
| Monads.WhereIsFilterOfWithValues | Smartwyre.DeveloperTest/Monads.cs:386 | for every source and predicate, `Where` equals `WithValues` followed by the filter on the value, so each accepted element is kept, duplicates included, in source order |
| Monads.WherePreservesOrder | Smartwyre.DeveloperTest/Monads.cs:374-387 | `Where` distributes over concatenation, keeps a present element that satisfies the predicate and drops any other |
| Monads.FirstOrDefault | Smartwyre.DeveloperTest/Monads.cs:395-408 | present iff some element is present, and then it is an element of the source |
| Monads.FirstOrDefaultIsFirstPresent | Smartwyre.DeveloperTest/Monads.cs:395-408 | the result is the first present element |
| Monads.FirstOrDefaultWhere | Smartwyre.DeveloperTest/Monads.cs:416-429 | present iff some present element satisfies the predicate, and then it is such an element |
| Monads.FirstOrDefaultWhereIsFirstMatch | Smartwyre.DeveloperTest/Monads.cs:416-429 | the result is the first present element that satisfies the predicate |
| RebateData.GetRebate | Smartwyre.DeveloperTest/Data/RebateDataStore.cs:8-12 | the stub finds a record for every identifier |
| RebateData.StoreCalculationResult | Smartwyre.DeveloperTest/Data/RebateDataStore.cs:14-23 | the new record's amount is the given amount; identifier, incentive and percentage are copied |
| RebateData.StoreOverridesAmount | Smartwyre.DeveloperTest/Data/RebateDataStore.cs:14-23 | storing on a stored record equals storing once with the second amount |
| RebateData.StoreIdempotent | Smartwyre.DeveloperTest/Data/RebateDataStore.cs:14-23 | storing the same amount twice equals storing it once |
| RebateData.StoreOwnAmount | Smartwyre.DeveloperTest/Data/RebateDataStore.cs:16-22 | storing a record's own amount gives back an equal record |
| RebateService.GetRebateAmount | Smartwyre.DeveloperTest/Services/RebateService.cs:18-31 | empty when the scheme is unsupported or unrecognised; for each scheme, present iff its OR eligibility holds, with that scheme's formula |
| RebateService.GetRebateAmountIsRuleTable | Smartwyre.DeveloperTest/Services/RebateService.cs:18-31 | present, holding the scheme's formula, exactly when the scheme is supported and eligible |
| RebateService.GetRebateAmountExamples | Smartwyre.DeveloperTest/Services/RebateService.cs:24-30 | 10 gives 10; 5·2·3 gives 30; percentage 2 with price and volume 0 gives an eligible 0; all zeros give empty; 4·5 gives 20; an unsupported scheme gives empty |
| RebateService.ProcessRebateRequest | Smartwyre.DeveloperTest/Services/RebateService.cs:33-45 | a missing rebate gives empty after one lookup; a missing product gives empty after two lookups, with no store call; present iff both records are found; a store call can only be the last call, and its record is the result |
| RebateService.ProcessRebateRequestIsSelectManyChain | Smartwyre.DeveloperTest/Services/RebateService.cs:36-42 | the result equals the source's `SelectMany`/`Match` chain over the two lookups, the calculator and the store |
| RebateService.StoresExactlyOnceWhenAmount | Smartwyre.DeveloperTest/Services/RebateService.cs:40-42 | when the calculator yields an amount, the store is called exactly once with the found rebate and that amount, and the stored record, carrying that amount, is the result |
| RebateService.ReturnsRebateUnchangedWhenNoAmount | Smartwyre.DeveloperTest/Services/RebateService.cs:40 | when the calculator yields nothing, the result is the unchanged rebate and the store is not called |
| RebateService.StoreCalledIffAmount | Smartwyre.DeveloperTest/Services/RebateService.cs:36-42 | the store is called at most once, and once exactly when both records are found and the calculator yields an amount |
| RebateService.UnsupportedSchemeStoresNothing | Smartwyre.DeveloperTest/Services/RebateService.cs:20-23 | with an unsupported scheme, whatever the amounts, nothing is stored and the found rebate is returned |
| OldRebateService.Calculate | Smartwyre.DeveloperTest.Tests/OldRebateService.cs:15-104 | Success iff AND eligibility holds for the looked-up records, falling back to the placeholders; after both lookups the store is called once with the formula's amount on success, and never otherwise; a missing rebate fails; the stored amount is non-zero |
| OldRebateService.LegacyAmountNonZero | Smartwyre.DeveloperTest.Tests/OldRebateService.cs:62-68 | on legacy success the amount is never zero |
| OldRebateService.MissingRebateNeverSucceeds | Smartwyre.DeveloperTest.Tests/OldRebateService.cs:18-19 | the placeholder rebate (amount per unit, amount 0) fails for every product |
| OldRebateService.LegacyEligibleImpliesEligible | Smartwyre.DeveloperTest.Tests/OldRebateService.cs:27-96 | legacy (AND) eligibility implies support and current (OR) eligibility |
| OldRebateService.LegacySuccessImpliesSameAmount | Smartwyre.DeveloperTest.Tests/OldRebateService.cs:27-96 | whenever the legacy calculator succeeds, `GetRebateAmount` is present with the same amount |
| OldRebateService.ConverseFails | Smartwyre.DeveloperTest.Tests/OldRebateService.cs:49-95 | a fixed-rate case and an amount-per-unit case where the current calculator yields 0 and the legacy one fails |
| OldRebateService.ServicesStoreTheSameAmount | Smartwyre.DeveloperTest.Tests/PaymentService.Tests.cs:39-81 | when both records are found and the legacy calculator succeeds, the current service makes the same calls, storing the same amount |
| OldRebateService.EquivalenceTestScenario | Smartwyre.DeveloperTest.Tests/PaymentService.Tests.cs:39-81 | the equivalence test's fixed cash rebate of 10 succeeds in both services, which store 10 |
| OldRebateService.FirstTestScenarioSucceeds | Smartwyre.DeveloperTest.Tests/PaymentService.Tests.cs:14-37 | the first test's scenario succeeds in the legacy code with amount 10, although the test expects failure |

## Left out

- The asynchronous overloads of `Just`, `Match` and `SelectMany` (Monads.cs:78-94, 145-199, 268-296) are left out. They wrap the synchronous logic in `Task`, and this model has no concurrency.
- `Equals(T)` (Monads.cs:219-225) is left out. It requires both `other is null` and `HasValue`, so it is always false.
- `Equals(object)`, `GetHashCode` and the `==`/`!=` operators are left out. They are about identity and hashing.
- `SelectMany` with value-type results is left out. With those results, `.Value` of an empty inner Maybe is `default` (for example `0m`), which wraps as present. `SelectMany` models the reference-type behaviour, the one the service uses.
- `Where`, `SelectMatch`, `WithValues`, `Values` and both `FirstOrDefault` overloads: their null-argument guards are left out. The guard shape is modelled once, for `Just`, both `Match` overloads and `SelectMany`. A null receiver (`Maybe` as a null reference) is modelled only for `SelectMany`.
- Equality of values inside `Maybe` is Dafny equality. `EqualityComparer<T>.Default` on the C# record types is not modelled.
- `IEnumerable` arguments are finite sequences. Lazy and infinite enumeration are not modelled.
- Decimal arithmetic is left out. The model uses exact `real`, with no 28-digit rounding and no `OverflowException`.
- OldRebateService.LegacyAmountNonZero: holds for exact amounts only. C# `decimal` multiplication rounds to 28 decimal places, so non-zero factors such as 1e-20 and 1e-20 can multiply to 0, and the legacy code then succeeds and stores 0.
- OldRebateService.Calculate: its last postcondition, that the stored amount is non-zero, holds for exact amounts only, for the same rounding reason.
- A store test double that returns null is outside the model. `StoreCalculationResult` always returns a record, as the real store does.
- OldRebateService.Calculate: the legacy missing-product path relies on the placeholder product supporting no named scheme. The numeric values of the enum are not part of this model, so no property about that path is stated separately. The `== null` checks (OldRebateService.cs:30, 50, 54, 74, 78) never fire after `Match`, so they are omitted.
- OldRebateService.Calculate: the local `rebateAmount` is not returned. It is observable only through the recorded store call.
- The product store stub (ProductDataStore.cs) is modelled only as the injected `getProduct` lookup.
- The runner's console output and HTTP wrapper (Program.cs) are left out.
- The fields of `new Rebate()` are modelled as `DefaultRebate`. Their C# defaults are not known here, so `GetRebate` states only presence.
