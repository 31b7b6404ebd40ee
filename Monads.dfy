/** Model of `Maybe<T>` and its extension methods (Smartwyre.DeveloperTest/Monads.cs).

    C# lets a reference, a delegate or a `TResult` returned by a selector be null, and the
    container reacts to that: the constructor turns null into an empty value, and the
    `ArgumentNullException` guards reject null delegates and other null arguments. Dafny values are never null, so a
    possibly-null C# value is modelled by `Nullable<T>`. Sequences stand for the
    `IEnumerable` arguments of the LINQ helpers (only finite ones). */
module Monads {

  /** A C# value that may be null. A value-type value is always `NonNull`. */
  datatype Nullable<T> = Null | NonNull(target: T)

  /** `Maybe<T>`: `Empty` has `HasValue == false`; `Present(v)` has `HasValue` and `Value == v`. */
  datatype Maybe<T> = Empty | Present(value: T)

  /** The exception the guards throw; `paramName` is the `nameof` of the null argument. */
  datatype ArgumentNullException = ArgumentNullException(paramName: string)

  /** A call of a guarded member: it returns a value or throws. */
  datatype Outcome<R> = Returned(value: R) | Threw(exception: ArgumentNullException)

  /** The public constructor `Maybe(T? item)`: null gives an empty value. */
  function FromNullable<T>(item: Nullable<T>): (r: Maybe<T>)
    ensures r.Present? <==> item.NonNull?
    ensures r.Present? ==> r.value == item.target
  {
    match item
    case Null => Empty
    case NonNull(x) => Present(x)
  }

  /** The implicit conversion from `T` to `Maybe<T>`, which calls the constructor. */
  function Convert<T>(val: Nullable<T>): (r: Maybe<T>)
    ensures r.Present? <==> val.NonNull?
    ensures r.Present? ==> r.value == val.target
  {
    FromNullable(val)
  }

  /** Reading `.Value` of a `Maybe` over a reference type: null when the value is empty. */
  function ValueOrNull<T>(m: Maybe<T>): (r: Nullable<T>)
    ensures FromNullable(r) == m
  {
    match m
    case Empty => Null
    case Present(v) => NonNull(v)
  }

  /** Constructing from a possibly-null value and reading `.Value` back gives that value. */
  lemma ValueOrNullFromNullable<T>(item: Nullable<T>)
    ensures ValueOrNull(FromNullable(item)) == item
  {
  }

  /** `Just(selector)`: map. The result of `selector` goes through the implicit conversion,
      so a null result collapses to empty; on an empty value `selector` is not used at all. */
  function Just<T, U>(m: Maybe<T>, selector: T -> Nullable<U>): (r: Maybe<U>)
    ensures m.Empty? ==> r.Empty?
    ensures r.Present? <==> m.Present? && selector(m.value).NonNull?
    ensures m.Present? && r.Present? ==> r.value == selector(m.value).target
  {
    if m.Present? then Convert(selector(m.value)) else Empty
  }

  /** `Just` with its argument check: a null `selector` throws. */
  function JustOrThrow<T, U>(m: Maybe<T>, selector: Nullable<T -> Nullable<U>>): (r: Outcome<Maybe<U>>)
    ensures r.Threw? <==> selector.Null?
    ensures r.Threw? ==> r.exception.paramName == "selector"
    ensures selector.NonNull? ==> r == Returned(Just(m, selector.target))
  {
    match selector
    case Null => Threw(ArgumentNullException("selector"))
    case NonNull(f) => Returned(Just(m, f))
  }

  /** Mapping the identity changes nothing. */
  lemma JustIdentity<T>(m: Maybe<T>)
    ensures Just(m, (x: T) => NonNull(x)) == m
  {
  }

  /** Mapping twice is mapping once through the composed selector, where a null from the
      first selector short-circuits the second. */
  lemma JustComposition<T, U, V>(m: Maybe<T>, f: T -> Nullable<U>, g: U -> Nullable<V>)
    ensures Just(Just(m, f), g)
         == Just(m, (x: T) => match f(x) case Null => Null case NonNull(y) => g(y))
  {
  }

  /** The eager `Match(nothing, just)`. */
  function Match<T, R>(m: Maybe<T>, nothing: R, just: T -> R): (r: R)
    ensures m.Present? ==> r == just(m.value)
    ensures m.Empty? ==> r == nothing
  {
    if m.Present? then just(m.value) else nothing
  }

  /** The eager `Match` with its argument checks, `nothing` first, then `just`. */
  function MatchOrThrow<T, R>(m: Maybe<T>, nothing: Nullable<R>, just: Nullable<T -> R>): (r: Outcome<R>)
    ensures r.Threw? <==> nothing.Null? || just.Null?
    ensures nothing.Null? ==> r == Threw(ArgumentNullException("nothing"))
    ensures nothing.NonNull? && just.Null? ==> r == Threw(ArgumentNullException("just"))
    ensures nothing.NonNull? && just.NonNull? ==> r == Returned(Match(m, nothing.target, just.target))
  {
    if nothing.Null? then Threw(ArgumentNullException("nothing"))
    else if just.Null? then Threw(ArgumentNullException("just"))
    else Returned(Match(m, nothing.target, just.target))
  }

  /** Matching into `Empty` and `Present` rebuilds the value. */
  lemma MatchRebuilds<T>(m: Maybe<T>)
    ensures Match(m, Empty, (x: T) => Present(x)) == m
  {
  }

  /** The lazy `Match(lazyNothing, just)`: the factory runs only for an empty value. */
  function MatchLazy<T, R>(m: Maybe<T>, lazyNothing: () -> R, just: T -> R): (r: R)
    ensures m.Present? ==> r == just(m.value)
    ensures m.Empty? ==> r == lazyNothing()
  {
    if m.Present? then just(m.value) else lazyNothing()
  }

  /** The lazy `Match` with its argument checks, `lazyNothing` first, then `just`. */
  function MatchLazyOrThrow<T, R>(m: Maybe<T>, lazyNothing: Nullable<() -> R>, just: Nullable<T -> R>): (r: Outcome<R>)
    ensures r.Threw? <==> lazyNothing.Null? || just.Null?
    ensures lazyNothing.Null? ==> r == Threw(ArgumentNullException("lazyNothing"))
    ensures lazyNothing.NonNull? && just.Null? ==> r == Threw(ArgumentNullException("just"))
    ensures lazyNothing.NonNull? && just.NonNull? ==> r == Returned(MatchLazy(m, lazyNothing.target, just.target))
  {
    if lazyNothing.Null? then Threw(ArgumentNullException("lazyNothing"))
    else if just.Null? then Threw(ArgumentNullException("just"))
    else Returned(MatchLazy(m, lazyNothing.target, just.target))
  }

  /** Only one branch of the lazy `Match` is used: a present value makes the result
      independent of the factory, an empty one makes it independent of `just`. */
  lemma MatchLazyUsesOneBranch<T, R>(m: Maybe<T>, n1: () -> R, n2: () -> R, j1: T -> R, j2: T -> R)
    ensures m.Present? ==> MatchLazy(m, n1, j1) == MatchLazy(m, n2, j1)
    ensures m.Empty? ==> MatchLazy(m, n1, j1) == MatchLazy(m, n1, j2)
  {
  }

  /** The lazy and the eager `Match` agree when the factory returns the default value. */
  lemma MatchLazyAgreesWithMatch<T, R>(m: Maybe<T>, nothing: R, just: T -> R)
    ensures MatchLazy(m, () => nothing, just) == Match(m, nothing, just)
  {
  }

  /** `Equals(Maybe<T>)`: the two `Value`s are equal (null when empty) and so are the two
      `HasValue` flags. Values are compared with Dafny equality. */
  function Equals<T(==)>(m: Maybe<T>, other: Maybe<T>): (r: bool)
    ensures r <==> (m.Present? == other.Present? && (m.Present? ==> m.value == other.value))
    ensures r <==> m == other
  {
    ValueOrNull(m) == ValueOrNull(other) && m.Present? == other.Present?
  }

  /** The synchronous `SelectMany(selector, resultSelector)`: a short-circuiting two-stage
      dependent lookup, written as the source composes it from two `Just` calls, with the
      inner result read back through `.Value` (reference-type results). */
  function SelectMany<T, U, V>(m: Maybe<T>, selector: T -> Maybe<U>, resultSelector: (T, U) -> Nullable<V>): (r: Maybe<V>)
    ensures m.Empty? ==> r.Empty?
    ensures m.Present? && selector(m.value).Empty? ==> r.Empty?
    ensures m.Present? && selector(m.value).Present?
            ==> r == FromNullable(resultSelector(m.value, selector(m.value).value))
  {
    Just(m, (v: T) => ValueOrNull(Just(selector(v), (b: U) => resultSelector(v, b))))
  }

  /** `SelectMany` with its argument checks, in the order `maybe`, `selector`, `resultSelector`. */
  function SelectManyOrThrow<T, U, V>(maybe: Nullable<Maybe<T>>, selector: Nullable<T -> Maybe<U>>,
                                      resultSelector: Nullable<(T, U) -> Nullable<V>>): (r: Outcome<Maybe<V>>)
    ensures r.Threw? <==> maybe.Null? || selector.Null? || resultSelector.Null?
    ensures maybe.Null? ==> r == Threw(ArgumentNullException("maybe"))
    ensures maybe.NonNull? && selector.Null? ==> r == Threw(ArgumentNullException("selector"))
    ensures maybe.NonNull? && selector.NonNull? && resultSelector.Null?
            ==> r == Threw(ArgumentNullException("resultSelector"))
    ensures maybe.NonNull? && selector.NonNull? && resultSelector.NonNull?
            ==> r == Returned(SelectMany(maybe.target, selector.target, resultSelector.target))
  {
    if maybe.Null? then Threw(ArgumentNullException("maybe"))
    else if selector.Null? then Threw(ArgumentNullException("selector"))
    else if resultSelector.Null? then Threw(ArgumentNullException("resultSelector"))
    else Returned(SelectMany(maybe.target, selector.target, resultSelector.target))
  }

  /** `SelectMatch(other, selector)`: the second argument of `selector` is the value of
      `other` when it has one, and the value of `maybe` itself otherwise. */
  function SelectMatch<T, R>(m: Maybe<T>, other: Maybe<T>, selector: (T, T) -> Nullable<R>): (r: Maybe<R>)
    ensures m.Empty? ==> r.Empty?
    ensures m.Present? && other.Present? ==> r == FromNullable(selector(m.value, other.value))
    ensures m.Present? && other.Empty? ==> r == FromNullable(selector(m.value, m.value))
  {
    SelectMany(m, (v: T) => Convert(NonNull(Match(other, v, (o: T) => o))), selector)
  }

  /** `Enumerable.Where` on a finite sequence: the elements `keep` accepts, in their order. */
  function Filter<T>(s: seq<T>, keep: T -> bool): (r: seq<T>)
    ensures |r| <= |s|
    ensures forall i :: 0 <= i < |r| ==> keep(r[i]) && r[i] in s
    ensures forall x :: x in s && keep(x) ==> x in r
    decreases |s|
  {
    if |s| == 0 then []
    else if keep(s[0]) then [s[0]] + Filter(s[1..], keep)
    else Filter(s[1..], keep)
  }

  /** Filtering distributes over concatenation, so the kept elements keep their order. */
  lemma {:induction false} FilterConcat<T>(a: seq<T>, b: seq<T>, keep: T -> bool)
    ensures Filter(a + b, keep) == Filter(a, keep) + Filter(b, keep)
    decreases |a|
  {
    if |a| == 0 {
      assert a + b == b;
    } else {
      assert (a + b)[0] == a[0];
      assert (a + b)[1..] == a[1..] + b;
      FilterConcat(a[1..], b, keep);
    }
  }

  /** `WithValues`: exactly the non-empty elements. */
  function WithValues<T>(source: seq<Maybe<T>>): (r: seq<Maybe<T>>)
    ensures forall i :: 0 <= i < |r| ==> r[i].Present?
    ensures forall m :: m in r ==> m in source && m.Present?
    ensures forall m :: m in source && m.Present? ==> m in r
  {
    Filter(source, (m: Maybe<T>) => m.Present?)
  }

  /** `WithValues` keeps order: it distributes over concatenation, keeps a present element
      and drops an empty one. */
  lemma WithValuesPreservesOrder<T>(a: seq<Maybe<T>>, b: seq<Maybe<T>>, m: Maybe<T>)
    ensures WithValues(a + b) == WithValues(a) + WithValues(b)
    ensures WithValues([m]) == if m.Present? then [m] else []
  {
    FilterConcat(a, b, (m: Maybe<T>) => m.Present?);
  }

  /** `Values`: the contents of the non-empty elements, in order. */
  function Values<T>(source: seq<Maybe<T>>): (r: seq<T>)
    ensures |r| == |WithValues(source)|
    ensures forall i :: 0 <= i < |r| ==> WithValues(source)[i] == Present(r[i])
    ensures forall v :: v in r ==> Present(v) in source
    ensures forall i :: 0 <= i < |source| && source[i].Present? ==> source[i].value in r
  {
    var present := WithValues(source);
    var r := seq(|present|, (i: int) requires 0 <= i < |present| => present[i].value);
    assert forall v :: v in r ==> Present(v) in present by {
      forall v | v in r ensures Present(v) in present {
        var i :| 0 <= i < |r| && r[i] == v;
        assert present[i] == Present(v);
      }
    }
    assert forall m :: m in present ==> m.value in r by {
      forall m | m in present ensures m.value in r {
        var i :| 0 <= i < |present| && present[i] == m;
        assert r[i] == m.value;
      }
    }
    r
  }

  /** `Where(predicate)`: the non-empty elements whose value satisfies `predicate`. */
  function Where<T>(source: seq<Maybe<T>>, pred: T -> bool): (r: seq<Maybe<T>>)
    ensures forall i :: 0 <= i < |r| ==> r[i].Present? && pred(r[i].value)
    ensures forall m :: m in r ==> m in source && m.Present? && pred(m.value)
    ensures forall m :: m in source && m.Present? && pred(m.value) ==> m in r
  {
    Filter(source, (m: Maybe<T>) => Match(m, false, (v: T) => pred(v)))
  }

  /** A predicate that holds everywhere makes `Where` the same as `WithValues`. */
  lemma {:induction false} WhereTrueIsWithValues<T>(source: seq<Maybe<T>>)
    ensures Where(source, (v: T) => true) == WithValues(source)
    decreases |source|
  {
    if |source| != 0 {
      WhereTrueIsWithValues(source[1..]);
    }
  }

  /** An independent formulation: `Where` equals `WithValues` followed by the filter on the
      value, so every accepted element is kept, duplicates included, in its original order. */
  lemma {:induction false} WhereIsFilterOfWithValues<T>(source: seq<Maybe<T>>, pred: T -> bool)
    ensures Where(source, pred) == Filter(WithValues(source), (m: Maybe<T>) => m.Present? && pred(m.value))
    decreases |source|
  {
    if |source| != 0 {
      WhereIsFilterOfWithValues(source[1..], pred);
      var rest := WithValues(source[1..]);
      if source[0].Present? {
        assert WithValues(source) == [source[0]] + rest;
        assert ([source[0]] + rest)[1..] == rest;
      }
    }
  }

  /** `Where` keeps order: it distributes over concatenation, keeps an accepted element and
      drops any other. */
  lemma WherePreservesOrder<T>(a: seq<Maybe<T>>, b: seq<Maybe<T>>, m: Maybe<T>, pred: T -> bool)
    ensures Where(a + b, pred) == Where(a, pred) + Where(b, pred)
    ensures Where([m], pred) == if m.Present? && pred(m.value) then [m] else []
  {
    FilterConcat(a, b, (m: Maybe<T>) => Match(m, false, (v: T) => pred(v)));
  }

  /** `FirstOrDefault()`: the first element of `WithValues`, converted back from its value,
      or `Empty` when there is none. */
  function FirstOrDefault<T>(source: seq<Maybe<T>>): (r: Maybe<T>)
    ensures r.Present? <==> exists i :: 0 <= i < |source| && source[i].Present?
    ensures r.Present? ==> r in source
  {
    var present := WithValues(source);
    if |present| == 0 then Empty else Convert(NonNull(present[0].value))
  }

  /** `FirstOrDefault(predicate)`: the first non-empty element whose value satisfies
      `predicate`, or `Empty` when there is none. */
  function FirstOrDefaultWhere<T>(source: seq<Maybe<T>>, pred: T -> bool): (r: Maybe<T>)
    ensures r.Present? <==> exists i :: 0 <= i < |source| && source[i].Present? && pred(source[i].value)
    ensures r.Present? ==> r in source && pred(r.value)
  {
    var matching := Filter(WithValues(source), (e: Maybe<T>) => e.Present? && pred(e.value));
    if |matching| == 0 then Empty else Convert(NonNull(matching[0].value))
  }

  /** A filter that accepts no element of `s` keeps nothing. */
  lemma FilterNoneKept<T>(s: seq<T>, keep: T -> bool)
    requires forall x :: x in s ==> !keep(x)
    ensures Filter(s, keep) == []
  {
  }

  /** The elements before the first kept one are filtered away, and the first kept one
      heads the result. */
  lemma FilterFirst<T>(s: seq<T>, keep: T -> bool, i: int)
    requires 0 <= i < |s| && keep(s[i])
    requires forall j :: 0 <= j < i ==> !keep(s[j])
    ensures |Filter(s, keep)| > 0 && Filter(s, keep)[0] == s[i]
  {
    assert s == s[..i] + s[i..];
    FilterConcat(s[..i], s[i..], keep);
    FilterNoneKept(s[..i], keep);
  }

  /** `FirstOrDefault()` is the first non-empty element. */
  lemma FirstOrDefaultIsFirstPresent<T>(source: seq<Maybe<T>>, i: int)
    requires 0 <= i < |source| && source[i].Present?
    requires forall j :: 0 <= j < i ==> source[j].Empty?
    ensures FirstOrDefault(source) == source[i]
  {
    FilterFirst(source, (m: Maybe<T>) => m.Present?, i);
  }

  /** `FirstOrDefault(predicate)` is the first non-empty element whose value satisfies
      `predicate`, whatever the elements before it that fail it. */
  lemma FirstOrDefaultWhereIsFirstMatch<T>(source: seq<Maybe<T>>, pred: T -> bool, i: int)
    requires 0 <= i < |source| && source[i].Present? && pred(source[i].value)
    requires forall j :: 0 <= j < i ==> source[j].Empty? || !pred(source[j].value)
    ensures FirstOrDefaultWhere(source, pred) == source[i]
  {
    var hasValue := (m: Maybe<T>) => m.Present?;
    var matches := (e: Maybe<T>) => e.Present? && pred(e.value);
    assert source == source[..i] + source[i..];
    FilterConcat(source[..i], source[i..], hasValue);
    var before := WithValues(source[..i]);
    var after := WithValues(source[i..]);
    FilterFirst(source[i..], hasValue, 0);
    FilterConcat(before, after, matches);
    FilterNoneKept(before, matches);
    assert after == [after[0]] + after[1..];
    FilterConcat([after[0]], after[1..], matches);
  }
}
