/** The sequence test behind areInSequence*, areInSequenceDate* and areInSequenceTime*:
    each argument after the first is compared with the last argument before it that
    parsed (the first argument when none did), and the test fails as soon as a
    comparison gives one of the codes the variant forbids. */
module Sequence {
  import opened Wrappers
  import opened Calendar
  import opened Parsing
  import opened Comparison

  /** The four variants and the codes each forbids. */
  datatype Policy = Plain | NotEqual | NotNull | NotEqualNull

  function InvalidCodes(p: Policy): seq<int> {
    match p
    case Plain => [1]
    case NotEqual => [1, 0]
    case NotNull => [1, 2, -2, 22]
    case NotEqualNull => [1, 0, 2, -2, 22]
  }

  /** Equal neighbours are forbidden. */
  predicate Strict(p: Policy) {
    p.NotEqual? || p.NotEqualNull?
  }

  /** An argument that does not parse is forbidden. */
  predicate RejectsAbsent(p: Policy) {
    p.NotNull? || p.NotEqualNull?
  }

  // ----- the verdict on keys -----

  /** The key of the last argument that parsed. */
  function LastSome(keys: seq<Option<int>>): Option<int> {
    if |keys| == 0 then None
    else if keys[|keys| - 1].Some? then keys[|keys| - 1]
    else LastSome(keys[..|keys| - 1])
  }

  /** The keys of the arguments that parsed, in order. */
  function Present(keys: seq<Option<int>>): seq<int> {
    if |keys| == 0 then []
    else Present(keys[..|keys| - 1]) + (if keys[|keys| - 1].Some? then [keys[|keys| - 1].value] else [])
  }

  predicate AllPresent(keys: seq<Option<int>>) {
    forall i | 0 <= i < |keys| :: keys[i].Some?
  }

  /** The verdict of the loop, one comparison per argument after the first. */
  function InSequence(keys: seq<Option<int>>, invalid: seq<int>): bool {
    if |keys| <= 1 then true
    else
      var before := keys[..|keys| - 1];
      InSequence(before, invalid) && Code(CompareKeys(LastSome(before), keys[|keys| - 1])) !in invalid
  }

  predicate NonDecreasing(s: seq<int>) {
    forall i, j | 0 <= i < j < |s| :: s[i] <= s[j]
  }

  predicate Increasing(s: seq<int>) {
    forall i, j | 0 <= i < j < |s| :: s[i] < s[j]
  }

  predicate Ordered(s: seq<int>, strict: bool) {
    if strict then Increasing(s) else NonDecreasing(s)
  }

  // ----- the loop -----

  /** What the loop relies on in its two function arguments, for the arguments at hand:
      compare raises exactly when a side has no key (naming the first such side) and
      otherwise orders the two keys; validate tells whether a side's key is present. */
  ghost predicate Agrees<T>(xs: seq<T>, compare: (T, T) --> Result<Outcome, T>, validate: T --> bool,
                            key: T --> Result<Option<int>, T>)
  {
    (forall i | 0 <= i < |xs| :: key.requires(xs[i])) &&
    (forall i | 0 <= i < |xs| && key(xs[i]).Ok? :: validate.requires(xs[i]) && validate(xs[i]) == key(xs[i]).value.Some?) &&
    (forall i, j | 0 <= i < |xs| && 0 <= j < |xs| ::
       compare.requires(xs[i], xs[j]) &&
       (compare(xs[i], xs[j]).Raise? <==> key(xs[i]).Raise? || key(xs[j]).Raise?) &&
       (compare(xs[i], xs[j]).Raise? ==> compare(xs[i], xs[j]).culprit == if key(xs[i]).Raise? then xs[i] else xs[j]) &&
       (compare(xs[i], xs[j]).Ok? ==> compare(xs[i], xs[j]).value == CompareKeys(key(xs[i]).value, key(xs[j]).value)))
  }

  ghost predicate AllKeyed<T>(xs: seq<T>, key: T --> Result<Option<int>, T>)
    requires forall i | 0 <= i < |xs| :: key.requires(xs[i])
  {
    forall i | 0 <= i < |xs| :: key(xs[i]).Ok?
  }

  /** The values the arguments parse to, one per argument, when none raises. */
  ghost function ParsedValues<T, V>(sources: seq<T>, parse: T --> Result<Option<V>, T>): (values: seq<Option<V>>)
    requires forall i | 0 <= i < |sources| :: parse.requires(sources[i]) && parse(sources[i]).Ok?
    ensures |values| == |sources| && forall i | 0 <= i < |sources| :: values[i] == parse(sources[i]).value
  {
    seq(|sources|, i requires 0 <= i < |sources| => parse(sources[i]).value)
  }

  /** areInSequenceCore with its compareMethod and validateMethod. With every argument
      keyed the verdict is InSequence of the keys; otherwise the loop returns false before
      it reaches an argument without a key, or raises on one. */
  method AreInSequenceCore<T>(xs: seq<T>, invalid: seq<int>, compare: (T, T) --> Result<Outcome, T>,
                              validate: T --> bool, ghost key: T --> Result<Option<int>, T>)
    returns (r: Result<bool, T>)
    requires Agrees(xs, compare, validate, key)
    ensures |xs| <= 1 ==> r == Ok(true)
    ensures AllKeyed(xs, key) ==> r == Ok(InSequence(ParsedValues(xs, key), invalid))
    ensures !AllKeyed(xs, key) && |xs| >= 2 ==>
              r == Ok(false) || (r.Raise? && exists i | 0 <= i < |xs| :: r.culprit == xs[i] && key(xs[i]).Raise?)
  {
    if |xs| == 0 {
      return Ok(true);
    }
    ghost var all := AllKeyed(xs, key);
    ghost var keys: seq<Option<int>> := if all then ParsedValues(xs, key) else [];
    var previous := xs[0];
    ghost var previousIndex := 0;
    var index := 1;
    while index < |xs|
      invariant 1 <= index <= |xs|
      invariant 0 <= previousIndex < index && previous == xs[previousIndex]
      invariant index > 1 ==> forall k | 0 <= k < index :: key(xs[k]).Ok?
      invariant all ==> |keys| == |xs|
      invariant all ==> key(previous).value == LastSome(keys[..index])
      invariant all ==> InSequence(keys[..index], invalid)
    {
      var thisComparand := xs[index];
      var outcome :- compare(previous, thisComparand);
      assert forall k | 0 <= k < index + 1 :: key(xs[k]).Ok?;
      if all {
        SequenceStep(keys, invalid, index);
      }
      if Code(outcome) in invalid {
        if all {
          InSequencePrefix(keys, invalid, index + 1);
        }
        return Ok(false);
      }
      if validate(thisComparand) {
        previous := thisComparand;
        previousIndex := index;
      }
      index := index + 1;
    }
    if all {
      assert keys[..|xs|] == keys;
    }
    return Ok(true);
  }

  /** One turn of the loop: the verdict on the next prefix adds one comparison, and the
      last parsed key moves on when the new argument parses. */
  lemma SequenceStep(keys: seq<Option<int>>, invalid: seq<int>, index: nat)
    requires 1 <= index < |keys|
    ensures InSequence(keys[..index + 1], invalid) ==
              (InSequence(keys[..index], invalid) && Code(CompareKeys(LastSome(keys[..index]), keys[index])) !in invalid)
    ensures LastSome(keys[..index + 1]) == if keys[index].Some? then keys[index] else LastSome(keys[..index])
  {
    assert keys[..index + 1][..index] == keys[..index];
  }

  /** A verdict of true holds for every prefix. */
  lemma {:induction false} InSequencePrefix(keys: seq<Option<int>>, invalid: seq<int>, n: nat)
    requires 1 <= n <= |keys|
    ensures InSequence(keys, invalid) ==> InSequence(keys[..n], invalid)
    decreases |keys|
  {
    if n < |keys| {
      var before := keys[..|keys| - 1];
      assert before[..n] == keys[..n];
      InSequencePrefix(before, invalid, n);
    } else {
      assert keys[..n] == keys;
    }
  }

  // ----- the twelve entry points -----

  predicate AllWellFormed(xs: seq<Input>) {
    forall i | 0 <= i < |xs| :: WellFormed(xs[i])
  }

  predicate AllSupported(kind: Kind, xs: seq<Input>) {
    forall i | 0 <= i < |xs| :: Supported(kind, xs[i])
  }

  /** The key of every argument (absent where it does not parse). */
  function Keys(kind: Kind, xs: seq<Input>, today: Date): (keys: seq<Option<int>>)
    requires AllWellFormed(xs) && AllSupported(kind, xs) && Valid(today)
    ensures |keys| == |xs|
    ensures forall i | 0 <= i < |xs| :: keys[i] == KeyOf(kind, xs[i], today).value
  {
    seq(|xs|, i requires 0 <= i < |xs| => KeyOf(kind, xs[i], today).value)
  }

  /** areInSequence, areInSequenceDate and areInSequenceTime with each of their four
      variants: the core loop with compare, compareDate or compareTime and with isDateTime,
      isDate or isTime. */
  method AreInSequence(xs: seq<Input>, policy: Policy, kind: Kind, today: Date) returns (r: Result<bool, Input>)
    requires AllWellFormed(xs) && Valid(today)
    ensures |xs| <= 1 ==> r == Ok(true)
    ensures AllSupported(kind, xs) ==> r == Ok(InSequence(Keys(kind, xs, today), InvalidCodes(policy)))
    ensures !AllSupported(kind, xs) && |xs| >= 2 ==>
              r == Ok(false) || (r.Raise? && r.culprit in xs && !Supported(kind, r.culprit))
  {
    KindAgrees(xs, kind, today);
    r := AreInSequenceCore(xs, InvalidCodes(policy), Comparator(kind, today), Validator(kind, today), Keyer(kind, today));
  }

  /** The compareMethod of a kind: compare, compareDate or compareTime. */
  function Comparator(kind: Kind, today: Date): (Input, Input) --> Result<Outcome, Input>
    requires Valid(today)
  {
    (x: Input, y: Input) requires WellFormed(x) && WellFormed(y) => CompareBy(kind, x, y, today)
  }

  /** The validateMethod of a kind: isDateTime, isDate or isTime. */
  function Validator(kind: Kind, today: Date): Input --> bool
    requires Valid(today)
  {
    (x: Input) requires WellFormed(x) && Supported(kind, x) => KeyOf(kind, x, today).value.Some?
  }

  ghost function Keyer(kind: Kind, today: Date): Input --> Result<Option<int>, Input>
    requires Valid(today)
  {
    (x: Input) requires WellFormed(x) => KeyOf(kind, x, today)
  }

  /** The comparator and validator of a kind agree with its key, and on supported
      arguments the keys are those of `Keys`. */
  lemma KindAgrees(xs: seq<Input>, kind: Kind, today: Date)
    requires AllWellFormed(xs) && Valid(today)
    ensures Agrees(xs, Comparator(kind, today), Validator(kind, today), Keyer(kind, today))
    ensures AllKeyed(xs, Keyer(kind, today)) <==> AllSupported(kind, xs)
    ensures AllSupported(kind, xs) ==> ParsedValues(xs, Keyer(kind, today)) == Keys(kind, xs, today)
  {
  }

  // ----- what each variant means -----

  lemma OrderedAppend(s: seq<int>, x: int, strict: bool)
    ensures Ordered(s + [x], strict) <==>
              Ordered(s, strict) && (|s| == 0 || (if strict then s[|s| - 1] < x else s[|s| - 1] <= x))
  {
    var t := s + [x];
    assert forall i | 0 <= i < |s| :: t[i] == s[i];
    assert t[|s|] == x;
    if Ordered(s, strict) && (|s| == 0 || (if strict then s[|s| - 1] < x else s[|s| - 1] <= x)) {
      forall i, j | 0 <= i < j < |t|
        ensures if strict then t[i] < t[j] else t[i] <= t[j]
      {
        if j == |s| && i < |s| - 1 {
          assert if strict then s[i] < s[|s| - 1] else s[i] <= s[|s| - 1];
        }
      }
    }
    if Ordered(t, strict) && |s| > 0 {
      assert if strict then t[|s| - 1] < t[|s|] else t[|s| - 1] <= t[|s|];
    }
  }

  /** The last parsed key is the last of the present keys. */
  lemma {:induction false} LastSomeIsLastPresent(keys: seq<Option<int>>)
    ensures LastSome(keys).None? <==> |Present(keys)| == 0
    ensures LastSome(keys).Some? ==> LastSome(keys).value == Present(keys)[|Present(keys)| - 1]
    decreases |keys|
  {
    if |keys| > 0 {
      LastSomeIsLastPresent(keys[..|keys| - 1]);
    }
  }

  /** Plain and NotEqual: the arguments that parse are in non-decreasing (NotEqual:
      increasing) order; arguments that do not parse are skipped. */
  lemma {:induction false} LenientVerdict(keys: seq<Option<int>>, p: Policy)
    requires !RejectsAbsent(p)
    ensures InSequence(keys, InvalidCodes(p)) <==> Ordered(Present(keys), Strict(p))
    decreases |keys|
  {
    if |keys| <= 1 {
      if |keys| == 1 {
        assert Present(keys[..0]) == [];
      }
    } else {
      var before, k := keys[..|keys| - 1], keys[|keys| - 1];
      LenientVerdict(before, p);
      LastSomeIsLastPresent(before);
      if k.Some? {
        OrderedAppend(Present(before), k.value, Strict(p));
      } else {
        assert Present(keys) == Present(before);
      }
    }
  }

  /** NotNull and NotEqualNull: with at least two arguments, every argument parses and the
      keys are in non-decreasing (NotEqualNull: increasing) order. */
  lemma {:induction false} NullRejectingVerdict(keys: seq<Option<int>>, p: Policy)
    requires RejectsAbsent(p) && |keys| >= 2
    ensures InSequence(keys, InvalidCodes(p)) <==> AllPresent(keys) && Ordered(Present(keys), Strict(p))
    decreases |keys|
  {
    var before, k := keys[..|keys| - 1], keys[|keys| - 1];
    LastSomeIsLastPresent(before);
    if |keys| == 2 {
      assert before == [keys[0]];
      assert before[..0] == [];
      if keys[0].Some? && k.Some? {
        assert Present(before) == [keys[0].value];
        OrderedAppend(Present(before), k.value, Strict(p));
      }
    } else {
      NullRejectingVerdict(before, p);
      assert AllPresent(keys) <==> AllPresent(before) && k.Some? by {
        assert forall i | 0 <= i < |before| :: before[i] == keys[i];
      }
      if AllPresent(before) {
        assert before[|before| - 1].Some?;
        if k.Some? {
          OrderedAppend(Present(before), k.value, Strict(p));
        }
      }
    }
  }
}
