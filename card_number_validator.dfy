/** The card-number scorer: a digit string earns the weight of every check it
    passes (the Luhn check, the registry of providers' test numbers, a
    provider's prefix and length, an accepted length), and a string shorter
    than every provider's minimum or longer than every provider's maximum
    scores nothing at all. The weights live in a
    table that `SetProbabilities` updates in place. */
module CardValidation {
  import opened Common
  import Luhn

  // The four keys of the weight table.
  const LuhnKey: string := "LUHN"
  const TestNumbersKey: string := "TEST_NUMBERS"
  const ProvidersKey: string := "PROVIDERS"
  const LengthKey: string := "LENGTH"

  const PermittedKeys: set<string> := {LuhnKey, TestNumbersKey, ProvidersKey, LengthKey}

  /** MasterCard's published test number. */
  const MasterCardTestNumber: string := "5555555555554444"

  /** A card-issuing network: the prefixes its numbers start with and the
      range of lengths they have. */
  datatype Provider = Provider(name: string, prefixes: seq<string>, minLength: nat, maxLength: nat)

  /** A published test number and the provider it belongs to. */
  datatype TestCard = TestCard(provider: string, number: string)

  /** The static tables the scorer consults. */
  datatype ReferenceData = ReferenceData(providers: seq<Provider>, testCards: seq<TestCard>)

  /** What a validator is built with: its initial weight table, the threshold
      used when none is given, and its reference data. */
  datatype Defaults = Defaults(weights: map<string, real>, threshold: real, refs: ReferenceData)

  predicate HasPrefix(p: Provider, number: string) {
    exists j :: 0 <= j < |p.prefixes| && p.prefixes[j] <= number
  }

  predicate MatchesProvider(p: Provider, number: string) {
    HasPrefix(p, number) && p.minLength <= |number| <= p.maxLength
  }

  predicate MatchesSomeProvider(refs: ReferenceData, number: string) {
    exists i :: 0 <= i < |refs.providers| && MatchesProvider(refs.providers[i], number)
  }

  predicate IsTestNumber(refs: ReferenceData, number: string) {
    exists i :: 0 <= i < |refs.testCards| && refs.testCards[i].number == number
  }

  /** Some provider issues numbers of this length. */
  predicate AcceptedLength(refs: ReferenceData, len: nat) {
    exists i :: 0 <= i < |refs.providers| && refs.providers[i].minLength <= len <= refs.providers[i].maxLength
  }

  /** Shorter than every provider's shortest number. */
  predicate TooShort(refs: ReferenceData, len: nat) {
    forall i :: 0 <= i < |refs.providers| ==> len < refs.providers[i].minLength
  }

  /** Longer than every provider's longest number. */
  predicate TooLong(refs: ReferenceData, len: nat) {
    forall i :: 0 <= i < |refs.providers| ==> len > refs.providers[i].maxLength
  }

  /** The weight a check earns: its table entry when it passed, else nothing. */
  function Earned(weights: map<string, real>, key: string, passed: bool): real
    requires key in weights
  {
    if passed then weights[key] else 0.0
  }

  function TotalWeight(weights: map<string, real>): real
    requires PermittedKeys <= weights.Keys
  {
    weights[LuhnKey] + weights[TestNumbersKey] + weights[ProvidersKey] + weights[LengthKey]
  }

  predicate NonNegative(weights: map<string, real>) {
    forall k :: k in weights ==> weights[k] >= 0.0
  }

  /** The score of `number` under `weights`: zero when its length is below
      every provider's minimum or above every provider's maximum, otherwise
      the sum of the weights of the checks it passes. */
  function Score(weights: map<string, real>, refs: ReferenceData, number: string): real
    requires PermittedKeys <= weights.Keys
  {
    if TooShort(refs, |number|) || TooLong(refs, |number|) then 0.0
    else
      Earned(weights, LuhnKey, Luhn.PassesLuhn(number))
      + Earned(weights, TestNumbersKey, IsTestNumber(refs, number))
      + Earned(weights, ProvidersKey, MatchesSomeProvider(refs, number))
      + Earned(weights, LengthKey, AcceptedLength(refs, |number|))
  }

  /** The threshold `IsSurelyACreditCardNumber` compares with: the one given,
      or the validator's default when the caller passes none. */
  function EffectiveThreshold(threshold: Option<real>, default: real): real {
    match threshold
    case Some(t) => t
    case None => default
  }

  /** The constraints the defaults of the modelled validator are known to
      meet (what the tests observe, plus non-negative weights and well-formed
      length ranges from the design): non-negative weights for exactly the
      four keys summing to 190, a default threshold in [0, 190), MasterCard's
      test number registered and matched by the MasterCard provider, and
      every provider's lengths between 4 and 19 digits. */
  predicate Plausible(d: Defaults) {
    && d.weights.Keys == PermittedKeys
    && NonNegative(d.weights)
    && TotalWeight(d.weights) == 190.0
    && 0.0 <= d.threshold < 190.0
    && (forall i :: 0 <= i < |d.refs.providers| ==>
          3 < d.refs.providers[i].minLength <= d.refs.providers[i].maxLength < 20)
    && IsTestNumber(d.refs, MasterCardTestNumber)
    && (exists i :: 0 <= i < |d.refs.providers| && d.refs.providers[i].name == "MasterCard"
                    && MatchesProvider(d.refs.providers[i], MasterCardTestNumber))
  }

  /** Scores are bounded by the weights: with non-negative weights a score is
      never negative and never above the sum of all four weights; it is zero
      when the length is below every provider's minimum or above every
      provider's maximum, the full sum when every check passes,
      and positive when a check with a positive weight passes on an in-range
      length. */
  lemma ScoreBounds(weights: map<string, real>, refs: ReferenceData, number: string)
    requires PermittedKeys <= weights.Keys && NonNegative(weights)
    ensures 0.0 <= Score(weights, refs, number) <= TotalWeight(weights)
    ensures TooShort(refs, |number|) || TooLong(refs, |number|) ==> Score(weights, refs, number) == 0.0
    ensures !TooShort(refs, |number|) && !TooLong(refs, |number|)
            && Luhn.PassesLuhn(number) && IsTestNumber(refs, number)
            && MatchesSomeProvider(refs, number) && AcceptedLength(refs, |number|)
            ==> Score(weights, refs, number) == TotalWeight(weights)
    ensures !TooShort(refs, |number|) && !TooLong(refs, |number|)
            && ((Luhn.PassesLuhn(number) && weights[LuhnKey] > 0.0)
                || (IsTestNumber(refs, number) && weights[TestNumbersKey] > 0.0)
                || (MatchesSomeProvider(refs, number) && weights[ProvidersKey] > 0.0)
                || (AcceptedLength(refs, |number|) && weights[LengthKey] > 0.0))
            ==> Score(weights, refs, number) > 0.0
  {
    assert weights[LuhnKey] >= 0.0 && weights[TestNumbersKey] >= 0.0;
    assert weights[ProvidersKey] >= 0.0 && weights[LengthKey] >= 0.0;
  }

  /** Appending a two-digit piece leaves the parity of the rest unchanged,
      so it adds the piece's own total. */
  lemma AppendPair(a: string, piece: string)
    requires AllDigits(a) && AllDigits(piece) && |piece| == 2
    ensures AllDigits(a + piece)
    ensures Luhn.LuhnSum(a + piece, false) == Luhn.LuhnSum(a, false) + Luhn.LuhnSum(piece, false)
  {
    Luhn.LuhnSumAppend(a, piece, false);
  }

  lemma MasterCardTestNumberPassesLuhn()
    ensures Luhn.PassesLuhn(MasterCardTestNumber)
  {
    // Six "55" pieces add 6 each and two "44" pieces add 12 each: 60 in all.
    var fives, fours := "55", "44";
    assert fives[..1] == "5" && fours[..1] == "4";
    assert Luhn.LuhnSum(fives, false) == 6 && Luhn.LuhnSum(fours, false) == 12;
    var t := fives;
    AppendPair(t, fives); t := t + fives;
    AppendPair(t, fives); t := t + fives;
    AppendPair(t, fives); t := t + fives;
    AppendPair(t, fives); t := t + fives;
    AppendPair(t, fives); t := t + fives;
    AppendPair(t, fours); t := t + fours;
    AppendPair(t, fours); t := t + fours;
    assert Luhn.LuhnSum(t, false) == 60;
    assert t == MasterCardTestNumber;
  }

  /** Under plausible reference data MasterCard's test number is within
      reach of some provider's lengths and passes all four checks. */
  lemma MasterCardPassesEveryCheck(d: Defaults)
    requires Plausible(d)
    ensures !TooShort(d.refs, 16) && !TooLong(d.refs, 16)
    ensures Luhn.PassesLuhn(MasterCardTestNumber) && IsTestNumber(d.refs, MasterCardTestNumber)
    ensures MatchesSomeProvider(d.refs, MasterCardTestNumber) && AcceptedLength(d.refs, 16)
  {
    var refs := d.refs;
    var i :| 0 <= i < |refs.providers| && refs.providers[i].name == "MasterCard"
             && MatchesProvider(refs.providers[i], MasterCardTestNumber);
    assert !TooShort(refs, 16) && !TooLong(refs, 16);
    MasterCardTestNumberPassesLuhn();
  }

  /** Any digit string of at most 3 or at least 20 characters scores exactly
      0, and MasterCard's test number, which passes all four checks, scores
      exactly the sum of the four default weights, 190. */
  lemma DefaultScores(d: Defaults, number: string)
    requires Plausible(d)
    ensures |number| <= 3 || |number| >= 20 ==> Score(d.weights, d.refs, number) == 0.0
    ensures Score(d.weights, d.refs, MasterCardTestNumber) == 190.0
  {
    var refs := d.refs;
    MasterCardPassesEveryCheck(d);
    if |number| <= 3 && |refs.providers| > 0 {
      assert TooShort(refs, |number|);
    } else if |number| >= 20 {
      assert TooLong(refs, |number|);
    }
  }

  /** Checks every key of `update` against the permitted set, one key at a
      time, before anything is changed. */
  method KeysPermitted(update: map<string, real>) returns (ok: bool)
    ensures ok <==> update.Keys <= PermittedKeys
  {
    var pending := update.Keys;
    while pending != {}
      invariant pending <= update.Keys
      invariant update.Keys - pending <= PermittedKeys
      decreases pending
    {
      var key :| key in pending;
      if key !in PermittedKeys {
        return false;
      }
      pending := pending - {key};
    }
    return true;
  }

  class CardNumberValidator {
    const refs: ReferenceData
    const defaultThreshold: real
    var probabilities: map<string, real>

    /** The weight table holds exactly the four permitted keys, and the
        default threshold is not negative. */
    predicate Valid()
      reads this
    {
      probabilities.Keys == PermittedKeys && 0.0 <= defaultThreshold
    }

    constructor (defaults: Defaults)
      requires Plausible(defaults)
      ensures Valid()
      ensures probabilities == defaults.weights
      ensures refs == defaults.refs && defaultThreshold == defaults.threshold
    {
      refs := defaults.refs;
      defaultThreshold := defaults.threshold;
      probabilities := defaults.weights;
    }

    /** The score of `number` under the current weights; zero when its
        length is below every provider's minimum or above every provider's
        maximum. */
    function CalculateProbabilityOfBeingACreditCard(number: string): (score: real)
      reads this
      requires Valid()
      ensures TooShort(refs, |number|) || TooLong(refs, |number|) ==> score == 0.0
      ensures score == Score(probabilities, refs, number)
    {
      Score(probabilities, refs, number)
    }

    /** A length-only gate: some provider issues numbers of this length. */
    function IsPossibleToBeACreditCard(number: string): (possible: bool)
      reads this
      ensures possible ==> !TooShort(refs, |number|) && !TooLong(refs, |number|)
    {
      AcceptedLength(refs, |number|)
    }

    /** Surely a card exactly when the score is strictly above the threshold
        (the default one when `threshold` is None); a score equal to the
        threshold is not enough. */
    function IsSurelyACreditCardNumber(number: string, threshold: Option<real>): (sure: bool)
      reads this
      requires Valid()
      ensures sure <==> Score(probabilities, refs, number) > EffectiveThreshold(threshold, defaultThreshold)
    {
      CalculateProbabilityOfBeingACreditCard(number) > EffectiveThreshold(threshold, defaultThreshold)
    }

    /** Merges `update` into the weight table when every one of its keys is
        permitted and reports whether it did; an update with any other key
        changes nothing. */
    method SetProbabilities(update: map<string, real>) returns (ok: bool)
      requires Valid()
      modifies this
      ensures Valid()
      ensures ok <==> update.Keys <= PermittedKeys
      ensures ok ==> probabilities == old(probabilities) + update
      ensures ok ==> forall k :: k in update ==> k in probabilities && probabilities[k] == update[k]
      ensures ok ==> forall k :: k in old(probabilities) && k !in update ==> probabilities[k] == old(probabilities)[k]
      ensures !ok ==> probabilities == old(probabilities)
    {
      ok := KeysPermitted(update);
      if ok {
        probabilities := probabilities + update;
      }
    }
  }

  /** A number that scores zero is never surely a card, neither for a
      non-negative threshold such as 0 nor for the default threshold. */
  lemma ZeroScoreNeverSure(v: CardNumberValidator, number: string, threshold: real)
    requires v.Valid() && threshold >= 0.0
    requires v.CalculateProbabilityOfBeingACreditCard(number) == 0.0
    ensures !v.IsSurelyACreditCardNumber(number, Some(threshold))
    ensures !v.IsSurelyACreditCardNumber(number, None)
  {
  }

  /** The scoring rows: '123' and a 20-digit string score 0, MasterCard's
      test number scores 190. */
  method ScoreRows(defaults: Defaults) returns (scores: seq<real>)
    requires Plausible(defaults)
    ensures scores == [0.0, 0.0, 190.0]
  {
    var v := new CardNumberValidator(defaults);
    DefaultScores(defaults, "123");
    DefaultScores(defaults, "12345678901234567890");
    var a := v.CalculateProbabilityOfBeingACreditCard("123");
    var b := v.CalculateProbabilityOfBeingACreditCard("12345678901234567890");
    var c := v.CalculateProbabilityOfBeingACreditCard(MasterCardTestNumber);
    scores := [a, b, c];
  }

  /** The surety rows: '123' (too short) and a 20-digit string (too long)
      are never surely cards, with the default threshold or 0; MasterCard's
      test number is surely a card with the default threshold and with
      189.99, but not with 190, 190.01 or 200. */
  method IsSurelyRows(defaults: Defaults) returns (answers: seq<bool>)
    requires Plausible(defaults)
    ensures answers == [false, false, false, false, true, false, false, false, true]
  {
    var v := new CardNumberValidator(defaults);
    DefaultScores(defaults, "123");
    DefaultScores(defaults, "12345678901234567890");
    var tooShort, tooLong := "123", "12345678901234567890";
    answers := [
      v.IsSurelyACreditCardNumber(tooShort, None),
      v.IsSurelyACreditCardNumber(tooShort, Some(0.0)),
      v.IsSurelyACreditCardNumber(tooLong, None),
      v.IsSurelyACreditCardNumber(tooLong, Some(0.0)),
      v.IsSurelyACreditCardNumber(MasterCardTestNumber, None),
      v.IsSurelyACreditCardNumber(MasterCardTestNumber, Some(200.0)),
      v.IsSurelyACreditCardNumber(MasterCardTestNumber, Some(190.0)),
      v.IsSurelyACreditCardNumber(MasterCardTestNumber, Some(190.01)),
      v.IsSurelyACreditCardNumber(MasterCardTestNumber, Some(189.99))
    ];
  }

  /** The update rows, applied in order to one validator: {} is accepted, an
      update with the unknown key 'foo' is refused even beside a valid key,
      and updates of one key and of all four keys are accepted; the table
      that is left holds exactly the pairs of the last update. */
  method SetProbabilitiesRows(defaults: Defaults) returns (answers: seq<bool>, table: map<string, real>)
    requires Plausible(defaults)
    ensures answers == [true, false, false, true, true]
    ensures table == map[LuhnKey := 80.0, TestNumbersKey := 91.0, ProvidersKey := 19.0, LengthKey := 5.0]
  {
    var v := new CardNumberValidator(defaults);
    var a := v.SetProbabilities(map[]);
    assert v.probabilities == defaults.weights;
    assert |"foo"| == 3 && "foo" !in PermittedKeys;
    var b := v.SetProbabilities(map["foo" := 123.0]);
    var c := v.SetProbabilities(map[LuhnKey := 80.0, "foo" := 123.0]);
    assert v.probabilities == defaults.weights;
    var d := v.SetProbabilities(map[LuhnKey := 80.0]);
    var all := map[LuhnKey := 80.0, TestNumbersKey := 91.0, ProvidersKey := 19.0, LengthKey := 5.0];
    var e := v.SetProbabilities(all);
    answers := [a, b, c, d, e];
    table := v.probabilities;
  }

  /** With all four weights replaced by 80, 91, 19 and 5, MasterCard's test
      number, which passes every check, scores their sum. */
  method ScoreAfterUpdate(defaults: Defaults) returns (score: real)
    requires Plausible(defaults)
    ensures score == 195.0
  {
    var v := new CardNumberValidator(defaults);
    var all := map[LuhnKey := 80.0, TestNumbersKey := 91.0, ProvidersKey := 19.0, LengthKey := 5.0];
    var ok := v.SetProbabilities(all);
    assert v.probabilities == all;
    MasterCardPassesEveryCheck(defaults);
    ScoreBounds(all, defaults.refs, MasterCardTestNumber);
    score := v.CalculateProbabilityOfBeingACreditCard(MasterCardTestNumber);
  }
}
