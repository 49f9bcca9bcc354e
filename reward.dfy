/** Scoring a batch (`verify_math` and `reward_func` in
    examples/scripts/math_verifier.py). The LaTeX parser and the symbolic
    equivalence check are external; they are handed in as a `Backend`. */
module Reward {
  import opened Text
  import opened Templates
  import opened Format
  import opened Extraction

  /** What a call of the external `verify` does: return a verdict or raise. */
  datatype Outcome = Returned(equivalent: bool) | Raised

  /** The external mathematics library, over parsed expressions of type `E`:
      `parseGold` is `parse` with the default LaTeX extraction,
      `parseAnswer` is `parse` with the strict boxed-first configuration,
      `verify` compares a parsed answer with a parsed gold solution. */
  datatype Backend<!E> = Backend(
    parseGold: string -> seq<E>,
    parseAnswer: string -> seq<E>,
    verify: (seq<E>, seq<E>) -> Outcome)

  /** The bonus for a well-formatted response. */
  const FormatBonus: real := 0.2

  /** `verify_math(content, sol)`: 0 when the gold solution yields no
      expression or the comparison raises, otherwise 1 or 0 as `verify`
      decides. */
  function VerifyMath<E>(b: Backend<E>, content: string, sol: string): (r: real)
    ensures r == 0.0 || r == 1.0
  {
    var gold := b.parseGold(sol);
    if |gold| != 0 then
      match b.verify(b.parseAnswer(content), gold)
      case Returned(equivalent) => if equivalent then 1.0 else 0.0
      case Raised => 0.0
    else 0.0
  }

  /** `get_response_from_query(q) or q`: the extracted response, or the whole
      query when extraction finds nothing or only an empty string. */
  function ScoredResponse(t: Template, q: string): string {
    OrElse(ExtractResponse(t, q), q)
  }

  /** Python's `e or q` for an optional string `e`: `None` and the empty
      string are both falsy. */
  function OrElse(e: Option<string>, q: string): string {
    match e
    case Some(r) => if r != [] then r else q
    case None => q
  }

  /** The format component: 0.2 for a well-formatted response, else 0. */
  function FormatReward(response: string): (r: real)
    ensures r == 0.0 || r == FormatBonus
  {
    if VerifyFormat(response) then FormatBonus else 0.0
  }

  /** The reward of one query with its gold answer. */
  function ItemReward<E>(b: Backend<E>, t: Template, q: string, answer: string): (r: real)
    ensures r == 0.0 || r == FormatBonus || r == 1.0 || r == 1.0 + FormatBonus
  {
    var response := ScoredResponse(t, q);
    FormatReward(response) + VerifyMath(b, response, answer)
  }

  function Min3(a: nat, b: nat, c: nat): nat {
    if a <= b && a <= c then a else if b <= c then b else c
  }

  /** The body of the loop in `reward_func` for one query and its gold
      answer: extract with fallback, then add the two components. */
  method ScoreItem<E>(b: Backend<E>, t: Template, q: string, answer: string) returns (reward: real)
    ensures reward == ItemReward(b, t, q, answer)
  {
    var extracted := GetResponseFromQuery(t, q);
    var response := if extracted.Some? && extracted.value != [] then extracted.value else q;
    assert response == ScoredResponse(t, q);
    var formatReward := FormatReward(response);
    var accReward := VerifyMath(b, response, answer);
    reward := formatReward + accReward;
    assert reward == FormatReward(ScoredResponse(t, q)) + VerifyMath(b, ScoredResponse(t, q), answer);
  }

  /** Scores of two lists taken position by position under `score`, as a
      loop over `zip` of equally long lists produces them. */
  function ZipWith(score: (string, string) -> real, qs: seq<string>, answers: seq<string>): (r: seq<real>)
    requires |qs| == |answers|
    ensures |r| == |qs|
  {
    if qs == [] then []
    else ZipWith(score, qs[..|qs| - 1], answers[..|qs| - 1]) + [score(qs[|qs| - 1], answers[|qs| - 1])]
  }

  /** Position `i` of the zipped scores is the score of the `i`-th pair,
      whatever the other positions hold. */
  lemma {:induction false} ZipWithAt(score: (string, string) -> real, qs: seq<string>, answers: seq<string>, i: nat)
    requires |qs| == |answers| && i < |qs|
    ensures ZipWith(score, qs, answers)[i] == score(qs[i], answers[i])
  {
    var n := |qs| - 1;
    if i < n {
      ZipWithAt(score, qs[..n], answers[..n], i);
    }
  }

  /** Extending both lists by one position appends that position's score. */
  lemma ZipWithSnoc(score: (string, string) -> real, qs: seq<string>, answers: seq<string>, i: nat)
    requires i < |qs| && i < |answers|
    ensures ZipWith(score, qs[..i + 1], answers[..i + 1])
         == ZipWith(score, qs[..i], answers[..i]) + [score(qs[i], answers[i])]
  {
    assert qs[..i + 1][..i] == qs[..i] && answers[..i + 1][..i] == answers[..i];
  }

  /** The rewards of a batch of queries with their gold answers. */
  function Scores<E>(b: Backend<E>, t: Template, qs: seq<string>, answers: seq<string>): (r: seq<real>)
    requires |qs| == |answers|
  {
    ZipWith((q, a) => ItemReward(b, t, q, a), qs, answers)
  }

  /** Position `i` of the batch rewards is the reward of the `i`-th query
      with the `i`-th answer, whatever the other positions hold. */
  lemma ScoresAt<E>(b: Backend<E>, t: Template, qs: seq<string>, answers: seq<string>, i: nat)
    requires |qs| == |answers| && i < |qs|
    ensures |Scores(b, t, qs, answers)| == |qs|
    ensures Scores(b, t, qs, answers)[i] == ItemReward(b, t, qs[i], answers[i])
  {
    ZipWithAt((q, a) => ItemReward(b, t, q, a), qs, answers, i);
  }

  /** `reward_func`: walks the three lists in step, as `zip` does, stopping
      at the shortest, and appends one reward per position. The prompts are
      only ever logged, so no reward depends on them. */
  method RewardFunc<E>(b: Backend<E>, t: Template, queries: seq<string>, prompts: seq<string>, labels: seq<string>)
    returns (rewards: seq<real>)
    ensures |rewards| == Min3(|queries|, |prompts|, |labels|)
    ensures rewards == Scores(b, t, queries[..|rewards|], labels[..|rewards|])
  {
    var n := Min3(|queries|, |prompts|, |labels|);
    rewards := [];
    for i := 0 to n
      invariant rewards == Scores(b, t, queries[..i], labels[..i])
    {
      var reward := ScoreItem(b, t, queries[i], labels[i]);
      ZipWithSnoc((q, a) => ItemReward(b, t, q, a), queries, labels, i);
      rewards := rewards + [reward];
    }
  }

  /** The scored response falls back to the whole query exactly when
      extraction fails or yields the empty string. */
  lemma FallbackToQuery(t: Template, q: string)
    ensures ScoredResponse(t, q) == q <==>
      (!Contains(q, ResponsePrefix(t)) || ExtractResponse(t, q) == Some([]) || ExtractResponse(t, q) == Some(q))
    ensures !Contains(q, ResponsePrefix(t)) ==> ScoredResponse(t, q) == q
    ensures ExtractResponse(t, q).Some? && ExtractResponse(t, q).value != [] ==>
      ScoredResponse(t, q) == ExtractResponse(t, q).value
  {
  }

  /** A well-formatted extracted response earns the bonus, and the answer
      is judged on that response, not on the whole query. */
  lemma FormattedResponseReward<E>(b: Backend<E>, t: Template, q: string, answer: string, r: string)
    requires ExtractResponse(t, q) == Some(r) && VerifyFormat(r)
    ensures ScoredResponse(t, q) == r
    ensures ItemReward(b, t, q, answer) == FormatBonus + VerifyMath(b, r, answer)
    ensures ItemReward(b, t, q, answer) >= FormatBonus
  {
    assert r != [] by {
      FormatFrame(r);
    }
    assert ScoredResponse(t, q) == r;
    assert FormatReward(r) == FormatBonus;
  }

  /** A chat-markup query whose assistant turn is a well-formatted response
      closed by the end-of-turn marker scores the bonus plus the accuracy of
      exactly that response. */
  lemma ChatTurnReward<E>(b: Backend<E>, q: string, u: string, c: string, answer: string)
    requires q == u + ResponsePrefix(ChatML) + c + ImEnd
    requires forall i: nat :: i < |u| ==> !OccursAt(q, i, ResponsePrefix(ChatML))
    requires forall m :: m in EndMarkers ==> !Contains(c, m)
    requires VerifyFormat(c)
    ensures ItemReward(b, ChatML, q, answer) == FormatBonus + VerifyMath(b, c, answer)
  {
    ChatTurnExtract(q, u, c);
    FormattedIsStripped(c);
    FormattedResponseReward(b, ChatML, q, answer, c);
  }

  /** Each reward is the format component plus the accuracy component; the
      accuracy component is 0 when the gold parse is empty or `verify`
      raises, and otherwise the verdict of `verify`. */
  lemma RewardComposition<E>(b: Backend<E>, t: Template, q: string, answer: string)
    ensures var response := ScoredResponse(t, q);
      var gold := b.parseGold(answer);
      var outcome := b.verify(b.parseAnswer(response), gold);
      && ItemReward(b, t, q, answer) == FormatReward(response) + VerifyMath(b, response, answer)
      && (FormatReward(response) == FormatBonus <==> VerifyFormat(response))
      && (|gold| == 0 || outcome.Raised? ==> VerifyMath(b, response, answer) == 0.0)
      && (|gold| != 0 && outcome.Returned? ==>
            VerifyMath(b, response, answer) == if outcome.equivalent then 1.0 else 0.0)
  {
  }
}
