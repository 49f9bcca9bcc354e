# Math reward verifier — Dafny model

This project models the reward function of `examples/scripts/math_verifier.py`,
a reward server used to train a language model on mathematics problems. The
model and its properties are checked by the Dafny verifier. For every
(query, prompt, gold answer) triple the script does four things:

1. It cuts the assistant's response out of the full query text. It finds the
   first occurrence of the template's assistant prefix, keeps what follows,
   deletes the three end-of-sequence markers one after the other, and strips
   surrounding whitespace (`get_response_from_query`). When extraction fails,
   or yields the empty string, the whole query is used instead.
2. It awards a 0.2 format bonus when the response is exactly
   `<think>X</think><answer>Y</answer>`, as judged by the pattern
   `format_pattern` together with two occurrence counts (`verify_format`).
3. It adds an accuracy score of 1 or 0 from an external LaTeX parser and
   symbolic comparison (`verify_math`). The score is 0 when the gold solution
   does not parse or the comparison raises.
4. It returns one reward per position of the zipped inputs (`reward_func`).

Modules:

- `Text` (text.dfy) holds the Python string operations the script relies on,
  each over `seq<char>`:
  - the substring search that `re.search` performs for an all-literal pattern;
  - `str.count`;
  - `str.replace(w, "")`;
  - `str.strip()`, with Python's exact `str.isspace` character set.
- `Templates` (templates.dfy) holds the three prompt conventions and their
  assistant prefixes, and the end-of-sequence markers. The script fixes the
  convention at start-up; the model takes it as a parameter, and
  `Templates.Configured` records the script's choice, `ChatML`.
- `Extraction` (extraction.dfy) holds `get_response_from_query`.
  - `Extract` is extraction for any prefix and any list of end markers.
    `ExtractResponse` instantiates it with the template's prefix and the
    script's three markers.
  - `GetResponseFromQuery` is a method with the script's loop over the end
    markers, proved equal to `ExtractResponse`.
- `Format` (format.dfy) holds `verify_format`.
  - The pattern is modelled by a scanner that follows the regex engine
    character by character. Each repetition carries a negative lookahead for
    the closing tag, so the engine never has a choice to backtrack over.
  - The scanner is proved equivalent to the declarative reading: the string
    is `<think>` + X + `</think><answer>` + Y + `</answer>`, with no `</think>`
    in X and no `</answer>` in Y (`Format.FormatIff`).
- `Reward` (reward.dfy) holds `verify_math`, the per-item reward, and
  `reward_func`.
  - `parse` and `verify` are passed in as a `Backend` value, holding the two
    parse configurations and the comparison.
  - A call of `verify` either returns a verdict or raises.
  - `reward_func` is a method with the script's loop, proved equal to the
    function `Scores` over the zipped prefix. `Scores` scores the pairs
    position by position (`ZipWith`) with `ItemReward`.

Rewards are exact `real` numbers: 0.2, 1.0 and their sums.

The script's docstring for `verify_format` says an accepted response has
"exactly one pair" of think and answer tags. The code counts only the opening
tags. `Format.StrayClosingTagsAccepted` shows that a response holding two of
each closing tag is accepted: `</answer>` inside the think section, and
`</think>` inside the answer section. The model follows the code.

## Model

| member | source | states |
|---|---|---|
| `Templates.ResponsePrefix` | examples/scripts/math_verifier.py:13-21 | each template convention has a non-empty assistant prefix, the literal its escaped pattern matches |
| `Text.FindFirst` | examples/scripts/math_verifier.py:26 | the search finds nothing exactly when the word does not occur; otherwise it returns an occurrence with none before it |
| `Text.Count` | examples/scripts/math_verifier.py:42-43 | the non-overlapping count is zero exactly when the word does not occur |
| `Text.CountExactlyOne` | examples/scripts/math_verifier.py:42-43 | a word that occurs at exactly one position is counted once |
| `Text.CountOneUnique` | examples/scripts/math_verifier.py:42-43 | for a word that cannot overlap itself, a count of one means a single position holds it |
| `Text.CountConcat` | examples/scripts/math_verifier.py:42-43 | for a word that cannot overlap itself, the count over a seam that starts with the word's first character is the sum of the counts of the two parts |
| `Text.RemoveAll` | examples/scripts/math_verifier.py:31 | deleting a word never lengthens the string, and leaves a string without the word unchanged |
| `Text.RemoveAllLength` | examples/scripts/math_verifier.py:31 | deleting a word shortens the string by the word's length once for every occurrence `str.count` counts |
| `Text.RemoveAllTail` | examples/scripts/math_verifier.py:31 | a non-self-overlapping word appended to a string free of it is the only thing deleted |
| `Text.Strip` | examples/scripts/math_verifier.py:32 | the stripped string is no longer than the input, has no whitespace at either end, and equals the input when the input has none there |
| `Text.StripSlice` | examples/scripts/math_verifier.py:32 | the stripped string is a contiguous slice of the input, and everything cut off before and after it is whitespace |
| `Text.StripEmpty` | examples/scripts/math_verifier.py:32 | stripping leaves the empty string exactly when every character is whitespace |
| `Extraction.RemoveMarkers` | examples/scripts/math_verifier.py:30-31 | deleting the end markers in order never lengthens the text and leaves marker-free text unchanged |
| `Extraction.GetResponseFromQuery` | examples/scripts/math_verifier.py:24-32 | the loop over the end markers computes exactly `ExtractResponse`: no result without the prefix, otherwise the stripped, marker-free text after the first prefix |
| `Extraction.RemoveEndMarkers` | examples/scripts/math_verifier.py:30-31 | the loop deleting each end marker in turn computes the marker deletion over the three end markers in their listed order |
| `Extraction.ExtractResult` | examples/scripts/math_verifier.py:26-32 | for any prefix and any non-empty end markers, extraction yields no result exactly when the prefix is absent, and a result never starts or ends with whitespace |
| `Extraction.ExtractAfterFirst` | examples/scripts/math_verifier.py:26-29 | for any prefix, a query `a + prefix + b` with no prefix starting inside `a` yields `b` with the markers deleted and stripped, whatever `a` holds |
| `Extraction.ExtractMarkerFree` | examples/scripts/math_verifier.py:30-32 | when the text after the first prefix holds no end marker, the result is that text stripped |
| `Extraction.TurnMarkersRemoved` | examples/scripts/math_verifier.py:30-31 | a marker-free turn closed by the end-of-turn marker loses exactly that closing marker |
| `Extraction.ChatTurnExtract` | examples/scripts/math_verifier.py:24-32 | a chat query whose assistant turn is closed by the end-of-turn marker and holds no end marker yields that turn, stripped |
| `Format.FormatIff` | examples/scripts/math_verifier.py:42-44 | the format check passes exactly when the response decomposes as `<think>`X`</think><answer>`Y`</answer>` with no `</think>` in X and no `</answer>` in Y, and `<think>` and `<answer>` each occur once |
| `Format.PatternSound` | examples/scripts/math_verifier.py:11 | every string the pattern matches decomposes into a think section and an answer section |
| `Format.PatternComplete` | examples/scripts/math_verifier.py:11 | every such decomposition is matched by the pattern |
| `Format.DecompositionUnique` | examples/scripts/math_verifier.py:11 | a matched string determines its think and answer sections |
| `Format.ScanThinkFind` | examples/scripts/math_verifier.py:11 | the think repetition matches exactly when the rest of the pattern matches right after the first `</think>` |
| `Format.SectionCounts` | examples/scripts/math_verifier.py:42-43 | in a composed response each opening tag is counted once for its own position plus its occurrences inside the two sections |
| `Format.FormatBySections` | examples/scripts/math_verifier.py:42-44 | a well-laid-out response passes exactly when neither section holds `<think>` or `<answer>`, even though the pattern alone accepts them in the answer section |
| `Format.FormatFrame` | examples/scripts/math_verifier.py:36-38 | an accepted response is at least as long as the empty layout, starts with `<think>` and ends with `</answer>` |
| `Format.FormattedIsStripped` | examples/scripts/math_verifier.py:44 | an accepted response is unchanged by stripping |
| `Format.FormatAcceptsPlainSections` | examples/scripts/math_verifier.py:42-44 | any sections without a `<` character are accepted |
| `Format.EmptySectionsAccepted` | examples/scripts/math_verifier.py:44 | `<think></think><answer></answer>` is accepted |
| `Format.StrayClosingTagsAccepted` | examples/scripts/math_verifier.py:39-44 | closing tags are not counted: `</answer>` in the think section together with `</think>` in the answer section is accepted |
| `Format.TrailingTextRejected` | examples/scripts/math_verifier.py:11 | anything after an accepted response, a lone newline included, makes it fail |
| `Format.LeadingTextRejected` | examples/scripts/math_verifier.py:37 | anything before an accepted response makes it fail |
| `Format.GapRejected` | examples/scripts/math_verifier.py:40 | any text between `</think>` and `<answer>` makes the response fail |
| `Reward.VerifyMath` | examples/scripts/math_verifier.py:47-83 | the accuracy score is 0 or 1 |
| `Reward.RewardComposition` | examples/scripts/math_verifier.py:75-82 | the accuracy score is 0 when the gold parse is empty or `verify` raises, and otherwise the verdict of `verify` on the parsed answer and the parsed gold; the format component is the bonus exactly when the format check passes |
| `Reward.FormatReward` | examples/scripts/math_verifier.py:90 | the format component is 0 or 0.2 |
| `Reward.ItemReward` | examples/scripts/math_verifier.py:89-92 | one reward is 0, 0.2, 1 or 1.2 |
| `Reward.FallbackToQuery` | examples/scripts/math_verifier.py:89 | the whole query is scored exactly when extraction fails, yields the empty string, or yields the query itself; otherwise the extracted response is scored |
| `Reward.FormattedResponseReward` | examples/scripts/math_verifier.py:89-91 | a well-formatted extracted response is the one scored, and it earns the bonus plus its accuracy |
| `Reward.ChatTurnReward` | examples/scripts/math_verifier.py:86-92 | a chat query whose assistant turn is a well-formatted response closed by the end-of-turn marker scores 0.2 plus the accuracy of that turn |
| `Reward.ScoreItem` | examples/scripts/math_verifier.py:89-92 | one iteration of the loop body computes `ItemReward` |
| `Reward.ZipWith` | examples/scripts/math_verifier.py:88-92 | scoring two equally long lists position by position gives one score per position |
| `Reward.ZipWithAt` | examples/scripts/math_verifier.py:88-92 | the score at position i is the score of the i-th pair alone |
| `Reward.ZipWithSnoc` | examples/scripts/math_verifier.py:92 | appending a pair to both lists appends its score |
| `Reward.ScoresAt` | examples/scripts/math_verifier.py:87-92 | the batch rewards have one entry per query, and the reward at position i is `ItemReward` of the i-th query and the i-th gold answer alone |
| `Reward.RewardFunc` | examples/scripts/math_verifier.py:86-100 | the result is as long as the shortest of the three lists, and equals the batch specification over those prefixes; prompts do not affect it |

## Left out

- `parse` and `verify` from the mathematics library, with their extraction
  and normalization configurations, are not part of this model. They appear
  only as the function fields of a `Backend` value, so no property depends on
  what they compute.
- The `torch.tensor` conversion of the result is not modelled; the result is
  a sequence of exact reals.
- Floating-point arithmetic is not modelled: 0.2 and 1.2 are exact. The
  script adds 0.2 and 1.0 as binary floats.
- The diagnostic output is not modelled, since it has no effect on the
  returned rewards. This covers the `print` calls, the random 1-in-20
  sampling, and the `re.sub` redaction of the logged text.
- The problem patterns of each template are not modelled; the script never
  uses them.
- No general regular-expression engine is modelled. Only `format_pattern`
  and the three literal prefix patterns are.
- The process-wide template setting is a parameter of the model rather than
  a global. `Templates.Configured` records the script's `chatml`.
- `Reward.VerifyMath`: the model does not capture that the script returns
  the integer 0 on the failure branches and a float on the success branch.
  Both are summed into the same reward.
