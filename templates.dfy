/** The prompt-template conventions (`prompt_template` and `response_prefix`
    in examples/scripts/math_verifier.py) and the end-of-sequence markers
    stripped from a response. */
module Templates {

  /** The three conventions the script knows: chat markup, the
      fullwidth-bar assistant tag, and plain `User:`/`Assistant:` text. */
  datatype Template = ChatML | Qwen1 | Base

  /** The convention the script is configured with. */
  const Configured: Template := ChatML

  /** The literal that starts the assistant's turn. Each of the source's
      patterns is made only of literal characters (the `|` are escaped), so
      a regex search for it is a substring search. */
  function ResponsePrefix(t: Template): (p: string)
    ensures |p| > 0
  {
    match t
    case ChatML => "<|im_start|>assistant\n"
    case Qwen1 => "<\U{FF5C}Assistant\U{FF5C}>"
    case Base => "Assistant: "
  }

  const ImEnd: string := "<|im_end|>"
  const EndOfSentence: string := "<\U{FF5C}end\U{2581}of\U{2581}sentence\U{FF5C}>"
  const EndOfText: string := "<|endoftext|>"

  /** The end-of-sequence markers, in the order they are removed. */
  const EndMarkers: seq<string> := [ImEnd, EndOfSentence, EndOfText]

  /** Every marker is non-empty. */
  lemma EndMarkersNonEmpty()
    ensures forall m :: m in EndMarkers ==> |m| > 0
  {
  }
}
