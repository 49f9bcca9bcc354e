/** Extracting the assistant's response from a full query
    (`get_response_from_query` in examples/scripts/math_verifier.py). */
module Extraction {
  import opened Text
  import opened Templates

  /** Deletes every occurrence of each marker of `ms`, one marker after the
      other in list order; a string holding none of them is left as it is. */
  function RemoveMarkers(s: string, ms: seq<string>): (r: string)
    requires forall m :: m in ms ==> |m| > 0
    ensures |r| <= |s|
    ensures (forall m :: m in ms ==> !Contains(s, m)) ==> r == s
    decreases |ms|
  {
    if ms == [] then s
    else RemoveAll(RemoveMarkers(s, ms[..|ms| - 1]), ms[|ms| - 1])
  }

  /** Extraction with assistant prefix `p` and end markers `ends`: `None`
      when the prefix is absent, otherwise the text after its first
      occurrence with the markers deleted and surrounding whitespace
      stripped. */
  function Extract(p: string, ends: seq<string>, q: string): Option<string>
    requires forall m :: m in ends ==> |m| > 0
  {
    match FindFirst(q, p)
    case None => None
    case Some(k) => Some(Strip(RemoveMarkers(q[k + |p|..], ends)))
  }

  /** What `get_response_from_query` returns under template `t`. */
  function ExtractResponse(t: Template, q: string): Option<string> {
    EndMarkersNonEmpty();
    Extract(ResponsePrefix(t), EndMarkers, q)
  }

  /** `get_response_from_query`: search the prefix, keep what follows it,
      delete the end markers, strip. */
  method GetResponseFromQuery(t: Template, q: string) returns (r: Option<string>)
    ensures r == ExtractResponse(t, q)
  {
    var prefix := ResponsePrefix(t);
    var pos := FindFirst(q, prefix);
    if pos.None? {
      return None;
    }
    var response := RemoveEndMarkers(q[pos.value + |prefix|..]);
    return Some(Strip(response));
  }

  /** The loop of `get_response_from_query` that deletes each end marker in
      turn. */
  method RemoveEndMarkers(s: string) returns (response: string)
    ensures response == RemoveMarkers(s, EndMarkers)
  {
    response := s;
    var ends := EndMarkers;
    EndMarkersNonEmpty();
    for i := 0 to |ends|
      invariant response == RemoveMarkers(s, ends[..i])
    {
      assert ends[..i + 1][..i] == ends[..i];
      response := RemoveAll(response, ends[i]);
    }
    assert ends[..|ends|] == ends;
  }

  /** Extraction fails exactly when the prefix is absent, and a response
      never starts or ends with whitespace. */
  lemma ExtractResult(p: string, ends: seq<string>, q: string)
    requires forall m :: m in ends ==> |m| > 0
    ensures Extract(p, ends, q).None? <==> !Contains(q, p)
    ensures match Extract(p, ends, q)
      case None => true
      case Some(r) => r == [] || (!IsWhitespace(r[0]) && !IsWhitespace(r[|r| - 1]))
  {
  }

  /** Only the text after the first occurrence of the prefix matters: a
      query `a + p + b` whose first prefix starts at `|a|` yields `b`
      cleaned. */
  lemma ExtractAfterFirst(p: string, ends: seq<string>, q: string, a: string, b: string)
    requires forall m :: m in ends ==> |m| > 0
    requires q == a + p + b
    requires forall i: nat :: i < |a| ==> !OccursAt(q, i, p)
    ensures Extract(p, ends, q) == Some(Strip(RemoveMarkers(b, ends)))
  {
    assert OccursAt(q, |a|, p) by { assert q[|a|..|a| + |p|] == p; }
    assert q[|a| + |p|..] == b;
  }

  /** When the text after the prefix holds no end marker, the response is
      that text with surrounding whitespace stripped. */
  lemma ExtractMarkerFree(p: string, ends: seq<string>, q: string, k: nat)
    requires forall m :: m in ends ==> |m| > 0
    requires FindFirst(q, p) == Some(k)
    requires forall m :: m in ends ==> !Contains(q[k + |p|..], m)
    ensures Extract(p, ends, q) == Some(Strip(q[k + |p|..]))
  {
  }

  /** A chat-markup query whose assistant turn `c` is closed by the
      end-of-turn marker yields `c` stripped, provided the prefix first
      occurs right after the user part `u` and `c` holds no end marker. */
  lemma ChatTurnExtract(q: string, u: string, c: string)
    requires q == u + ResponsePrefix(ChatML) + c + ImEnd
    requires forall i: nat :: i < |u| ==> !OccursAt(q, i, ResponsePrefix(ChatML))
    requires forall m :: m in EndMarkers ==> !Contains(c, m)
    ensures ExtractResponse(ChatML, q) == Some(Strip(c))
  {
    assert q == u + ResponsePrefix(ChatML) + (c + ImEnd);
    EndMarkersNonEmpty();
    ExtractAfterFirst(ResponsePrefix(ChatML), EndMarkers, q, u, c + ImEnd);
    TurnMarkersRemoved(c);
  }

  /** The end-of-turn marker closing a marker-free turn is all that the
      marker deletion takes away. */
  lemma TurnMarkersRemoved(c: string)
    requires forall m :: m in EndMarkers ==> !Contains(c, m)
    ensures RemoveMarkers(c + ImEnd, EndMarkers) == c
  {
    ImEndLeadUnique();
    RemoveAllTail(c, ImEnd);
    EndMarkersNonEmpty();
    assert EndMarkers[..1][..0] == [] && EndMarkers[..1][0] == ImEnd;
    assert RemoveMarkers(c + ImEnd, EndMarkers[..1]) == c;
    assert EndMarkers[..2][..1] == EndMarkers[..1] && EndMarkers[..2][1] == EndOfSentence;
    assert RemoveMarkers(c + ImEnd, EndMarkers[..2]) == c;
    assert EndMarkers[..2] == EndMarkers[..|EndMarkers| - 1];
  }

  lemma ImEndLeadUnique()
    ensures LeadUnique(ImEnd)
  {
    forall k | 0 < k < |ImEnd|
      ensures ImEnd[k] != ImEnd[0]
    {
      assert k in {1, 2, 3, 4, 5, 6, 7, 8, 9};
    }
  }
}
