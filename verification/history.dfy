/**
 * The conversation window handed to the retrieval chain:
 * `chat_history[-n:]` with Python's slice semantics, where `n` is the
 * `history` query parameter (default 5).
 */
module History {

  /** One (question, answer) pair as read from the chat log. */
  datatype Turn = Turn(question: string, answer: string)

  const DefaultWindow: int := 5

  /**
   * Python's `xs[start:]`: a negative start counts from the end, and both
   * ends are clamped. Whatever the start, the result is a contiguous tail of
   * `xs`, so no element is reordered or invented.
   */
  function SliceFrom<T>(xs: seq<T>, start: int): (r: seq<T>)
    ensures |r| <= |xs|
    ensures r == xs[|xs| - |r|..]
    ensures forall i :: 0 <= i < |r| ==> r[i] == xs[|xs| - |r| + i]
    ensures 0 <= start ==> |r| == (if start < |xs| then |xs| - start else 0)
    ensures start < 0 ==> |r| == (if -start < |xs| then -start else |xs|)
  {
    var from :=
      if start < 0 then (if start + |xs| < 0 then 0 else start + |xs|)
      else if start > |xs| then |xs|
      else start;
    xs[from..]
  }

  /**
   * `history[-n:]`. For a positive `n` it is the last `min(n, |history|)`
   * turns in their original order; `n = 0` gives the whole history, since
   * `-0` is 0; a negative `n` drops the first `-n` turns.
   */
  function Window<T>(history: seq<T>, n: int): (w: seq<T>)
    ensures |w| <= |history|
    ensures n > 0 ==> |w| == (if n < |history| then n else |history|)
    ensures forall i :: 0 <= i < |w| ==> w[i] == history[|history| - |w| + i]
    ensures n == 0 ==> w == history
    ensures n < 0 ==> w == history[(if -n < |history| then -n else |history|)..]
  {
    SliceFrom(history, -n)
  }

  /** The default window never holds more than five turns, and holds all of a shorter history. */
  lemma DefaultWindowBound<T>(history: seq<T>)
    ensures |Window(history, DefaultWindow)| <= 5
    ensures |history| <= 5 ==> Window(history, DefaultWindow) == history
  {
  }
}
