/** Properties of the sentinel error kinds of types.go. */
module PdfParserErrors {
  import opened Wrappers
  import opened PdfParser

  /** Each kind's message maps back to that kind: the reported text identifies the error. */
  lemma MessageRoundTrip(e: ParseError)
    ensures KindOfMessage(Message(e)) == Some(e)
  {
  }

  /** A message that names a kind is exactly that kind's message. */
  lemma KindOfMessageSound(m: string)
    ensures KindOfMessage(m).Some? ==> m == Message(KindOfMessage(m).value)
  {
  }

  /** The nine kinds are pairwise distinct, and so are their messages. */
  lemma MessagesDistinct(a: ParseError, b: ParseError)
    ensures a != b ==> Message(a) != Message(b)
  {
  }
}
