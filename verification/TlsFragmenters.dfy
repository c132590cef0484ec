/** The two fragmenters side by side. */
module TlsFragmenters {
  import opened Bytes
  import opened TlsRecord
  import opened RecordLenWriter
  import opened HelloWriter

  /** Two writers that have accepted the same input, in whatever chunks, by Write or ReadFrom, and owe
      nothing: if the callback looks only at the length of the record, the buffering one has sent what
      the streaming one has sent once the first record is settled, and nothing before. Then they agree
      only until the header is there. */
  lemma WritersAgree(streaming: RecordLenFragWriter, buffering: HelloFragWriter)
    requires streaming.Valid() && streaming.Owed() == []
    requires buffering.Waiting() || buffering.Passing()
    requires !buffering.gaveUp && buffering.accepted == streaming.Accepted()
    requires forall content: seq<byte> :: buffering.frag(content) == streaming.frag(|content|)
    ensures buffering.base.out <= streaming.base.out
    ensures buffering.Waiting() <==> !Settled(buffering.accepted)
    ensures buffering.Waiting() ==> buffering.base.out == []
    ensures buffering.base.out == streaming.base.out <==> Settled(buffering.accepted) || |buffering.accepted| < HEADER_LEN
  {
    streaming.OutIsAFunctionOfTheInput();
    assert streaming.base.out + [] == streaming.base.out;
    if buffering.Waiting() {
      StillWaiting(buffering.frag, buffering.accepted, buffering.helloBuf.data.Length, buffering.helloBuf.invalid);
      NotSettled(buffering.accepted, buffering.helloBuf.data.Length, buffering.helloBuf.invalid);
    }
    StreamingRefinesBuffering(streaming.frag, buffering.frag, buffering.accepted);
  }
}
