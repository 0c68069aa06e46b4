/**
 * A worked example of the chunker: an invoice of four sentences whose topic
 * changes once, between the second and the third.
 */
module ChunkingExample {
  import opened Wrappers
  import opened Sentences
  import opened Chunking

  lemma InvoiceSentence0() ensures IsSentence("Invoice #1 dated Jan 1.") {}
  lemma InvoiceSentence1() ensures IsSentence("Total is $10.") {}
  lemma InvoiceSentence2() ensures IsSentence("Payment due in 30 days.") {}
  lemma InvoiceSentence3() ensures IsSentence("Late fee applies.") {}

  /** Four sentences, each of the first three ending with `.`, `!` or `?`, can be rejoined. */
  lemma FourRejoinable(s0: string, s1: string, s2: string, s3: string)
    requires IsSentence(s0) && IsSentence(s1) && IsSentence(s2) && IsSentence(s3)
    requires IsTerminator(s0[|s0| - 1]) && IsTerminator(s1[|s1| - 1]) && IsTerminator(s2[|s2| - 1])
    ensures Rejoinable([s0, s1, s2, s3])
  {
  }

  /**
   * With similar first and second, dissimilar second and third, and similar third
   * and fourth sentences, the invoice is cut into two chunks of two sentences where
   * its topic changes. The text is written as its sentences joined by single spaces.
   */
  lemma InvoiceExample(similar: (string, string) -> bool)
    requires similar("Invoice #1 dated Jan 1.", "Total is $10.")
    requires !similar("Total is $10.", "Payment due in 30 days.")
    requires similar("Payment due in 30 days.", "Late fee applies.")
    ensures ChunkTextSpec("Invoice #1 dated Jan 1." + " " + "Total is $10." + " " +
                          "Payment due in 30 days." + " " + "Late fee applies.",
                          DEFAULT_CHUNK_SIZE, similar)
      == Ok([ChunkInfo("Invoice #1 dated Jan 1." + " " + "Total is $10.", 0, 0, 37, 2),
             ChunkInfo("Payment due in 30 days." + " " + "Late fee applies.", 1, 38, 79, 2)])
  {
    var s0, s1, s2, s3 := "Invoice #1 dated Jan 1.", "Total is $10.", "Payment due in 30 days.", "Late fee applies.";
    InvoiceSentence0();
    InvoiceSentence1();
    InvoiceSentence2();
    InvoiceSentence3();
    FourRejoinable(s0, s1, s2, s3);
    var ss := [s0, s1, s2, s3];
    TwoTopics(ss, DEFAULT_CHUNK_SIZE, similar);
    JoinFour(s0, s1, s2, s3);
    JoinSpaceSnoc([s0], s1);
    JoinSpaceSnoc([s2], s3);
    TwoChunkInfos([s0, s1], [s2, s3], s0 + " " + s1, s2 + " " + s3);
  }
}
