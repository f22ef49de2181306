/**
 * The table of txtsanitize/txtsanitize_test.go, checked against the model.
 *
 * Each input and each expected value is written as the table's string cut
 * at its double quotes, so that every piece is a run of text without a
 * quote; a quoted input is written as its content between two quotes.  For
 * each entry the lemma states the value TXTSanitize returns and that this
 * value is a fixed point.  The shape lemmas before the entries prove the
 * same for any pieces of the same layout.
 */
module TxtSanitizeTest {
  import opened TxtSanitize

  /** The bytes of a string whose characters are all below 0x100. */
  function Text(s: string): (r: seq<byte>)
    ensures |r| == |s|
  {
    seq(|s|, i requires 0 <= i < |s| => (s[i] as int % 0x100) as byte)
  }

  /** What the scan writes for a quote that follows a run of `k` backslashes. */
  function QuoteAfter(k: nat): seq<byte> {
    if k % 2 == 0 then [Backslash, Quote] else [Quote]
  }

  // ---------------------------------------------------------------------
  // The scan over pieces of text separated by quotes
  // ---------------------------------------------------------------------

  /** A first piece of text is copied as it is. */
  lemma ScanOne(t0: seq<byte>)
    requires Quote !in t0
    ensures EscapeQuotes(t0) == t0 && NewlyEscaped(t0) == 0
  {
    EscapeAppendText([], t0);
    assert [] + t0 == t0;
  }

  /** A quote and a piece of text after `a`: the quote is escaped after an even run. */
  lemma ScanStep(a: seq<byte>, t: seq<byte>)
    requires Quote !in t
    ensures EscapeQuotes(a + [Quote] + t) == EscapeQuotes(a) + QuoteAfter(BackslashRun(a)) + t
    ensures NewlyEscaped(a + [Quote] + t) == NewlyEscaped(a) + (if BackslashRun(a) % 2 == 0 then 1 else 0)
    ensures BackslashRun(a + [Quote] + t) == BackslashRun(t)
  {
    EscapeAppendQuote(a);
    EscapeAppendText(a + [Quote], t);
    assert (a + [Quote]) + t == a + [Quote] + t;
    BackslashRunAfter(a + [Quote], t);
  }

  /** Two pieces of text around a quote. */
  lemma ScanTwo(t0: seq<byte>, t1: seq<byte>)
    requires Quote !in t0 && Quote !in t1
    ensures EscapeQuotes(t0 + [Quote] + t1) == t0 + QuoteAfter(BackslashRun(t0)) + t1
    ensures NewlyEscaped(t0 + [Quote] + t1) == (if BackslashRun(t0) % 2 == 0 then 1 else 0)
    ensures BackslashRun(t0 + [Quote] + t1) == BackslashRun(t1)
  {
    ScanOne(t0);
    ScanStep(t0, t1);
  }

  /** Three pieces of text separated by two quotes. */
  lemma ScanThree(t0: seq<byte>, t1: seq<byte>, t2: seq<byte>)
    requires Quote !in t0 && Quote !in t1 && Quote !in t2
    ensures EscapeQuotes(t0 + [Quote] + t1 + [Quote] + t2)
         == t0 + QuoteAfter(BackslashRun(t0)) + t1 + QuoteAfter(BackslashRun(t1)) + t2
    ensures NewlyEscaped(t0 + [Quote] + t1 + [Quote] + t2)
         == (if BackslashRun(t0) % 2 == 0 then 1 else 0) + (if BackslashRun(t1) % 2 == 0 then 1 else 0)
    ensures BackslashRun(t0 + [Quote] + t1 + [Quote] + t2) == BackslashRun(t2)
  {
    ScanTwo(t0, t1);
    ScanStep(t0 + [Quote] + t1, t2);
  }

  /** Four pieces of text separated by three quotes. */
  lemma ScanFour(t0: seq<byte>, t1: seq<byte>, t2: seq<byte>, t3: seq<byte>)
    requires Quote !in t0 && Quote !in t1 && Quote !in t2 && Quote !in t3
    ensures EscapeQuotes(t0 + [Quote] + t1 + [Quote] + t2 + [Quote] + t3)
         == t0 + QuoteAfter(BackslashRun(t0)) + t1 + QuoteAfter(BackslashRun(t1)) + t2
            + QuoteAfter(BackslashRun(t2)) + t3
    ensures BackslashRun(t0 + [Quote] + t1 + [Quote] + t2 + [Quote] + t3) == BackslashRun(t3)
  {
    ScanThree(t0, t1, t2);
    ScanStep(t0 + [Quote] + t1 + [Quote] + t2, t3);
  }

  /** Five pieces of text separated by four quotes. */
  lemma ScanFive(t0: seq<byte>, t1: seq<byte>, t2: seq<byte>, t3: seq<byte>, t4: seq<byte>)
    requires Quote !in t0 && Quote !in t1 && Quote !in t2 && Quote !in t3 && Quote !in t4
    ensures EscapeQuotes(t0 + [Quote] + t1 + [Quote] + t2 + [Quote] + t3 + [Quote] + t4)
         == t0 + QuoteAfter(BackslashRun(t0)) + t1 + QuoteAfter(BackslashRun(t1)) + t2
            + QuoteAfter(BackslashRun(t2)) + t3 + QuoteAfter(BackslashRun(t3)) + t4
  {
    ScanFour(t0, t1, t2, t3);
    ScanStep(t0 + [Quote] + t1 + [Quote] + t2 + [Quote] + t3, t4);
  }

  /** A leading quote, always escaped, and a piece of text. */
  lemma ScanOpeningQuote(t1: seq<byte>)
    requires Quote !in t1
    ensures EscapeQuotes([Quote] + t1) == [Backslash, Quote] + t1
    ensures BackslashRun([Quote] + t1) == BackslashRun(t1)
  {
    ScanLoneQuote();
    EscapeAppendText([Quote], t1);
    BackslashRunAfter([Quote], t1);
  }

  /** A quote with nothing before it is escaped. */
  lemma ScanLoneQuote()
    ensures EscapeQuotes([Quote]) == [Backslash, Quote]
  {
    EscapeAppendQuote([]);
    assert [] + [Quote] == [Quote];
  }

  /** A quote, a piece of text, a quote and a piece of text. */
  lemma ScanLeadingQuote(t1: seq<byte>, t2: seq<byte>)
    requires Quote !in t1 && Quote !in t2
    ensures EscapeQuotes([Quote] + t1 + [Quote] + t2)
         == [Backslash, Quote] + t1 + QuoteAfter(BackslashRun(t1)) + t2
  {
    ScanOpeningQuote(t1);
    ScanStep([Quote] + t1, t2);
  }

  // ---------------------------------------------------------------------
  // TXTSanitize on the layouts of the table
  // ---------------------------------------------------------------------

  /** An unquoted value that ends in a quote: `t0"t1"`. */
  lemma SanitizedEndQuote(t0: seq<byte>, t1: seq<byte>)
    requires Quote !in t0 && Quote !in t1 && t0 != []
    ensures var s := t0 + [Quote] + t1 + [Quote];
            && Sanitized(s)
               == [Quote] + (t0 + QuoteAfter(BackslashRun(t0)) + t1 + QuoteAfter(BackslashRun(t1))) + [Quote]
            && Sanitized(Sanitized(s)) == Sanitized(s)
  {
    var a := t0 + [Quote] + t1;
    ScanTwo(t0, t1);
    EscapeAppendQuote(a);
    assert (a + [Quote])[0] == t0[0];
    SanitizedUnquoted(a + [Quote]);
  }

  /** An unquoted value that starts with a quote: `"t1"t2`. */
  lemma SanitizedStartQuote(t1: seq<byte>, t2: seq<byte>)
    requires Quote !in t1 && Quote !in t2 && t2 != []
    ensures var s := [Quote] + t1 + [Quote] + t2;
            && Sanitized(s)
               == [Quote] + ([Backslash, Quote] + t1 + QuoteAfter(BackslashRun(t1)) + t2) + [Quote]
            && Sanitized(Sanitized(s)) == Sanitized(s)
  {
    var s := [Quote] + t1 + [Quote] + t2;
    ScanLeadingQuote(t1, t2);
    assert s[|s| - 1] == t2[|t2| - 1];
    SanitizedUnquoted(s);
  }

  /** An unquoted value with four quotes inside: `t0"t1"t2"t3"t4`. */
  lemma SanitizedFourQuotes(t0: seq<byte>, t1: seq<byte>, t2: seq<byte>, t3: seq<byte>, t4: seq<byte>)
    requires Quote !in t0 && Quote !in t1 && Quote !in t2 && Quote !in t3 && Quote !in t4
    requires t0 != []
    ensures var s := t0 + [Quote] + t1 + [Quote] + t2 + [Quote] + t3 + [Quote] + t4;
            && Sanitized(s)
               == [Quote] + (t0 + QuoteAfter(BackslashRun(t0)) + t1 + QuoteAfter(BackslashRun(t1)) + t2
                  + QuoteAfter(BackslashRun(t2)) + t3 + QuoteAfter(BackslashRun(t3)) + t4) + [Quote]
            && Sanitized(Sanitized(s)) == Sanitized(s)
  {
    var s := t0 + [Quote] + t1 + [Quote] + t2 + [Quote] + t3 + [Quote] + t4;
    ScanFive(t0, t1, t2, t3, t4);
    assert s[0] == t0[0];
    SanitizedUnquoted(s);
  }

  /** A quoted value with one quote inside: `"t0"t1"`; at most one quote is escaped, so no rewrap. */
  lemma SanitizedQuotedOneQuote(t0: seq<byte>, t1: seq<byte>)
    requires Quote !in t0 && Quote !in t1
    ensures var s := [Quote] + (t0 + [Quote] + t1) + [Quote];
            && Sanitized(s) == [Quote] + (t0 + QuoteAfter(BackslashRun(t0)) + t1) + [Quote]
            && Sanitized(Sanitized(s)) == Sanitized(s)
  {
    var c := t0 + [Quote] + t1;
    ScanTwo(t0, t1);
    if BackslashRun(t0) % 2 == 0 {
      assert NewlyEscaped(c) == 1;
    } else {
      assert NewlyEscaped(c) == 0;
    }
    SanitizedQuotedPlain(c);
  }

  /**
   * A quoted value with two unescaped quotes inside: `"t0"t1"t2"`; both are
   * escaped, so the result is rewrapped, and it is a fixed point exactly
   * when `t2` does not end in an odd run of backslashes.
   */
  lemma SanitizedQuotedTwoQuotes(t0: seq<byte>, t1: seq<byte>, t2: seq<byte>)
    requires Quote !in t0 && Quote !in t1 && Quote !in t2
    requires BackslashRun(t0) % 2 == 0 && BackslashRun(t1) % 2 == 0
    ensures var s := [Quote] + (t0 + [Quote] + t1 + [Quote] + t2) + [Quote];
            && Sanitized(s)
               == [Quote] + ([Backslash, Quote] + (t0 + [Backslash, Quote] + t1 + [Backslash, Quote] + t2)
                  + [Backslash, Quote]) + [Quote]
            && (Sanitized(Sanitized(s)) == Sanitized(s) <==> BackslashRun(t2) % 2 == 0)
  {
    ScanThree(t0, t1, t2);
    SanitizedQuotedRewrapped(t0 + [Quote] + t1 + [Quote] + t2);
  }

  // ---------------------------------------------------------------------
  // The entries of the table
  // ---------------------------------------------------------------------

  /** embedded double quoted string */
  lemma EmbeddedQuotedVector()
    ensures var input := Text(@"asdf ") + [Quote] + Text(@" jkl ") + [Quote];
            var expected := [Quote] + (Text(@"asdf ") + [Backslash, Quote] + Text(@" jkl ") + [Backslash, Quote])
                            + [Quote];
            Sanitized(input) == expected && Sanitized(expected) == expected
  {
    EmbeddedQuotedPieces();
    SanitizedEndQuote(Text(@"asdf "), Text(@" jkl "));
  }

  lemma EmbeddedQuotedPieces()
    ensures Quote !in Text(@"asdf ") && BackslashRun(Text(@"asdf ")) == 0
    ensures Quote !in Text(@" jkl ") && BackslashRun(Text(@" jkl ")) == 0
  {
  }

  /** pre-escaped embedded double quote */
  lemma PreEscapedVector()
    ensures var input := [Quote] + (Text(@"i know what i'm doing \") + [Quote] + Text(@" right there")) + [Quote];
            var expected := [Quote] + (Text(@"i know what i'm doing \") + [Quote] + Text(@" right there")) + [Quote];
            Sanitized(input) == expected && Sanitized(expected) == expected
  {
    PreEscapedPieces();
    SanitizedQuotedOneQuote(Text(@"i know what i'm doing \"), Text(@" right there"));
  }

  lemma PreEscapedPieces()
    ensures Quote !in Text(@"i know what i'm doing \") && BackslashRun(Text(@"i know what i'm doing \")) == 1
    ensures Quote !in Text(@" right there")
  {
  }

  /** quoted escaped slash with raw double quote */
  lemma EscapedSlashVector()
    ensures var input := [Quote] + (Text(@"i don't know what i'm doing \\") + [Quote] + Text(@" right there"))
                         + [Quote];
            var expected := [Quote] + (Text(@"i don't know what i'm doing \\") + [Backslash, Quote]
                            + Text(@" right there")) + [Quote];
            Sanitized(input) == expected && Sanitized(expected) == expected
  {
    EscapedSlashPieces();
    SanitizedQuotedOneQuote(Text(@"i don't know what i'm doing \\"), Text(@" right there"));
  }

  lemma EscapedSlashPieces()
    ensures Quote !in Text(@"i don't know what i'm doing \\")
    ensures BackslashRun(Text(@"i don't know what i'm doing \\")) == 2
    ensures Quote !in Text(@" right there")
  {
  }

  /** The UTF-8 bytes of the two Thai letters of the unicode entry. */
  function ThaiPair(): seq<byte> {
    [0xE0, 0xB8, 0xA3, 0xE0, 0xB8, 0x87]
  }

  /** unicode sequence unmolested with embedded quotes */
  lemma UnicodeVector()
    ensures var input := [Quote] + (ThaiPair() + [Quote] + Text(@" is equal to ") + [Quote] + Text(@"\195\167"))
                         + [Quote];
            var expected := [Quote] + ([Backslash, Quote] + (ThaiPair() + [Backslash, Quote] + Text(@" is equal to ")
                            + [Backslash, Quote] + Text(@"\195\167")) + [Backslash, Quote]) + [Quote];
            Sanitized(input) == expected && Sanitized(expected) == expected
  {
    UnicodePieces();
    SanitizedQuotedTwoQuotes(ThaiPair(), Text(@" is equal to "), Text(@"\195\167"));
  }

  lemma UnicodePieces()
    ensures Quote !in ThaiPair() && BackslashRun(ThaiPair()) == 0
    ensures Quote !in Text(@" is equal to ") && BackslashRun(Text(@" is equal to ")) == 0
    ensures Quote !in Text(@"\195\167") && BackslashRun(Text(@"\195\167")) == 0
  {
  }

  /** beginning and ending quoted sequences */
  lemma QuotedEndsVector()
    ensures var input := [Quote] + (Text(@"foo") + [Quote] + Text(@" and other stuff ") + [Quote] + Text(@"bar"))
                         + [Quote];
            var expected := [Quote] + ([Backslash, Quote] + (Text(@"foo") + [Backslash, Quote]
                            + Text(@" and other stuff ") + [Backslash, Quote] + Text(@"bar")) + [Backslash, Quote])
                            + [Quote];
            Sanitized(input) == expected && Sanitized(expected) == expected
  {
    QuotedEndsPieces();
    SanitizedQuotedTwoQuotes(Text(@"foo"), Text(@" and other stuff "), Text(@"bar"));
  }

  lemma QuotedEndsPieces()
    ensures Quote !in Text(@"foo") && BackslashRun(Text(@"foo")) == 0
    ensures Quote !in Text(@" and other stuff ") && BackslashRun(Text(@" and other stuff ")) == 0
    ensures Quote !in Text(@"bar") && BackslashRun(Text(@"bar")) == 0
  {
  }

  /** empty */
  lemma EmptyVector()
    ensures Sanitized([]) == [Quote, Quote] && Sanitized([Quote, Quote]) == [Quote, Quote]
  {
    assert [Quote, Quote] == [Quote] + [] + [Quote];
    ContentsOfQuoted([]);
  }

  /** The pieces of the escapeception entry hold no quote. */
  lemma EscapeceptionPieces()
    ensures Quote !in Text(@"this \") && Quote !in Text(@" is escaped, this \\")
    ensures Quote !in Text(@" isn't, but this \\\") && Quote !in Text(@" is, but this \\\\")
    ensures Quote !in Text(@" isn't")
  {
    EscapeceptionHeadPieces();
    EscapeceptionTailPieces();
  }

  lemma EscapeceptionHeadPieces()
    ensures Quote !in Text(@"this \") && Quote !in Text(@" is escaped, this \\")
  {
  }

  lemma EscapeceptionTailPieces()
    ensures Quote !in Text(@" isn't, but this \\\") && Quote !in Text(@" is, but this \\\\")
    ensures Quote !in Text(@" isn't")
  {
    EscapeceptionThirdPiece();
  }

  lemma EscapeceptionThirdPiece()
    ensures Quote !in Text(@" isn't, but this \\\")
  {
  }

  /** The pieces of the escapeception entry end in one, two, three and four backslashes. */
  lemma EscapeceptionRuns()
    ensures BackslashRun(Text(@"this \")) == 1 && BackslashRun(Text(@" is escaped, this \\")) == 2
    ensures BackslashRun(Text(@" isn't, but this \\\")) == 3
    ensures BackslashRun(Text(@" is, but this \\\\")) == 4
  {
    EscapeceptionShortRuns();
    BackslashRunIs(Text(@" isn't, but this \\\"), 3);
    EscapeceptionLongRun();
  }

  lemma EscapeceptionShortRuns()
    ensures BackslashRun(Text(@"this \")) == 1 && BackslashRun(Text(@" is escaped, this \\")) == 2
  {
  }

  lemma EscapeceptionLongRun()
    ensures BackslashRun(Text(@" is, but this \\\\")) == 4
  {
    BackslashRunIs(Text(@" is, but this \\\\"), 4);
  }

  /** escapeception */
  lemma EscapeceptionVector()
    ensures var input := Text(@"this \") + [Quote] + Text(@" is escaped, this \\") + [Quote]
                         + Text(@" isn't, but this \\\") + [Quote] + Text(@" is, but this \\\\")
                         + [Quote] + Text(@" isn't");
            var expected := [Quote] + (Text(@"this \") + [Quote] + Text(@" is escaped, this \\")
                            + [Backslash, Quote] + Text(@" isn't, but this \\\") + [Quote]
                            + Text(@" is, but this \\\\") + [Backslash, Quote] + Text(@" isn't"))
                            + [Quote];
            Sanitized(input) == expected && Sanitized(expected) == expected
  {
    EscapeceptionPieces();
    EscapeceptionRuns();
    SanitizedFourQuotes(Text(@"this \"), Text(@" is escaped, this \\"), Text(@" isn't, but this \\\"),
      Text(@" is, but this \\\\"), Text(@" isn't"));
  }

  /** starts with quoted section */
  lemma StartsQuotedVector()
    ensures var input := [Quote] + Text(@"this is quoted") + [Quote] + Text(@" but the rest isn't");
            var expected := [Quote] + ([Backslash, Quote] + Text(@"this is quoted") + [Backslash, Quote]
                            + Text(@" but the rest isn't")) + [Quote];
            Sanitized(input) == expected && Sanitized(expected) == expected
  {
    StartsQuotedPieces();
    SanitizedStartQuote(Text(@"this is quoted"), Text(@" but the rest isn't"));
  }

  lemma StartsQuotedPieces()
    ensures Quote !in Text(@"this is quoted") && BackslashRun(Text(@"this is quoted")) == 0
    ensures Quote !in Text(@" but the rest isn't")
  {
  }

  /** ends with quoted section */
  lemma EndsQuotedVector()
    ensures var input := Text(@"only the ") + [Quote] + Text(@"end is quoted") + [Quote];
            var expected := [Quote] + (Text(@"only the ") + [Backslash, Quote] + Text(@"end is quoted")
                            + [Backslash, Quote]) + [Quote];
            Sanitized(input) == expected && Sanitized(expected) == expected
  {
    EndsQuotedPieces();
    SanitizedEndQuote(Text(@"only the "), Text(@"end is quoted"));
  }

  lemma EndsQuotedPieces()
    ensures Quote !in Text(@"only the ") && BackslashRun(Text(@"only the ")) == 0
    ensures Quote !in Text(@"end is quoted") && BackslashRun(Text(@"end is quoted")) == 0
  {
  }

  // ---------------------------------------------------------------------
  // The value on which TXTSanitize is not idempotent
  // ---------------------------------------------------------------------

  lemma CounterexamplePieces()
    ensures Quote !in Text("a") && BackslashRun(Text("a")) == 0
    ensures Quote !in Text("b") && BackslashRun(Text("b")) == 0
    ensures Quote !in Text(@"c\") && BackslashRun(Text(@"c\")) == 1
  {
  }

  /**
   * The quoted value `"a"b"c\"`: two of its quotes get escaped, so it is
   * rewrapped; the buffer ends in one backslash, so the result is not a
   * fixed point, and sanitizing it again adds a backslash before the
   * closing `\"`.
   */
  lemma RewrapBreaksIdempotence()
    ensures var input := [Quote] + (Text("a") + [Quote] + Text("b") + [Quote] + Text(@"c\")) + [Quote];
            var first := [Quote] + ([Backslash, Quote] + (Text("a") + [Backslash, Quote] + Text("b")
                         + [Backslash, Quote] + Text(@"c\")) + [Backslash, Quote]) + [Quote];
            var second := [Quote] + ([Backslash, Quote] + (Text("a") + [Backslash, Quote] + Text("b")
                          + [Backslash, Quote] + Text(@"c\")) + [Backslash, Backslash, Quote]) + [Quote];
            && Sanitized(input) == first
            && Sanitized(first) == second
            && second != first
  {
    var t0, t1, t2 := Text("a"), Text("b"), Text(@"c\");
    CounterexamplePieces();
    ScanThree(t0, t1, t2);
    SanitizedQuotedTwoQuotes(t0, t1, t2);
    ResanitizeRewrappedOddRun(t0 + [Quote] + t1 + [Quote] + t2);
    SanitizedLength([Quote] + (t0 + [Quote] + t1 + [Quote] + t2) + [Quote]);
  }
}
