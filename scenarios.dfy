/**
 * Concrete inputs worked through the model: rule priority on an email address and on
 * a date, the backtracking of the currency rule, the sentence of the `process_text`
 * unit test, and the statistics of the file the caching test uploads twice.
 *
 * Each input is a function of no arguments, and each fact about one position of it
 * is its own lemma, proved from the characters at that position: the matchers are
 * never evaluated on the whole text at once.
 */
module Scenarios {
  import opened Optional
  import opened Tokenizer
  import Statistics
  import Service

  // ---------------------------------------------------------------------------
  // Stepping the scan by hand
  // ---------------------------------------------------------------------------

  /** The email rule fails where the greedy local-part run is empty or is not followed by `@`. */
  lemma NoEmailAt(s: string, i: nat, at: nat)
    requires i < |s| && MaximalSpan(s, i, at, IsLocalPart) && (at == |s| || s[at] != '@')
    ensures EmailEnd(s, i) == None
  {
    RunIs(s, i, at, IsLocalPart);
  }

  /** Neither date rule matches where no digit starts. */
  lemma NoDateAt(s: string, i: nat)
    requires i < |s| && !IsDigit(s[i])
    ensures DateEnd(s, i, '/') == None && DateEnd(s, i, '-') == None
  {
    assert !AllDigits(s, i, i + 1);
    assert !AllDigits(s, i, i + 2);
  }

  /** A word wins when neither the email, the date nor the URL rule matches first. */
  lemma WordWins(s: string, i: nat, e: nat)
    requires i < |s| && s[i] != 'h'
    requires EmailEnd(s, i) == None && DateEnd(s, i, '/') == None && DateEnd(s, i, '-') == None
    requires WordEnd(s, i) == Some(e)
    ensures MatchAt(s, i) == Some(Token(i, e, Word))
  {
    assert s[i + 0] != "http"[0];
    assert UrlEnd(s, i) == None;
    FirstMatchWins(s, i, Word, e);
  }

  /**
   * A maximal run of word parts that starts at a boundary, with neither a digit nor `h`
   * in front and no `@` after its local-part run, is a word token.
   */
  lemma PlainWord(s: string, i: nat, e: nat, at: nat)
    requires i < e && MaximalSpan(s, i, e, IsWordPart) && Boundary(s, i)
    requires !IsDigit(s[i]) && s[i] != 'h'
    requires MaximalSpan(s, i, at, IsLocalPart) && (at == |s| || s[at] != '@')
    ensures MatchAt(s, i) == Some(Token(i, e, Word))
  {
    NoEmailAt(s, i, at);
    NoDateAt(s, i);
    WordEndIff(s, i, e);
    WordWins(s, i, e);
  }

  /** A character that is no word part, no currency sign and no `&` starts no token, unless an email starts there. */
  lemma NothingWins(s: string, i: nat)
    requires i < |s| && !IsWordPart(s[i]) && !IsCurrencySymbol(s[i]) && s[i] != '&'
    requires EmailEnd(s, i) == None
    ensures MatchAt(s, i) == None
  {
    NoDateAt(s, i);
    assert s[i + 0] != "http"[0];
    assert UrlEnd(s, i) == None;
    assert Run(s, i, IsWordPart) == 0;
    assert WordEnd(s, i) == None;
    assert CurrencyEnd(s, i) == None;
    assert forall q: Rule :: RuleEnd(q, s, i) == None;
  }

  /** Such a character, where the local-part run from it is not followed by `@`, is dropped. */
  lemma NothingAt(s: string, i: nat, at: nat)
    requires i < |s| && !IsWordPart(s[i]) && !IsCurrencySymbol(s[i]) && s[i] != '&'
    requires MaximalSpan(s, i, at, IsLocalPart) && (at == |s| || s[at] != '@')
    ensures MatchAt(s, i) == None
  {
    NoEmailAt(s, i, at);
    NothingWins(s, i);
  }

  /** The scan over a position where nothing matches and a token that starts right after it. */
  lemma GapThenToken(s: string, g: nat, t: Token, rest: seq<Token>)
    requires t.start == g + 1 < |s| && MatchAt(s, g) == None
    requires MatchAt(s, t.start) == Some(t) && Scan(s, t.end) == rest
    ensures Scan(s, g) == [t] + rest
  {
    ScanTakes(s, t.start, t);
    ScanDrops(s, g);
  }

  /** The scan over a position where nothing matches and a last token that starts right after it. */
  lemma GapThenLastToken(s: string, g: nat, t: Token)
    requires t.start == g + 1 < |s| && t.end == |s| && MatchAt(s, g) == None
    requires MatchAt(s, t.start) == Some(t)
    ensures Scan(s, g) == [t]
  {
    ScanTakes(s, t.start, t);
    ScanDrops(s, g);
  }

  /** The scan over a token followed by the scan from its end. */
  lemma TokenThen(s: string, t: Token, rest: seq<Token>)
    requires t.start < |s| && MatchAt(s, t.start) == Some(t) && Scan(s, t.end) == rest
    ensures Scan(s, t.start) == [t] + rest
  {
    ScanTakes(s, t.start, t);
  }

  /** The scan over a last position where nothing matches. */
  lemma LastGap(s: string, g: nat)
    requires g + 1 == |s| && MatchAt(s, g) == None
    ensures Scan(s, g) == []
  {
    ScanDrops(s, g);
  }

  // ---------------------------------------------------------------------------
  // "a@b.com": one email token, although a word also matches at index 0
  // ---------------------------------------------------------------------------

  function Address(): string {
    "a@b.com"
  }

  lemma AddressEmailEnd()
    ensures EmailEnd(Address(), 0) == Some(7)
  {
    var s := Address();
    forall k | 4 <= k < 7 ensures IsWordPart(s[k]) {
      assert k == 4 || k == 5 || k == 6;
    }
    assert IsLocalPart(s[0]) && IsWordPart(s[2]);
    EmailShapeMatches(s, 0, 1, 3, 7);
  }

  lemma AddressWordEnd()
    ensures WordEnd(Address(), 0) == Some(1)
  {
    var s := Address();
    assert IsWordPart(s[0]) && !IsWordPart(s[1]);
    WordEndIff(s, 0, 1);
  }

  /** The email rule, first in the alternation, takes the whole address. */
  lemma EmailBeatsWord()
    ensures Tokenize(Address()) == [Token(0, 7, Email)]
    ensures RuleEnd(Word, Address(), 0) == Some(1)
  {
    var s := Address();
    AddressEmailEnd();
    AddressWordEnd();
    FirstMatchWins(s, 0, Email, 7);
    ScanTakes(s, 0, Token(0, 7, Email));
  }

  // ---------------------------------------------------------------------------
  // "12/05/2020": one date token, not three numbers
  // ---------------------------------------------------------------------------

  function Date(): string {
    "12/05/2020"
  }

  lemma DateSlashEnd()
    ensures DateEnd(Date(), 0, '/') == Some(10)
  {
    var s := Date();
    assert AllDigits(s, 0, 2) && s[2] == '/';
    FieldChoiceForced(s, 0, '/', 2);
    assert AllDigits(s, 3, 5) by {
      forall k | 3 <= k < 5 ensures IsDigit(s[k]) {
        assert k == 3 || k == 4;
      }
    }
    FieldChoiceForced(s, 3, '/', 2);
    assert MaximalSpan(s, 6, 10, IsDigit) by {
      forall k | 6 <= k < 10 ensures IsDigit(s[k]) {
        assert k == 6 || k == 7 || k == 8 || k == 9;
      }
    }
    assert Boundary(s, 10) && Boundary(s, 0);
    YearEndReaches(s, 6, 4, 4);
  }

  lemma DateWordEnd()
    ensures WordEnd(Date(), 0) == Some(2)
  {
    var s := Date();
    assert IsWordPart(s[0]) && IsWordPart(s[1]) && !IsWordPart(s[2]);
    WordEndIff(s, 0, 2);
  }

  /** The slash-date rule comes before the word rule and takes all ten characters. */
  lemma DateBeatsWord()
    ensures Tokenize(Date()) == [Token(0, 10, SlashDate)]
    ensures RuleEnd(Word, Date(), 0) == Some(2)
  {
    var s := Date();
    assert IsLocalPart(s[0]) && IsLocalPart(s[1]) && !IsLocalPart(s[2]);
    NoEmailAt(s, 0, 2);
    DateSlashEnd();
    DateWordEnd();
    FirstMatchWins(s, 0, SlashDate, 10);
    ScanTakes(s, 0, Token(0, 10, SlashDate));
  }

  // ---------------------------------------------------------------------------
  // "$5.5x": the currency rule gives back its fraction to reach a word boundary
  // ---------------------------------------------------------------------------

  function Price(): string {
    "$5.5x"
  }

  /** `\b` fails after "$5.5", so the optional fraction is dropped and "$5" is the match. */
  lemma PriceBacktracks()
    ensures CurrencyEnd(Price(), 0) == Some(2)
  {
    var s := Price();
    assert MaximalSpan(s, 1, 2, IsDigit);
    RunIs(s, 1, 2, IsDigit);
    assert MaximalSpan(s, 3, 4, IsDigit);
    RunIs(s, 3, 4, IsDigit);
    assert !Boundary(s, 4);
    assert FractionDigitsEnd(s, 3, 1) == None;
    assert Boundary(s, 2);
    assert FractionEnd(s, 2) == Some(2);
    assert Groups(s, 2) == 0;
    assert AmountEnd(s, 1, 1) == Some(2);
  }

  lemma PriceCurrency()
    ensures MatchAt(Price(), 0) == Some(Token(0, 2, Currency))
  {
    var s := Price();
    PriceBacktracks();
    NoEmailAt(s, 0, 0);
    NoDateAt(s, 0);
    assert s[0 + 0] != "http"[0];
    assert UrlEnd(s, 0) == None;
    assert !Boundary(s, 0);
    assert WordEnd(s, 0) == None;
    FirstMatchWins(s, 0, Currency, 2);
  }

  lemma PriceStop()
    ensures MatchAt(Price(), 2) == None
  {
    var s := Price();
    forall k | 2 <= k < 5 ensures IsLocalPart(s[k]) {
      assert k == 2 || k == 3 || k == 4;
    }
    NothingAt(s, 2, 5);
  }

  /** "5x" starts with a digit, but neither date rule finds a separator after it. */
  lemma PriceWord()
    ensures MatchAt(Price(), 3) == Some(Token(3, 5, Word))
  {
    var s := Price();
    assert IsLocalPart(s[3]) && IsLocalPart(s[4]);
    NoEmailAt(s, 3, 5);
    assert AllDigits(s, 3, 4) && s[4] == 'x';
    assert FieldEnd(s, 3, '/', 2) == None && FieldEnd(s, 3, '-', 2) == None;
    assert Boundary(s, 3) && MaximalSpan(s, 3, 5, IsWordPart);
    WordEndIff(s, 3, 5);
    WordWins(s, 3, 5);
  }

  /** The scan resumes after "$5": the stop is dropped and "5x" is a word. */
  lemma PriceTokens()
    ensures Tokenize(Price()) == [Token(0, 2, Currency)] + [Token(3, 5, Word)]
  {
    var s := Price();
    PriceCurrency();
    PriceStop();
    PriceWord();
    GapThenLastToken(s, 2, Token(3, 5, Word));
    TokenThen(s, Token(0, 2, Currency), [Token(3, 5, Word)]);
  }

  // ---------------------------------------------------------------------------
  // "Sample text for testing.": four words; the spaces and the final stop are dropped
  // ---------------------------------------------------------------------------

  function Sentence(): string {
    "Sample text for testing."
  }

  lemma SentenceWord0()
    ensures MatchAt(Sentence(), 0) == Some(Token(0, 6, Word))
  {
    var s := Sentence();
    forall k | 0 <= k < 6 ensures IsWordPart(s[k]) {
      assert k == 0 || k == 1 || k == 2 || k == 3 || k == 4 || k == 5;
    }
    PlainWord(s, 0, 6, 6);
  }

  lemma SentenceWord7()
    ensures MatchAt(Sentence(), 7) == Some(Token(7, 11, Word))
  {
    var s := Sentence();
    forall k | 7 <= k < 11 ensures IsWordPart(s[k]) {
      assert k == 7 || k == 8 || k == 9 || k == 10;
    }
    PlainWord(s, 7, 11, 11);
  }

  lemma SentenceWord12()
    ensures MatchAt(Sentence(), 12) == Some(Token(12, 15, Word))
  {
    var s := Sentence();
    forall k | 12 <= k < 15 ensures IsWordPart(s[k]) {
      assert k == 12 || k == 13 || k == 14;
    }
    PlainWord(s, 12, 15, 15);
  }

  /** The local-part run of "testing." reaches the end of the text, so no email either. */
  lemma SentenceWord16()
    ensures MatchAt(Sentence(), 16) == Some(Token(16, 23, Word))
  {
    var s := Sentence();
    forall k | 16 <= k < 23 ensures IsWordPart(s[k]) {
      assert k == 16 || k == 17 || k == 18 || k == 19 || k == 20 || k == 21 || k == 22;
    }
    assert IsLocalPart(s[23]);
    PlainWord(s, 16, 23, 24);
  }

  lemma SentenceGap6()
    ensures MatchAt(Sentence(), 6) == None
  {
    NothingAt(Sentence(), 6, 6);
  }

  lemma SentenceGap11()
    ensures MatchAt(Sentence(), 11) == None
  {
    NothingAt(Sentence(), 11, 11);
  }

  lemma SentenceGap15()
    ensures MatchAt(Sentence(), 15) == None
  {
    NothingAt(Sentence(), 15, 15);
  }

  lemma SentenceGap23()
    ensures MatchAt(Sentence(), 23) == None
  {
    var s := Sentence();
    assert IsLocalPart(s[23]);
    NothingAt(s, 23, 24);
  }

  /** The last two words and the stop, over any text where the rules match there as they do on the sentence. */
  lemma SentenceFrom11(s: string)
    requires |s| == 24
    requires MatchAt(s, 11) == None && MatchAt(s, 15) == None && MatchAt(s, 23) == None
    requires MatchAt(s, 12) == Some(Token(12, 15, Word)) && MatchAt(s, 16) == Some(Token(16, 23, Word))
    ensures Scan(s, 11) == [Token(12, 15, Word), Token(16, 23, Word)]
  {
    LastGap(s, 23);
    GapThenToken(s, 15, Token(16, 23, Word), []);
    GapThenToken(s, 11, Token(12, 15, Word), [Token(16, 23, Word)]);
  }

  /** The second word, then the rest. */
  lemma SentenceFrom6(s: string)
    requires |s| == 24 && MatchAt(s, 6) == None && MatchAt(s, 7) == Some(Token(7, 11, Word))
    requires Scan(s, 11) == [Token(12, 15, Word), Token(16, 23, Word)]
    ensures Scan(s, 6) == [Token(7, 11, Word)] + [Token(12, 15, Word), Token(16, 23, Word)]
  {
    GapThenToken(s, 6, Token(7, 11, Word), [Token(12, 15, Word), Token(16, 23, Word)]);
  }

  /** The first word, then the scan from the first space on. */
  lemma SentenceFrom0(s: string)
    requires |s| == 24 && MatchAt(s, 0) == Some(Token(0, 6, Word))
    requires Scan(s, 6) == [Token(7, 11, Word)] + [Token(12, 15, Word), Token(16, 23, Word)]
    ensures Scan(s, 0) == [Token(0, 6, Word)] + ([Token(7, 11, Word)] + [Token(12, 15, Word), Token(16, 23, Word)])
  {
    ScanTakes(s, 0, Token(0, 6, Word));
  }

  /** The tokens of the unit test's sentence: its four words; the spaces and the full stop are in none of them. */
  lemma SentenceTokens()
    ensures Tokenize(Sentence()) == [Token(0, 6, Word)] + ([Token(7, 11, Word)] + [Token(12, 15, Word), Token(16, 23, Word)])
  {
    SentenceWord0();
    SentenceGap6();
    SentenceWord7();
    SentenceGap11();
    SentenceWord12();
    SentenceGap15();
    SentenceWord16();
    SentenceGap23();
    SentenceFrom11(Sentence());
    SentenceFrom6(Sentence());
    SentenceFrom0(Sentence());
  }

  /** `process_text` on the unit test's sentence reports four words. */
  lemma SentenceWordCount()
    ensures Statistics.Summarize(Service.TokenLengths(Sentence())).wordCount == 4
  {
    SentenceTokens();
    Service.TextTotals(Sentence());
  }

  // ---------------------------------------------------------------------------
  // "test content": the file of the caching test
  // ---------------------------------------------------------------------------

  function Upload(): string {
    "test content"
  }

  lemma UploadWord0()
    ensures MatchAt(Upload(), 0) == Some(Token(0, 4, Word))
  {
    var s := Upload();
    forall k | 0 <= k < 4 ensures IsWordPart(s[k]) {
      assert k == 0 || k == 1 || k == 2 || k == 3;
    }
    PlainWord(s, 0, 4, 4);
  }

  lemma UploadWord5()
    ensures MatchAt(Upload(), 5) == Some(Token(5, 12, Word))
  {
    var s := Upload();
    forall k | 5 <= k < 12 ensures IsWordPart(s[k]) {
      assert k == 5 || k == 6 || k == 7 || k == 8 || k == 9 || k == 10 || k == 11;
    }
    PlainWord(s, 5, 12, 12);
  }

  lemma UploadTokens()
    ensures Tokenize(Upload()) == [Token(0, 4, Word)] + [Token(5, 12, Word)]
  {
    var s := Upload();
    UploadWord0();
    NothingAt(s, 4, 4);
    UploadWord5();
    GapThenLastToken(s, 4, Token(5, 12, Word));
    TokenThen(s, Token(0, 4, Word), [Token(5, 12, Word)]);
  }

  /** The lengths of any text that findall splits into two tokens of four and seven characters. */
  lemma TwoTokenLengths(s: string)
    requires Tokenize(s) == [Token(0, 4, Word)] + [Token(5, 12, Word)]
    ensures Service.TokenLengths(s) == [4, 7]
  {
    var xs := Service.TokenLengths(s);
    assert |xs| == 2 && xs[0] == 4 && xs[1] == 7;
  }

  lemma UploadLengths()
    ensures Service.TokenLengths(Upload()) == [4, 7]
  {
    UploadTokens();
    TwoTokenLengths(Upload());
  }

  lemma TwoLengthsCounter()
    ensures Statistics.Tally([4, 7]) == [(4, 1), (7, 1)]
  {
    assert [4, 7][..1] == [4];
    assert Statistics.Tally([4]) == [(4, 1)] by {
      assert [4][..0] == [];
    }
  }

  lemma TwoLengthsSorted()
    ensures Statistics.SortByKey([(4, 1), (7, 1)]) == [(4, 1), (7, 1)]
  {
    assert [(4, 1), (7, 1)][1..] == [(7, 1)];
    assert Statistics.SortByKey([(7, 1)]) == [(7, 1)] by {
      assert [(7, 1)][1..] == [];
    }
  }

  lemma TwoLengthsMostCommon()
    ensures Statistics.MaxCount([(4, 1), (7, 1)]) == 1
    ensures Statistics.MostCommon([(4, 1), (7, 1)], 1) == [4, 7]
  {
    assert [(4, 1), (7, 1)][1..] == [(7, 1)];
    assert [(7, 1)][1..] == [];
  }

  lemma TwoLengthsAverage()
    ensures Statistics.Average([4, 7]) == 5.5
  {
    assert [4, 7][..1] == [4];
    assert [4][..0] == [];
  }

  /**
   * What both uploads of the caching test report: two words, an average of 5.5, one word
   * each of lengths 4 and 7, both lengths most frequent with one occurrence.
   */
  lemma UploadStats()
    ensures Statistics.Summarize(Service.TokenLengths(Upload())) == Statistics.Stats(2, 5.5, [(4, 1), (7, 1)], [4, 7], 1)
  {
    UploadLengths();
    TwoLengthsCounter();
    TwoLengthsSorted();
    TwoLengthsMostCommon();
    TwoLengthsAverage();
  }

  /**
   * The caching test: the same file uploaded twice into an emptied cache is computed
   * the first time and served from the cache the second, with the same statistics.
   */
  method CachingTest(digest: seq<Service.Byte> -> Service.Digest, decode: seq<Service.Byte> -> Option<string>, content: seq<Service.Byte>)
    returns (first: Service.Reply, second: Service.Reply)
    requires decode(content) == Some(Upload())
    ensures first == Service.Computed(Statistics.Stats(2, 5.5, [(4, 1), (7, 1)], [4, 7], 1), false)
    ensures second == Service.Computed(first.stats, true)
  {
    UploadStats();
    first, second := Service.UploadTwice(digest, decode, content);
  }
}
