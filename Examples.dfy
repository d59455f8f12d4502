/**
 * Worked instances of the version, range and list rules, written on parsed segments: the
 * version "5.5p10" is [5, 5, p, 10] (see `Versions.ParseRender` for the link with the text).
 */
module Examples {
  import opened Wrappers
  import opened Versions
  import opened Ranges
  import opened VersionLists

  function N2(a: nat, b: nat): Version { Version([Num(a), Num(b)]) }
  function N3(a: nat, b: nat, c: nat): Version { Version([Num(a), Num(b), Num(c)]) }
  function Span(lo: Version, hi: Version): Range { Range(Some(lo), Some(hi)) }

  /** 5.5p1 < 5.5p2 < 5.5p10, 2.0 < 2.0.1 < 2.0.1a, 6.0 < 6.0.rc1 and 4.999.9 < 5.0. */
  lemma OrderExamples()
    ensures Lt(Version([Num(5), Num(5), Alpha("p"), Num(1)]), Version([Num(5), Num(5), Alpha("p"), Num(2)]))
    ensures Lt(Version([Num(5), Num(5), Alpha("p"), Num(2)]), Version([Num(5), Num(5), Alpha("p"), Num(10)]))
    ensures Lt(N2(2, 0), N3(2, 0, 1))
    ensures Lt(N3(2, 0, 1), Version([Num(2), Num(0), Num(1), Alpha("a")]))
    ensures Lt(N2(6, 0), Version([Num(6), Num(0), Alpha("rc"), Num(1)]))
    ensures Lt(N3(4, 999, 9), N2(5, 0))
  {
  }

  /** 1b.fc17 < 1.fc17 < 1g.fc17, xyz.4 < 2 and 10xyz < 10.1xyz: a number beats a word at the same place. */
  lemma WordExamples()
    ensures Lt(Version([Num(1), Alpha("b"), Alpha("fc"), Num(17)]), Version([Num(1), Alpha("fc"), Num(17)]))
    ensures Lt(Version([Num(1), Alpha("fc"), Num(17)]), Version([Num(1), Alpha("g"), Alpha("fc"), Num(17)]))
    ensures Lt(Version([Alpha("xyz"), Num(4)]), Version([Num(2)]))
    ensures Lt(Version([Num(10), Alpha("xyz")]), Version([Num(10), Num(1), Alpha("xyz")]))
    ensures Lt(Version([Num(1), Num(0), Alpha("a")]), Version([Num(1), Num(0), Alpha("aa")]))
    ensures Lt(Version([Num(10), Alpha("a"), Num(2)]), Version([Num(10), Alpha("b"), Num(2)]))
  {
  }

  /** 1.3.5-7 and 1.2.5 lie in 1.2:1.4; 1.1, 1.5 and 1.4.2 do not. */
  lemma ContainmentExamples()
    ensures InRange(Span(N2(1, 2), N2(1, 4)), Version([Num(1), Num(3), Num(5), Num(7)]))
    ensures InRange(Span(N2(1, 2), N2(1, 4)), N3(1, 2, 5))
    ensures !InRange(Span(N2(1, 2), N2(1, 4)), N2(1, 1))
    ensures !InRange(Span(N2(1, 2), N2(1, 4)), N2(1, 5))
    ensures !InRange(Span(N2(1, 2), N2(1, 4)), N3(1, 4, 2))
    ensures Contains(Everything(), Span(N3(1, 2, 7), N2(1, 4)))
  {
  }

  /** 1.2.5:1.2.7 is in [1.5, 1.2:1.3]; 1.4 and 1.2.5:1.5 are not. */
  lemma ListContainmentExamples()
    ensures ContainsList([Point(N2(1, 5)), Span(N2(1, 2), N2(1, 3))], [Span(N3(1, 2, 5), N3(1, 2, 7))])
    ensures !ContainsVersion([Point(N2(1, 5)), Span(N2(1, 2), N2(1, 3))], N2(1, 4))
    ensures !ContainsList([Point(N2(1, 5)), Span(N2(1, 2), N2(1, 3))], [Span(N3(1, 2, 5), N2(1, 5))])
  {
  }

  /** 1.2:1.7 overlaps 1.6:1.9; :1.7 overlaps 1.6:; the list 1, 2, 4 does not meet 3, 6:7. */
  lemma OverlapExamples()
    ensures Overlaps(Span(N2(1, 2), N2(1, 7)), Span(N2(1, 6), N2(1, 9)))
    ensures Overlaps(Range(None, Some(N2(1, 7))), Range(Some(N2(1, 6)), None))
    ensures !ListOverlaps([Point(Version([Num(1)])), Point(Version([Num(2)])), Point(Version([Num(4)]))],
                          [Point(Version([Num(3)])), Span(Version([Num(6)]), Version([Num(7)]))])
  {
  }

  /** On the text itself: 5.5p1 < 5.5p2 < 5.5p10, numbers compared by value. */
  lemma TextPatchExamples()
    ensures Lt(ParseVersion("5.5p1"), ParseVersion("5.5p2"))
    ensures Lt(ParseVersion("5.5p2"), ParseVersion("5.5p10"))
  {
    TokenizePatch();
    TokenizePatchTen();
    OrderExamples();
  }

  /** On the text itself: 2.0 < 2.0.1 < 2.0.1a, 6.0 < 6.0.rc1 and 4.999.9 < 5.0. */
  lemma TextOrderExamples()
    ensures Lt(ParseVersion("2.0"), ParseVersion("2.0.1"))
    ensures Lt(ParseVersion("2.0.1"), ParseVersion("2.0.1a"))
    ensures Lt(ParseVersion("6.0"), ParseVersion("6.0.rc1"))
    ensures Lt(ParseVersion("4.999.9"), ParseVersion("5.0"))
  {
    TokenizeDotted();
    TokenizeRelease();
    TokenizeCarry();
    OrderExamples();
  }

  /** On the text itself: 1b.fc17 < 1.fc17 < 1g.fc17, xyz.4 < 2 and 10xyz < 10.1xyz. */
  lemma TextWordExamples()
    ensures Lt(ParseVersion("1b.fc17"), ParseVersion("1.fc17"))
    ensures Lt(ParseVersion("1.fc17"), ParseVersion("1g.fc17"))
    ensures Lt(ParseVersion("xyz.4"), ParseVersion("2"))
    ensures Lt(ParseVersion("10xyz"), ParseVersion("10.1xyz"))
  {
    TokenizeFedora();
    TokenizePlainFedora();
    TokenizeWord();
    TokenizeTrailing();
    WordExamples();
  }

  /** On the text itself: 1.0a < 1.0aa and 10a2 < 10b2. */
  lemma TextLetterExamples()
    ensures Lt(ParseVersion("1.0a"), ParseVersion("1.0aa"))
    ensures Lt(ParseVersion("10a2"), ParseVersion("10b2"))
  {
    TokenizeAlphas();
    TokenizeAlphaBeta();
    WordExamples();
  }

  /** On the text itself: 1.3.5-7 and 1.2.5 lie in 1.2:1.4; 1.1, 1.5 and 1.4.2 do not; ":" contains 1.2.7:1.4. */
  lemma TextContainmentExamples()
    ensures InRange(Range(Some(ParseVersion("1.2")), Some(ParseVersion("1.4"))), ParseVersion("1.3.5-7"))
    ensures InRange(Range(Some(ParseVersion("1.2")), Some(ParseVersion("1.4"))), ParseVersion("1.2.5"))
    ensures !InRange(Range(Some(ParseVersion("1.2")), Some(ParseVersion("1.4"))), ParseVersion("1.1"))
    ensures !InRange(Range(Some(ParseVersion("1.2")), Some(ParseVersion("1.4"))), ParseVersion("1.5"))
    ensures !InRange(Range(Some(ParseVersion("1.2")), Some(ParseVersion("1.4"))), ParseVersion("1.4.2"))
    ensures Contains(Everything(), Range(Some(ParseVersion("1.2.7")), Some(ParseVersion("1.4"))))
  {
    TokenizeBounds();
    TokenizeDashed();
    TokenizeOutside();
    ContainmentExamples();
  }

  /** A single digit that the next character does not continue is a numeric segment of its own. */
  lemma DigitPiece(d: char, t: string)
    requires IsDigit(d) && (t == [] || !IsDigit(t[0]))
    ensures Tokenize([d] + t) == [Num(DigitOf(d))] + Tokenize(t)
  {
    assert DigitValue([d]) == DigitOf(d) by { assert [d][..0] == []; }
    PieceToken([d], t);
  }

  /** A separator contributes nothing. */
  lemma SepPiece(c: char, t: string)
    requires IsSeparator(c)
    ensures Tokenize([c] + t) == Tokenize(t)
  {
    PieceToken([c], t);
  }

  /** A single letter that the next character does not continue is an alphabetic segment of its own. */
  lemma LetterPiece(a: char, t: string)
    requires IsOther(a) && (t == [] || !IsOther(t[0]))
    ensures Tokenize([a] + t) == [Alpha([a])] + Tokenize(t)
  {
    PieceToken([a], t);
  }

  /** A whole run of digits is one numeric segment, valued left to right. */
  lemma NumberPiece(n: string, t: string)
    requires n != [] && AllDigits(n) && (t == [] || !IsDigit(t[0]))
    ensures Tokenize(n + t) == [Num(DigitValue(n))] + Tokenize(t)
  {
    PieceToken(n, t);
  }

  /** A whole run of other characters is one alphabetic segment. */
  lemma WordPiece(w: string, t: string)
    requires w != [] && AllOther(w) && (t == [] || !IsOther(t[0]))
    ensures Tokenize(w + t) == [Alpha(w)] + Tokenize(t)
  {
    PieceToken(w, t);
  }

  // The test strings, spelled out token by token (each `Pieces` lemma), and then tokenized one
  // whole token at a time from the right (each `Tokenize` lemma).

  lemma PiecesPatch()
    ensures "5.5p1" == ['5'] + (['.'] + (['5'] + (['p'] + (['1'] + []))))
    ensures [Num(DigitOf('5'))] + ([Num(DigitOf('5'))] + ([Alpha(['p'])] + ([Num(DigitOf('1'))] + []))) == [Num(5), Num(5), Alpha("p"), Num(1)]
    ensures "5.5p2" == ['5'] + (['.'] + (['5'] + (['p'] + (['2'] + []))))
    ensures [Num(DigitOf('5'))] + ([Num(DigitOf('5'))] + ([Alpha(['p'])] + ([Num(DigitOf('2'))] + []))) == [Num(5), Num(5), Alpha("p"), Num(2)]
  {
  }

  lemma TokenizePatch()
    ensures Tokenize("5.5p1") == [Num(5), Num(5), Alpha("p"), Num(1)]
    ensures Tokenize("5.5p2") == [Num(5), Num(5), Alpha("p"), Num(2)]
  {
    PiecesPatch();
    DigitPiece('1', []);
    LetterPiece('p', ['1'] + []);
    DigitPiece('5', ['p'] + (['1'] + []));
    SepPiece('.', ['5'] + (['p'] + (['1'] + [])));
    DigitPiece('5', ['.'] + (['5'] + (['p'] + (['1'] + []))));
    DigitPiece('2', []);
    LetterPiece('p', ['2'] + []);
    DigitPiece('5', ['p'] + (['2'] + []));
    SepPiece('.', ['5'] + (['p'] + (['2'] + [])));
    DigitPiece('5', ['.'] + (['5'] + (['p'] + (['2'] + []))));
  }

  lemma PiecesPatchTen()
    ensures "5.5p10" == ['5'] + (['.'] + (['5'] + (['p'] + ("10" + []))))
    ensures [Num(DigitOf('5'))] + ([Num(DigitOf('5'))] + ([Alpha(['p'])] + ([Num(DigitValue("10"))] + []))) == [Num(5), Num(5), Alpha("p"), Num(10)]
  {
    assert DigitValue("10") == 10 by { assert "10"[..1] == "1"; }
  }

  lemma TokenizePatchTen()
    ensures Tokenize("5.5p10") == [Num(5), Num(5), Alpha("p"), Num(10)]
  {
    PiecesPatchTen();
    NumberPiece("10", []);
    LetterPiece('p', "10" + []);
    DigitPiece('5', ['p'] + ("10" + []));
    SepPiece('.', ['5'] + (['p'] + ("10" + [])));
    DigitPiece('5', ['.'] + (['5'] + (['p'] + ("10" + []))));
  }

  lemma PiecesDotted()
    ensures "2.0" == ['2'] + (['.'] + (['0'] + []))
    ensures [Num(DigitOf('2'))] + ([Num(DigitOf('0'))] + []) == [Num(2), Num(0)]
    ensures "2.0.1" == ['2'] + (['.'] + (['0'] + (['.'] + (['1'] + []))))
    ensures [Num(DigitOf('2'))] + ([Num(DigitOf('0'))] + ([Num(DigitOf('1'))] + [])) == [Num(2), Num(0), Num(1)]
    ensures "2.0.1a" == ['2'] + (['.'] + (['0'] + (['.'] + (['1'] + (['a'] + [])))))
    ensures [Num(DigitOf('2'))] + ([Num(DigitOf('0'))] + ([Num(DigitOf('1'))] + ([Alpha(['a'])] + []))) == [Num(2), Num(0), Num(1), Alpha("a")]
  {
  }

  lemma TokenizeDotted()
    ensures Tokenize("2.0") == [Num(2), Num(0)]
    ensures Tokenize("2.0.1") == [Num(2), Num(0), Num(1)]
    ensures Tokenize("2.0.1a") == [Num(2), Num(0), Num(1), Alpha("a")]
  {
    PiecesDotted();
    DigitPiece('0', []);
    SepPiece('.', ['0'] + []);
    DigitPiece('2', ['.'] + (['0'] + []));
    DigitPiece('1', []);
    SepPiece('.', ['1'] + []);
    DigitPiece('0', ['.'] + (['1'] + []));
    SepPiece('.', ['0'] + (['.'] + (['1'] + [])));
    DigitPiece('2', ['.'] + (['0'] + (['.'] + (['1'] + []))));
    LetterPiece('a', []);
    DigitPiece('1', ['a'] + []);
    SepPiece('.', ['1'] + (['a'] + []));
    DigitPiece('0', ['.'] + (['1'] + (['a'] + [])));
    SepPiece('.', ['0'] + (['.'] + (['1'] + (['a'] + []))));
    DigitPiece('2', ['.'] + (['0'] + (['.'] + (['1'] + (['a'] + [])))));
  }

  lemma PiecesRelease()
    ensures "6.0" == ['6'] + (['.'] + (['0'] + []))
    ensures [Num(DigitOf('6'))] + ([Num(DigitOf('0'))] + []) == [Num(6), Num(0)]
    ensures "6.0.rc1" == ['6'] + (['.'] + (['0'] + (['.'] + ("rc" + (['1'] + [])))))
    ensures [Num(DigitOf('6'))] + ([Num(DigitOf('0'))] + ([Alpha("rc")] + ([Num(DigitOf('1'))] + []))) == [Num(6), Num(0), Alpha("rc"), Num(1)]
  {
  }

  lemma TokenizeRelease()
    ensures Tokenize("6.0") == [Num(6), Num(0)]
    ensures Tokenize("6.0.rc1") == [Num(6), Num(0), Alpha("rc"), Num(1)]
  {
    PiecesRelease();
    DigitPiece('0', []);
    SepPiece('.', ['0'] + []);
    DigitPiece('6', ['.'] + (['0'] + []));
    DigitPiece('1', []);
    WordPiece("rc", ['1'] + []);
    SepPiece('.', "rc" + (['1'] + []));
    DigitPiece('0', ['.'] + ("rc" + (['1'] + [])));
    SepPiece('.', ['0'] + (['.'] + ("rc" + (['1'] + []))));
    DigitPiece('6', ['.'] + (['0'] + (['.'] + ("rc" + (['1'] + [])))));
  }

  lemma PiecesCarry()
    ensures "4.999.9" == ['4'] + (['.'] + ("999" + (['.'] + (['9'] + []))))
    ensures [Num(DigitOf('4'))] + ([Num(DigitValue("999"))] + ([Num(DigitOf('9'))] + [])) == [Num(4), Num(999), Num(9)]
    ensures "5.0" == ['5'] + (['.'] + (['0'] + []))
    ensures [Num(DigitOf('5'))] + ([Num(DigitOf('0'))] + []) == [Num(5), Num(0)]
  {
    assert DigitValue("99") == 99 by { assert "99"[..1] == "9"; }
    assert DigitValue("999") == 999 by { assert "999"[..2] == "99"; }
  }

  lemma TokenizeCarry()
    ensures Tokenize("4.999.9") == [Num(4), Num(999), Num(9)]
    ensures Tokenize("5.0") == [Num(5), Num(0)]
  {
    PiecesCarry();
    DigitPiece('9', []);
    SepPiece('.', ['9'] + []);
    NumberPiece("999", ['.'] + (['9'] + []));
    SepPiece('.', "999" + (['.'] + (['9'] + [])));
    DigitPiece('4', ['.'] + ("999" + (['.'] + (['9'] + []))));
    DigitPiece('0', []);
    SepPiece('.', ['0'] + []);
    DigitPiece('5', ['.'] + (['0'] + []));
  }

  lemma PiecesFedora()
    ensures "1b.fc17" == ['1'] + (['b'] + (['.'] + ("fc" + ("17" + []))))
    ensures [Num(DigitOf('1'))] + ([Alpha(['b'])] + ([Alpha("fc")] + ([Num(DigitValue("17"))] + []))) == [Num(1), Alpha("b"), Alpha("fc"), Num(17)]
  {
    assert DigitValue("17") == 17 by { assert "17"[..1] == "1"; }
  }

  lemma TokenizeFedora()
    ensures Tokenize("1b.fc17") == [Num(1), Alpha("b"), Alpha("fc"), Num(17)]
  {
    PiecesFedora();
    NumberPiece("17", []);
    WordPiece("fc", "17" + []);
    SepPiece('.', "fc" + ("17" + []));
    LetterPiece('b', ['.'] + ("fc" + ("17" + [])));
    DigitPiece('1', ['b'] + (['.'] + ("fc" + ("17" + []))));
  }

  lemma PiecesPlainFedora()
    ensures "1.fc17" == ['1'] + (['.'] + ("fc" + ("17" + [])))
    ensures [Num(DigitOf('1'))] + ([Alpha("fc")] + ([Num(DigitValue("17"))] + [])) == [Num(1), Alpha("fc"), Num(17)]
    ensures "1g.fc17" == ['1'] + (['g'] + (['.'] + ("fc" + ("17" + []))))
    ensures [Num(DigitOf('1'))] + ([Alpha(['g'])] + ([Alpha("fc")] + ([Num(DigitValue("17"))] + []))) == [Num(1), Alpha("g"), Alpha("fc"), Num(17)]
  {
    assert DigitValue("17") == 17 by { assert "17"[..1] == "1"; }
  }

  lemma TokenizePlainFedora()
    ensures Tokenize("1.fc17") == [Num(1), Alpha("fc"), Num(17)]
    ensures Tokenize("1g.fc17") == [Num(1), Alpha("g"), Alpha("fc"), Num(17)]
  {
    PiecesPlainFedora();
    NumberPiece("17", []);
    WordPiece("fc", "17" + []);
    SepPiece('.', "fc" + ("17" + []));
    DigitPiece('1', ['.'] + ("fc" + ("17" + [])));
    LetterPiece('g', ['.'] + ("fc" + ("17" + [])));
    DigitPiece('1', ['g'] + (['.'] + ("fc" + ("17" + []))));
  }

  lemma PiecesAlphaBeta()
    ensures "10a2" == "10" + (['a'] + (['2'] + []))
    ensures [Num(DigitValue("10"))] + ([Alpha(['a'])] + ([Num(DigitOf('2'))] + [])) == [Num(10), Alpha("a"), Num(2)]
    ensures "10b2" == "10" + (['b'] + (['2'] + []))
    ensures [Num(DigitValue("10"))] + ([Alpha(['b'])] + ([Num(DigitOf('2'))] + [])) == [Num(10), Alpha("b"), Num(2)]
  {
    assert DigitValue("10") == 10 by { assert "10"[..1] == "1"; }
  }

  lemma TokenizeAlphaBeta()
    ensures Tokenize("10a2") == [Num(10), Alpha("a"), Num(2)]
    ensures Tokenize("10b2") == [Num(10), Alpha("b"), Num(2)]
  {
    PiecesAlphaBeta();
    DigitPiece('2', []);
    LetterPiece('a', ['2'] + []);
    NumberPiece("10", ['a'] + (['2'] + []));
    LetterPiece('b', ['2'] + []);
    NumberPiece("10", ['b'] + (['2'] + []));
  }

  lemma PiecesAlphas()
    ensures "1.0a" == ['1'] + (['.'] + (['0'] + (['a'] + [])))
    ensures [Num(DigitOf('1'))] + ([Num(DigitOf('0'))] + ([Alpha(['a'])] + [])) == [Num(1), Num(0), Alpha("a")]
    ensures "1.0aa" == ['1'] + (['.'] + (['0'] + ("aa" + [])))
    ensures [Num(DigitOf('1'))] + ([Num(DigitOf('0'))] + ([Alpha("aa")] + [])) == [Num(1), Num(0), Alpha("aa")]
  {
  }

  lemma TokenizeAlphas()
    ensures Tokenize("1.0a") == [Num(1), Num(0), Alpha("a")]
    ensures Tokenize("1.0aa") == [Num(1), Num(0), Alpha("aa")]
  {
    PiecesAlphas();
    LetterPiece('a', []);
    DigitPiece('0', ['a'] + []);
    SepPiece('.', ['0'] + (['a'] + []));
    DigitPiece('1', ['.'] + (['0'] + (['a'] + [])));
    WordPiece("aa", []);
    DigitPiece('0', "aa" + []);
    SepPiece('.', ['0'] + ("aa" + []));
    DigitPiece('1', ['.'] + (['0'] + ("aa" + [])));
  }

  lemma PiecesWord()
    ensures "xyz.4" == "xyz" + (['.'] + (['4'] + []))
    ensures [Alpha("xyz")] + ([Num(DigitOf('4'))] + []) == [Alpha("xyz"), Num(4)]
    ensures "2" == ['2'] + []
    ensures [Num(DigitOf('2'))] + [] == [Num(2)]
  {
  }

  lemma TokenizeWord()
    ensures Tokenize("xyz.4") == [Alpha("xyz"), Num(4)]
    ensures Tokenize("2") == [Num(2)]
  {
    PiecesWord();
    DigitPiece('4', []);
    SepPiece('.', ['4'] + []);
    WordPiece("xyz", ['.'] + (['4'] + []));
    DigitPiece('2', []);
  }

  lemma PiecesTrailing()
    ensures "10xyz" == "10" + ("xyz" + [])
    ensures [Num(DigitValue("10"))] + ([Alpha("xyz")] + []) == [Num(10), Alpha("xyz")]
    ensures "10.1xyz" == "10" + (['.'] + (['1'] + ("xyz" + [])))
    ensures [Num(DigitValue("10"))] + ([Num(DigitOf('1'))] + ([Alpha("xyz")] + [])) == [Num(10), Num(1), Alpha("xyz")]
  {
    assert DigitValue("10") == 10 by { assert "10"[..1] == "1"; }
  }

  lemma TokenizeTrailing()
    ensures Tokenize("10xyz") == [Num(10), Alpha("xyz")]
    ensures Tokenize("10.1xyz") == [Num(10), Num(1), Alpha("xyz")]
  {
    PiecesTrailing();
    WordPiece("xyz", []);
    NumberPiece("10", "xyz" + []);
    DigitPiece('1', "xyz" + []);
    SepPiece('.', ['1'] + ("xyz" + []));
    NumberPiece("10", ['.'] + (['1'] + ("xyz" + [])));
  }

  lemma PiecesBounds()
    ensures "1.2" == ['1'] + (['.'] + (['2'] + []))
    ensures [Num(DigitOf('1'))] + ([Num(DigitOf('2'))] + []) == [Num(1), Num(2)]
    ensures "1.4" == ['1'] + (['.'] + (['4'] + []))
    ensures [Num(DigitOf('1'))] + ([Num(DigitOf('4'))] + []) == [Num(1), Num(4)]
    ensures "1.2.5" == ['1'] + (['.'] + (['2'] + (['.'] + (['5'] + []))))
    ensures [Num(DigitOf('1'))] + ([Num(DigitOf('2'))] + ([Num(DigitOf('5'))] + [])) == [Num(1), Num(2), Num(5)]
  {
  }

  lemma TokenizeBounds()
    ensures Tokenize("1.2") == [Num(1), Num(2)]
    ensures Tokenize("1.4") == [Num(1), Num(4)]
    ensures Tokenize("1.2.5") == [Num(1), Num(2), Num(5)]
  {
    PiecesBounds();
    DigitPiece('2', []);
    SepPiece('.', ['2'] + []);
    DigitPiece('1', ['.'] + (['2'] + []));
    DigitPiece('4', []);
    SepPiece('.', ['4'] + []);
    DigitPiece('1', ['.'] + (['4'] + []));
    DigitPiece('5', []);
    SepPiece('.', ['5'] + []);
    DigitPiece('2', ['.'] + (['5'] + []));
    SepPiece('.', ['2'] + (['.'] + (['5'] + [])));
    DigitPiece('1', ['.'] + (['2'] + (['.'] + (['5'] + []))));
  }

  lemma PiecesDashed()
    ensures "1.3.5-7" == ['1'] + (['.'] + (['3'] + (['.'] + (['5'] + (['-'] + (['7'] + []))))))
    ensures [Num(DigitOf('1'))] + ([Num(DigitOf('3'))] + ([Num(DigitOf('5'))] + ([Num(DigitOf('7'))] + []))) == [Num(1), Num(3), Num(5), Num(7)]
  {
  }

  lemma TokenizeDashed()
    ensures Tokenize("1.3.5-7") == [Num(1), Num(3), Num(5), Num(7)]
  {
    PiecesDashed();
    DigitPiece('7', []);
    SepPiece('-', ['7'] + []);
    DigitPiece('5', ['-'] + (['7'] + []));
    SepPiece('.', ['5'] + (['-'] + (['7'] + [])));
    DigitPiece('3', ['.'] + (['5'] + (['-'] + (['7'] + []))));
    SepPiece('.', ['3'] + (['.'] + (['5'] + (['-'] + (['7'] + [])))));
    DigitPiece('1', ['.'] + (['3'] + (['.'] + (['5'] + (['-'] + (['7'] + []))))));
  }

  lemma PiecesOutside()
    ensures "1.1" == ['1'] + (['.'] + (['1'] + []))
    ensures [Num(DigitOf('1'))] + ([Num(DigitOf('1'))] + []) == [Num(1), Num(1)]
    ensures "1.5" == ['1'] + (['.'] + (['5'] + []))
    ensures [Num(DigitOf('1'))] + ([Num(DigitOf('5'))] + []) == [Num(1), Num(5)]
    ensures "1.4.2" == ['1'] + (['.'] + (['4'] + (['.'] + (['2'] + []))))
    ensures [Num(DigitOf('1'))] + ([Num(DigitOf('4'))] + ([Num(DigitOf('2'))] + [])) == [Num(1), Num(4), Num(2)]
    ensures "1.2.7" == ['1'] + (['.'] + (['2'] + (['.'] + (['7'] + []))))
    ensures [Num(DigitOf('1'))] + ([Num(DigitOf('2'))] + ([Num(DigitOf('7'))] + [])) == [Num(1), Num(2), Num(7)]
  {
  }

  lemma TokenizeOutside()
    ensures Tokenize("1.1") == [Num(1), Num(1)]
    ensures Tokenize("1.5") == [Num(1), Num(5)]
    ensures Tokenize("1.4.2") == [Num(1), Num(4), Num(2)]
    ensures Tokenize("1.2.7") == [Num(1), Num(2), Num(7)]
  {
    PiecesOutside();
    DigitPiece('1', []);
    SepPiece('.', ['1'] + []);
    DigitPiece('1', ['.'] + (['1'] + []));
    DigitPiece('5', []);
    SepPiece('.', ['5'] + []);
    DigitPiece('1', ['.'] + (['5'] + []));
    DigitPiece('2', []);
    SepPiece('.', ['2'] + []);
    DigitPiece('4', ['.'] + (['2'] + []));
    SepPiece('.', ['4'] + (['.'] + (['2'] + [])));
    DigitPiece('1', ['.'] + (['4'] + (['.'] + (['2'] + []))));
    DigitPiece('7', []);
    SepPiece('.', ['7'] + []);
    DigitPiece('2', ['.'] + (['7'] + []));
    SepPiece('.', ['2'] + (['.'] + (['7'] + [])));
    DigitPiece('1', ['.'] + (['2'] + (['.'] + (['7'] + []))));
  }

  /** Building a list one element more inserts that element into the list built so far. */
  lemma FromSeqSnoc(s: seq<Range>, e: Range)
    ensures FromSeq(s + [e]) == Insert(FromSeq(s), e)
  {
    assert (s + [e])[..|s|] == s;
  }

  /** An element that neither meets nor precedes the head is inserted behind it. */
  lemma InsertPast(x: Range, l: seq<Range>, e: Range)
    requires !Overlaps(x, e) && !StrictlyBefore(e, x)
    ensures Insert([x] + l, e) == [x] + Insert(l, e)
  {
    assert ([x] + l)[1..] == l;
  }

  /** An element that meets the head absorbs it. */
  lemma InsertMerging(x: Range, l: seq<Range>, e: Range)
    requires Overlaps(x, e)
    ensures Insert([x] + l, e) == Insert(l, Merge(x, e))
  {
    assert ([x] + l)[1..] == l;
  }

  /** Two elements apart, the first below the second, are kept as they are. */
  lemma FromSeqPair(a: Range, b: Range)
    requires !Overlaps(a, b) && !StrictlyBefore(b, a)
    ensures FromSeq([a, b]) == [a, b]
  {
    FromSeqSnoc([], a);
    assert [] + [a] == [a];
    FromSeqSnoc([a], b);
    InsertPast(a, [], b);
    assert [a] + [b] == [a, b];
  }

  /** A third element that meets the second, and is past the first, is merged into the second. */
  lemma FromSeqMergeThird(a: Range, b: Range, c: Range)
    requires !Overlaps(a, b) && !StrictlyBefore(b, a)
    requires !Overlaps(a, c) && !StrictlyBefore(c, a) && Overlaps(b, c)
    ensures FromSeq([a, b, c]) == [a, Merge(b, c)]
  {
    FromSeqPair(a, b);
    FromSeqSnoc([a, b], c);
    assert [a, b] + [c] == [a, b, c];
    InsertPast(a, [b], c);
    InsertMerging(b, [], c);
  }

  /** 1.2, 1.3, 1.3:1.4 become 1.2, 1.3:1.4: the range swallows the point at its lower end. */
  lemma CanonicalLowerEndExample()
    ensures FromSeq([Point(N2(1, 2)), Point(N2(1, 3)), Span(N2(1, 3), N2(1, 4))])
      == [Point(N2(1, 2)), Span(N2(1, 3), N2(1, 4))]
  {
    var a, b, c := Point(N2(1, 2)), Point(N2(1, 3)), Span(N2(1, 3), N2(1, 4));
    FromSeqMergeThird(a, b, c);
    assert Merge(b, c) == c;
  }

  /** 1.2, 1.3:1.4, 1.4 become 1.2, 1.3:1.4: the range swallows the point at its upper end. */
  lemma CanonicalUpperEndExample()
    ensures FromSeq([Point(N2(1, 2)), Span(N2(1, 3), N2(1, 4)), Point(N2(1, 4))])
      == [Point(N2(1, 2)), Span(N2(1, 3), N2(1, 4))]
  {
    var a, b, c := Point(N2(1, 2)), Span(N2(1, 3), N2(1, 4)), Point(N2(1, 4));
    FromSeqMergeThird(a, b, c);
    assert Merge(b, c) == b;
  }

  /** 1.2, 1.3, 1.3, 1.4 stay three points: the repeated 1.3 is absorbed. */
  lemma CanonicalPointsExample()
    ensures FromSeq([Point(N2(1, 2)), Point(N2(1, 3)), Point(N2(1, 3)), Point(N2(1, 4))])
      == [Point(N2(1, 2)), Point(N2(1, 3)), Point(N2(1, 4))]
  {
    var a, b, c := Point(N2(1, 2)), Point(N2(1, 3)), Point(N2(1, 4));
    FromSeqMergeThird(a, b, b);
    assert Merge(b, b) == b;
    FromSeqSnoc([a, b, b], c);
    assert [a, b, b] + [c] == [a, b, b, c];
    InsertPast(a, [b], c);
    InsertPast(b, [], c);
    assert [a] + ([b] + [c]) == [a, b, c];
  }

  /** 1.2:1.4 < 1.6, 1.2:1.4 < 1.5:1.6 and 1.2:1.4 < 1.2:1.6. */
  lemma RangeOrderExamples()
    ensures RangeLt(Span(N2(1, 2), N2(1, 4)), Point(N2(1, 6)))
    ensures RangeLt(Span(N2(1, 2), N2(1, 4)), Span(N2(1, 5), N2(1, 6)))
    ensures RangeLt(Span(N2(1, 2), N2(1, 4)), Span(N2(1, 2), N2(1, 6)))
  {
  }
}
