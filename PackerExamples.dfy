/** The scenarios of PackerTest.java, stated about the model: a line with no ':' is rejected, a
    capacity of 150 is refused and one of 80 accepted, and the example line `81 : ...` is accepted
    with both of its items and answers null, because the solver is a stub. */
module PackerExamples {
  import opened Wrappers
  import opened JavaText
  import opened JavaNumbers
  import opened Packer

  /** The two item tokens of the example line. */
  const FirstTokenText: string := "(1,53.38,€45)"
  const SecondTokenText: string := "(2,88.62,€98)"

  /** A line of the tests with no ':' at all. */
  const InvalidFormatText: string := "invalid_format"

  /** "invalid_format" has no ':' and is answered with "-". */
  lemma InvalidFormatLine()
    ensures ParseLine(InvalidFormatText) == Rejected(InvalidPackFormat)
    ensures LineAnswer(InvalidFormatText) == Some("-")
  {
    var line := InvalidFormatText;
    assert ':' !in line;
    MalformedLineRejected(line);
  }

  /** The decimal spellings used below. */
  lemma Spellings()
    ensures ShowNat(1) == "1" && ShowNat(2) == "2"
    ensures ShowNat(45) == "45" && ShowNat(98) == "98"
    ensures ShowNat(80) == "80" && ShowNat(81) == "81" && ShowNat(150) == "150"
  {
    assert ShowNat(15) == ShowNat(1) + [DigitChar(5)];
  }

  /** A capacity of 150 is over the limit of 100. */
  lemma CapacityTooLarge()
    ensures ValidatePackMaxWeight(["150", FirstTokenText]) == Failure(InvalidPackWeight)
    ensures ValidateLinePackComposition(["150", FirstTokenText]) == Failure(InvalidPackWeight)
  {
    var capacity := "150";
    Spellings();
    IndexField(150);
    assert ParseInt(Trim(capacity)) == Some(150);
  }

  /** A capacity of 80 passes every line check. */
  lemma CapacityValid()
    ensures ValidateLinePackComposition(["80", FirstTokenText]) == Success(80)
  {
    var capacity := "80";
    Spellings();
    IndexField(80);
    assert ParseInt(Trim(capacity)) == Some(80);
  }

  /** `<w>.<f>` with a two-digit fraction has the value w + f / 100. */
  lemma TwoDigitFraction(w: string, f: string, whole: nat, fraction: nat)
    requires w == ShowNat(whole) && f == ShowNat(fraction) && |f| == 2
    ensures DecimalValue(w, f) == whole as real + fraction as real / 100.0
  {
    assert Pow10(2) == 100;
  }

  /** The first example token, `(1,53.38,€45)`. */
  lemma FirstToken()
    ensures ParseItem(FirstTokenText) == Some(Item(1, Finite(53.38), Finite(45.0)))
  {
    var whole, fraction := "53", "38";
    FirstTokenShape(whole, fraction);
    ParseItemOfDocumentedToken(1, whole, fraction, 45);
    TwoDigitFraction(whole, fraction, 53, 38);
  }

  /** `(1,53.38,€45)` in the documented item format. */
  lemma FirstTokenShape(whole: string, fraction: string)
    requires whole == "53" && fraction == "38"
    ensures ShowNat(53) == whole && ShowNat(38) == fraction
    ensures FirstTokenText == "(" + ShowNat(1) + "," + (whole + "." + fraction) + "," + ("€" + ShowNat(45)) + ")"
  {
    Spellings();
  }

  /** The second example token, `(2,88.62,€98)`. */
  lemma SecondToken()
    ensures ParseItem(SecondTokenText) == Some(Item(2, Finite(88.62), Finite(98.0)))
  {
    var whole, fraction := "88", "62";
    SecondTokenShape(whole, fraction);
    ParseItemOfDocumentedToken(2, whole, fraction, 98);
    TwoDigitFraction(whole, fraction, 88, 62);
  }

  /** `(2,88.62,€98)` in the documented item format. */
  lemma SecondTokenShape(whole: string, fraction: string)
    requires whole == "88" && fraction == "62"
    ensures ShowNat(88) == whole && ShowNat(62) == fraction
    ensures SecondTokenText == "(" + ShowNat(2) + "," + (whole + "." + fraction) + "," + ("€" + ShowNat(98)) + ")"
  {
    Spellings();
  }

  /** A valid capacity followed by a blank item part. */
  const EmptyItemsLine: string := "80: "

  /** No lower bound on the item count: a blank item part gives one empty token, which is
      dropped, and the line is accepted with no items at all. */
  lemma EmptyItemPartAccepted()
    ensures ParseLine(EmptyItemsLine) == Accepted(80, [])
    ensures LineAnswer(EmptyItemsLine) == None
  {
    var capacity, rest := "80", " ";
    assert EmptyItemsLine == capacity + ":" + rest;
    TwoPartLine(capacity, rest);
    CapacityEighty(capacity, rest);
    assert IsTrimmable(rest[0]);
    BlankItemPartHasNoItems(rest);
    LineAnswerCases(EmptyItemsLine);
  }

  /** A capacity part of `80` passes whatever follows it. */
  lemma CapacityEighty(capacity: string, rest: string)
    requires capacity == "80"
    ensures ValidatePackMaxWeight([capacity, rest]) == Success(80)
  {
    Spellings();
    IndexField(80);
  }

  /** The capacity part of the example line, before its ':'. */
  const CapacityText: string := "81 "

  /** The example line of the tests. */
  const ExampleLine: string := "81 : (1,53.38,€45) (2,88.62,€98)"

  /** The example line is the capacity `81 `, a colon, and the two tokens after a blank each. */
  lemma ExampleLineShape()
    ensures ExampleLine == CapacityText + ":" + (" " + FirstTokenText + " " + SecondTokenText)
    ensures ':' !in " " + FirstTokenText + " " + SecondTokenText
  {
    ItemPartHasNoColon();
  }

  lemma ItemPartHasNoColon()
    ensures ':' !in " " + FirstTokenText + " " + SecondTokenText
  {
    assert ':' !in FirstTokenText && ':' !in SecondTokenText;
  }

  /** `81 ` trims to a capacity of 81. */
  lemma ExampleCapacity(rest: string)
    ensures ValidatePackMaxWeight([CapacityText, rest]) == Success(81)
  {
    var capacity := Trim(CapacityText);
    assert capacity == "81";
    Spellings();
    IndexField(81);
  }

  /** The item part trims and splits into the two tokens. */
  lemma ExampleTokens()
    ensures SplitOnSpaces(Trim(" " + FirstTokenText + " " + SecondTokenText)) == [FirstTokenText, SecondTokenText]
  {
    ExampleItemPartTrimmed();
    JoinOfTokens();
    TokensHaveNoSpace();
    SplitTrimmedJoin(" " + FirstTokenText + " " + SecondTokenText, [FirstTokenText, SecondTokenText]);
  }

  /** Text that trims to whitespace-free tokens joined by single blanks splits back into them. */
  lemma SplitTrimmedJoin(padded: string, tokens: seq<string>)
    requires |tokens| >= 1 && forall i | 0 <= i < |tokens| :: tokens[i] != [] && HasNoSpace(tokens[i])
    requires Trim(padded) == Join(tokens, ' ')
    ensures SplitOnSpaces(Trim(padded)) == tokens
  {
    SplitOnSpacesJoin(tokens);
  }

  lemma ExampleItemPartTrimmed()
    ensures Trim(" " + FirstTokenText + " " + SecondTokenText) == FirstTokenText + " " + SecondTokenText
  {
    var joined := FirstTokenText + " " + SecondTokenText;
    var padded := " " + FirstTokenText + " " + SecondTokenText;
    assert padded[1..] == joined;
    assert joined[0] == '(' && joined[|joined| - 1] == ')';
    assert TrimStart(padded) == TrimStart(joined) == joined;
  }

  lemma JoinOfTokens()
    ensures Join([FirstTokenText, SecondTokenText], ' ') == FirstTokenText + " " + SecondTokenText
  {
    assert [FirstTokenText, SecondTokenText][1..] == [SecondTokenText];
  }

  lemma TokensHaveNoSpace()
    ensures FirstTokenText != [] && HasNoSpace(FirstTokenText)
    ensures SecondTokenText != [] && HasNoSpace(SecondTokenText)
  {
  }

  /** The example's tokens with a tab and two blanks between them instead of one blank. */
  const TabbedItems: string := "(1,53.38,€45)\t  (2,88.62,€98)"

  /** The item part is read the same with any run of whitespace between its tokens. */
  lemma TabbedTokens()
    ensures ItemTokens([CapacityText, TabbedItems]) == [FirstTokenText, SecondTokenText]
  {
    var ts := [FirstTokenText, SecondTokenText];
    var ws := ["\t  "];
    TokensHaveNoSpace();
    TabbedJoin(ts, ws);
    assert TabbedItems[0] == '(' && TabbedItems[|TabbedItems| - 1] == ')';
    assert TrimStart(TabbedItems) == TabbedItems && TrimEnd(TabbedItems) == TabbedItems;
    ItemTokensOfRuns([CapacityText, TabbedItems], ts, ws);
  }

  lemma TabbedJoin(ts: seq<string>, ws: seq<string>)
    requires ts == [FirstTokenText, SecondTokenText] && ws == ["\t  "]
    ensures |ws| == |ts| - 1 && IsSpaceRun(ws[0]) && JoinRuns(ts, ws) == TabbedItems
  {
    assert ts[1..] == [SecondTokenText] && ws[1..] == [];
  }

  /** The example line is accepted with its capacity and both of its items, in order. */
  lemma ExampleLineAccepted()
    ensures ParseLine(ExampleLine)
         == Accepted(81, [Item(1, Finite(53.38), Finite(45.0)), Item(2, Finite(88.62), Finite(98.0))])
  {
    var rest := " " + FirstTokenText + " " + SecondTokenText;
    ExampleLineShape();
    TwoPartLine(CapacityText, rest);
    ExampleCapacity(rest);
    ExampleTokens();
    FirstToken();
    SecondToken();
    FilterMapPair(FirstTokenText, SecondTokenText, ParseItem);
  }

  /** processLine answers null for the example line, so pack prints "null" rather than an index
      list: the solver is a stub. */
  lemma ExampleLineAnswer()
    ensures LineAnswer(ExampleLine) == None
    ensures JoinLines(Entries([ExampleLine])) == "null"
  {
    ExampleLineAccepted();
    assert [ExampleLine][..0] == [];
    assert !IsBlank(ExampleLine) by {
      assert !IsTrimmable(ExampleLine[0]);
    }
  }
}
