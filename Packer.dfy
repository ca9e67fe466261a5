/** The line front-end of com.mobiquity.packer.Packer: each non-blank input line is split into a
    capacity and item tokens, validated, and turned into a list of items or into the sentinel "-".
    Every `throw` of the source is a `Failure`/`Rejected` value here, and every `catch` a match. */
module Packer {
  import opened Wrappers
  import opened JavaText
  import opened JavaNumbers

  /** One candidate item of a line: its index, weight and cost (Item.java). */
  datatype Item = Item(index: int, weight: Double, cost: Double)

  /** Why a whole line becomes "-". */
  datatype LineError =
    | InvalidPackFormat   // the ':'-split does not give exactly two parts
    | CapacityNotAnInt    // Integer.parseInt throws on the first part
    | InvalidPackWeight   // the capacity lies outside (0, 100]

  /** Why one item token is dropped. */
  datatype ItemError =
    | InvalidItemFormat   // not exactly three comma-separated fields
    | DuplicateIndex      // the duplicate-index check, which never fires
    | IndexNotAnInt
    | WeightNotANumber
    | CostNotANumber

  /** A line is either rejected or accepted with its capacity and its items in input order.
      The source validates the capacity and then drops it; it is kept here only to be stated about. */
  datatype LineResult = Rejected(error: LineError) | Accepted(capacity: int, items: seq<Item>)

  const MaxCapacity: int := 100

  /** The static field passed to the solver instead of the line's capacity; nothing assigns it. */
  const MaxWeight: int := 0

  // ---------------------------------------------------------------------------
  // Line level: validateLinePackComposition and its three checks

  /** validateLineFormat: exactly two parts. */
  function ValidateLineFormat(parts: seq<string>): (r: Result<(), LineError>)
    ensures r.Success? <==> |parts| == 2
    ensures r.Failure? ==> r.error == InvalidPackFormat
  {
    if |parts| != 2 then Failure(InvalidPackFormat) else Success(())
  }

  /** getBufferPart: the trimmed part (a part of a split is never null). */
  function BufferPart(parts: seq<string>, index: nat): string
    requires index < |parts|
  {
    Trim(parts[index])
  }

  /** validatePackMaxWeight: the trimmed first part parsed as an `int` in (0, 100]. */
  function ValidatePackMaxWeight(parts: seq<string>): (r: Result<int, LineError>)
    requires |parts| >= 1
    ensures r.Success? <==> ParseInt(Trim(parts[0])).Some? && 0 < ParseInt(Trim(parts[0])).value <= MaxCapacity
    ensures r.Success? ==> r.value == ParseInt(Trim(parts[0])).value
    ensures r.Failure? ==> (r.error == CapacityNotAnInt <==> ParseInt(Trim(parts[0])).None?)
  {
    match ParseInt(BufferPart(parts, 0))
    case None => Failure(CapacityNotAnInt)
    case Some(weight) =>
      if weight > MaxCapacity || weight <= 0 then Failure(InvalidPackWeight) else Success(weight)
  }

  /** validatePackItems: splits the item part and discards the result, so it accepts every line. */
  function ValidatePackItems(parts: seq<string>): (r: Result<(), LineError>)
    requires |parts| >= 2
    ensures r == Success(())
  {
    var itemStrings := SplitOnSpaces(BufferPart(parts, 1));
    Success(())
  }

  /** validateLinePackComposition: format, then capacity, then the item part. The capacity is
      returned so that it can be stated about; the source returns nothing. */
  function ValidateLinePackComposition(parts: seq<string>): (r: Result<int, LineError>)
    ensures r.Success? <==> |parts| == 2 && ValidatePackMaxWeight(parts).Success?
    ensures r.Success? ==> |parts| == 2 && 0 < r.value <= MaxCapacity
    ensures r.Success? ==> r.value == ParseInt(Trim(parts[0])).value
    ensures |parts| != 2 ==> r == Failure(InvalidPackFormat)
  {
    match ValidateLineFormat(parts)
    case Failure(e) => Failure(e)
    case Success(_) =>
      match ValidatePackMaxWeight(parts)
      case Failure(e) => Failure(e)
      case Success(capacity) =>
        match ValidatePackItems(parts)
        case Failure(e) => Failure(e)
        case Success(_) => Success(capacity)
  }

  // ---------------------------------------------------------------------------
  // Item level: parseItemDelimiters, validateItems, transformItem

  /** The item tokens: the trimmed second part split on runs of whitespace. */
  function ItemTokens(parts: seq<string>): seq<string>
    requires |parts| >= 2
  {
    SplitOnSpaces(BufferPart(parts, 1))
  }

  /** parseItemDelimiters: every '(' and ')' removed, wherever it stands, then split on ','. */
  function ParseItemDelimiters(token: string): (fields: seq<string>)
    ensures forall i | 0 <= i < |fields| :: '(' !in fields[i] && ')' !in fields[i] && ',' !in fields[i]
  {
    var clean := RemoveAll(RemoveAll(token, '('), ')');
    assert '(' !in clean by {
      var once := RemoveAll(token, '(');
      RemoveAllKeepsOthers(once, ')');
      assert multiset(clean)['('] == multiset(once)['('] == 0;
    }
    SplitKeepsAbsence(clean, ',', '(');
    SplitKeepsAbsence(clean, ',', ')');
    Split(clean, ',')
  }

  /** No parenthesis and no comma. */
  predicate IsPlainField(f: string) {
    '(' !in f && ')' !in f && ',' !in f
  }

  /** parseItemDelimiters recovers the three fields of `(index,weight,cost)` when no field holds a
      delimiter and the cost is not empty (an empty last field is dropped by the split). */
  lemma ParseItemDelimitersOfTuple(a: string, b: string, c: string)
    requires IsPlainField(a) && IsPlainField(b) && IsPlainField(c) && c != []
    ensures ParseItemDelimiters("(" + a + "," + b + "," + c + ")") == [a, b, c]
  {
    var body := a + "," + b + "," + c;
    JoinOfThree(a, b, c);
    assert "(" + a + "," + b + "," + c + ")" == "(" + body + ")";
    assert '(' !in body && ')' !in body;
    StripParentheses(body);
    SplitJoin([a, b, c], ',');
  }

  lemma JoinOfThree(a: string, b: string, c: string)
    ensures Join([a, b, c], ',') == a + "," + b + "," + c
  {
    assert [a, b, c][1..] == [b, c];
    assert [b, c][1..] == [c];
    assert Join([c], ',') == c;
    assert Join([b, c], ',') == b + "," + c;
    assert Join([a, b, c], ',') == a + "," + (b + "," + c);
  }

  /** Removing both parentheses from `(body)` gives `body` when it holds none. */
  lemma StripParentheses(body: string)
    requires '(' !in body && ')' !in body
    ensures RemoveAll(RemoveAll("(" + body + ")", '('), ')') == body
  {
    RemoveAllAppend("(", body + ")", '(');
    assert "(" + body + ")" == "(" + (body + ")");
    assert RemoveAll("(", '(') == [];
    assert '(' !in body + ")";
    assert [] + (body + ")") == body + ")";
    RemoveAllAppend(body, ")", ')');
    assert RemoveAll(")", ')') == [];
    assert body + [] == body;
  }

  /** validateItemLength: exactly three fields. */
  function ValidateItemLength(fields: seq<string>): (r: Result<(), ItemError>)
    ensures r.Success? <==> |fields| == 3
    ensures r.Failure? ==> r.error == InvalidItemFormat
  {
    if |fields| != 3 then Failure(InvalidItemFormat) else Success(())
  }

  /** The filter of validateItemIndex: the lambda trims the candidate's index field, throws the
      trimmed text away, and answers false for every accepted item. */
  predicate FilterKeeps(indexField: string, accepted: Item) {
    false
  }

  /** `items.stream().filter(...).findAny()`: an accepted item the filter keeps, if there is one. */
  function FindAny(items: seq<Item>, indexField: string): (r: Option<Item>)
    ensures r.Some? ==> r.value in items && FilterKeeps(indexField, r.value)
  {
    if items == [] then None
    else
      var head := items[0];
      if FilterKeeps(indexField, head) then Some(head) else FindAny(items[1..], indexField)
  }

  /** validateItemIndex: rejects the token when the filter finds an accepted item. */
  function ValidateItemIndex(fields: seq<string>, items: seq<Item>): Result<(), ItemError>
    requires |fields| == 3
  {
    match FindAny(items, fields[0])
    case Some(_) => Failure(DuplicateIndex)
    case None => Success(())
  }

  /** validateItems: the length check, then the index check. */
  function ValidateItems(fields: seq<string>, items: seq<Item>): (r: Result<(), ItemError>)
    ensures r.Success? ==> |fields| == 3
  {
    match ValidateItemLength(fields)
    case Failure(e) => Failure(e)
    case Success(_) => ValidateItemIndex(fields, items)
  }

  /** transformItem: the index with parseInt, the weight with parseDouble, the cost with
      parseDouble after every euro sign is removed; each field trimmed first. */
  function TransformItem(fields: seq<string>): (r: Result<Item, ItemError>)
    requires |fields| == 3
    ensures r.Success? <==>
      ParseInt(Trim(fields[0])).Some? && ParseDouble(Trim(fields[1])).Some?
      && ParseDouble(Trim(RemoveAll(fields[2], '€'))).Some?
    ensures r.Success? ==>
      r.value == Item(ParseInt(Trim(fields[0])).value, ParseDouble(Trim(fields[1])).value,
                      ParseDouble(Trim(RemoveAll(fields[2], '€'))).value)
    ensures r.Failure? ==> (r.error == IndexNotAnInt <==> ParseInt(Trim(fields[0])).None?)
    ensures r.Failure? && ParseInt(Trim(fields[0])).Some? ==>
      (r.error == WeightNotANumber <==> ParseDouble(Trim(fields[1])).None?)
  {
    match ParseInt(Trim(fields[0]))
    case None => Failure(IndexNotAnInt)
    case Some(index) =>
      match ParseDouble(Trim(fields[1]))
      case None => Failure(WeightNotANumber)
      case Some(weight) =>
        match ParseDouble(Trim(RemoveAll(fields[2], '€')))
        case None => Failure(CostNotANumber)
        case Some(cost) => Success(Item(index, weight, cost))
  }

  /** One pass of the try block in processItemsPack, given the items accepted so far. */
  function ProcessItem(token: string, items: seq<Item>): Result<Item, ItemError> {
    var fields := ParseItemDelimiters(token);
    match ValidateItems(fields, items)
    case Failure(e) => Failure(e)
    case Success(_) => TransformItem(fields)
  }

  /** What a token means on its own: three fields, an `int` index, a numeric weight, and a
      numeric cost once euro signs are gone; otherwise nothing. */
  function ParseItem(token: string): Option<Item> {
    var fields := ParseItemDelimiters(token);
    if |fields| != 3 then None
    else
      match TransformItem(fields)
      case Success(item) => Some(item)
      case Failure(_) => None
  }

  /** A token with no comma yields one field, never three, so it is dropped. */
  lemma TokenWithoutCommaDropped(token: string)
    requires ',' !in token
    ensures |ParseItemDelimiters(token)| == 1
    ensures ParseItem(token) == None
  {
    var once := RemoveAll(token, '(');
    var clean := RemoveAll(once, ')');
    RemoveAllKeepsOthers(token, '(');
    RemoveAllKeepsOthers(once, ')');
    assert multiset(clean)[','] == multiset(once)[','] == multiset(token)[','] == 0;
    assert Split(clean, ',') == [clean];
  }

  /** The trimmed item part is read token by token, whatever runs of whitespace (blanks, tabs,
      line breaks, several of them) stand between the tokens. */
  lemma ItemTokensOfRuns(parts: seq<string>, ts: seq<string>, ws: seq<string>)
    requires |parts| >= 2
    requires |ts| >= 1 && |ws| == |ts| - 1
    requires forall i | 0 <= i < |ts| :: ts[i] != [] && HasNoSpace(ts[i])
    requires forall i | 0 <= i < |ws| :: IsSpaceRun(ws[i])
    requires Trim(parts[1]) == JoinRuns(ts, ws)
    ensures ItemTokens(parts) == ts
  {
    SplitOnSpacesJoinRuns(ts, ws);
  }

  /** An item part made only of blanks gives one empty token and no item. */
  lemma BlankItemPartHasNoItems(rest: string)
    requires forall i | 0 <= i < |rest| :: IsTrimmable(rest[i])
    ensures SplitOnSpaces(Trim(rest)) == [[]]
    ensures AcceptedItems(SplitOnSpaces(Trim(rest))) == []
  {
    var blank := Trim(rest);
    assert blank == [];
    TokenWithoutCommaDropped(blank);
    var tokens := SplitOnSpaces(blank);
    assert tokens == [blank];
    assert tokens[1..] == [];
  }

  /** A token written `(index,weight,cost)` whose fields parse gives exactly that item. */
  lemma ParseItemOfTuple(a: string, b: string, c: string, index: int, weight: Double, cost: Double)
    requires IsPlainField(a) && IsPlainField(b) && IsPlainField(c) && c != []
    requires ParseInt(Trim(a)) == Some(index)
    requires ParseDouble(Trim(b)) == Some(weight)
    requires ParseDouble(Trim(RemoveAll(c, '€'))) == Some(cost)
    ensures ParseItem("(" + a + "," + b + "," + c + ")") == Some(Item(index, weight, cost))
  {
    ParseItemDelimitersOfTuple(a, b, c);
    ParseItemOfFields("(" + a + "," + b + "," + c + ")", a, b, c, index, weight, cost);
  }

  /** A token whose three fields parse gives the item they spell. */
  lemma ParseItemOfFields(token: string, a: string, b: string, c: string, index: int, weight: Double, cost: Double)
    requires ParseItemDelimiters(token) == [a, b, c]
    requires ParseInt(Trim(a)) == Some(index)
    requires ParseDouble(Trim(b)) == Some(weight)
    requires ParseDouble(Trim(RemoveAll(c, '€'))) == Some(cost)
    ensures ParseItem(token) == Some(Item(index, weight, cost))
  {
  }

  /** A token in the documented item format `(<index>,<whole>.<fraction>,€<cost>)`, with every
      number written in decimal digits, is read as the item it spells: the weight exactly, the
      cost as a whole number. */
  lemma ParseItemOfDocumentedToken(index: nat, whole: string, fraction: string, cost: nat)
    requires index <= IntMax && whole != [] && IsDigits(whole) && IsDigits(fraction)
    ensures ParseItem("(" + ShowNat(index) + "," + (whole + "." + fraction) + "," + ("€" + ShowNat(cost)) + ")")
         == Some(Item(index, Finite(DecimalValue(whole, fraction)), Finite(cost as real)))
  {
    var a := ShowNat(index);
    var b := whole + "." + fraction;
    var c := "€" + ShowNat(cost);
    IndexField(index);
    WeightField(whole, fraction);
    CostField(cost);
    ParseItemOfTuple(a, b, c, index, Finite(DecimalValue(whole, fraction)), Finite(cost as real));
  }

  /** Decimal digits make a plain field. */
  lemma DigitsArePlain(s: string)
    requires IsDigits(s)
    ensures IsPlainField(s)
  {
    assert forall i | 0 <= i < |s| :: IsDigit(s[i]);
  }

  /** An index field spelled in decimal parses to its value. */
  lemma IndexField(n: nat)
    requires n <= IntMax
    ensures IsPlainField(ShowNat(n)) && ParseInt(Trim(ShowNat(n))) == Some(n)
  {
    var field := ShowNat(n);
    DigitsArePlain(field);
    var trimmed := Trim(field);
    assert IsDigit(field[0]) && IsDigit(field[|field| - 1]);
    TrimKeeps(field);
    assert trimmed == field;
    ParseIntShowInt(n);
  }

  /** A weight field `<whole>.<fraction>` parses to its exact decimal value. */
  lemma WeightField(whole: string, fraction: string)
    requires whole != [] && IsDigits(whole) && IsDigits(fraction)
    ensures IsPlainField(whole + "." + fraction)
    ensures ParseDouble(Trim(whole + "." + fraction)) == Some(Finite(DecimalValue(whole, fraction)))
  {
    var field := whole + "." + fraction;
    DigitsArePlain(whole);
    DigitsArePlain(fraction);
    assert IsPlainField(field) by {
      assert forall i | 0 <= i < |field| :: field[i] == '.' || field[i] in whole || field[i] in fraction;
    }
    ParseDoubleIgnoresTrim(field);
    ParseDoublePoint(whole, fraction);
  }

  /** A cost field `€<n>` loses its euro sign and parses to n. */
  lemma CostField(n: nat)
    ensures IsPlainField("€" + ShowNat(n))
    ensures ParseDouble(Trim(RemoveAll("€" + ShowNat(n), '€'))) == Some(Finite(n as real))
  {
    var digits := ShowNat(n);
    var field := "€" + digits;
    DigitsArePlain(digits);
    assert IsPlainField(field) by {
      assert field[1..] == digits;
      assert forall i | 1 <= i < |field| :: field[i] == digits[i - 1];
    }
    RemoveAllAppend("€", digits, '€');
    assert RemoveAll("€", '€') == [];
    assert '€' !in digits by {
      assert forall i | 0 <= i < |digits| :: IsDigit(digits[i]);
    }
    assert [] + digits == digits;
    ParseDoubleIgnoresTrim(digits);
    ParseDoubleShowNat(n);
  }

  /** The duplicate-index check never rejects: the filter keeps nothing. */
  lemma ValidateItemIndexAccepts(fields: seq<string>, items: seq<Item>)
    requires |fields| == 3
    ensures ValidateItemIndex(fields, items) == Success(())
  {
  }

  /** A token yields an item exactly when it parses on its own, and that item, whatever was
      accepted before it: repeated indices are not rejected. */
  lemma ProcessItemIsParseItem(token: string, items: seq<Item>)
    ensures ProcessItem(token, items).Success? <==> ParseItem(token).Some?
    ensures ProcessItem(token, items).Success? ==> ProcessItem(token, items).value == ParseItem(token).value
  {
    var fields := ParseItemDelimiters(token);
    if |fields| == 3 {
      ValidateItemIndexAccepts(fields, items);
    }
  }

  // ---------------------------------------------------------------------------
  // processItemsPack: the loop over tokens

  /** The list a loop over `tokens` builds when each token's outcome may depend on the items
      accepted before it: an accepted item is appended, a failing token skipped. */
  function Accumulate(tokens: seq<string>, step: (string, seq<Item>) -> Result<Item, ItemError>): seq<Item> {
    if tokens == [] then []
    else
      var items := Accumulate(tokens[..|tokens| - 1], step);
      match step(tokens[|tokens| - 1], items)
      case Success(item) => items + [item]
      case Failure(_) => items
  }

  /** One more token adds the item its step yields, or nothing. */
  lemma AccumulateStep(tokens: seq<string>, i: nat, step: (string, seq<Item>) -> Result<Item, ItemError>)
    requires i < |tokens|
    ensures var before := Accumulate(tokens[..i], step);
      Accumulate(tokens[..i + 1], step)
      == if step(tokens[i], before).Success? then before + [step(tokens[i], before).value] else before
  {
    var prefix := tokens[..i + 1];
    assert prefix[..i] == tokens[..i] && prefix[i] == tokens[i];
  }

  /** The items of the tokens that parse on their own, in order. */
  function FilterMap(tokens: seq<string>, parse: string -> Option<Item>): seq<Item> {
    if tokens == [] then []
    else
      (match parse(tokens[0]) case Some(item) => [item] case None => [])
      + FilterMap(tokens[1..], parse)
  }

  /** The list processItemsPack holds after the given tokens. */
  function ItemsAfter(tokens: seq<string>): seq<Item> {
    Accumulate(tokens, ProcessItem)
  }

  /** The reference list: every token that parses on its own, in order. */
  function AcceptedItems(tokens: seq<string>): seq<Item> {
    FilterMap(tokens, ParseItem)
  }

  /** Filtering a concatenation filters each part: a dropped token never affects its neighbours. */
  lemma {:induction false} FilterMapAppend(a: seq<string>, b: seq<string>, parse: string -> Option<Item>)
    ensures FilterMap(a + b, parse) == FilterMap(a, parse) + FilterMap(b, parse)
  {
    if a == [] {
      assert a + b == b;
    } else {
      assert (a + b)[0] == a[0] && (a + b)[1..] == a[1..] + b;
      FilterMapAppend(a[1..], b, parse);
    }
  }

  /** A loop whose step ignores the items before it, and agrees with `parse`, builds the filtered list. */
  lemma {:induction false} AccumulateIsFilterMap(tokens: seq<string>, step: (string, seq<Item>) -> Result<Item, ItemError>,
                                                 parse: string -> Option<Item>)
    requires forall t, items :: step(t, items).Success? <==> parse(t).Some?
    requires forall t, items :: step(t, items).Success? ==> step(t, items).value == parse(t).value
    ensures Accumulate(tokens, step) == FilterMap(tokens, parse)
  {
    if tokens != [] {
      var init, last := tokens[..|tokens| - 1], tokens[|tokens| - 1];
      AccumulateIsFilterMap(init, step, parse);
      assert tokens == init + [last];
      FilterMapAppend(init, [last], parse);
      assert [last][1..] == [];
    }
  }

  /** At most one item per token, and one per token exactly when every token parses. */
  lemma {:induction false} FilterMapLength(tokens: seq<string>, parse: string -> Option<Item>)
    ensures |FilterMap(tokens, parse)| <= |tokens|
    ensures |FilterMap(tokens, parse)| == |tokens| <==> forall i | 0 <= i < |tokens| :: parse(tokens[i]).Some?
  {
    if tokens != [] {
      FilterMapLength(tokens[1..], parse);
      assert forall i | 1 <= i < |tokens| :: tokens[i] == tokens[1..][i - 1];
    }
  }

  /** An item is in the filtered list exactly when some token parses to it. */
  lemma {:induction false} FilterMapMembers(tokens: seq<string>, parse: string -> Option<Item>, item: Item)
    ensures item in FilterMap(tokens, parse) <==> exists i | 0 <= i < |tokens| :: parse(tokens[i]) == Some(item)
  {
    if tokens != [] {
      FilterMapMembers(tokens[1..], parse, item);
      if exists i | 0 <= i < |tokens| :: parse(tokens[i]) == Some(item) {
        var i :| 0 <= i < |tokens| && parse(tokens[i]) == Some(item);
        if i > 0 {
          assert tokens[1..][i - 1] == tokens[i];
        }
      }
      if exists i | 0 <= i < |tokens[1..]| :: parse(tokens[1..][i]) == Some(item) {
        var i :| 0 <= i < |tokens[1..]| && parse(tokens[1..][i]) == Some(item);
        assert tokens[i + 1] == tokens[1..][i];
      }
    }
  }

  /** The loop's list is the reference list. */
  lemma ItemsAfterIsAcceptedItems(tokens: seq<string>)
    ensures ItemsAfter(tokens) == AcceptedItems(tokens)
  {
    forall t, items
      ensures ProcessItem(t, items).Success? <==> ParseItem(t).Some?
      ensures ProcessItem(t, items).Success? ==> ProcessItem(t, items).value == ParseItem(t).value
    {
      ProcessItemIsParseItem(t, items);
    }
    AccumulateIsFilterMap(tokens, ProcessItem, ParseItem);
  }

  /** At most one item per token; as many items as tokens exactly when every token parses. */
  lemma AcceptedItemsLength(tokens: seq<string>)
    ensures |AcceptedItems(tokens)| <= |tokens|
    ensures |AcceptedItems(tokens)| == |tokens| <==> forall i | 0 <= i < |tokens| :: ParseItem(tokens[i]).Some?
  {
    FilterMapLength(tokens, ParseItem);
  }

  /** An item is accepted exactly when some token parses to it. */
  lemma AcceptedItemsMembers(tokens: seq<string>, item: Item)
    ensures item in AcceptedItems(tokens) <==> exists i | 0 <= i < |tokens| :: ParseItem(tokens[i]) == Some(item)
  {
    FilterMapMembers(tokens, ParseItem, item);
  }

  /** When every token parses, the filtered list is the pointwise list of their items. */
  lemma {:induction false} FilterMapAllParse(tokens: seq<string>, parse: string -> Option<Item>)
    requires forall i | 0 <= i < |tokens| :: parse(tokens[i]).Some?
    ensures |FilterMap(tokens, parse)| == |tokens|
    ensures forall i | 0 <= i < |tokens| :: FilterMap(tokens, parse)[i] == parse(tokens[i]).value
  {
    if tokens != [] {
      assert forall i | 0 <= i < |tokens| - 1 :: tokens[1..][i] == tokens[i + 1];
      FilterMapAllParse(tokens[1..], parse);
    }
  }

  /** Two tokens that both parse give their two items. */
  lemma FilterMapPair(a: string, b: string, parse: string -> Option<Item>)
    requires parse(a).Some? && parse(b).Some?
    ensures FilterMap([a, b], parse) == [parse(a).value, parse(b).value]
  {
    FilterMapAllParse([a, b], parse);
  }

  /** When every token parses, each token gives its item at its own position. */
  lemma AcceptedItemsAllParse(tokens: seq<string>)
    requires forall i | 0 <= i < |tokens| :: ParseItem(tokens[i]).Some?
    ensures |AcceptedItems(tokens)| == |tokens|
    ensures forall i | 0 <= i < |tokens| :: AcceptedItems(tokens)[i] == ParseItem(tokens[i]).value
  {
    FilterMapAllParse(tokens, ParseItem);
  }

  /** Two tokens that parse to items with the same index are both kept, in order. */
  lemma DuplicateIndicesKept(first: string, second: string)
    requires ParseItem(first).Some? && ParseItem(second).Some?
    requires ParseItem(first).value.index == ParseItem(second).value.index
    ensures ItemsAfter([first, second]) == [ParseItem(first).value, ParseItem(second).value]
  {
    ItemsAfterIsAcceptedItems([first, second]);
    FilterMapPair(first, second, ParseItem);
  }

  /** processItemsPack: the per-token loop with its own catch, appending to a growing list. */
  method ProcessItemsPack(parts: seq<string>) returns (items: seq<Item>)
    requires |parts| == 2
    ensures items == ItemsAfter(ItemTokens(parts))
    ensures items == AcceptedItems(ItemTokens(parts))
    ensures |items| <= |ItemTokens(parts)|
  {
    var itemStrings := SplitOnSpaces(BufferPart(parts, 1));
    items := [];
    for i := 0 to |itemStrings|
      invariant items == Accumulate(itemStrings[..i], ProcessItem)
    {
      var outcome := ProcessItem(itemStrings[i], items);
      AccumulateStep(itemStrings, i, ProcessItem);
      if outcome.Success? {
        items := items + [outcome.value];
      }
    }
    assert itemStrings[..|itemStrings|] == itemStrings;
    ItemsAfterIsAcceptedItems(itemStrings);
    AcceptedItemsLength(itemStrings);
  }

  // ---------------------------------------------------------------------------
  // processLine

  /** What processLine computes before the solver: the line split on ':', validated, and its
      tokens turned into items. */
  function ParseLine(line: string): LineResult {
    var parts := Split(line, ':');
    match ValidateLinePackComposition(parts)
    case Failure(e) => Rejected(e)
    case Success(capacity) => Accepted(capacity, ItemsAfter(ItemTokens(parts)))
  }

  /** findOptimalCombination: a stub that returns null whatever it is given. */
  function FindOptimalCombination(maxWeight: int, items: seq<Item>): (r: Option<string>)
    ensures r == None
  {
    None
  }

  /** The value processLine returns: "-" for a rejected line, otherwise what the solver returns
      for the static maxWeight. */
  function LineAnswer(line: string): Option<string> {
    match ParseLine(line)
    case Rejected(_) => Some("-")
    case Accepted(_, items) => FindOptimalCombination(MaxWeight, items)
  }

  /** A line whose ':'-split does not have exactly two parts is rejected and answers "-". */
  lemma MalformedLineRejected(line: string)
    requires |Split(line, ':')| != 2
    ensures ParseLine(line) == Rejected(InvalidPackFormat)
    ensures LineAnswer(line) == Some("-")
  {
  }

  /** A line is accepted exactly when it has two parts and its trimmed first part is an `int` in
      (0, 100]; it then carries that capacity and the reference list of its tokens' items. */
  lemma LineAcceptance(line: string)
    ensures var parts := Split(line, ':');
      ParseLine(line).Accepted? <==>
        |parts| == 2 && ParseInt(Trim(parts[0])).Some? && 0 < ParseInt(Trim(parts[0])).value <= MaxCapacity
    ensures ParseLine(line).Accepted? ==>
      var parts := Split(line, ':');
      ParseLine(line).capacity == ParseInt(Trim(parts[0])).value
      && ParseLine(line).items == AcceptedItems(SplitOnSpaces(Trim(parts[1])))
  {
    var parts := Split(line, ':');
    if ParseLine(line).Accepted? {
      ItemsAfterIsAcceptedItems(ItemTokens(parts));
    }
  }

  /** A ':' at the very end of the line only adds an empty last piece, which the split drops:
      the line reads as if the colon were not there. */
  lemma TrailingColonDropped(capacity: string, rest: string)
    requires ':' !in capacity && ':' !in rest && rest != []
    ensures Split(capacity + ":" + rest + ":", ':') == [capacity, rest]
    ensures ParseLine(capacity + ":" + rest + ":") == ParseLine(capacity + ":" + rest)
  {
    TrailingColonSplit(capacity, rest, capacity + ":" + rest + ":");
    SplitJoin([capacity, rest], ':');
    assert Join([capacity, rest], ':') == capacity + ":" + rest;
  }

  lemma TrailingColonSplit(capacity: string, rest: string, line: string)
    requires ':' !in capacity && ':' !in rest && rest != []
    requires line == capacity + ":" + rest + ":"
    ensures Split(line, ':') == [capacity, rest]
  {
    var ps := [capacity, rest, []];
    PiecesJoin(ps, ':');
    assert ps[1..] == [rest, []] && [rest, []][1..] == [[]];
    assert Join([[]], ':') == [];
    var tail := Join([rest, []], ':');
    assert tail == rest + [':'] + Join([[]], ':');
    assert tail == rest + [':'];
    assert Join(ps, ':') == capacity + [':'] + tail;
    assert capacity + [':'] + (rest + [':']) == line;
    assert Pieces(line, ':') == ps;
    assert line[|line| - 1] == ':';
    var r := Split(line, ':');
    assert r <= ps;
    assert Pieces(line, ':')[1] == rest != [];
    assert |r| >= 2;
    assert |r| != 3;
    assert r == ps[..2];
  }

  /** A ':' inside the item part makes a third part, and the line is rejected. */
  lemma InnerColonRejected(capacity: string, a: string, b: string)
    requires ':' !in capacity && ':' !in a && ':' !in b && b != []
    ensures ParseLine(capacity + ":" + a + ":" + b) == Rejected(InvalidPackFormat)
  {
    SplitJoin([capacity, a, b], ':');
    assert [capacity, a, b][1..] == [a, b] && [a, b][1..] == [b];
    var tail := Join([a, b], ':');
    assert Join([b], ':') == b;
    assert Join([a, b], ':') == a + [':'] + Join([b], ':');
    assert ":" == [':'] && tail == a + [':'] + b;
    assert Join([capacity, a, b], ':') == capacity + ":" + tail;
    assert capacity + ":" + (a + ":" + b) == capacity + ":" + a + ":" + b;
  }

  /** `<capacity>:<rest>` with no other ':' and a non-empty rest: the verdict depends on the
      capacity alone, whatever and however many tokens the rest holds. */
  lemma TwoPartLine(capacity: string, rest: string)
    requires ':' !in capacity && ':' !in rest && rest != []
    ensures ParseLine(capacity + ":" + rest)
         == match ValidatePackMaxWeight([capacity, rest])
            case Failure(e) => Rejected(e)
            case Success(c) => Accepted(c, AcceptedItems(SplitOnSpaces(Trim(rest))))
  {
    SplitJoin([capacity, rest], ':');
    assert Join([capacity, rest], ':') == capacity + ":" + rest;
    ItemsAfterIsAcceptedItems(ItemTokens([capacity, rest]));
  }

  /** processLine answers "-" exactly for a rejected line and null otherwise: the solver stub
      never produces an index list. */
  lemma LineAnswerCases(line: string)
    ensures LineAnswer(line) == Some("-") <==> ParseLine(line).Rejected?
    ensures LineAnswer(line) == None <==> ParseLine(line).Accepted?
  {
  }

  /** processLine: the same pipeline, with processItemsPack run as the loop it is. */
  method ProcessLine(line: string) returns (answer: Option<string>)
    ensures answer == LineAnswer(line)
    ensures answer == Some("-") || answer == None
  {
    var parts := Split(line, ':');
    var validated := ValidateLinePackComposition(parts);
    if validated.Failure? {
      return Some("-");
    }
    var items := ProcessItemsPack(parts);
    answer := FindOptimalCombination(MaxWeight, items);
  }

  // ---------------------------------------------------------------------------
  // pack: the loop over lines

  /** A line made only of characters at most U+0020; see `IsBlankIsTrimEmpty`. */
  predicate IsBlank(line: string) {
    forall i | 0 <= i < |line| :: IsTrimmable(line[i])
  }

  /** The blank-line test is `line.trim().isEmpty()`. */
  lemma IsBlankIsTrimEmpty(line: string)
    ensures IsBlank(line) <==> Trim(line) == []
  {
  }

  /** What `StringBuilder.append(String)` writes for an answer: a null prints as "null". */
  function Rendered(answer: Option<string>): string {
    match answer
    case Some(s) => s
    case None => "null"
  }

  /** The text appended for each line in turn: nothing for a blank line, the rendered answer
      otherwise. */
  function Entries(lines: seq<string>): seq<string> {
    if lines == [] then []
    else
      var last := lines[|lines| - 1];
      Entries(lines[..|lines| - 1]) + (if IsBlank(last) then [] else [Rendered(LineAnswer(last))])
  }

  /** The builder's content: every entry followed by a newline. */
  function Appended(entries: seq<string>): string {
    if entries == [] then [] else Appended(entries[..|entries| - 1]) + entries[|entries| - 1] + "\n"
  }

  /** The entries joined by newlines, no newline at the end. */
  function JoinLines(entries: seq<string>): string {
    if entries == [] then []
    else if |entries| == 1 then entries[0]
    else JoinLines(entries[..|entries| - 1]) + "\n" + entries[|entries| - 1]
  }

  /** The non-blank lines, in order. */
  function NonBlank(lines: seq<string>): (r: seq<string>)
    ensures |r| <= |lines|
    ensures forall i | 0 <= i < |r| :: !IsBlank(r[i]) && r[i] in lines
    ensures forall i | 0 <= i < |lines| :: !IsBlank(lines[i]) ==> lines[i] in r
  {
    if lines == [] then []
    else
      var last := lines[|lines| - 1];
      NonBlank(lines[..|lines| - 1]) + (if IsBlank(last) then [] else [last])
  }

  /** Line-by-line processing: the entries of two runs of lines are those of each, in order. */
  lemma {:induction false} EntriesAppend(a: seq<string>, b: seq<string>)
    ensures Entries(a + b) == Entries(a) + Entries(b)
  {
    if b == [] {
      assert a + b == a;
    } else {
      var b' := b[..|b| - 1];
      assert (a + b)[..|a + b| - 1] == a + b';
      assert (a + b)[|a + b| - 1] == b[|b| - 1];
      EntriesAppend(a, b');
    }
  }

  /** The kept lines of two runs of lines are those of the first run, then those of the second. */
  lemma {:induction false} NonBlankAppend(a: seq<string>, b: seq<string>)
    ensures NonBlank(a + b) == NonBlank(a) + NonBlank(b)
  {
    if b == [] {
      assert a + b == a;
    } else {
      var b' := b[..|b| - 1];
      assert (a + b)[..|a + b| - 1] == a + b';
      assert (a + b)[|a + b| - 1] == b[|b| - 1];
      NonBlankAppend(a, b');
    }
  }

  /** A single line is kept exactly when it is not blank. */
  lemma NonBlankOne(line: string)
    ensures NonBlank([line]) == if IsBlank(line) then [] else [line]
  {
    assert [line][..0] == [];
  }

  /** One entry per non-blank line, in order, each the rendered answer for that line. */
  lemma {:induction false} EntriesOfNonBlank(lines: seq<string>)
    ensures |Entries(lines)| == |NonBlank(lines)|
    ensures forall i | 0 <= i < |Entries(lines)| :: Entries(lines)[i] == Rendered(LineAnswer(NonBlank(lines)[i]))
  {
    if lines != [] {
      EntriesOfNonBlank(lines[..|lines| - 1]);
    }
  }

  /** Every entry is "-" for a rejected line or "null" for an accepted one. */
  lemma RenderedAnswer(line: string)
    ensures Rendered(LineAnswer(line)) == if ParseLine(line).Rejected? then "-" else "null"
  {
  }

  /** Every entry is "-" or "null". */
  lemma EntriesArePrintable(lines: seq<string>)
    ensures forall i | 0 <= i < |Entries(lines)| :: Entries(lines)[i] == "-" || Entries(lines)[i] == "null"
  {
    EntriesOfNonBlank(lines);
    forall i | 0 <= i < |Entries(lines)|
      ensures Entries(lines)[i] == "-" || Entries(lines)[i] == "null"
    {
      RenderedAnswer(NonBlank(lines)[i]);
    }
  }

  /** The builder content is the joined entries plus one final newline. */
  lemma {:induction false} AppendedIsJoined(entries: seq<string>)
    requires entries != []
    ensures Appended(entries) == JoinLines(entries) + "\n"
  {
    if |entries| > 1 {
      AppendedIsJoined(entries[..|entries| - 1]);
    } else {
      assert entries[..0] == [];
    }
  }

  /** A join starts with its first entry's first character and ends with its last entry's last. */
  lemma {:induction false} JoinLinesEnds(entries: seq<string>)
    requires entries != []
    requires forall i | 0 <= i < |entries| :: entries[i] != []
    ensures JoinLines(entries) != []
    ensures JoinLines(entries)[0] == entries[0][0]
    ensures JoinLines(entries)[|JoinLines(entries)| - 1] == entries[|entries| - 1][|entries[|entries| - 1]| - 1]
  {
    if |entries| > 1 {
      JoinLinesEnds(entries[..|entries| - 1]);
    }
  }

  /** The final trim only removes the last newline when every entry starts and ends visibly. */
  lemma TrimAppended(entries: seq<string>)
    requires forall i | 0 <= i < |entries| ::
      entries[i] != [] && !IsTrimmable(entries[i][0]) && !IsTrimmable(entries[i][|entries[i]| - 1])
    ensures Trim(Appended(entries)) == JoinLines(entries)
  {
    if entries != [] {
      AppendedIsJoined(entries);
      JoinLinesEnds(entries);
      TrimDropsFinalNewline(JoinLines(entries));
    }
  }

  /** One more line appends its rendered answer and a newline, or nothing when it is blank. */
  lemma AppendedStep(lines: seq<string>, i: nat)
    requires i < |lines|
    ensures IsBlank(lines[i]) ==> Appended(Entries(lines[..i + 1])) == Appended(Entries(lines[..i]))
    ensures !IsBlank(lines[i]) ==>
      Appended(Entries(lines[..i + 1])) == Appended(Entries(lines[..i])) + Rendered(LineAnswer(lines[i])) + "\n"
  {
    var prefix := lines[..i + 1];
    assert prefix[..i] == lines[..i] && prefix[i] == lines[i];
    var entries := Entries(lines[..i]);
    if !IsBlank(lines[i]) {
      var e := Rendered(LineAnswer(lines[i]));
      assert Entries(prefix) == entries + [e];
      assert (entries + [e])[..|entries|] == entries;
    } else {
      assert Entries(prefix) == entries + [] == entries;
    }
  }

  /** The trimmed builder content is the entries joined by newlines. */
  lemma PackOutputIsJoined(lines: seq<string>)
    ensures Trim(Appended(Entries(lines))) == JoinLines(Entries(lines))
  {
    EntriesArePrintable(lines);
    TrimAppended(Entries(lines));
  }

  /** pack over an already-read sequence of lines: every non-blank line's answer appended with a
      newline, and the whole trimmed at the end. */
  method Pack(lines: seq<string>) returns (out: string)
    ensures out == Trim(Appended(Entries(lines)))
    ensures out == JoinLines(Entries(lines))
  {
    var result := "";
    for i := 0 to |lines|
      invariant result == Appended(Entries(lines[..i]))
    {
      var line := lines[i];
      AppendedStep(lines, i);
      if !IsBlank(line) {
        var answer := ProcessLine(line);
        result := result + Rendered(answer) + "\n";
      }
    }
    assert lines[..|lines|] == lines;
    out := Trim(result);
    PackOutputIsJoined(lines);
  }
}
