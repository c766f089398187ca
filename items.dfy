/**
 * The item hierarchy: Item with its two variants Book and Magazine, the
 * identity key the catalog uses, and the field rules the property setters
 * enforce before they store a value.
 */
module Items {
  import opened Outcomes

  /** The text fields that share one validation rule (title, publisher, author). */
  datatype TextField = TitleField | PublisherField | AuthorField

  /** Why item data was rejected: one constructor per message of InvalidItemDataException. */
  datatype Problem =
    | NullItem
    | Blank(field: TextField)
    | TooShort(field: TextField)
    | NotCapitalized(field: TextField)
    | YearOutOfRange
    | IssueNotPositive

  /** The identity key of an item: title, publisher and publication year. */
  datatype Key = Key(title: string, publisher: string, year: int)

  /** The two exception kinds of the core. */
  datatype Error =
    | InvalidItemData(problem: Problem)
    | DuplicateEntry(key: Key)

  /** An item as the catalog stores it: the base fields plus the variant's own field. */
  datatype Item =
    | Book(title: string, publisher: string, publicationYear: int, author: string)
    | Magazine(title: string, publisher: string, publicationYear: int, issueNumber: int)

  /** The type argument of a by-type query: the base type or one of the two variants. */
  datatype ItemType = AnyItem | BookType | MagazineType

  function KeyOf(item: Item): Key {
    Key(item.title, item.publisher, item.publicationYear)
  }

  /** Whether an item is an instance of the given type. */
  predicate IsA(item: Item, t: ItemType) {
    match t
    case AnyItem => true
    case BookType => item.Book?
    case MagazineType => item.Magazine?
  }

  function MinLength(field: TextField): nat {
    if field == PublisherField then 6 else 5
  }

  /** ASCII white space (space, tab, line feed, vertical tab, form feed, carriage return). */
  predicate IsWhiteSpace(c: char) {
    c == ' ' || c == '\t' || c == '\n' || c == '\U{B}' || c == '\U{C}' || c == '\r'
  }

  /** The empty string and strings of white space only. */
  predicate IsBlank(s: string) {
    forall i :: 0 <= i < |s| ==> IsWhiteSpace(s[i])
  }

  predicate IsUpper(c: char) {
    'A' <= c <= 'Z'
  }

  /**
   * The length .NET reports for a string: the number of UTF-16 code units,
   * where a character above U+FFFF takes two (a surrogate pair).
   */
  function Utf16Length(s: string): (n: nat)
    ensures |s| <= n <= 2 * |s|
    ensures (forall i :: 0 <= i < |s| ==> s[i] as int < 0x1_0000) ==> n == |s|
  {
    if s == [] then 0
    else (if s[0] as int < 0x1_0000 then 1 else 2) + Utf16Length(s[1..])
  }

  /**
   * The checks of the Title, Publisher and Author setters, in their order:
   * blank, then too short (counted in UTF-16 code units), then not starting
   * with a capital letter. The first UTF-16 unit of a character above U+FFFF
   * is a surrogate, never a capital, just as such a character is not one here.
   * The blank check never decides acceptance on its own: a value is accepted
   * exactly when it is long enough and starts with a capital.
   */
  function CheckText(value: string, field: TextField): (r: Outcome<Error>)
    ensures r.Pass? <==> Utf16Length(value) >= MinLength(field) && IsUpper(value[0])
    ensures r.Fail? ==>
              r.error.InvalidItemData? &&
              r.error.problem in {Blank(field), TooShort(field), NotCapitalized(field)}
    ensures IsBlank(value) ==> r == Fail(InvalidItemData(Blank(field)))
  {
    if IsBlank(value) then Fail(InvalidItemData(Blank(field)))
    else if Utf16Length(value) < MinLength(field) then Fail(InvalidItemData(TooShort(field)))
    else if !IsUpper(value[0]) then Fail(InvalidItemData(NotCapitalized(field)))
    else Pass
  }

  /**
   * A value with at least the minimum number of characters and a capital
   * first letter is accepted, since its UTF-16 length is never smaller.
   */
  lemma TextAccepted(value: string, field: TextField)
    requires |value| >= MinLength(field) && IsUpper(value[0])
    ensures CheckText(value, field).Pass?
  {
  }

  /** The check of the PublicationYear setter: a four-digit year. */
  function CheckYear(year: int): Outcome<Error> {
    if year < 1000 || year > 9999 then Fail(InvalidItemData(YearOutOfRange)) else Pass
  }

  /** The check of the IssueNumber setter: a positive number. */
  function CheckIssueNumber(issue: int): Outcome<Error> {
    if issue <= 0 then Fail(InvalidItemData(IssueNotPositive)) else Pass
  }

  /** Every field of the item passes its setter's check. */
  predicate ValidItem(item: Item) {
    CheckText(item.title, TitleField).Pass? &&
    CheckText(item.publisher, PublisherField).Pass? &&
    CheckYear(item.publicationYear).Pass? &&
    match item
    case Book(_, _, _, author) => CheckText(author, AuthorField).Pass?
    case Magazine(_, _, _, issue) => CheckIssueNumber(issue).Pass?
  }

  /**
   * An item passes every setter check when each text field has at least its
   * minimum number of characters and starts with a capital, the year has four
   * digits, and a magazine's issue number is positive.
   */
  lemma ValidByCharacterCount(item: Item)
    requires |item.title| >= 5 && IsUpper(item.title[0])
    requires |item.publisher| >= 6 && IsUpper(item.publisher[0])
    requires 1000 <= item.publicationYear <= 9999
    requires item.Book? ==> |item.author| >= 5 && IsUpper(item.author[0])
    requires item.Magazine? ==> item.issueNumber > 0
    ensures ValidItem(item)
  {
    TextAccepted(item.title, TitleField);
    TextAccepted(item.publisher, PublisherField);
    if item.Book? {
      TextAccepted(item.author, AuthorField);
    }
  }

  /** Four-digit years are exactly the accepted ones: 1000 and 9999 pass, 999 and 10000 fail. */
  lemma YearBoundaries()
    ensures CheckYear(1000).Pass? && CheckYear(9999).Pass?
    ensures CheckYear(999) == Fail(InvalidItemData(YearOutOfRange))
    ensures CheckYear(10000) == Fail(InvalidItemData(YearOutOfRange))
  {
  }

  /** Issue number 1 is the smallest accepted; 0 is rejected. */
  lemma IssueNumberBoundary()
    ensures CheckIssueNumber(1).Pass?
    ensures CheckIssueNumber(0) == Fail(InvalidItemData(IssueNotPositive))
  {
  }

  /**
   * A four-letter title such as "Dune" is too short for the Title setter,
   * while a nine-character publisher such as "Ace Books" is long enough.
   */
  lemma ShortTitleRejected()
    ensures CheckText("Dune", TitleField) == Fail(InvalidItemData(TooShort(TitleField)))
    ensures CheckText("Ace Books", PublisherField).Pass?
    ensures CheckText("Ace", PublisherField) == Fail(InvalidItemData(TooShort(PublisherField)))
  {
    assert !IsWhiteSpace("Dune"[0]) && !IsWhiteSpace("Ace"[0]);
  }

  /**
   * Length is counted in UTF-16 code units: "A" followed by two characters
   * above U+FFFF has length 5 and is long enough for a title.
   */
  lemma {:induction false} SurrogatePairsCountTwice()
    ensures Utf16Length("A\U{1F600}\U{1F600}") == 5
    ensures CheckText("A\U{1F600}\U{1F600}", TitleField).Pass?
  {
    var s := "A\U{1F600}\U{1F600}";
    assert s[1..][1..][1..] == [];
    assert Utf16Length(s[1..][1..]) == 2;
  }
}
