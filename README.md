# Library catalog core

A model of the catalog core of a small library-management console program.
Items are books and magazines sharing three validated base fields (title,
publisher, publication year). A magazine also has an issue number that must
be positive. The catalog service keeps an ordered list of items and refuses
to store a second item with the same identity key (title, publisher,
publication year), whatever its variant.

- `outcomes.dfy` (module `Outcomes`): `Option`, `Outcome` and `Result`.
  They replace null references and the two exception types.
- `items.dfy` (module `Items`): the `Item` sum type (`Book | Magazine`), the
  identity `Key`, the error kinds (`InvalidItemData` with the reason behind
  each message, `DuplicateEntry` with the key) and the setter checks.
- `magazines.dfy` (module `Magazines`): the class `Magazine`. It has validating
  setters, the `IssueNumber` getter and the four-argument constructor
  (`Create`), which runs the setters in order and returns a `Result`.
  `BuildMagazine` gives the outcome of that construction as a value: the
  magazine item, or the first setter's error.
- `library.dfy` (module `Library`): the class `LibraryService`. Its `seq<Item>`
  field is kept duplicate-free by `AddItem`'s scan loop. `Insert` (the
  specification of `AddItem`) and `Filter` (the type query) are functions
  with lemmas about them.

The base-field rules are those of the `Item` setters that the `Magazine`
constructor calls (Model/Magazine.cs:29-31). They are defined in
`OneDrive/Desktop/PRG WEEK 2/Prg320-assignments/ConsoleProjects/WEEK-3/Model/Item.cs` (lines 16-69):
- title: not blank, .NET length at least 5, starts with a capital;
- publisher: the same, with length at least 6;
- year: between 1000 and 9999.

Three rules of the code are worth stating directly:
- A null item passed to `AddItem` raises `InvalidItemDataException`
  (Service/LibraryService.cs:31). It is modelled as `InvalidItemData(NullItem)`.
- The Title setter requires at least 5 characters, so "Dune" is rejected as a
  title (`Items.ShortTitleRejected`).
- String lengths are .NET lengths: UTF-16 code units (`Items.Utf16Length`), so a
  character above U+FFFF counts twice (`Items.SurrogatePairsCountTwice`).

## Model

| member | source | states |
|---|---|---|
| Items.Utf16Length | Model/Magazine.cs:29-30 | The length the setters compare, counted in UTF-16 code units, lies between the number of characters and twice that, and equals it when no character is above U+FFFF |
| Items.CheckText | Model/Magazine.cs:29-30 | The title/publisher setters accept a value exactly when its UTF-16 length is at least the minimum (5, or 6 for a publisher) and it starts with a capital; the blank check takes precedence; every rejection is InvalidItemData naming that field |
| Items.SurrogatePairsCountTwice | Model/Magazine.cs:29 | "A" followed by two characters above U+FFFF has length 5 and is accepted as a title |
| Items.ValidByCharacterCount | Model/Magazine.cs:29-32 | An item whose text fields have at least their minimum number of characters and start with a capital, whose year has four digits and whose issue number (for a magazine) is positive passes every setter check |
| Items.YearBoundaries | Model/Magazine.cs:31 | Years 1000 and 9999 are accepted; 999 and 10000 are rejected as out of range |
| Items.ShortTitleRejected | Model/Magazine.cs:29-30 | "Dune" is rejected as a title that is too short; "Ace Books" is accepted as a publisher and "Ace" rejected |
| Items.IssueNumberBoundary | Model/Magazine.cs:19-22 | Issue number 1 is accepted, 0 is rejected with IssueNotPositive |
| Magazines.BuildMagazine | Model/Magazine.cs:27-33 | Construction succeeds exactly when the magazine satisfies every field rule, and then yields the magazine with exactly the given fields; any failure is InvalidItemData |
| Magazines.FirstFailureRaised | Model/Magazine.cs:27-33 | If the setter at position k (Title, Publisher, PublicationYear, IssueNumber) is the first to reject its argument, its error is the one raised |
| Magazines.Magazine.SetTitle | Model/Magazine.cs:29 | Returns the title check's outcome; stores the value only on success, otherwise leaves the title unchanged; keeps the object valid |
| Magazines.Magazine.SetPublisher | Model/Magazine.cs:30 | Same as SetTitle for the publisher, with its 6-character minimum |
| Magazines.Magazine.SetPublicationYear | Model/Magazine.cs:31 | Stores a four-digit year; any other year is rejected and leaves the field unchanged |
| Magazines.Magazine.SetIssueNumber | Model/Magazine.cs:17-24 | Succeeds exactly for a positive value, which it stores; a value of 0 or less fails with IssueNotPositive and leaves the issue number unchanged; keeps the object valid |
| Magazines.Magazine.IssueNumber | Model/Magazine.cs:16 | The getter returns the stored issue number, which is positive on a valid magazine |
| Magazines.Magazine.Create | Model/Magazine.cs:27-33 | All or nothing: a fresh, valid magazine whose fields equal the arguments when every setter accepts; otherwise no object and the first failing setter's error |
| Library.Insert | Service/LibraryService.cs:27-47 | A null item fails with InvalidItemData(NullItem); an item whose key is stored fails with DuplicateEntry; otherwise the list becomes the old list followed by the item; an accepted item keeps the list duplicate-free |
| Library.InsertAcceptsExactlyUnique | Service/LibraryService.cs:34-46 | On a duplicate-free list, an item is accepted exactly when appending it keeps the list duplicate-free |
| Library.CrossVariantDuplicate | Service/LibraryService.cs:37-39 | An item whose key equals a stored item's key is rejected, whatever its variant, author or issue number |
| Library.CleanCodeItemsValid | Model/Magazine.cs:27-33 | The Clean Code book and magazine (same title, publisher and year) both satisfy every field rule |
| Library.CleanCodeScenario | Service/LibraryService.cs:34-46 | The Clean Code book is accepted into an empty catalog; the magazine with the same title, publisher and year is then rejected as a duplicate |
| Library.DistinctKeysBothAdded | Service/LibraryService.cs:34-46 | Two items with different keys are both accepted, in order |
| Library.FilterSpec | Service/LibraryService.cs:87-90 | The type query is a subsequence of the list, holds only items of the type, and holds each item of the type as often as the list does |
| Library.FilterDetermined | Service/LibraryService.cs:87-90 | Any sequence that is a subsequence of the list, holds only items of the type and holds each item of the type as often as the list does, is the query result |
| Library.FilterAppend | Service/LibraryService.cs:87-90 | Querying a list with one item appended gives the old query result, followed by that item when it has the type |
| Library.FilterAnyItem | Service/LibraryService.cs:87-90 | Querying the base Item type returns the whole list |
| Library.FilterKeepsUnique | Service/LibraryService.cs:87-90 | A query result of a duplicate-free list is duplicate-free |
| Library.CountPartition | Service/LibraryService.cs:79-82 | The item count is the number of books plus the number of magazines |
| Library.InsertThenQuery | Service/LibraryService.cs:46 | After a successful insertion each type query gains the new item at its end if it has that type, and is unchanged otherwise |
| Library.LibraryService.constructor | Service/LibraryService.cs:17-20 | A new service holds no items, so its count is 0 |
| Library.LibraryService.AddItem | Service/LibraryService.cs:27-47 | The scan loop decides as Insert does; on success the list is the old list followed by the item; on failure it returns Insert's error and leaves the list unchanged; the list stays duplicate-free |
| Library.LibraryService.TotalItems | Service/LibraryService.cs:79-82 | The count is the length of the list, and equals books plus magazines; reading it changes nothing |
| Library.LibraryService.ItemsByType | Service/LibraryService.cs:87-90 | Exactly the stored items of the type, in insertion order: a subsequence of the list, only items of the type, each as often as stored; reading it changes nothing |

## Left out

- `DisplayAllItems` (Service/LibraryService.cs:53-74) and `Magazine.DisplayItems` (Model/Magazine.cs:39-45) are console output. They only read the list and the fields, so nothing they do changes the modelled state.
- Exception message texts: only the error kind and the reason each message names are modelled (the `Problem` constructors and the `DuplicateEntry` key).
- The `Book` constructor and `Author` setter (Model/Book.cs in the same project): Book appears only as a variant of `Item`. Its author rule is `CheckText` with `AuthorField`, used by `ValidItem`.
- `GetItemsByType<T>` relies on runtime type tests (`OfType<T>`). The model filters on the variant tag instead, with `ItemType` for the type argument.
- The service stores item values, not references. The source keeps references to objects whose public setters can still be called after the item is stored, so a later edit could create a duplicate key. That aliasing is not modelled.
- Items.CheckText: `char.IsUpper` is modelled as the ASCII letters A-Z and `char.IsWhiteSpace` as ASCII white space. Other Unicode upper-case letters and spaces are not modelled. The length is counted in UTF-16 code units, as .NET does.
- Null strings: text fields are non-null sequences. In the source a null title, publisher or author is rejected like a blank one.
- The 32-bit range of `int` for year and issue number is not modelled. No arithmetic is done on them, so only comparisons matter.
- The console menu, input loops, program entry point and the Banking demo are not part of this model.
- Concurrency: the source is single-threaded; the scan-then-append in `AddItem` is modelled as one atomic step.
