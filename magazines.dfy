/**
 * Magazine, the Item variant with an issue number. Its constructor assigns
 * Title, Publisher, PublicationYear and IssueNumber through their validating
 * setters, in that order, and the first setter that rejects its value aborts
 * the construction.
 */
module Magazines {
  import opened Outcomes
  import Items

  /**
   * The check run by the setter at position `stage` of the constructor:
   * 0 Title, 1 Publisher, 2 PublicationYear, 3 IssueNumber.
   */
  function StageCheck(stage: nat, title: string, publisher: string, year: int, issue: int): Outcome<Items.Error>
    requires stage < 4
  {
    if stage == 0 then Items.CheckText(title, Items.TitleField)
    else if stage == 1 then Items.CheckText(publisher, Items.PublisherField)
    else if stage == 2 then Items.CheckYear(year)
    else Items.CheckIssueNumber(issue)
  }

  /**
   * What the four-argument constructor produces, as a value: the magazine with
   * the given fields when every setter accepts its argument, otherwise the
   * error of the first setter that rejects one. Construction succeeds exactly
   * when each of the four checks StageCheck(0..3) passes.
   */
  function BuildMagazine(title: string, publisher: string, year: int, issue: int): (r: Result<Items.Item, Items.Error>)
    ensures r.Ok? <==> Items.ValidItem(Items.Magazine(title, publisher, year, issue))
    ensures r.Ok? ==> r.value == Items.Magazine(title, publisher, year, issue)
    ensures r.Err? ==> r.error.InvalidItemData?
  {
    match Items.CheckText(title, Items.TitleField)
    case Fail(e) => Err(e)
    case Pass =>
      match Items.CheckText(publisher, Items.PublisherField)
      case Fail(e) => Err(e)
      case Pass =>
        match Items.CheckYear(year)
        case Fail(e) => Err(e)
        case Pass =>
          match Items.CheckIssueNumber(issue)
          case Fail(e) => Err(e)
          case Pass => Ok(Items.Magazine(title, publisher, year, issue))
  }

  /**
   * Validation order: when the setter at position k is the first to reject its
   * argument, its error is the one the constructor raises.
   */
  lemma {:induction false} FirstFailureRaised(k: nat, title: string, publisher: string, year: int, issue: int)
    requires k < 4
    requires StageCheck(k, title, publisher, year, issue).Fail?
    requires forall j :: 0 <= j < k ==> StageCheck(j, title, publisher, year, issue).Pass?
    ensures BuildMagazine(title, publisher, year, issue) == Err(StageCheck(k, title, publisher, year, issue).error)
  {
    if k > 0 {
      assert StageCheck(0, title, publisher, year, issue).Pass?;
    }
    if k > 1 {
      assert StageCheck(1, title, publisher, year, issue).Pass?;
    }
    if k > 2 {
      assert StageCheck(2, title, publisher, year, issue).Pass?;
    }
  }

  class Magazine {
    var title: string
    var publisher: string
    var publicationYear: int
    var issueNumber: int

    /** The catalog value this object currently describes. */
    function Snapshot(): Items.Item
      reads this
    {
      Items.Magazine(title, publisher, publicationYear, issueNumber)
    }

    /** Every field holds a value its setter accepts. */
    ghost predicate Valid()
      reads this
    {
      Items.ValidItem(Snapshot())
    }

    /** The object as allocated, before any setter has run (a null string is modelled as ""). */
    constructor Blank()
      ensures title == "" && publisher == "" && publicationYear == 0 && issueNumber == 0
      ensures !Valid()
    {
      title, publisher, publicationYear, issueNumber := "", "", 0, 0;
    }

    /** The inherited Title setter: stores the value only when the check passes. */
    method SetTitle(value: string) returns (r: Outcome<Items.Error>)
      modifies this`title
      ensures r == Items.CheckText(value, Items.TitleField)
      ensures title == if r.Pass? then value else old(title)
      ensures old(Valid()) ==> Valid()
    {
      r := Items.CheckText(value, Items.TitleField);
      if r.Pass? {
        title := value;
      }
    }

    /** The inherited Publisher setter. */
    method SetPublisher(value: string) returns (r: Outcome<Items.Error>)
      modifies this`publisher
      ensures r == Items.CheckText(value, Items.PublisherField)
      ensures publisher == if r.Pass? then value else old(publisher)
      ensures old(Valid()) ==> Valid()
    {
      r := Items.CheckText(value, Items.PublisherField);
      if r.Pass? {
        publisher := value;
      }
    }

    /** The inherited PublicationYear setter. */
    method SetPublicationYear(value: int) returns (r: Outcome<Items.Error>)
      modifies this`publicationYear
      ensures r == Items.CheckYear(value)
      ensures publicationYear == if r.Pass? then value else old(publicationYear)
      ensures old(Valid()) ==> Valid()
    {
      r := Items.CheckYear(value);
      if r.Pass? {
        publicationYear := value;
      }
    }

    /** The IssueNumber setter: a value of 0 or less is rejected and leaves the field as it was. */
    method SetIssueNumber(value: int) returns (r: Outcome<Items.Error>)
      modifies this`issueNumber
      ensures r.Pass? <==> value > 0
      ensures r.Fail? ==> r.error == Items.InvalidItemData(Items.IssueNotPositive)
      ensures issueNumber == if r.Pass? then value else old(issueNumber)
      ensures old(Valid()) ==> Valid()
    {
      if value <= 0 {
        r := Fail(Items.InvalidItemData(Items.IssueNotPositive));
        return;
      }
      issueNumber := value;
      r := Pass;
    }

    /** The IssueNumber getter: on a valid magazine it is positive. */
    function IssueNumber(): (n: int)
      reads this
      ensures Valid() ==> n > 0
    {
      issueNumber
    }

    /**
     * The four-argument constructor: allocates the object, then runs the four
     * setters in order and gives up at the first one that fails, so that no
     * object is returned unless every field was accepted.
     */
    static method Create(title: string, publisher: string, year: int, issue: int)
      returns (r: Result<Magazine, Items.Error>)
      ensures r.Ok? <==> BuildMagazine(title, publisher, year, issue).Ok?
      ensures r.Err? ==> BuildMagazine(title, publisher, year, issue) == Err(r.error)
      ensures r.Ok? ==> fresh(r.value) && r.value.Valid()
      ensures r.Ok? ==> r.value.Snapshot() == BuildMagazine(title, publisher, year, issue).value
    {
      var m := new Magazine.Blank();
      var step := m.SetTitle(title);
      if step.Fail? {
        return Err(step.error);
      }
      step := m.SetPublisher(publisher);
      if step.Fail? {
        return Err(step.error);
      }
      step := m.SetPublicationYear(year);
      if step.Fail? {
        return Err(step.error);
      }
      step := m.SetIssueNumber(issue);
      if step.Fail? {
        return Err(step.error);
      }
      r := Ok(m);
    }
  }
}
