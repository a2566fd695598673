/** The validateProject middleware: every check on a new project's title,
    description and uploaded files runs, each failure is pushed onto a list,
    and the request goes on only when the list stays empty. */
module ValidateProject {
  import opened Common
  import opened Text

  /** The messages the middleware can push, in the order it checks them. */
  datatype Issue =
    | TitleRequired       // "Title is required and must be a string"
    | TitleTooShort       // "Title must be at least 3 characters long"
    | TitleTooLong        // "Title cannot exceed 100 characters"
    | DescriptionNotText  // "Description must be a string"
    | DescriptionTooLong  // "Description cannot exceed 500 characters"
    | NoContent           // "Project must have either images or description"

  /** The outcome: `next()`, a 400 carrying the messages, or the TypeError
      that `description.trim()` throws when the description is not a string. */
  datatype Outcome = Pass | Reject(errors: seq<Issue>) | Crash

  // When each message applies, judged on the request alone.

  predicate MissingTitle(title: JsValue)
  {
    !Truthy(title) || !title.Str?
  }

  predicate ShortTitle(title: JsValue)
  {
    title.Str? && title.s != [] && |Trim(title.s)| < 3
  }

  predicate LongTitle(title: JsValue)
  {
    title.Str? && |Trim(title.s)| >= 3 && |title.s| > 100
  }

  predicate DescriptionNotString(description: JsValue)
  {
    Truthy(description) && !description.Str?
  }

  predicate LongDescription(description: JsValue)
  {
    description.Str? && |description.s| > 500
  }

  predicate NothingToShow(description: JsValue, files: nat)
  {
    files == 0 && (!Truthy(description) || (description.Str? && Trim(description.s) == []))
  }

  /** No message applies: the request may go on. */
  predicate Acceptable(title: JsValue, description: JsValue, files: nat)
  {
    && !MissingTitle(title) && !ShortTitle(title) && !LongTitle(title)
    && !DescriptionNotString(description) && !LongDescription(description)
    && !NothingToShow(description, files)
  }

  /** The position of each check in the middleware. */
  function Rank(e: Issue): nat
  {
    match e
    case TitleRequired => 0
    case TitleTooShort => 1
    case TitleTooLong => 2
    case DescriptionNotText => 3
    case DescriptionTooLong => 4
    case NoContent => 5
  }

  /** The messages, each at most once, in the order of the checks. */
  predicate InCheckOrder(errors: seq<Issue>)
  {
    forall i, j :: 0 <= i < j < |errors| ==> Rank(errors[i]) < Rank(errors[j])
  }

  /** Pushing a message of a later check keeps the list in check order. */
  lemma PushInOrder(errors: seq<Issue>, e: Issue)
    requires InCheckOrder(errors)
    requires forall d :: d in errors ==> Rank(d) < Rank(e)
    ensures InCheckOrder(errors + [e])
  {
    var s := errors + [e];
    forall i, j | 0 <= i < j < |s| ensures Rank(s[i]) < Rank(s[j]) {
      assert s[i] in errors;
    }
  }

  /** The title checks: at most one of the three title messages. */
  method CheckTitle(title: JsValue) returns (errors: seq<Issue>)
    ensures |errors| <= 1 && forall d :: d in errors ==> Rank(d) <= 2
    ensures forall d :: d in errors <==>
      (|| (d == TitleRequired && MissingTitle(title))
       || (d == TitleTooShort && ShortTitle(title))
       || (d == TitleTooLong && LongTitle(title)))
  {
    errors := [];
    if !Truthy(title) || !title.Str? {
      errors := errors + [TitleRequired];
    } else if |Trim(title.s)| < 3 {
      errors := errors + [TitleTooShort];
    } else if |title.s| > 100 {
      errors := errors + [TitleTooLong];
    }
  }

  /** The optional-description checks, pushed after the title's message:
      at most one of the two description messages. */
  method CheckDescription(description: JsValue, errors: seq<Issue>) returns (pushed: seq<Issue>)
    requires InCheckOrder(errors) && forall d :: d in errors ==> Rank(d) <= 2
    ensures InCheckOrder(pushed) && forall d :: d in pushed ==> Rank(d) <= 4
    ensures forall d :: d in pushed <==>
      (|| d in errors
       || (d == DescriptionNotText && DescriptionNotString(description))
       || (d == DescriptionTooLong && LongDescription(description)))
  {
    pushed := errors;
    if Truthy(description) && !description.Str? {
      PushInOrder(pushed, DescriptionNotText);
      pushed := pushed + [DescriptionNotText];
    } else if Truthy(description) && |description.s| > 500 {
      PushInOrder(pushed, DescriptionTooLong);
      pushed := pushed + [DescriptionTooLong];
    }
  }

  /** The content check, once the description is known to be a string or
      falsy: the last message, when there are neither files nor text. */
  method CheckContent(description: JsValue, files: nat, errors: seq<Issue>) returns (pushed: seq<Issue>)
    requires !(files == 0 && DescriptionNotString(description))
    requires InCheckOrder(errors) && forall d :: d in errors ==> Rank(d) <= 4
    ensures InCheckOrder(pushed)
    ensures forall d :: d in pushed <==> (d in errors || (d == NoContent && NothingToShow(description, files)))
  {
    pushed := errors;
    if files == 0 && (!Truthy(description) || Trim(description.s) == []) {
      PushInOrder(pushed, NoContent);
      pushed := pushed + [NoContent];
    }
  }

  /** validateProject, given the body's `title` and `description` and the
      number of uploaded files. */
  method Validate(title: JsValue, description: JsValue, files: nat) returns (r: Outcome)
    ensures r == Crash <==> files == 0 && DescriptionNotString(description)
    ensures r == Pass <==> r != Crash && Acceptable(title, description, files)
    ensures r.Reject? ==> r.errors != [] && InCheckOrder(r.errors)
    ensures r.Reject? ==>
      && (TitleRequired in r.errors <==> MissingTitle(title))
      && (TitleTooShort in r.errors <==> ShortTitle(title))
      && (TitleTooLong in r.errors <==> LongTitle(title))
      && (DescriptionNotText in r.errors <==> DescriptionNotString(description))
      && (DescriptionTooLong in r.errors <==> LongDescription(description))
      && (NoContent in r.errors <==> NothingToShow(description, files))
  {
    var errors := CheckTitle(title);
    errors := CheckDescription(description, errors);

    if files == 0 && Truthy(description) && !description.Str? {
      // `description.trim` is not a function: the middleware throws.
      return Crash;
    }
    errors := CheckContent(description, files, errors);

    if |errors| > 0 {
      assert !Acceptable(title, description, files) by {
        assert errors[0] in errors;
      }
      r := Reject(errors);
    } else {
      assert Acceptable(title, description, files) by {
        assert TitleRequired !in errors && TitleTooShort !in errors && TitleTooLong !in errors;
        assert DescriptionNotText !in errors && DescriptionTooLong !in errors && NoContent !in errors;
      }
      r := Pass;
    }
  }

  /** A blank description only passes with at least one image, and then
      only with a proper title. */
  lemma ImagesOrDescription(title: string, description: string, files: nat)
    requires Trim(description) == []
    ensures !NothingToShow(Str(description), files) <==> files > 0
    ensures Acceptable(Str(title), Str(description), files) ==>
      files > 0 && 3 <= |Trim(title)| && |title| <= 100
  {
  }
}
