/** The validateName middleware: a zod schema over `firstName` and
    `lastName`, each a string of 1 to 38 letters, white space or hyphens,
    taken as typed (nothing is trimmed); every rule a field breaks is
    reported, and a body that passes goes on unchanged. */
module ValidateName {
  import opened Common
  import opened Text

  datatype NameField = FirstName | LastName

  /** The issues of one name field, in the order of its zod chain. */
  datatype Issue =
    | NotAString         // the base `z.string()` type check: missing or not a string
    | Required           // "… name is required" (`min(1)`)
    | TooLong            // "… name too long" (`max(38)`)
    | InvalidCharacters  // "… name contains invalid characters" (the regex)

  /** One entry of the 400 response's details: the field and its issue. */
  datatype Detail = Detail(field: NameField, issue: Issue)

  function Key(f: NameField): string
  {
    match f
    case FirstName => "firstName"
    case LastName => "lastName"
  }

  /** `[A-Za-z\s-]`. */
  predicate IsNameChar(c: char)
  {
    IsAsciiUpper(c) || IsAsciiLower(c) || IsJsSpace(c) || c == '-'
  }

  /** `^[A-Za-z\s-]+$`: one or more name characters and nothing else. */
  predicate MatchesPattern(s: string)
  {
    |s| >= 1 && forall i :: 0 <= i < |s| ==> IsNameChar(s[i])
  }

  /** The name rule. */
  predicate ProperName(s: string)
  {
    1 <= |s| <= 38 && forall i :: 0 <= i < |s| ==> IsNameChar(s[i])
  }

  /** The issues zod reports for one field: the type check alone when it
      fails, otherwise every string check that fails. */
  function FieldIssues(v: JsValue): (r: seq<Issue>)
    ensures r == [] <==> v.Str? && ProperName(v.s)
    ensures !v.Str? ==> r == [NotAString]
    ensures v.Str? ==>
      && NotAString !in r
      && (Required in r <==> v.s == [])
      && (TooLong in r <==> |v.s| > 38)
      && (InvalidCharacters in r <==> !MatchesPattern(v.s))
    ensures v == Str("") ==> r == [Required, InvalidCharacters]
  {
    match v
    case Str(s) =>
      (if |s| < 1 then [Required] else [])
      + (if |s| > 38 then [TooLong] else [])
      + (if MatchesPattern(s) then [] else [InvalidCharacters])
    case _ => [NotAString]
  }

  /** One field's issues as response details. */
  function Tag(f: NameField, issues: seq<Issue>): (r: seq<Detail>)
    ensures |r| == |issues|
    ensures forall d :: d in r <==> d.field == f && d.issue in issues
  {
    var r := seq(|issues|, i requires 0 <= i < |issues| => Detail(f, issues[i]));
    assert forall i :: 0 <= i < |issues| ==> r[i] == Detail(f, issues[i]);
    assert forall e :: e in issues ==> Detail(f, e) in r by {
      forall e | e in issues ensures Detail(f, e) in r {
        var i :| 0 <= i < |issues| && issues[i] == e;
        assert r[i] == Detail(f, e);
      }
    }
    r
  }

  /** The value of a name field in the body. */
  function NameOf(body: map<string, JsValue>, f: NameField): JsValue
  {
    Field(body, Key(f))
  }

  /** All the details zod reports: the first name's, then the last name's. */
  function Details(body: map<string, JsValue>): (r: seq<Detail>)
    ensures r == [] <==> FieldIssues(NameOf(body, FirstName)) == [] && FieldIssues(NameOf(body, LastName)) == []
    ensures forall d :: d in r <==> d.issue in FieldIssues(NameOf(body, d.field))
  {
    Tag(FirstName, FieldIssues(NameOf(body, FirstName))) + Tag(LastName, FieldIssues(NameOf(body, LastName)))
  }

  /** The first name's details all come before the last name's. */
  lemma FirstNameFirst(body: map<string, JsValue>)
    ensures var r := Details(body);
      forall i, j :: 0 <= i < j < |r| && r[j].field == FirstName ==> r[i].field == FirstName
  {
    var first := Tag(FirstName, FieldIssues(NameOf(body, FirstName)));
    var last := Tag(LastName, FieldIssues(NameOf(body, LastName)));
    var r := Details(body);
    assert r == first + last;
    forall i | 0 <= i < |r| ensures r[i].field == FirstName <==> i < |first| {
      if i < |first| {
        assert r[i] == first[i] && r[i] in first;
      } else {
        assert r[i] == last[i - |first|] && r[i] in last;
      }
    }
  }

  /** validateName on a request body: a 400 VALIDATION_ERROR with the
      details of both fields (the first name's first), or the body as it came. */
  function ValidateBody(body: map<string, JsValue>): (r: Result<map<string, JsValue>, seq<Detail>>)
    ensures r.Success? <==>
      && NameOf(body, FirstName).Str? && ProperName(NameOf(body, FirstName).s)
      && NameOf(body, LastName).Str? && ProperName(NameOf(body, LastName).s)
    ensures r.Success? ==> r.value == body
    ensures r.Failure? ==> r.error != [] && r.error == Details(body)
  {
    var details := Details(body);
    if details == [] then Success(body) else Failure(details)
  }

  /** A rejected field is reported, and only rejected fields are: the
      details name exactly the fields that break the rule. */
  lemma ReportedFields(body: map<string, JsValue>, f: NameField)
    requires ValidateBody(body).Failure?
    ensures (exists d :: d in ValidateBody(body).error && d.field == f)
      <==> !(NameOf(body, f).Str? && ProperName(NameOf(body, f).s))
  {
    var v := NameOf(body, f);
    var issues := FieldIssues(v);
    if issues != [] {
      assert Detail(f, issues[0]) in ValidateBody(body).error;
    }
  }
}
