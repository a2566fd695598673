/** The validateBio middleware: a missing bio passes untouched, a bio that
    is not a string is refused with INVALID_TYPE, and a string bio is
    trimmed and kept when the trimmed text has at most 1000 characters. */
module ValidateBio {
  import opened Common
  import opened Text

  /** The two 400 responses: INVALID_TYPE ("Bio must be a string") and
      VALIDATION_ERROR ("Bio must be 1000 characters or less"). */
  datatype BioError = InvalidType | TooLong

  const BioKey := "bio"
  const MaxBio := 1000

  /** bioSchema: `z.string().trim().max(1000)`, or else the literal "".
      The literal branch never admits anything the first one refuses:
      the empty string already passes the first. */
  function BioSchema(s: string): (r: Option<string>)
    ensures r.Some? <==> |Trim(s)| <= MaxBio
    ensures r.Some? ==> r.value == Trim(s)
  {
    if |Trim(s)| <= MaxBio then Some(Trim(s))
    else if s == "" then Some("")
    else None
  }

  /** validateBio on a request body: the body goes on with its bio trimmed,
      or is refused. */
  function ValidateBody(body: map<string, JsValue>): (r: Result<map<string, JsValue>, BioError>)
    ensures r == Failure(InvalidType) <==> Field(body, BioKey).Num? || Field(body, BioKey).Other?
    ensures r == Failure(TooLong) <==> Field(body, BioKey).Str? && |Trim(Field(body, BioKey).s)| > MaxBio
    ensures r.Success? && !Field(body, BioKey).Str? ==> r.value == body
    ensures r.Success? && Field(body, BioKey).Str? ==>
      && r.value.Keys == body.Keys
      && r.value[BioKey] == Str(Trim(body[BioKey].s))
      && forall k :: k in body && k != BioKey ==> r.value[k] == body[k]
  {
    match Field(body, BioKey)
    case Undefined => Success(body)
    case Num(_) | Other(_) => Failure(InvalidType)
    case Str(s) =>
      var parsed := BioSchema(s);
      if parsed.None? then Failure(TooLong) else Success(body[BioKey := Str(parsed.value)])
  }

  /** A bio that is kept fits the column's promise: at most 1000
      characters, with no white space at either end. */
  lemma StoredBioFits(body: map<string, JsValue>)
    requires ValidateBody(body).Success? && Field(body, BioKey).Str?
    ensures var b := ValidateBody(body).value[BioKey].s;
      |b| <= MaxBio && (b == [] || (!IsJsSpace(b[0]) && !IsJsSpace(b[|b| - 1])))
  {
    TrimIsCut(body[BioKey].s);
  }

  /** A blank bio clears the profile's bio: it is kept as the empty string. */
  lemma BlankBioClears(body: map<string, JsValue>, s: string)
    requires Blank(s)
    ensures ValidateBody(body[BioKey := Str(s)]) == Success(body[BioKey := Str("")])
  {
    TrimEmptyIffBlank(s);
    assert body[BioKey := Str(s)][BioKey := Str("")] == body[BioKey := Str("")];
  }

  /** The parsed body passes the middleware again, unchanged. */
  lemma Revalidate(body: map<string, JsValue>)
    requires ValidateBody(body).Success?
    ensures ValidateBody(ValidateBody(body).value) == ValidateBody(body)
  {
    if Field(body, BioKey).Str? {
      var s := body[BioKey].s;
      var v := ValidateBody(body).value;
      TrimIdempotent(s);
      assert v[BioKey := Str(Trim(Trim(s)))] == v;
    }
  }

  /** White space typed around a bio changes nothing. */
  lemma PaddingIgnored(body: map<string, JsValue>, pre: string, s: string, post: string)
    requires Blank(pre) && Blank(post)
    ensures ValidateBody(body[BioKey := Str(pre + s + post)]) == ValidateBody(body[BioKey := Str(s)])
  {
    TrimPadded(pre, s, post);
    assert body[BioKey := Str(pre + s + post)][BioKey := Str(Trim(s))]
      == body[BioKey := Str(s)][BioKey := Str(Trim(s))];
  }
}
